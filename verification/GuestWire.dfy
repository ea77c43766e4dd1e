/** Length-prefixed AF_VSOCK framing of guest write records
    (crates/kavach-wsl/src/wire.rs). */
module GuestWire {
  import opened MachineInts
  import opened Wrappers
  import opened BigEndian
  import opened GuestRecord
  import opened WslPath

  const FIXED_HEADER_SIZE := 149
  const MIN_PAYLOAD_SIZE := 150
  const MAX_PAYLOAD_SIZE := 4245
  const LENGTH_PREFIX_SIZE := 4
  const MAX_PATH_SIZE := 4096

  datatype VsockWireError =
    | FrameTooSmall(expectedAtLeast: nat, actual: nat)
    | PayloadLengthOutOfBounds(length: nat)
    | PayloadLengthMismatch(declared: nat, actual: nat)
    | UnsupportedMajorVersion(major: U16)
    | ZeroSequenceNumber
    | InvalidOperation(operation: U8)
    | NonzeroFlags(flags: U16)
    | PathLengthMismatch(declared: nat, actual: nat)
    | InvalidUtf8Path
    | NonNormalizedPath(path: Path)

  function OperationByte(o: FileOperation): U8 {
    match o
    case Write => 1
    case Rename => 2
    case Delete => 3
  }

  /** The first twelve fields, 128 bytes up to the operation. */
  function EncodeIdentity(r: GuestWriteRecord): seq<U8> {
    ToBe(2, r.version.major) + ToBe(2, r.version.minor) + ToBe(8, r.sequenceNumber)
    + ToBe(8, r.guestMonotonicNs) + ToBe(8, r.guestRealtimeNs) + ToBe(4, r.guestProcessId)
    + ToBe(8, r.guestProcessStartTicks) + r.distributionId + ToBe(8, r.mountNamespaceId)
    + r.executableSha256 + r.cgroupSha256
  }

  /** The layout table of docs/schemas/wsl-vsock-record-v1.md, field after field. */
  function EncodePayload(r: GuestWriteRecord): seq<U8>
    requires |r.normalizedPath| <= MAX_PATH_SIZE
  {
    EncodeIdentity(r) + [OperationByte(r.operation)] + ToBe(8, r.byteRangeStart) + ToBe(8, r.byteRangeLength)
    + ToBe(2, r.flags) + ToBe(2, |r.normalizedPath|) + r.normalizedPath
  }

  function EncodeFrame(r: GuestWriteRecord): seq<U8>
    requires |r.normalizedPath| <= MAX_PATH_SIZE
  {
    ToBe(4, FIXED_HEADER_SIZE + |r.normalizedPath|) + EncodePayload(r)
  }

  /** Which records `to_frame` serializes. It looks at the path alone. */
  predicate Framable(r: GuestWriteRecord) {
    Normalized(r.normalizedPath) && |r.normalizedPath| <= MAX_PATH_SIZE
  }

  method ToFrame(r: GuestWriteRecord) returns (f: Result<seq<U8>, VsockWireError>)
    ensures f.Ok? <==> Framable(r)
    ensures f.Ok? ==> f.value == EncodeFrame(r)
    ensures f.Err? ==>
              f.error == if !Normalized(r.normalizedPath) then NonNormalizedPath(r.normalizedPath)
                         else PathLengthMismatch(|r.normalizedPath|, |r.normalizedPath|)
  {
    var normalized := IsNormalizedMntPath(r.normalizedPath);
    if !normalized {
      return Err(NonNormalizedPath(r.normalizedPath));
    }
    var pathLen := |r.normalizedPath|;
    if !(1 <= pathLen <= 4096) {
      return Err(PathLengthMismatch(pathLen, pathLen));
    }
    var payloadLen := FIXED_HEADER_SIZE + pathLen;
    // The path bound already implies the payload bound the program checks next.
    assert MIN_PAYLOAD_SIZE <= payloadLen <= MAX_PAYLOAD_SIZE;
    var payload := ToBe(2, r.version.major);
    payload := payload + ToBe(2, r.version.minor);
    payload := payload + ToBe(8, r.sequenceNumber);
    payload := payload + ToBe(8, r.guestMonotonicNs);
    payload := payload + ToBe(8, r.guestRealtimeNs);
    payload := payload + ToBe(4, r.guestProcessId);
    payload := payload + ToBe(8, r.guestProcessStartTicks);
    payload := payload + r.distributionId;
    payload := payload + ToBe(8, r.mountNamespaceId);
    payload := payload + r.executableSha256;
    payload := payload + r.cgroupSha256;
    payload := payload + [OperationByte(r.operation)];
    payload := payload + ToBe(8, r.byteRangeStart);
    payload := payload + ToBe(8, r.byteRangeLength);
    payload := payload + ToBe(2, r.flags);
    payload := payload + ToBe(2, pathLen);
    payload := payload + r.normalizedPath;
    return Ok(ToBe(4, payloadLen) + payload);
  }

  function FromPayload(p: seq<U8>): Result<GuestWriteRecord, VsockWireError> {
    if !(MIN_PAYLOAD_SIZE <= |p| <= MAX_PAYLOAD_SIZE) then Err(PayloadLengthOutOfBounds(|p|)) else
    var major := U16FromBe(p[0..2]);
    if major != 1 then Err(UnsupportedMajorVersion(major)) else
    var minor := U16FromBe(p[2..4]);
    var sequenceNumber := U64FromBe(p[4..12]);
    if sequenceNumber == 0 then Err(ZeroSequenceNumber) else
    var monotonic := U64FromBe(p[12..20]);
    var realtime := U64FromBe(p[20..28]);
    var pid := U32FromBe(p[28..32]);
    var startTicks := U64FromBe(p[32..40]);
    var distributionId := p[40..56];
    var mountNamespace := U64FromBe(p[56..64]);
    var executable := p[64..96];
    var cgroup := p[96..128];
    if !(1 <= p[128] <= 3) then Err(InvalidOperation(p[128])) else
    var operation := if p[128] == 1 then Write else if p[128] == 2 then Rename else Delete;
    var rangeStart := U64FromBe(p[129..137]);
    var rangeLength := U64FromBe(p[137..145]);
    var flags := U16FromBe(p[145..147]);
    if flags != 0 then Err(NonzeroFlags(flags)) else
    var declared := U16FromBe(p[147..149]);
    var available := |p| - FIXED_HEADER_SIZE;
    if declared != available then Err(PathLengthMismatch(declared, available)) else
    var path := p[149..];
    if !ValidUtf8(path) then Err(InvalidUtf8Path)
    else if !Normalized(path) then Err(NonNormalizedPath(path))
    else
      Ok(GuestWriteRecord(ArtifactVersion(major, minor), sequenceNumber, monotonic, realtime, pid, startTicks,
                          distributionId, mountNamespace, executable, cgroup, operation, path,
                          rangeStart, rangeLength, flags))
  }

  function FromFrame(f: seq<U8>): Result<GuestWriteRecord, VsockWireError> {
    if |f| < LENGTH_PREFIX_SIZE + MIN_PAYLOAD_SIZE then
      Err(FrameTooSmall(LENGTH_PREFIX_SIZE + MIN_PAYLOAD_SIZE, |f|))
    else
      var declared := U32FromBe(f[0..4]);
      var actual := |f| - LENGTH_PREFIX_SIZE;
      if declared != actual then Err(PayloadLengthMismatch(declared, actual))
      else FromPayload(f[4..])
  }

  /** The receiver's demands on a record beyond its path. */
  predicate Receivable(r: GuestWriteRecord) {
    r.version.major == 1 && r.sequenceNumber > 0 && r.flags == 0
  }

  lemma IdentityLayout(r: GuestWriteRecord)
    ensures var e := EncodeIdentity(r);
            && |e| == 128
            && e[0..2] == ToBe(2, r.version.major) && e[2..4] == ToBe(2, r.version.minor)
            && e[4..12] == ToBe(8, r.sequenceNumber) && e[12..20] == ToBe(8, r.guestMonotonicNs)
            && e[20..28] == ToBe(8, r.guestRealtimeNs) && e[28..32] == ToBe(4, r.guestProcessId)
            && e[32..40] == ToBe(8, r.guestProcessStartTicks) && e[40..56] == r.distributionId
            && e[56..64] == ToBe(8, r.mountNamespaceId)
            && e[64..96] == r.executableSha256 && e[96..128] == r.cgroupSha256
  {
  }

  lemma PayloadLayout(r: GuestWriteRecord)
    requires |r.normalizedPath| <= MAX_PATH_SIZE
    ensures var e := EncodePayload(r);
            && |e| == FIXED_HEADER_SIZE + |r.normalizedPath|
            && e[..128] == EncodeIdentity(r)
            && e[128] == OperationByte(r.operation)
            && e[129..137] == ToBe(8, r.byteRangeStart) && e[137..145] == ToBe(8, r.byteRangeLength)
            && e[145..147] == ToBe(2, r.flags) && e[147..149] == ToBe(2, |r.normalizedPath|)
            && e[149..] == r.normalizedPath
  {
    IdentityLayout(r);
    PiecesLayout(EncodeIdentity(r), OperationByte(r.operation), ToBe(8, r.byteRangeStart), ToBe(8, r.byteRangeLength),
                 ToBe(2, r.flags), ToBe(2, |r.normalizedPath|), r.normalizedPath);
  }

  lemma {:induction false} PiecesLayout(h: seq<U8>, op: U8, a: seq<U8>, b: seq<U8>, f: seq<U8>, l: seq<U8>, path: seq<U8>)
    requires |h| == 128 && |a| == 8 && |b| == 8 && |f| == 2 && |l| == 2
    ensures var e := h + [op] + a + b + f + l + path;
            && |e| == 149 + |path| && e[..128] == h && e[128] == op && e[129..137] == a && e[137..145] == b
            && e[145..147] == f && e[147..149] == l && e[149..] == path
  {
  }

  /** Byte 128 of a payload, behind the 4-byte prefix of its frame. */
  lemma OperationCode(r: GuestWriteRecord)
    requires |r.normalizedPath| <= MAX_PATH_SIZE
    ensures |EncodeFrame(r)| == 153 + |r.normalizedPath|
    ensures EncodeFrame(r)[132] == if r.operation == Write then 1 else if r.operation == Rename then 2 else 3
  {
    PayloadLayout(r);
    assert EncodeFrame(r)[132] == EncodePayload(r)[128];
  }

  lemma WidthsRoundTrip(r: GuestWriteRecord)
    requires |r.normalizedPath| <= MAX_PATH_SIZE
    ensures U16FromBe(ToBe(2, r.version.major)) == r.version.major
    ensures U16FromBe(ToBe(2, r.version.minor)) == r.version.minor
    ensures U64FromBe(ToBe(8, r.sequenceNumber)) == r.sequenceNumber
    ensures U64FromBe(ToBe(8, r.guestMonotonicNs)) == r.guestMonotonicNs
    ensures U64FromBe(ToBe(8, r.guestRealtimeNs)) == r.guestRealtimeNs
    ensures U32FromBe(ToBe(4, r.guestProcessId)) == r.guestProcessId
    ensures U64FromBe(ToBe(8, r.guestProcessStartTicks)) == r.guestProcessStartTicks
    ensures U64FromBe(ToBe(8, r.mountNamespaceId)) == r.mountNamespaceId
    ensures U64FromBe(ToBe(8, r.byteRangeStart)) == r.byteRangeStart
    ensures U64FromBe(ToBe(8, r.byteRangeLength)) == r.byteRangeLength
    ensures U16FromBe(ToBe(2, r.flags)) == r.flags
    ensures U16FromBe(ToBe(2, |r.normalizedPath|)) == |r.normalizedPath|
  {
    U16RoundTrip(r.version.major);
    U16RoundTrip(r.version.minor);
    U64RoundTrip(r.sequenceNumber);
    U64RoundTrip(r.guestMonotonicNs);
    U64RoundTrip(r.guestRealtimeNs);
    U32RoundTrip(r.guestProcessId);
    U64RoundTrip(r.guestProcessStartTicks);
    U64RoundTrip(r.mountNamespaceId);
    U64RoundTrip(r.byteRangeStart);
    U64RoundTrip(r.byteRangeLength);
    U16RoundTrip(r.flags);
    U16RoundTrip(|r.normalizedPath|);
  }

  lemma {:induction false} HeadSlices(p: seq<U8>)
    requires |p| >= 128
    ensures forall i, j :: 0 <= i <= j <= 128 ==> p[i..j] == p[..128][i..j]
  {
  }

  /** A frame built from a record comes back as that record exactly when its
      version, sequence number and flags are the ones the receiver demands. */
  lemma DecodeOfEncode(r: GuestWriteRecord)
    requires Framable(r)
    ensures FromFrame(EncodeFrame(r)) == Ok(r) <==> Receivable(r)
    ensures FromFrame(EncodeFrame(r)).Ok? ==> Receivable(r)
  {
    var payload := EncodePayload(r);
    PayloadLayout(r);
    IdentityLayout(r);
    WidthsRoundTrip(r);
    HeadSlices(payload);
    var f := EncodeFrame(r);
    assert f[4..] == payload;
    assert f[0..4] == ToBe(4, FIXED_HEADER_SIZE + |r.normalizedPath|);
    U32RoundTrip(FIXED_HEADER_SIZE + |r.normalizedPath|);
  }

  lemma {:induction false} PayloadPieces(p: seq<U8>)
    requires |p| >= FIXED_HEADER_SIZE
    ensures p[..128] == p[0..2] + p[2..4] + p[4..12] + p[12..20] + p[20..28] + p[28..32] + p[32..40]
                        + p[40..56] + p[56..64] + p[64..96] + p[96..128]
    ensures p == p[..128] + [p[128]] + p[129..137] + p[137..145] + p[145..147] + p[147..149] + p[149..]
  {
  }

  lemma {:induction false} EncodePayloadOfDecode(p: seq<U8>)
    requires FromPayload(p).Ok?
    ensures var r := FromPayload(p).value;
            Framable(r) && Receivable(r) && EncodePayload(r) == p
  {
    PayloadPieces(p);
  }

  lemma {:induction false} EncodeOfDecode(f: seq<U8>)
    requires FromFrame(f).Ok?
    ensures var r := FromFrame(f).value;
            Framable(r) && Receivable(r) && EncodeFrame(r) == f
  {
    assert f == f[0..4] + f[4..];
    EncodePayloadOfDecode(f[4..]);
  }

  /** Frames are canonical both ways. */
  lemma {:induction false} FrameCanonical(f: seq<U8>, r: GuestWriteRecord)
    ensures FromFrame(f) == Ok(r) <==> Framable(r) && Receivable(r) && f == EncodeFrame(r)
  {
    if Framable(r) {
      DecodeOfEncode(r);
    }
    if FromFrame(f).Ok? {
      EncodeOfDecode(f);
    }
  }

  /** A stream of frames splits one way only. */
  lemma {:induction false} FramesPrefixFree(f: seq<U8>, g: seq<U8>)
    requires FromFrame(f).Ok? && FromFrame(g).Ok? && f <= g
    ensures f == g
  {
    assert f[0..4] == g[0..4];
  }

  // ----- Refusals -----

  /** The big-endian numbers of a payload that are checked. */
  datatype Numbers = Numbers(major: U16, sequenceNumber: U64, flags: U16, pathLength: U16)

  function NumbersOf(p: seq<U8>): Numbers
    requires |p| >= 149
  {
    Numbers(U16FromBe(p[0..2]), U64FromBe(p[4..12]), U16FromBe(p[145..147]), U16FromBe(p[147..149]))
  }

  /** Version 1, a positive sequence number, a known operation and no flags. */
  predicate GoodHeader(n: Numbers, operation: U8) {
    n.major == 1 && n.sequenceNumber > 0 && 1 <= operation <= 3 && n.flags == 0
  }

  /** Which payloads are refused and why, in the order of the checks. */
  lemma {:induction false} PayloadRefusals(p: seq<U8>)
    ensures !(150 <= |p| <= 4245) ==> FromPayload(p) == Err(PayloadLengthOutOfBounds(|p|))
    ensures 150 <= |p| <= 4245 ==>
              var n, r, path := NumbersOf(p), FromPayload(p), p[149..];
              && (n.major != 1 ==> r == Err(UnsupportedMajorVersion(n.major)))
              && (n.major == 1 && n.sequenceNumber == 0 ==> r == Err(ZeroSequenceNumber))
              && (n.major == 1 && n.sequenceNumber > 0 && !(1 <= p[128] <= 3) ==> r == Err(InvalidOperation(p[128])))
              && (n.major == 1 && n.sequenceNumber > 0 && 1 <= p[128] <= 3 && n.flags > 0 ==>
                    r == Err(NonzeroFlags(n.flags)))
              && (GoodHeader(n, p[128]) && n.pathLength != |path| ==>
                    r == Err(PathLengthMismatch(n.pathLength, |path|)))
              && (GoodHeader(n, p[128]) && n.pathLength == |path| && !ValidUtf8(path) ==> r == Err(InvalidUtf8Path))
              && (GoodHeader(n, p[128]) && n.pathLength == |path| && ValidUtf8(path) && !Normalized(path) ==>
                    r == Err(NonNormalizedPath(path)))
              && (r.Ok? <==> GoodHeader(n, p[128]) && n.pathLength == |path| && ValidUtf8(path) && Normalized(path))
  {
  }

  /** The same for whole frames: their length and its prefix come first. */
  lemma {:induction false} FrameRefusals(f: seq<U8>)
    ensures |f| < 154 ==> FromFrame(f) == Err(FrameTooSmall(154, |f|))
    ensures |f| >= 154 && U32FromBe(f[0..4]) != |f| - 4 ==>
              FromFrame(f) == Err(PayloadLengthMismatch(U32FromBe(f[0..4]), |f| - 4))
    ensures |f| >= 154 && U32FromBe(f[0..4]) == |f| - 4 ==> FromFrame(f) == FromPayload(f[4..])
  {
  }
}

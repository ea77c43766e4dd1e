/** The verdict contract (crates/kavach-core/src/lib.rs) and its 139-byte
    big-endian wire form (crates/kavach-core/src/wire.rs). */
module VerdictWire {
  import opened MachineInts
  import opened Wrappers
  import opened BigEndian
  import opened GuestRecord

  const VERDICT_WIRE_SIZE := 139
  const MAX_EXPIRY_WINDOW_MS := 30_000

  datatype EnforcementAction = Alert | SuspendAndAlert | HardKill

  datatype Verdict = Verdict(
    protocolVersion: ArtifactVersion,
    requestId: Bytes16,
    issuedAt: U64,
    expiresAt: U64,
    detectorInstanceId: Bytes16,
    requestedAction: EnforcementAction,
    evidenceDigest: Bytes32,
    modelBundleSha256: Bytes32,
    policyGeneration: U64,
    targetProcessId: U32,
    targetProcessStartFiletime: U64,
    corroboratingEvidenceCount: U8,
    flags: U8)

  datatype WireError =
    | InvalidLength(expected: nat, actual: nat)
    | UnsupportedMajorVersion(major: U16)
    | InvalidAction(action: U8)
    | NonzeroFlags(flags: U8)
    | TimestampOrderViolation(issuedAt: U64, expiresAt: U64)
    | ExcessiveExpiryWindow(deltaMs: U64)
    | ZeroTargetProcessId(requested: EnforcementAction)

  function ActionByte(a: EnforcementAction): U8 {
    match a
    case Alert => 0
    case SuspendAndAlert => 1
    case HardKill => 2
  }

  function EncodeHeader(v: Verdict): seq<U8> {
    ToBe(2, v.protocolVersion.major) + ToBe(2, v.protocolVersion.minor) + v.requestId
    + ToBe(8, v.issuedAt) + ToBe(8, v.expiresAt) + v.detectorInstanceId
  }

  /** The layout table of docs/schemas/verdict-v1.md, field after field. */
  function Encode(v: Verdict): seq<U8> {
    EncodeHeader(v)
    + [ActionByte(v.requestedAction)] + v.evidenceDigest + v.modelBundleSha256
    + ToBe(8, v.policyGeneration) + ToBe(4, v.targetProcessId) + ToBe(8, v.targetProcessStartFiletime)
    + [v.corroboratingEvidenceCount] + [v.flags]
  }

  /** `buf[at..at + src.len()].copy_from_slice(src)` */
  method CopyFromSlice(buf: array<U8>, at: nat, src: seq<U8>)
    requires at + |src| <= buf.Length
    modifies buf
    ensures buf[..at + |src|] == old(buf[..at]) + src
  {
    forall i | 0 <= i < |src| {
      buf[at + i] := src[i];
    }
    assert buf[..at] == old(buf[..at]);
  }

  method WriteHeader(v: Verdict, buf: array<U8>)
    requires buf.Length == VERDICT_WIRE_SIZE
    modifies buf
    ensures buf[..52] == EncodeHeader(v)
  {
    CopyFromSlice(buf, 0, ToBe(2, v.protocolVersion.major));
    CopyFromSlice(buf, 2, ToBe(2, v.protocolVersion.minor));
    CopyFromSlice(buf, 4, v.requestId);
    CopyFromSlice(buf, 20, ToBe(8, v.issuedAt));
    CopyFromSlice(buf, 28, ToBe(8, v.expiresAt));
    CopyFromSlice(buf, 36, v.detectorInstanceId);
  }

  method ToWire(v: Verdict) returns (buf: array<U8>)
    ensures fresh(buf) && buf.Length == VERDICT_WIRE_SIZE
    ensures buf[..] == Encode(v)
  {
    buf := new U8[VERDICT_WIRE_SIZE](_ => 0);
    WriteHeader(v, buf);
    CopyFromSlice(buf, 52, [ActionByte(v.requestedAction)]);
    CopyFromSlice(buf, 53, v.evidenceDigest);
    CopyFromSlice(buf, 85, v.modelBundleSha256);
    CopyFromSlice(buf, 117, ToBe(8, v.policyGeneration));
    CopyFromSlice(buf, 125, ToBe(4, v.targetProcessId));
    CopyFromSlice(buf, 129, ToBe(8, v.targetProcessStartFiletime));
    CopyFromSlice(buf, 137, [v.corroboratingEvidenceCount]);
    CopyFromSlice(buf, 138, [v.flags]);
    assert buf[..] == buf[..139];
  }

  function FromWire(buf: seq<U8>): Result<Verdict, WireError>
    requires |buf| == VERDICT_WIRE_SIZE
  {
    var major := U16FromBe(buf[0..2]);
    if major != 1 then Err(UnsupportedMajorVersion(major)) else
    var minor := U16FromBe(buf[2..4]);
    var requestId := buf[4..20];
    var issuedAt := U64FromBe(buf[20..28]);
    var expiresAt := U64FromBe(buf[28..36]);
    if issuedAt > expiresAt then Err(TimestampOrderViolation(issuedAt, expiresAt)) else
    var delta := expiresAt - issuedAt;
    if delta > MAX_EXPIRY_WINDOW_MS then Err(ExcessiveExpiryWindow(delta)) else
    var detectorInstanceId := buf[36..52];
    if buf[52] > 2 then Err(InvalidAction(buf[52])) else
    var action := if buf[52] == 0 then Alert else if buf[52] == 1 then SuspendAndAlert else HardKill;
    var evidenceDigest := buf[53..85];
    var model := buf[85..117];
    var generation := U64FromBe(buf[117..125]);
    var pid := U32FromBe(buf[125..129]);
    if pid == 0 && action != Alert then Err(ZeroTargetProcessId(action)) else
    var startFiletime := U64FromBe(buf[129..137]);
    var evidenceCount := buf[137];
    var flags := buf[138];
    if flags != 0 then Err(NonzeroFlags(flags)) else
    Ok(Verdict(ArtifactVersion(major, minor), requestId, issuedAt, expiresAt, detectorInstanceId,
               action, evidenceDigest, model, generation, pid, startFiletime, evidenceCount, flags))
  }

  function FromSlice(slice: seq<U8>): Result<Verdict, WireError> {
    if |slice| != VERDICT_WIRE_SIZE then Err(InvalidLength(VERDICT_WIRE_SIZE, |slice|))
    else FromWire(slice)
  }

  /** The verdicts the wire contract allows. */
  predicate WireValid(v: Verdict) {
    && v.protocolVersion.major == 1
    && v.issuedAt <= v.expiresAt <= v.issuedAt + MAX_EXPIRY_WINDOW_MS
    && (v.requestedAction == Alert || v.targetProcessId != 0)
    && v.flags == 0
  }

  lemma HeaderLayout(v: Verdict)
    ensures var e := EncodeHeader(v);
            && |e| == 52
            && e[0..2] == ToBe(2, v.protocolVersion.major) && e[2..4] == ToBe(2, v.protocolVersion.minor)
            && e[4..20] == v.requestId && e[20..28] == ToBe(8, v.issuedAt) && e[28..36] == ToBe(8, v.expiresAt)
            && e[36..52] == v.detectorInstanceId
  {
  }

  lemma BodyLayout(v: Verdict)
    ensures |Encode(v)| == VERDICT_WIRE_SIZE && EncodeHeader(v) <= Encode(v)
    ensures var e := Encode(v);
            && e[52] == (if v.requestedAction == Alert then 0 else if v.requestedAction == SuspendAndAlert then 1 else 2)
            && e[53..85] == v.evidenceDigest && e[85..117] == v.modelBundleSha256
            && e[117..125] == ToBe(8, v.policyGeneration) && e[125..129] == ToBe(4, v.targetProcessId)
            && e[129..137] == ToBe(8, v.targetProcessStartFiletime)
            && e[137] == v.corroboratingEvidenceCount && e[138] == v.flags
  {
  }

  lemma {:induction false} PrefixSlice(a: seq<U8>, b: seq<U8>, i: nat, j: nat)
    requires a <= b && i <= j <= |a|
    ensures b[i..j] == a[i..j]
  {
  }

  lemma EncodeLayout(v: Verdict)
    ensures |Encode(v)| == VERDICT_WIRE_SIZE
    ensures var e := Encode(v);
            && e[0..2] == ToBe(2, v.protocolVersion.major) && e[2..4] == ToBe(2, v.protocolVersion.minor)
            && e[4..20] == v.requestId && e[20..28] == ToBe(8, v.issuedAt) && e[28..36] == ToBe(8, v.expiresAt)
            && e[36..52] == v.detectorInstanceId
            && e[52] == (if v.requestedAction == Alert then 0 else if v.requestedAction == SuspendAndAlert then 1 else 2)
            && e[53..85] == v.evidenceDigest && e[85..117] == v.modelBundleSha256
            && e[117..125] == ToBe(8, v.policyGeneration) && e[125..129] == ToBe(4, v.targetProcessId)
            && e[129..137] == ToBe(8, v.targetProcessStartFiletime)
            && e[137] == v.corroboratingEvidenceCount && e[138] == v.flags
  {
    HeaderLayout(v);
    BodyLayout(v);
    var h, e := EncodeHeader(v), Encode(v);
    PrefixSlice(h, e, 0, 2);
    PrefixSlice(h, e, 2, 4);
    PrefixSlice(h, e, 4, 20);
    PrefixSlice(h, e, 20, 28);
    PrefixSlice(h, e, 28, 36);
    PrefixSlice(h, e, 36, 52);
  }

  lemma WidthsRoundTrip(v: Verdict)
    ensures U16FromBe(ToBe(2, v.protocolVersion.major)) == v.protocolVersion.major
    ensures U16FromBe(ToBe(2, v.protocolVersion.minor)) == v.protocolVersion.minor
    ensures U64FromBe(ToBe(8, v.issuedAt)) == v.issuedAt
    ensures U64FromBe(ToBe(8, v.expiresAt)) == v.expiresAt
    ensures U64FromBe(ToBe(8, v.policyGeneration)) == v.policyGeneration
    ensures U32FromBe(ToBe(4, v.targetProcessId)) == v.targetProcessId
    ensures U64FromBe(ToBe(8, v.targetProcessStartFiletime)) == v.targetProcessStartFiletime
  {
    U16RoundTrip(v.protocolVersion.major);
    U16RoundTrip(v.protocolVersion.minor);
    U64RoundTrip(v.issuedAt);
    U64RoundTrip(v.expiresAt);
    U64RoundTrip(v.policyGeneration);
    U32RoundTrip(v.targetProcessId);
    U64RoundTrip(v.targetProcessStartFiletime);
  }

  /** Distinct verdicts have distinct bytes, valid or not. */
  lemma EncodeInjective(v: Verdict, w: Verdict)
    requires Encode(v) == Encode(w)
    ensures v == w
  {
    EncodeLayout(v);
    EncodeLayout(w);
    WidthsRoundTrip(v);
    WidthsRoundTrip(w);
  }

  lemma DecodeOfEncode(v: Verdict)
    requires WireValid(v)
    ensures FromSlice(Encode(v)) == Ok(v)
  {
    EncodeLayout(v);
    WidthsRoundTrip(v);
  }

  lemma {:induction false} EncodeOfDecode(buf: seq<U8>)
    requires FromSlice(buf).Ok?
    ensures WireValid(FromSlice(buf).value) && Encode(FromSlice(buf).value) == buf
  {
    Reassembled(buf);
  }

  lemma {:induction false} Reassembled(b: seq<U8>)
    requires |b| == VERDICT_WIRE_SIZE
    ensures b == b[0..2] + b[2..4] + b[4..20] + b[20..28] + b[28..36] + b[36..52] + [b[52]]
                 + b[53..85] + b[85..117] + b[117..125] + b[125..129] + b[129..137] + [b[137]] + [b[138]]
  {
  }

  /** Bytes are accepted exactly when they are the encoding of a valid verdict,
      and they decode to that verdict: each form determines the other. */
  lemma {:induction false} WireCanonical(buf: seq<U8>, v: Verdict)
    ensures FromSlice(buf) == Ok(v) <==> WireValid(v) && buf == Encode(v)
  {
    if WireValid(v) {
      DecodeOfEncode(v);
    }
    if FromSlice(buf).Ok? {
      EncodeOfDecode(buf);
    }
  }

  // ----- Refusals -----

  /** The big-endian numbers a slice holds. */
  datatype Numbers = Numbers(major: U16, issuedAt: U64, expiresAt: U64, pid: U32)

  function NumbersOf(s: seq<U8>): Numbers
    requires |s| == 139
  {
    Numbers(U16FromBe(s[0..2]), U64FromBe(s[20..28]), U64FromBe(s[28..36]), U32FromBe(s[125..129]))
  }

  /** Version 1, ordered timestamps, at most 30 s apart: what is checked before the action. */
  predicate GoodHead(n: Numbers) {
    n.major == 1 && n.issuedAt <= n.expiresAt <= n.issuedAt + 30_000
  }

  /** Then a known action, and a process for every action but an alert. */
  predicate GoodTarget(n: Numbers, action: U8) {
    action == 0 || ((action == 1 || action == 2) && n.pid != 0)
  }

  /** Which slices are refused and why, in the order of the checks. */
  lemma {:induction false} RefusalsExactly(s: seq<U8>)
    ensures |s| != 139 ==> FromSlice(s) == Err(InvalidLength(139, |s|))
    ensures |s| == 139 ==>
              var n, r := NumbersOf(s), FromSlice(s);
              && (n.major != 1 ==> r == Err(UnsupportedMajorVersion(n.major)))
              && (n.major == 1 && n.issuedAt > n.expiresAt ==>
                    r == Err(TimestampOrderViolation(n.issuedAt, n.expiresAt)))
              && (n.major == 1 && n.expiresAt > n.issuedAt + 30_000 ==>
                    r == Err(ExcessiveExpiryWindow(n.expiresAt - n.issuedAt)))
              && (GoodHead(n) && s[52] > 2 ==> r == Err(InvalidAction(s[52])))
              && (GoodHead(n) && s[52] == 1 && n.pid == 0 ==> r == Err(ZeroTargetProcessId(SuspendAndAlert)))
              && (GoodHead(n) && s[52] == 2 && n.pid == 0 ==> r == Err(ZeroTargetProcessId(HardKill)))
              && (GoodHead(n) && GoodTarget(n, s[52]) && s[138] != 0 ==> r == Err(NonzeroFlags(s[138])))
              && (r.Ok? <==> GoodHead(n) && GoodTarget(n, s[52]) && s[138] == 0)
  {
  }
}

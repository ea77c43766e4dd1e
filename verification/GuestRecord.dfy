/** The guest-write record exchanged with the WSL2 agent
    (crates/kavach-wsl/src/lib.rs). A Rust `String` is its UTF-8 bytes. */
module GuestRecord {
  import opened MachineInts

  datatype ArtifactVersion = ArtifactVersion(major: U16, minor: U16)
  datatype FileOperation = Write | Rename | Delete

  predicate Continuation(b: U8) { 0x80 <= b <= 0xbf }

  /** Bytes of the well-formed UTF-8 sequence p starts with, or 0 for none
      (RFC 3629, section 4). */
  function Utf8SequenceLength(p: seq<U8>): (n: nat)
    ensures n <= |p| && n <= 4
  {
    if |p| >= 1 && p[0] < 0x80 then 1
    else if |p| >= 2 && 0xc2 <= p[0] <= 0xdf && Continuation(p[1]) then 2
    else if |p| >= 3 && Continuation(p[1]) && Continuation(p[2])
            && (|| (p[0] == 0xe0 && 0xa0 <= p[1])
                || 0xe1 <= p[0] <= 0xec
                || (p[0] == 0xed && p[1] <= 0x9f)
                || 0xee <= p[0] <= 0xef) then 3
    else if |p| >= 4 && Continuation(p[1]) && Continuation(p[2]) && Continuation(p[3])
            && (|| (p[0] == 0xf0 && 0x90 <= p[1])
                || 0xf1 <= p[0] <= 0xf3
                || (p[0] == 0xf4 && p[1] <= 0x8f)) then 4
    else 0
  }

  predicate ValidUtf8(p: seq<U8>)
    decreases |p|
  {
    p == [] || (var n := Utf8SequenceLength(p); n > 0 && ValidUtf8(p[n..]))
  }

  type Scalar = c: int | 0 <= c < 0xd800 || 0xe000 <= c <= 0x10_ffff

  /** The bit patterns of RFC 3629, section 3. */
  function EncodeScalar(c: Scalar): seq<U8> {
    if c < 0x80 then [c]
    else if c < 0x800 then [0xc0 + c / 64, 0x80 + c % 64]
    else if c < 0x1_0000 then [0xe0 + c / 4096, 0x80 + c / 64 % 64, 0x80 + c % 64]
    else [0xf0 + c / 262144, 0x80 + c / 4096 % 64, 0x80 + c / 64 % 64, 0x80 + c % 64]
  }

  function EncodeScalars(cs: seq<Scalar>): seq<U8> {
    if cs == [] then [] else EncodeScalar(cs[0]) + EncodeScalars(cs[1..])
  }

  lemma {:induction false} ScalarOf(p: seq<U8>) returns (c: Scalar)
    requires Utf8SequenceLength(p) > 0
    ensures EncodeScalar(c) == p[..Utf8SequenceLength(p)]
  {
    var n := Utf8SequenceLength(p);
    if n == 1 {
      c := p[0];
    } else if n == 2 {
      c := TwoBytes(p[0], p[1]);
    } else if n == 3 {
      c := ThreeBytes(p[0], p[1], p[2]);
    } else {
      c := FourBytes(p[0], p[1], p[2], p[3]);
    }
  }

  lemma TwoBytes(a: U8, b: U8) returns (c: Scalar)
    requires 0xc2 <= a <= 0xdf && Continuation(b)
    ensures EncodeScalar(c) == [a, b]
  {
    c := (a - 0xc0) * 64 + (b - 0x80);
  }

  lemma ThreeBytes(a: U8, b: U8, d: U8) returns (c: Scalar)
    requires 0xe0 <= a <= 0xef && Continuation(b) && Continuation(d)
    requires (a == 0xe0 ==> 0xa0 <= b) && (a == 0xed ==> b <= 0x9f)
    ensures EncodeScalar(c) == [a, b, d]
  {
    var x: int := (a - 0xe0) * 64 + (b - 0x80);
    assert x / 64 == a - 0xe0 && x % 64 == b - 0x80;
    var y := x * 64 + (d - 0x80);
    assert y / 64 == x && y % 64 == d - 0x80 && y / 4096 == x / 64;
    c := y;
  }

  lemma FourBytes(a: U8, b: U8, d: U8, e: U8) returns (c: Scalar)
    requires 0xf0 <= a <= 0xf4 && Continuation(b) && Continuation(d) && Continuation(e)
    requires (a == 0xf0 ==> 0x90 <= b) && (a == 0xf4 ==> b <= 0x8f)
    ensures EncodeScalar(c) == [a, b, d, e]
  {
    var x: int := (a - 0xf0) * 64 + (b - 0x80);
    assert x / 64 == a - 0xf0 && x % 64 == b - 0x80;
    var y := x * 64 + (d - 0x80);
    assert y / 64 == x && y % 64 == d - 0x80;
    var z := y * 64 + (e - 0x80);
    assert z / 64 == y && z % 64 == e - 0x80 && z / 4096 == y / 64 && z / 262144 == y / 4096 && y / 4096 == x / 64;
    c := z;
  }

  lemma {:induction false} LengthOfScalar(c: Scalar, rest: seq<U8>)
    ensures Utf8SequenceLength(EncodeScalar(c) + rest) == |EncodeScalar(c)|
    ensures (EncodeScalar(c) + rest)[|EncodeScalar(c)|..] == rest
  {
  }

  /** The well-formed strings are exactly the encodings of sequences of scalar values. */
  lemma {:induction false} ValidUtf8Exactly(p: seq<U8>)
    ensures ValidUtf8(p) <==> exists cs :: EncodeScalars(cs) == p
  {
    if ValidUtf8(p) {
      var cs := ScalarsOf(p);
    }
    forall cs | EncodeScalars(cs) == p ensures ValidUtf8(p) {
      EncodedIsValid(cs);
    }
  }

  lemma {:induction false} ScalarsOf(p: seq<U8>) returns (cs: seq<Scalar>)
    requires ValidUtf8(p)
    ensures EncodeScalars(cs) == p
    decreases |p|
  {
    if p == [] {
      cs := [];
    } else {
      var n := Utf8SequenceLength(p);
      var c := ScalarOf(p);
      var tail := ScalarsOf(p[n..]);
      cs := [c] + tail;
      assert cs[1..] == tail && p == p[..n] + p[n..];
    }
  }

  lemma {:induction false} EncodedIsValid(cs: seq<Scalar>)
    ensures ValidUtf8(EncodeScalars(cs))
  {
    if cs != [] {
      EncodedIsValid(cs[1..]);
      LengthOfScalar(cs[0], EncodeScalars(cs[1..]));
    }
  }

  type Utf8 = p: seq<U8> | ValidUtf8(p) witness []

  datatype GuestWriteRecord = GuestWriteRecord(
    version: ArtifactVersion,
    sequenceNumber: U64,
    guestMonotonicNs: U64,
    guestRealtimeNs: U64,
    guestProcessId: U32,
    guestProcessStartTicks: U64,
    distributionId: Bytes16,
    mountNamespaceId: U64,
    executableSha256: Bytes32,
    cgroupSha256: Bytes32,
    operation: FileOperation,
    normalizedPath: Utf8,
    byteRangeStart: U64,
    byteRangeLength: U64,
    flags: U16)
}

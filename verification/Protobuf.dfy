/** The minimal protobuf writer behind both ONNX builders
    (crates/kavach-core/src/npu_backend.rs and tools/kavach-pack/src/onnx_builder.rs,
    the same algorithm twice), read back by a reader written from the Protocol
    Buffers encoding specification: base-128 varints and length-delimited records. */
module Protobuf {
  import opened MachineInts
  import opened Wrappers

  const VARINT_WIRE := 0
  const LENGTH_WIRE := 2
  const MAX_VARINT_BYTES := 10
  /** Field numbers run from 1 to 2^29 - 1. */
  const FIELD_NUMBER_END := 0x2000_0000

  /** What a caller of the writer means to say. Strings and raw data are bytes. */
  datatype Field =
    | IntField(number: U32, value: I64)
    | BytesField(number: U32, payload: seq<U8>)
    | MessageField(number: U32, fields: seq<Field>)

  // ----- The bytes -----

  function Varint(v: nat): seq<U8> {
    if v < 0x80 then [v] else [v % 0x80 + 0x80] + Varint(v / 0x80)
  }

  /** `a | b` */
  function BitOr(a: nat, b: nat): (r: nat)
    ensures r <= a + b
  {
    if a == 0 || b == 0 then a + b
    else 2 * BitOr(a / 2, b / 2) + (if a % 2 == 1 || b % 2 == 1 then 1 else 0)
  }

  /** `(field_number << 3) | wire_type`, for every u8 */
  function Tag(number: U32, wire: U8): U64 {
    BitOr(8 * number, wire)
  }

  function TagBytes(number: U32, wire: U8): seq<U8> {
    Varint(Tag(number, wire))
  }

  /** Bit k of x. */
  function Bit(x: nat, k: nat): bool {
    if k == 0 then x % 2 == 1 else Bit(x / 2, k - 1)
  }

  lemma {:induction false} ZeroBits(k: nat)
    ensures !Bit(0, k)
  {
    if k > 0 {
      ZeroBits(k - 1);
    }
  }

  /** Every bit of `a | b` is set exactly when it is set in one of the two. */
  lemma {:induction false} BitOrExactly(a: nat, b: nat, k: nat)
    ensures Bit(BitOr(a, b), k) <==> Bit(a, k) || Bit(b, k)
  {
    ZeroBits(k);
    if a > 0 && b > 0 {
      var r, low := BitOr(a / 2, b / 2), if a % 2 == 1 || b % 2 == 1 then 1 else 0;
      assert (2 * r + low) / 2 == r && (2 * r + low) % 2 == low;
      if k > 0 {
        BitOrExactly(a / 2, b / 2, k - 1);
      }
    }
  }

  lemma OrShifted(n: nat, w: nat, bit: nat, n': nat, w': nat)
    requires bit < 2 && n' == 2 * n && w' == 2 * w + bit
    ensures BitOr(n', w') == 2 * BitOr(n, w) + bit
  {
    assert n' / 2 == n && w' / 2 == w && n' % 2 == 0 && w' % 2 == bit;
  }

  lemma OrThreeBits(n: nat, w: nat, a: nat, b: nat, c: nat, w1: nat, w2: nat, w3: nat)
    requires a < 2 && b < 2 && c < 2 && w1 == 2 * w + a && w2 == 2 * w1 + b && w3 == 2 * w2 + c
    ensures BitOr(8 * n, w3) == 8 * BitOr(n, w) + 4 * a + 2 * b + c
  {
    OrShifted(n, w, a, 2 * n, w1);
    OrShifted(2 * n, w1, b, 4 * n, w2);
    OrShifted(4 * n, w2, c, 8 * n, w3);
  }

  lemma ThreeBits(r: nat) returns (a: nat, b: nat, c: nat)
    requires r < 8
    ensures a < 2 && b < 2 && c < 2 && r == 4 * a + 2 * b + c
  {
    a, b, c := r / 4, r / 2 % 2, r % 2;
  }

  lemma OrEight(n: nat, w: nat)
    ensures BitOr(8 * n, w) == 8 * BitOr(n, w / 8) + w % 8
  {
    var a, b, c := ThreeBits(w % 8);
    var w1 := 2 * (w / 8) + a;
    OrThreeBits(n, w / 8, a, b, c, w1, 2 * w1 + b, w);
  }

  /** What a reader finds in a tag: the low three bits of the wire type, and a field
      number with the rest of the wire type merged in. The number and the wire type
      come back exactly when the wire type is below 8. */
  lemma TagExactly(number: U32, wire: U8)
    ensures Tag(number, wire) / 8 == BitOr(number, wire / 8)
    ensures Tag(number, wire) % 8 == wire % 8
    ensures Tag(number, wire) / 8 == number && Tag(number, wire) % 8 == wire <==> wire < 8
  {
    OrEight(number, wire);
  }

  /** `val as u64` */
  function AsU64(v: I64): U64 { WrapU64(v) }

  function EncodeField(f: Field): seq<U8>
    decreases f, 1
  {
    match f
    case IntField(n, v) => TagBytes(n, VARINT_WIRE) + Varint(AsU64(v))
    case BytesField(n, s) => TagBytes(n, LENGTH_WIRE) + Varint(|s|) + s
    case MessageField(n, fs) => var b := EncodeFields(fs); TagBytes(n, LENGTH_WIRE) + Varint(|b|) + b
  }

  function EncodeFields(fs: seq<Field>): seq<U8>
    decreases fs, 0
  {
    if fs == [] then [] else EncodeField(fs[0]) + EncodeFields(fs[1..])
  }

  lemma {:induction false} EncodeFieldsAppend(fs: seq<Field>, f: Field)
    ensures EncodeFields(fs + [f]) == EncodeFields(fs) + EncodeField(f)
    decreases |fs|
  {
    if fs == [] {
      assert ([] + [f])[1..] == [];
    } else {
      assert (fs + [f])[1..] == fs[1..] + [f];
      EncodeFieldsAppend(fs[1..], f);
    }
  }

  // ----- The writer -----

  class ProtoWriter {
    var bytes: seq<U8>
    ghost var fields: seq<Field>

    ghost predicate Valid()
      reads this
    {
      bytes == EncodeFields(fields)
    }

    constructor ()
      ensures Valid() && fields == [] && bytes == []
    {
      bytes := [];
      fields := [];
    }

    method WriteVarint(v: U64)
      modifies this`bytes
      ensures bytes == old(bytes) + Varint(v)
    {
      var value: nat := v;
      while value >= 0x80
        invariant bytes + Varint(value) == old(bytes) + Varint(v)
      {
        assert Varint(value) == [value % 0x80 + 0x80] + Varint(value / 0x80);
        bytes := bytes + [value % 0x80 + 0x80];
        value := value / 0x80;
      }
      bytes := bytes + [value];
    }

    method WriteTag(number: U32, wire: U8)
      modifies this`bytes
      ensures bytes == old(bytes) + TagBytes(number, wire)
    {
      WriteVarint(BitOr(number * 8, wire));
    }

    method WriteInt64(number: U32, val: I64)
      requires Valid()
      modifies this
      ensures Valid() && fields == old(fields) + [IntField(number, val)]
    {
      EncodeFieldsAppend(fields, IntField(number, val));
      fields := fields + [IntField(number, val)];
      WriteTag(number, VARINT_WIRE);
      WriteVarint(AsU64(val));
    }

    method WriteString(number: U32, s: seq<U8>)
      requires Valid() && |s| < TWO_64
      modifies this
      ensures Valid() && fields == old(fields) + [BytesField(number, s)]
    {
      EncodeFieldsAppend(fields, BytesField(number, s));
      fields := fields + [BytesField(number, s)];
      WriteTag(number, LENGTH_WIRE);
      WriteVarint(|s|);
      bytes := bytes + s;
    }

    method WriteMessage(number: U32, sub: ProtoWriter)
      requires Valid() && sub.Valid() && sub != this && |sub.bytes| < TWO_64
      modifies this
      ensures Valid() && fields == old(fields) + [MessageField(number, sub.fields)]
    {
      EncodeFieldsAppend(fields, MessageField(number, sub.fields));
      fields := fields + [MessageField(number, sub.fields)];
      WriteTag(number, LENGTH_WIRE);
      WriteVarint(|sub.bytes|);
      bytes := bytes + sub.bytes;
    }
  }

  // ----- The reader -----

  /** A little-endian base-128 number of at most n bytes, each but the last with
      its top bit set. */
  function ParseDigits(b: seq<U8>, n: nat): (r: Option<(nat, seq<U8>)>)
    ensures r.Some? ==> |r.value.1| < |b|
  {
    if n == 0 || b == [] then None
    else if b[0] < 0x80 then Some((b[0], b[1..]))
    else
      var tail := ParseDigits(b[1..], n - 1);
      if tail.None? then None else Some((b[0] - 0x80 + 0x80 * tail.value.0, tail.value.1))
  }

  /** Ten bytes at most; bits beyond the 64th are dropped. */
  function ParseVarint(b: seq<U8>): (r: Option<(U64, seq<U8>)>)
    ensures r.Some? ==> |r.value.1| < |b|
  {
    var d := ParseDigits(b, MAX_VARINT_BYTES);
    if d.None? then None else Some((d.value.0 % TWO_64, d.value.1))
  }

  /** What the reader of a message knows: the kind of each field number. */
  datatype Kind = IntKind | BytesKind | MessageKind(schema: map<U32, Kind>)

  /** `v as i64` */
  function AsI64(v: U64): I64 { WrapI64(v) }

  function Read(schema: map<U32, Kind>, b: seq<U8>): Option<seq<Field>>
    decreases |b|, 0
  {
    if b == [] then Some([])
    else
      var tag := ParseVarint(b);
      if tag.None? then None
      else
        var operand := ParseVarint(tag.value.1);
        if operand.None? then None
        else ReadRecord(schema, tag.value.0 / 8, tag.value.0 % 8, operand.value.0, operand.value.1)
  }

  /** The rest of a record after its tag and first varint, and all that follows. */
  function ReadRecord(schema: map<U32, Kind>, number: nat, wire: nat, v: U64, rest: seq<U8>): Option<seq<Field>>
    decreases |rest|, 1
  {
    if number == 0 || number >= FIELD_NUMBER_END || number !in schema then None
    else if schema[number] == IntKind then
      if wire != VARINT_WIRE then None
      else Prepend(IntField(number, AsI64(v)), Read(schema, rest))
    else if wire != LENGTH_WIRE || v > |rest| then None
    else if schema[number] == BytesKind then
      Prepend(BytesField(number, rest[..v]), Read(schema, rest[v..]))
    else
      var sub := Read(schema[number].schema, rest[..v]);
      if sub.None? then None
      else Prepend(MessageField(number, sub.value), Read(schema, rest[v..]))
  }

  function Prepend(f: Field, tail: Option<seq<Field>>): Option<seq<Field>> {
    if tail.None? then None else Some([f] + tail.value)
  }

  // ----- Varints -----

  function Pow128(n: nat): (r: nat)
    ensures r >= 1
  {
    if n == 0 then 1 else 0x80 * Pow128(n - 1)
  }

  lemma {:induction false} ParseVarintDigits(v: nat, n: nat, rest: seq<U8>)
    requires v < Pow128(n) && n > 0
    ensures ParseDigits(Varint(v) + rest, n) == Some((v, rest))
    ensures 1 <= |Varint(v)| <= n
  {
    var b := Varint(v) + rest;
    if v < 0x80 {
      assert b[1..] == rest;
    } else {
      assert n > 1 && v / 0x80 < Pow128(n - 1);
      ParseVarintDigits(v / 0x80, n - 1, rest);
      assert b[0] == v % 0x80 + 0x80 && b[1..] == Varint(v / 0x80) + rest;
    }
  }

  lemma TenBytesSuffice()
    ensures TWO_64 <= Pow128(MAX_VARINT_BYTES)
  {
    assert Pow128(2) == 0x4000;
    assert Pow128(4) == 0x4000 * Pow128(2);
    assert Pow128(6) == 0x4000 * Pow128(4);
    assert Pow128(8) == 0x4000 * Pow128(6);
    assert Pow128(10) == 0x4000 * Pow128(8);
  }

  /** A varint takes one to ten bytes and is read back whatever follows it. */
  lemma {:induction false} VarintRoundTrip(v: U64, rest: seq<U8>)
    ensures ParseVarint(Varint(v) + rest) == Some((v, rest))
    ensures 1 <= |Varint(v)| <= 10
  {
    TenBytesSuffice();
    ParseVarintDigits(v, MAX_VARINT_BYTES, rest);
  }

  /** No varint is a proper prefix of another. */
  lemma VarintPrefixFree(v: U64, w: U64)
    requires Varint(v) <= Varint(w)
    ensures v == w
  {
    VarintRoundTrip(v, Varint(w)[|Varint(v)|..]);
    VarintRoundTrip(w, []);
    assert Varint(v) + Varint(w)[|Varint(v)|..] == Varint(w) == Varint(w) + [];
  }

  /** Negative integers, sent as two's complement, always take the full ten bytes. */
  lemma NegativeTakesTen(v: I64)
    requires v < 0
    ensures |Varint(AsU64(v))| == 10
  {
    VarintLength(AsU64(v), 9);
    assert Pow128(2) == 0x4000;
    assert Pow128(4) == 0x4000 * Pow128(2);
    assert Pow128(6) == 0x4000 * Pow128(4);
    assert Pow128(8) == 0x4000 * Pow128(6);
    assert Pow128(9) == TWO_63;
    VarintRoundTrip(AsU64(v), []);
  }

  lemma {:induction false} VarintLength(v: nat, n: nat)
    requires v >= Pow128(n)
    ensures |Varint(v)| > n
  {
    if n > 0 && v >= 0x80 {
      VarintLength(v / 0x80, n - 1);
    }
  }

  // ----- Trees -----

  predicate HasKind(f: Field, k: Kind)
    decreases f, 1
  {
    match f
    case IntField(_, _) => k == IntKind
    case BytesField(_, s) => k == BytesKind && |s| < TWO_64
    case MessageField(_, fs) => k.MessageKind? && Conforms(fs, k.schema) && |EncodeFields(fs)| < TWO_64
  }

  /** Every field has a number the encoding allows, is in the schema with its kind,
      and every length fits a u64. */
  predicate Conforms(fs: seq<Field>, schema: map<U32, Kind>)
    decreases fs, 0
  {
    fs == [] || (&& 1 <= fs[0].number < FIELD_NUMBER_END
                 && fs[0].number in schema && HasKind(fs[0], schema[fs[0].number])
                 && Conforms(fs[1..], schema))
  }

  lemma {:induction false} TagRoundTrip(number: U32, wire: U8, rest: seq<U8>)
    requires wire < 8
    ensures ParseVarint(TagBytes(number, wire) + rest) == Some((8 * number + wire, rest))
  {
    OrEight(number, wire);
    VarintRoundTrip(8 * number + wire, rest);
  }

  /** A tag and a varint in front of anything. */
  lemma {:induction false} ReadHead(schema: map<U32, Kind>, n: U32, wire: U8, v: U64, rest: seq<U8>)
    requires wire < 8
    ensures Read(schema, TagBytes(n, wire) + (Varint(v) + rest)) == ReadRecord(schema, n, wire, v, rest)
  {
    TagRoundTrip(n, wire, Varint(v) + rest);
    VarintRoundTrip(v, rest);
    assert (8 * n + wire) / 8 == n && (8 * n + wire) % 8 == wire;
  }

  lemma {:induction false} ReadInt(schema: map<U32, Kind>, n: U32, v: I64, rest: seq<U8>)
    requires 1 <= n < FIELD_NUMBER_END && n in schema && schema[n] == IntKind
    ensures Read(schema, EncodeField(IntField(n, v)) + rest) == Prepend(IntField(n, v), Read(schema, rest))
  {
    assert EncodeField(IntField(n, v)) + rest == TagBytes(n, VARINT_WIRE) + (Varint(AsU64(v)) + rest);
    ReadHead(schema, n, VARINT_WIRE, AsU64(v), rest);
  }

  /** A length-delimited record, whatever kind its payload is. */
  lemma {:induction false} ReadDelimited(schema: map<U32, Kind>, n: U32, payload: seq<U8>, rest: seq<U8>)
    requires |payload| < TWO_64
    ensures Read(schema, TagBytes(n, LENGTH_WIRE) + Varint(|payload|) + payload + rest) ==
            ReadRecord(schema, n, LENGTH_WIRE, |payload|, payload + rest)
    ensures (payload + rest)[..|payload|] == payload && (payload + rest)[|payload|..] == rest
  {
    assert TagBytes(n, LENGTH_WIRE) + Varint(|payload|) + payload + rest
        == TagBytes(n, LENGTH_WIRE) + (Varint(|payload|) + (payload + rest));
    ReadHead(schema, n, LENGTH_WIRE, |payload|, payload + rest);
  }

  lemma {:induction false} ReadField(f: Field, schema: map<U32, Kind>, rest: seq<U8>)
    requires 1 <= f.number < FIELD_NUMBER_END && f.number in schema && HasKind(f, schema[f.number])
    ensures Read(schema, EncodeField(f) + rest) == Prepend(f, Read(schema, rest))
    decreases f, 1
  {
    match f
    case IntField(n, v) => ReadInt(schema, n, v, rest);
    case BytesField(n, s) => ReadDelimited(schema, n, s, rest);
    case MessageField(n, fs) =>
      RoundTrip(fs, schema[n].schema);
      ReadDelimited(schema, n, EncodeFields(fs), rest);
  }

  /** Every field tree the writer emits is read back as exactly that tree. */
  lemma {:induction false} RoundTrip(fs: seq<Field>, schema: map<U32, Kind>)
    requires Conforms(fs, schema)
    ensures Read(schema, EncodeFields(fs)) == Some(fs)
    decreases fs, 0
  {
    if fs != [] {
      ReadField(fs[0], schema, EncodeFields(fs[1..]));
      RoundTrip(fs[1..], schema);
      assert [fs[0]] + fs[1..] == fs;
    }
  }

  // ----- Only conforming trees are ever read -----

  lemma {:induction false} VarintMonotone(x: nat, y: nat)
    requires x <= y
    ensures |Varint(x)| <= |Varint(y)|
  {
    if x >= 0x80 {
      VarintMonotone(x / 0x80, y / 0x80);
    }
  }

  /** No spelling of a number is shorter than the writer's. */
  lemma {:induction false} ShortestDigits(b: seq<U8>, n: nat)
    requires ParseDigits(b, n).Some?
    ensures |Varint(ParseDigits(b, n).value.0)| + |ParseDigits(b, n).value.1| <= |b|
  {
    if b[0] >= 0x80 {
      ShortestDigits(b[1..], n - 1);
      var low, high := b[0] - 0x80, ParseDigits(b[1..], n - 1).value.0;
      assert (low + 0x80 * high) / 0x80 == high;
    }
  }

  lemma {:induction false} ShortestVarint(b: seq<U8>)
    requires ParseVarint(b).Some?
    ensures |Varint(ParseVarint(b).value.0)| + |ParseVarint(b).value.1| <= |b|
  {
    ShortestDigits(b, MAX_VARINT_BYTES);
    VarintMonotone(ParseVarint(b).value.0, ParseDigits(b, MAX_VARINT_BYTES).value.0);
  }

  ghost predicate ReadWell(schema: map<U32, Kind>, fs: seq<Field>, size: nat) {
    Conforms(fs, schema) && |EncodeFields(fs)| <= size
  }

  lemma {:induction false} PrependWell(schema: map<U32, Kind>, f: Field, fs: seq<Field>, size: nat, rest: nat)
    requires 1 <= f.number < FIELD_NUMBER_END && f.number in schema && HasKind(f, schema[f.number])
    requires ReadWell(schema, fs, rest) && |EncodeField(f)| <= size
    ensures ReadWell(schema, [f] + fs, size + rest)
  {
    assert ([f] + fs)[1..] == fs;
  }

  lemma {:induction false} IntSize(number: U32, v: U64)
    ensures |EncodeField(IntField(number, AsI64(v)))| == |TagBytes(number, VARINT_WIRE)| + |Varint(v)|
  {
    assert AsU64(AsI64(v)) == v;
  }

  lemma {:induction false} BytesSize(number: U32, payload: seq<U8>)
    ensures |EncodeField(BytesField(number, payload))|
         == |TagBytes(number, LENGTH_WIRE)| + |Varint(|payload|)| + |payload|
  {
  }

  lemma {:induction false} MessageSize(number: U32, fs: seq<Field>, size: U64)
    requires |EncodeFields(fs)| <= size
    ensures |EncodeField(MessageField(number, fs))| <= |TagBytes(number, LENGTH_WIRE)| + |Varint(size)| + size
  {
    VarintMonotone(|EncodeFields(fs)|, size);
  }

  /** What is read conforms to the schema, and the writer would not need more bytes. */
  lemma {:induction false} ReadConforms(schema: map<U32, Kind>, b: seq<U8>)
    requires Read(schema, b).Some?
    ensures ReadWell(schema, Read(schema, b).value, |b|)
    decreases |b|, 0
  {
    if b != [] {
      var tag := ParseVarint(b).value;
      var operand := ParseVarint(tag.1).value;
      ShortestVarint(b);
      ShortestVarint(tag.1);
      ReadRecordConforms(schema, tag.0 / 8, tag.0 % 8, operand.0, operand.1, |Varint(tag.0)|);
    }
  }

  lemma {:induction false} ReadRecordConforms(schema: map<U32, Kind>, number: nat, wire: U8, v: U64, rest: seq<U8>, head: nat)
    requires wire < 8 && head == |Varint(8 * number + wire)|
    requires ReadRecord(schema, number, wire, v, rest).Some?
    ensures ReadWell(schema, ReadRecord(schema, number, wire, v, rest).value, head + |Varint(v)| + |rest|)
    decreases |rest|, 1
  {
    var size := |Varint(v)|;
    assert TagBytes(number, wire) == Varint(8 * number + wire) by { OrEight(number, wire); }
    if schema[number] == IntKind {
      ReadConforms(schema, rest);
      IntSize(number, v);
      PrependWell(schema, IntField(number, AsI64(v)), Read(schema, rest).value, head + size, |rest|);
    } else {
      ReadConforms(schema, rest[v..]);
      var tail := Read(schema, rest[v..]).value;
      if schema[number] == BytesKind {
        BytesSize(number, rest[..v]);
        PrependWell(schema, BytesField(number, rest[..v]), tail, head + size + v, |rest| - v);
      } else {
        ReadConforms(schema[number].schema, rest[..v]);
        var sub := Read(schema[number].schema, rest[..v]).value;
        MessageSize(number, sub, v);
        PrependWell(schema, MessageField(number, sub), tail, head + size + v, |rest| - v);
      }
    }
  }

  /** A tree comes back from its bytes exactly when it fits the schema. */
  lemma {:induction false} RoundTripExactly(fs: seq<Field>, schema: map<U32, Kind>)
    ensures Read(schema, EncodeFields(fs)) == Some(fs) <==> Conforms(fs, schema)
  {
    if Conforms(fs, schema) {
      RoundTrip(fs, schema);
    }
    if Read(schema, EncodeFields(fs)) == Some(fs) {
      ReadConforms(schema, EncodeFields(fs));
    }
  }

  // ----- The bytes, literally -----

  /** Seven bits a byte, the lowest first. */
  ghost function Base128(b: seq<U8>): nat {
    if b == [] then 0 else b[0] % 0x80 + 0x80 * Base128(b[1..])
  }

  /** A varint holds its number in base 128, little-endian and without leading zeros, and
      every byte but the last has its top bit set. */
  lemma {:induction false} VarintExactly(v: nat)
    ensures var b := Varint(v);
            && Base128(b) == v && b != []
            && (forall i :: 0 <= i < |b| ==> (b[i] >= 0x80 <==> i < |b| - 1))
            && (|b| > 1 ==> b[|b| - 1] > 0)
  {
    if v >= 0x80 {
      VarintExactly(v / 0x80);
      var tail := Varint(v / 0x80);
      assert Varint(v)[1..] == tail;
      assert forall i :: 1 <= i < |tail| + 1 ==> Varint(v)[i] == tail[i - 1];
    }
  }

  /** The three kinds of field: wire type 0 with the two's complement of a 64-bit
      integer, wire type 2 with a length in front. */
  lemma FieldBytes(n: U32, v: I64, s: seq<U8>, fs: seq<Field>)
    ensures EncodeField(IntField(n, v)) ==
            Varint(8 * n) + Varint(if v < 0 then v + 0x1_0000_0000_0000_0000 else v)
    ensures EncodeField(BytesField(n, s)) == Varint(8 * n + 2) + Varint(|s|) + s
    ensures EncodeField(MessageField(n, fs)) == Varint(8 * n + 2) + Varint(|EncodeFields(fs)|) + EncodeFields(fs)
  {
    OrEight(n, 0);
    OrEight(n, 2);
  }
}

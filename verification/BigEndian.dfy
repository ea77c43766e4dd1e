/** Fixed-width big-endian integers, as `to_be_bytes` and `from_be_bytes` give them. */
module BigEndian {
  import opened MachineInts

  function Pow256(n: nat): nat {
    if n == 0 then 1 else 256 * Pow256(n - 1)
  }

  /** The low n base-256 digits of x, most significant first. */
  function ToBe(n: nat, x: nat): (r: seq<U8>)
    ensures |r| == n
  {
    if n == 0 then [] else ToBe(n - 1, x / 256) + [x % 256]
  }

  function FromBe(s: seq<U8>): nat {
    if s == [] then 0 else FromBe(s[..|s| - 1]) * 256 + s[|s| - 1]
  }

  lemma {:induction false} FromBeBound(s: seq<U8>)
    ensures FromBe(s) < Pow256(|s|)
  {
    if s != [] {
      FromBeBound(s[..|s| - 1]);
    }
  }

  lemma {:induction false} FromToBe(n: nat, x: nat)
    requires x < Pow256(n)
    ensures FromBe(ToBe(n, x)) == x
  {
    if n > 0 {
      FromToBe(n - 1, x / 256);
      assert ToBe(n, x)[..n - 1] == ToBe(n - 1, x / 256);
    }
  }

  lemma LowByte(x: nat, b: U8)
    ensures (x * 256 + b) / 256 == x && (x * 256 + b) % 256 == b
  {
  }

  lemma {:induction false} ToFromBe(s: seq<U8>)
    ensures ToBe(|s|, FromBe(s)) == s
  {
    if s != [] {
      var p := s[..|s| - 1];
      ToFromBe(p);
      LowByte(FromBe(p), s[|s| - 1]);
      assert s == p + [s[|s| - 1]];
    }
  }

  lemma MachineWidths()
    ensures Pow256(2) == TWO_16 && Pow256(4) == TWO_32 && Pow256(8) == TWO_64
  {
    assert Pow256(1) == 256;
    assert Pow256(3) == 256 * Pow256(2);
    assert Pow256(5) == 256 * Pow256(4);
    assert Pow256(6) == 256 * Pow256(5);
    assert Pow256(7) == 256 * Pow256(6);
  }

  /** The most significant byte stands first. */
  lemma BytesOf16(x: nat)
    ensures ToBe(2, x) == [x / 0x100 % 0x100, x % 0x100]
  {
    assert ToBe(1, x / 0x100) == [x / 0x100 % 0x100];
  }

  lemma BytesOf32(x: nat)
    ensures ToBe(4, x) == [x / 0x100_0000 % 0x100, x / 0x1_0000 % 0x100, x / 0x100 % 0x100, x % 0x100]
  {
    BytesOf16(x / 0x1_0000);
    assert x / 0x100 / 0x100 == x / 0x1_0000 && x / 0x1_0000 / 0x100 == x / 0x100_0000;
    assert ToBe(3, x / 0x100) == ToBe(2, x / 0x1_0000) + [x / 0x100 % 0x100];
  }

  lemma HighBytes(n: nat, x: nat)
    requires n >= 4
    ensures ToBe(n, x) == ToBe(n - 4, x / 0x1_0000_0000) + ToBe(4, x)
  {
    var x1 := x / 0x100;
    var x2 := x1 / 0x100;
    var x3 := x2 / 0x100;
    assert x3 / 0x100 == x / 0x1_0000_0000;
    FourLow(n - 4, x, x1, x2, x3);
    FourLow(0, x, x1, x2, x3);
  }

  lemma FourLow(n: nat, x: nat, x1: nat, x2: nat, x3: nat)
    requires x1 == x / 0x100 && x2 == x1 / 0x100 && x3 == x2 / 0x100
    ensures ToBe(n + 4, x) == ToBe(n, x3 / 0x100) + [x3 % 0x100, x2 % 0x100, x1 % 0x100, x % 0x100]
  {
    assert ToBe(n + 1, x3) == ToBe(n, x3 / 0x100) + [x3 % 0x100];
    assert ToBe(n + 2, x2) == ToBe(n, x3 / 0x100) + [x3 % 0x100, x2 % 0x100];
    assert ToBe(n + 3, x1) == ToBe(n, x3 / 0x100) + [x3 % 0x100, x2 % 0x100, x1 % 0x100];
  }

  lemma BytesOf64(x: nat)
    ensures ToBe(8, x) == ToBe(4, x / 0x1_0000_0000) + ToBe(4, x)
  {
    HighBytes(8, x);
  }

  function U16FromBe(s: seq<U8>): (r: U16)
    requires |s| == 2
    ensures ToBe(2, r) == s
  {
    FromBeBound(s); ToFromBe(s); MachineWidths();
    FromBe(s)
  }

  function U32FromBe(s: seq<U8>): (r: U32)
    requires |s| == 4
    ensures ToBe(4, r) == s
  {
    FromBeBound(s); ToFromBe(s); MachineWidths();
    FromBe(s)
  }

  function U64FromBe(s: seq<U8>): (r: U64)
    requires |s| == 8
    ensures ToBe(8, r) == s
  {
    FromBeBound(s); ToFromBe(s); MachineWidths();
    FromBe(s)
  }

  lemma U16RoundTrip(x: U16)
    ensures U16FromBe(ToBe(2, x)) == x
  {
    MachineWidths(); FromToBe(2, x);
  }

  lemma U32RoundTrip(x: U32)
    ensures U32FromBe(ToBe(4, x)) == x
  {
    MachineWidths(); FromToBe(4, x);
  }

  lemma U64RoundTrip(x: U64)
    ensures U64FromBe(ToBe(8, x)) == x
  {
    MachineWidths(); FromToBe(8, x);
  }

  /** The number two bytes stand for. */
  function Word(high: U8, low: U8): U16 { 0x100 * (high as int) + low as int }

  lemma {:induction false} WordFromBe(s: seq<U8>)
    requires |s| == 2
    ensures U16FromBe(s) == Word(s[0], s[1])
  {
    assert s[..1] == [s[0]] && s[..1][..0] == [];
    assert FromBe(s[..1]) == s[0] as int;
  }
}

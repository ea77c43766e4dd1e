/** Base64 (crates/kavach-core/src/manifest.rs) against RFC 4648 read as
    arithmetic: the text is a number in base 64, the bytes are its leading
    digits in base 256. */
module Base64 {
  import opened MachineInts
  import opened Wrappers
  import opened BigEndian

  type Sextet = x: int | 0 <= x < 64

  // ----- Characters -----

  predicate IsSkipped(c: char) { c == '\r' || c == '\n' || c == ' ' }

  /** The value of a character in the standard (section 4) or the URL-safe
      (section 5) alphabet of RFC 4648. */
  function SextetOf(c: char): Option<Sextet> {
    if 'A' <= c <= 'Z' then Some(c as int - 'A' as int)
    else if 'a' <= c <= 'z' then Some(c as int - 'a' as int + 26)
    else if '0' <= c <= '9' then Some(c as int - '0' as int + 52)
    else if c == '+' || c == '-' then Some(62)
    else if c == '/' || c == '_' then Some(63)
    else None
  }

  /** The standard alphabet, "ABC...xyz0123456789+/". */
  function CharOf(v: Sextet): (c: char)
    ensures SextetOf(c) == Some(v) && c != '=' && !IsWhitespace(c)
  {
    if v < 26 then ('A' as int + v) as char
    else if v < 52 then ('a' as int + v - 26) as char
    else if v < 62 then ('0' as int + v - 52) as char
    else if v == 62 then '+' else '/'
  }

  /** `char::is_whitespace`, the Unicode White_Space property. */
  predicate IsWhitespace(c: char) {
    var x := c as int;
    || 0x09 <= x <= 0x0d || x == 0x20 || x == 0x85 || x == 0xa0 || x == 0x1680
    || 0x2000 <= x <= 0x200a || x == 0x2028 || x == 0x2029 || x == 0x202f || x == 0x205f || x == 0x3000
  }

  function TrimStart(s: string): string {
    if s != [] && IsWhitespace(s[0]) then TrimStart(s[1..]) else s
  }

  function TrimEnd(s: string): string {
    if s != [] && IsWhitespace(s[|s| - 1]) then TrimEnd(s[..|s| - 1]) else s
  }

  function Trim(s: string): string { TrimEnd(TrimStart(s)) }

  /** `replace('=', "")` */
  function WithoutPadding(s: string): string {
    if s == [] then []
    else
      var before := WithoutPadding(s[..|s| - 1]);
      if s[|s| - 1] == '=' then before else before + [s[|s| - 1]]
  }

  // ----- Meaning -----

  /** What a text carries: its sextets in order, or the first character that is
      neither a sextet nor skipped. */
  function Sextets(s: string): Result<seq<Sextet>, char> {
    if s == [] then Ok([])
    else
      var before := Sextets(s[..|s| - 1]);
      var c := s[|s| - 1];
      if before.Err? then before
      else if SextetOf(c).Some? then Ok(before.value + [SextetOf(c).value])
      else if IsSkipped(c) then before
      else Err(c)
  }

  /** A digit string in base 64 as a number. */
  function Value64(s: seq<Sextet>): nat {
    if s == [] then 0 else Value64(s[..|s| - 1]) * 64 + s[|s| - 1]
  }

  /** The low k base-64 digits of x, most significant first. */
  function Digits64(k: nat, x: nat): (r: seq<Sextet>)
    ensures |r| == k
  {
    if k == 0 then [] else Digits64(k - 1, x / 64) + [x % 64]
  }

  /** Bits left over behind the whole bytes of k sextets: 0, 6, 4 or 2. */
  function Leftover(k: nat): nat { 6 * k % 8 }

  function Pow2Small(n: nat): nat {
    if n == 0 then 1 else if n == 2 then 4 else if n == 4 then 16 else 64
  }

  /** The whole bytes of a sextet string: drop the leftover low bits of its value
      and write the rest in base 256. */
  function BytesOf(s: seq<Sextet>): (r: seq<U8>)
    ensures |r| == 6 * |s| / 8
  {
    ToBe(6 * |s| / 8, Value64(s) / Pow2Small(Leftover(|s|)))
  }

  function DecodeSpec(input: string): Result<seq<U8>, char> {
    match Sextets(WithoutPadding(Trim(input)))
    case Ok(s) => Ok(BytesOf(s))
    case Err(c) => Err(c)
  }

  function SextetCount(n: nat): nat { (8 * n + 5) / 6 }

  /** Zero bits appended so that n bytes fill whole sextets. */
  function Fill(n: nat): nat {
    if n % 3 == 0 then 1 else if n % 3 == 1 then 16 else 4
  }

  function Chars(s: seq<Sextet>): (r: string)
    ensures |r| == |s|
    ensures forall i :: 0 <= i < |s| ==> r[i] == CharOf(s[i])
  {
    seq(|s|, i requires 0 <= i < |s| => CharOf(s[i]))
  }

  function Padding(n: nat): string {
    if n % 3 == 0 then "" else if n % 3 == 1 then "==" else "="
  }

  function SextetsOfBytes(b: seq<U8>): seq<Sextet> {
    Digits64(SextetCount(|b|), FromBe(b) * Fill(|b|))
  }

  function EncodeSpec(b: seq<U8>): string {
    Chars(SextetsOfBytes(b)) + Padding(|b|)
  }

  // ----- The decoder -----

  lemma Mod256(a: nat, k: nat)
    ensures (a + 256 * k) % 256 == a % 256
  {
  }

  lemma ModWord(a: nat, k: nat)
    ensures (a + TWO_32 * k) % TWO_32 == a % TWO_32
  {
  }

  /** The accumulator only ever holds the value modulo 2^32, and that is enough
      for the byte cut from its middle. */
  lemma MaskedByte(value: nat, shift: nat)
    requires shift == 0 || shift == 2 || shift == 4
    ensures (value % TWO_32) / Pow2Small(shift) % 256 == value / Pow2Small(shift) % 256
  {
    var hi, lo := value / TWO_32, value % TWO_32;
    if shift == 0 {
      Mod256(lo, 0x100_0000 * hi);
    } else if shift == 2 {
      assert value / 4 == lo / 4 + 256 * (0x40_0000 * hi);
      Mod256(lo / 4, 0x40_0000 * hi);
    } else {
      assert value / 16 == lo / 16 + 256 * (0x10_0000 * hi);
      Mod256(lo / 16, 0x10_0000 * hi);
    }
  }

  lemma MaskedShift(value: nat, v: Sextet)
    ensures (value % TWO_32) * 64 % TWO_32 + v == (value * 64 + v) % TWO_32
  {
    var hi, lo := value / TWO_32, value % TWO_32;
    var top, low := lo / 0x400_0000, lo % 0x400_0000;
    assert lo * 64 == low * 64 + TWO_32 * top;
    ModWord(low * 64, top);
    assert value * 64 + v == low * 64 + v + TWO_32 * (hi * 64 + top);
    ModWord(low * 64 + v, hi * 64 + top);
  }

  lemma CountStep(n: nat)
    ensures Leftover(n) in {0, 2, 4, 6}
    ensures Leftover(n) == 0 ==> Leftover(n + 1) == 6 && 6 * (n + 1) / 8 == 6 * n / 8
    ensures Leftover(n) != 0 ==> Leftover(n + 1) == Leftover(n) - 2 && 6 * (n + 1) / 8 == 6 * n / 8 + 1
  {
    var j, r := n / 4, n % 4;
    LeftoverByGroup(j, r);
    if r < 3 {
      LeftoverByGroup(j, r + 1);
    } else {
      LeftoverByGroup(j + 1, 0);
    }
  }

  lemma LeftoverByGroup(j: nat, r: nat)
    requires r < 4
    ensures Leftover(4 * j + r) == if r == 0 then 0 else 8 - 2 * r
    ensures 6 * (4 * j + r) / 8 == 3 * j + (if r == 0 then 0 else r - 1)
  {
    assert 6 * (4 * j + r) == 8 * (3 * j) + 6 * r;
  }

  lemma ValueStep(x: nat, v: Sextet, left: nat)
    requires left in {0, 2, 4, 6}
    ensures left == 0 ==> (x * 64 + v) / 64 == x
    ensures left != 0 ==> (x * 64 + v) / Pow2Small(left - 2) / 256 == x / Pow2Small(left)
  {
    if left == 2 {
      assert (x * 64 + v) / 256 == x / 4;
    } else if left == 4 {
      assert (x * 64 + v) / 4 / 256 == x / 16;
    } else if left == 6 {
      assert (x * 64 + v) / 16 / 256 == x / 64;
    }
  }

  /** What one more sextet does to the bytes: nothing when it starts a group of
      four, otherwise one byte cut from the grown value. */
  lemma {:induction false} ShiftIn(s: seq<Sextet>, v: Sextet)
    ensures Value64(s + [v]) == Value64(s) * 64 + v
    ensures var left := Leftover(|s|) + 6;
            if left < 8 then Leftover(|s + [v]|) == left && BytesOf(s + [v]) == BytesOf(s)
            else
              && Leftover(|s + [v]|) == left - 8 && left - 8 in {0, 2, 4}
              && BytesOf(s + [v]) == BytesOf(s) + [Value64(s + [v]) / Pow2Small(left - 8) % 256]
  {
    assert (s + [v])[..|s|] == s;
    CountStep(|s|);
    ValueStep(Value64(s), v, Leftover(|s|));
  }

  lemma {:induction false} SextetsStep(p: string, c: char)
    ensures Sextets(p + [c]) ==
            if Sextets(p).Err? then Sextets(p)
            else if SextetOf(c).Some? then Ok(Sextets(p).value + [SextetOf(c).value])
            else if IsSkipped(c) then Sextets(p) else Err(c)
  {
    assert (p + [c])[..|p|] == p;
  }

  lemma {:induction false} SextetsSoFar(s: string, i: nat)
    requires i < |s| && Sextets(s[..i]).Ok?
    ensures SextetOf(s[i]).Some? ==> Sextets(s[..i + 1]) == Ok(Sextets(s[..i]).value + [SextetOf(s[i]).value])
    ensures SextetOf(s[i]).None? ==>
              if IsSkipped(s[i]) then Sextets(s[..i + 1]) == Sextets(s[..i]) else Sextets(s) == Err(s[i])
  {
    assert s[..i + 1] == s[..i] + [s[i]];
    SextetsStep(s[..i], s[i]);
    if SextetOf(s[i]).None? && !IsSkipped(s[i]) {
      ErrorPersists(s, i + 1);
    }
  }

  lemma {:induction false} ErrorPersists(s: string, i: nat)
    requires i <= |s| && Sextets(s[..i]).Err?
    ensures Sextets(s) == Sextets(s[..i])
  {
    if i < |s| {
      assert s[..|s| - 1][..i] == s[..i];
      ErrorPersists(s[..|s| - 1], i);
    } else {
      assert s[..i] == s;
    }
  }

  /** One sextet through the accumulator: bits << 6 | val drops the top of the u32. */
  lemma {:induction false} AccumulatorStep(s: seq<Sextet>, v: Sextet, bits: U32)
    requires bits == Value64(s) % TWO_32
    ensures var grown, left := bits * 64 % TWO_32 + v, Leftover(|s|) + 6;
            && grown == Value64(s + [v]) % TWO_32
            && if left < 8 then Leftover(|s + [v]|) == left && BytesOf(s + [v]) == BytesOf(s)
               else && Leftover(|s + [v]|) == left - 8
                    && BytesOf(s + [v]) == BytesOf(s) + [grown / Pow2Small(left - 8) % 256]
  {
    ShiftIn(s, v);
    MaskedShift(Value64(s), v);
    if Leftover(|s|) + 6 >= 8 {
      MaskedByte(Value64(s + [v]), Leftover(|s|) + 6 - 8);
    }
  }

  method DecodeBase64(input: string) returns (r: Result<seq<U8>, char>)
    ensures r == DecodeSpec(input)
  {
    var clean := WithoutPadding(Trim(input));
    var bits: U32 := 0;
    var bitCount := 0;
    var out: seq<U8> := [];
    ghost var taken: seq<Sextet> := [];
    for i := 0 to |clean|
      invariant Sextets(clean[..i]) == Ok(taken)
      invariant bitCount == Leftover(|taken|)
      invariant bits == Value64(taken) % TWO_32
      invariant out == BytesOf(taken)
    {
      var c := clean[i];
      SextetsSoFar(clean, i);
      var val := SextetOf(c);
      if val.None? {
        if c == '\r' || c == '\n' || c == ' ' {
          continue;
        }
        return Err(c);
      }
      AccumulatorStep(taken, val.value, bits);
      taken := taken + [val.value];
      bits := bits * 64 % TWO_32 + val.value;
      bitCount := bitCount + 6;
      if bitCount >= 8 {
        bitCount := bitCount - 8;
        out := out + [bits / Pow2Small(bitCount) % 256];
      }
    }
    assert clean[..|clean|] == clean;
    return Ok(out);
  }

  // ----- What decoding depends on -----

  /** The sextets among the characters of s, whatever else is there. */
  function Payload(s: string): seq<Sextet> {
    if s == [] then []
    else
      var before := Payload(s[..|s| - 1]);
      var v := SextetOf(s[|s| - 1]);
      if v.Some? then before + [v.value] else before
  }

  ghost predicate Tolerated(s: string) {
    forall i :: 0 <= i < |s| ==> TolerableChar(s[i])
  }

  lemma {:induction false} PayloadTrimStart(s: string)
    ensures Payload(TrimStart(s)) == Payload(s)
  {
    if s != [] && IsWhitespace(s[0]) {
      PayloadTrimStart(s[1..]);
      PayloadDropFirst(s);
    }
  }

  lemma {:induction false} PayloadDropFirst(s: string)
    requires s != [] && SextetOf(s[0]).None?
    ensures Payload(s) == Payload(s[1..])
  {
    if |s| > 1 {
      assert s[..|s| - 1][1..] == s[1..][..|s| - 2];
      PayloadDropFirst(s[..|s| - 1]);
    }
  }

  lemma {:induction false} PayloadTrimEnd(s: string)
    ensures Payload(TrimEnd(s)) == Payload(s)
  {
    if s != [] && IsWhitespace(s[|s| - 1]) {
      PayloadTrimEnd(s[..|s| - 1]);
    }
  }

  predicate TolerableChar(c: char) { SextetOf(c).Some? || IsSkipped(c) || c == '=' }

  lemma {:induction false} ToleratedStep(p: string, c: char)
    ensures Tolerated(p + [c]) <==> Tolerated(p) && TolerableChar(c)
  {
    var s := p + [c];
    assert s[|p|] == c && forall i :: 0 <= i < |p| ==> s[i] == p[i];
  }

  lemma {:induction false} PayloadStep(p: string, c: char)
    ensures Payload(p + [c]) == if SextetOf(c).Some? then Payload(p) + [SextetOf(c).value] else Payload(p)
    ensures WithoutPadding(p + [c]) == if c == '=' then WithoutPadding(p) else WithoutPadding(p) + [c]
  {
    assert (p + [c])[..|p|] == p;
  }

  lemma {:induction false} SextetsArePayload(s: string)
    ensures Sextets(WithoutPadding(s)).Ok? <==> Tolerated(s)
    ensures Tolerated(s) ==> Sextets(WithoutPadding(s)) == Ok(Payload(s))
  {
    if s != [] {
      var p, c := s[..|s| - 1], s[|s| - 1];
      SextetsArePayload(p);
      assert s == p + [c];
      ToleratedStep(p, c);
      PayloadStep(p, c);
      SextetsStep(WithoutPadding(p), c);
    }
  }

  /** A text is accepted exactly when, apart from white space around it, every
      character is a sextet, padding, CR, LF or a space; and then the bytes are a
      function of its sextets alone, three for every four. */
  lemma {:induction false} DecodeByPayload(s: string)
    ensures DecodeSpec(s).Ok? <==> Tolerated(Trim(s))
    ensures Tolerated(Trim(s)) ==> DecodeSpec(s) == Ok(BytesOf(Payload(s)))
    ensures DecodeSpec(s).Ok? ==> |DecodeSpec(s).value| == 3 * |Payload(s)| / 4
  {
    SextetsArePayload(Trim(s));
    PayloadTrimStart(s);
    PayloadTrimEnd(TrimStart(s));
  }

  // ----- The encoder -----

  lemma OneDigit(k: nat, y: nat, d: Sextet)
    ensures Digits64(k + 1, y * 64 + d) == Digits64(k, y) + [d]
  {
    assert (y * 64 + d) / 64 == y;
  }

  lemma FourDigits(k: nat, n: nat, t: nat)
    requires t < 0x100_0000
    ensures Digits64(k + 4, n * 0x100_0000 + t) ==
            Digits64(k, n) + [t / 0x4_0000 % 64, t / 0x1000 % 64, t / 64 % 64, t % 64]
  {
    TakenApart(t);
    FourSteps(k, n, t / 0x4_0000 % 64, t / 0x1000 % 64, t / 64 % 64, t % 64);
  }

  lemma TakenApart(t: nat)
    requires t < 0x100_0000
    ensures t == ((t / 0x4_0000 % 64 * 64 + t / 0x1000 % 64) * 64 + t / 64 % 64) * 64 + t % 64
  {
    var t1, t2, t3 := t / 64, t / 0x1000, t / 0x4_0000;
    assert t == t1 * 64 + t % 64;
    assert t1 == t2 * 64 + t1 % 64;
    assert t2 == t3 * 64 + t2 % 64;
    assert t3 % 64 == t3;
  }

  lemma FourSteps(k: nat, n: nat, a: Sextet, b: Sextet, c: Sextet, d: Sextet)
    ensures Digits64(k + 4, n * 0x100_0000 + (((a * 64 + b) * 64 + c) * 64 + d)) == Digits64(k, n) + [a, b, c, d]
  {
    var x1 := n * 64 + a;
    var x2 := x1 * 64 + b;
    var x3 := x2 * 64 + c;
    OneDigit(k, n, a);
    OneDigit(k + 1, x1, b);
    OneDigit(k + 2, x2, c);
    OneDigit(k + 3, x3, d);
    assert Digits64(k, n) + [a] + [b] + [c] + [d] == Digits64(k, n) + [a, b, c, d];
    assert x3 * 64 + d == n * 0x100_0000 + (((a * 64 + b) * 64 + c) * 64 + d);
  }

  /** Cutting digits off the low end. */
  lemma DigitsPrefix(k: nat, x: nat)
    ensures Digits64(k + 1, x)[..k] == Digits64(k, x / 64)
  {
  }

  /** A group of one to three bytes as a 24-bit number, zeros behind a short one. */
  function Triple(chunk: seq<U8>): (t: nat)
    requires 1 <= |chunk| <= 3
    ensures t < 0x100_0000
  {
    0x1_0000 * (chunk[0] as int)
    + (if |chunk| > 1 then 0x100 * (chunk[1] as int) else 0)
    + (if |chunk| > 2 then chunk[2] as int else 0)
  }

  lemma {:induction false} FromBeAppend(p: seq<U8>, chunk: seq<U8>)
    requires 1 <= |chunk| <= 3
    ensures |chunk| == 1 ==> FromBe(p + chunk) == FromBe(p) * 0x100 + Triple(chunk) / 0x1_0000
    ensures |chunk| == 2 ==> FromBe(p + chunk) == FromBe(p) * 0x1_0000 + Triple(chunk) / 0x100
    ensures |chunk| == 3 ==> FromBe(p + chunk) == FromBe(p) * 0x100_0000 + Triple(chunk)
  {
    var q := p + [chunk[0]];
    FromBePush(p, chunk[0]);
    if |chunk| == 1 {
      assert p + chunk == q;
    } else {
      FromBePush(q, chunk[1]);
      if |chunk| == 2 {
        assert p + chunk == q + [chunk[1]];
      } else {
        FromBePush(q + [chunk[1]], chunk[2]);
        assert p + chunk == q + [chunk[1]] + [chunk[2]];
      }
    }
  }

  lemma {:induction false} FromBePush(p: seq<U8>, b: U8)
    ensures FromBe(p + [b]) == FromBe(p) * 0x100 + b
  {
    assert (p + [b])[..|p|] == p;
  }

  /** Whole groups and what is left of them. */
  lemma Groups(j: nat, r: nat)
    requires r < 3
    ensures SextetCount(3 * j + r) == 4 * j + (if r == 0 then 0 else r + 1)
    ensures (3 * j + r) % 3 == r
    ensures 6 * SextetCount(3 * j + r) / 8 == 3 * j + r
    ensures Pow2Small(Leftover(SextetCount(3 * j + r))) == Fill(3 * j + r)
  {
  }

  lemma {:induction false} FilledTail(n: nat, chunk: seq<U8>)
    requires 1 <= |chunk| <= 3
    ensures var x := n * 0x100_0000 + Triple(chunk);
            && (|chunk| == 1 ==> (n * 0x100 + Triple(chunk) / 0x1_0000) * 16 == x / 64 / 64)
            && (|chunk| == 2 ==> (n * 0x1_0000 + Triple(chunk) / 0x100) * 4 == x / 64)
  {
  }

  /** The four sextets of a 24-bit group. */
  function Quad(t: nat): seq<Sextet> {
    [t / 0x4_0000 % 64, t / 0x1000 % 64, t / 64 % 64, t % 64]
  }

  /** The value n grown by a group, zeros filling it to whole sextets. */
  function Filled(n: nat, chunk: seq<U8>): nat
    requires 1 <= |chunk| <= 3
  {
    var t := Triple(chunk);
    if |chunk| == 1 then (n * 0x100 + t / 0x1_0000) * 16
    else if |chunk| == 2 then (n * 0x1_0000 + t / 0x100) * 4
    else n * 0x100_0000 + t
  }

  lemma {:induction false} DigitsOfGroup(k: nat, n: nat, chunk: seq<U8>)
    requires 1 <= |chunk| <= 3
    ensures Digits64(k + |chunk| + 1, Filled(n, chunk)) == Digits64(k, n) + Quad(Triple(chunk))[..|chunk| + 1]
  {
    var x, q := n * 0x100_0000 + Triple(chunk), Quad(Triple(chunk));
    FilledTail(n, chunk);
    FourDigits(k, n, Triple(chunk));
    var d := Digits64(k, n);
    assert Digits64(k + 4, x) == d + q;
    if |chunk| == 3 {
      assert q[..4] == q;
    } else {
      DigitsPrefix(k + 3, x);
      assert (d + q)[..k + 3] == d + q[..3];
      if |chunk| == 1 {
        DigitsPrefix(k + 2, x / 64);
        assert (d + q[..3])[..k + 2] == d + q[..2];
      }
    }
  }

  lemma GroupCounts(n: nat, c: nat)
    requires n % 3 == 0 && 1 <= c <= 3
    ensures SextetCount(n) == 4 * (n / 3) && SextetCount(n + c) == 4 * (n / 3) + c + 1
    ensures Fill(n) == 1 && Fill(n + c) == if c == 1 then 16 else if c == 2 then 4 else 1
  {
    var j := n / 3;
    Groups(j, 0);
    if c == 3 {
      Groups(j + 1, 0);
    } else {
      Groups(j, c);
    }
  }

  lemma {:induction false} FilledValue(p: seq<U8>, chunk: seq<U8>)
    requires |p| % 3 == 0 && 1 <= |chunk| <= 3
    ensures FromBe(p + chunk) * Fill(|p + chunk|) == Filled(FromBe(p), chunk)
  {
    GroupCounts(|p|, |chunk|);
    FromBeAppend(p, chunk);
  }

  /** The sextets one more group of one to three bytes contributes. */
  lemma {:induction false} GroupSextets(p: seq<U8>, chunk: seq<U8>)
    requires |p| % 3 == 0 && 1 <= |chunk| <= 3
    ensures SextetsOfBytes(p + chunk) == SextetsOfBytes(p) + Quad(Triple(chunk))[..|chunk| + 1]
  {
    var n := FromBe(p);
    GroupCounts(|p|, |chunk|);
    FilledValue(p, chunk);
    DigitsOfGroup(4 * (|p| / 3), n, chunk);
    assert n * Fill(|p|) == n;
  }

  lemma {:induction false} GroupText(p: seq<U8>, chunk: seq<U8>)
    requires |p| % 3 == 0 && 1 <= |chunk| <= 3
    ensures EncodeSpec(p + chunk) == EncodeSpec(p) + (Chars(Quad(Triple(chunk))[..|chunk| + 1]) + Padding(|chunk|))
  {
    GroupSextets(p, chunk);
    var s, q := SextetsOfBytes(p), Quad(Triple(chunk))[..|chunk| + 1];
    var pad := Padding(|chunk|);
    CharsAppend(s, q);
    assert Padding(|p|) == "" && Chars(s) + "" == Chars(s);
    assert (Chars(s) + Chars(q)) + pad == Chars(s) + (Chars(q) + pad);
    PaddingOfLast(|p|, |chunk|);
  }

  lemma {:induction false} CharsAppend(s: seq<Sextet>, q: seq<Sextet>)
    ensures Chars(s + q) == Chars(s) + Chars(q)
  {
  }

  lemma PaddingOfLast(n: nat, c: nat)
    requires n % 3 == 0
    ensures Padding(n + c) == Padding(c)
  {
    assert (n + c) % 3 == c % 3;
  }

  lemma {:induction false} GroupChars(q: seq<Sextet>, n: nat)
    requires |q| == 4 && 1 <= n <= 3
    ensures Chars(q[..n + 1]) + Padding(n) ==
            [CharOf(q[0]), CharOf(q[1])]
            + (if n > 1 then [CharOf(q[2])] else "=") + (if n > 2 then [CharOf(q[3])] else "=")
  {
  }

  /** The body of the chunk loop. */
  method EncodeGroup(chunk: seq<U8>) returns (s: string)
    requires 1 <= |chunk| <= 3
    ensures s == Chars(Quad(Triple(chunk))[..|chunk| + 1]) + Padding(|chunk|)
  {
    var b0: int := chunk[0];
    var b1: int := if |chunk| > 1 then chunk[1] else 0;
    var b2: int := if |chunk| > 2 then chunk[2] else 0;
    var triple := b0 * 0x1_0000 + b1 * 0x100 + b2;
    s := [CharOf(triple / 0x4_0000 % 64), CharOf(triple / 0x1000 % 64)];
    if |chunk| > 1 {
      s := s + [CharOf(triple / 64 % 64)];
    } else {
      s := s + "=";
    }
    if |chunk| > 2 {
      s := s + [CharOf(triple % 64)];
    } else {
      s := s + "=";
    }
    GroupChars(Quad(triple), |chunk|);
  }

  /** Where chunk k of a slice of n bytes begins, or the end behind the last one. */
  function ChunkStart(n: nat, k: nat): nat {
    if 3 * k < n then 3 * k else n
  }

  lemma {:induction false} EncodeStep(bytes: seq<U8>, k: nat)
    requires 3 * k < |bytes|
    ensures ChunkStart(|bytes|, k) < ChunkStart(|bytes|, k + 1) <= ChunkStart(|bytes|, k) + 3
    ensures var chunk := bytes[ChunkStart(|bytes|, k)..ChunkStart(|bytes|, k + 1)];
            EncodeSpec(bytes[..ChunkStart(|bytes|, k + 1)]) ==
            EncodeSpec(bytes[..ChunkStart(|bytes|, k)])
            + (Chars(Quad(Triple(chunk))[..|chunk| + 1]) + Padding(|chunk|))
  {
    var i, end := 3 * k, ChunkStart(|bytes|, k + 1);
    assert i % 3 == 0;
    assert bytes[..end] == bytes[..i] + bytes[i..end];
    GroupText(bytes[..i], bytes[i..end]);
  }

  lemma {:induction false} EncodeEmpty(bytes: seq<U8>)
    ensures EncodeSpec(bytes[..0]) == "" && bytes[..|bytes|] == bytes
  {
    assert bytes[..0] == [];
  }

  method EncodeBase64(bytes: seq<U8>) returns (s: string)
    ensures s == EncodeSpec(bytes)
  {
    s := "";
    EncodeEmpty(bytes);
    var k := 0;
    while 3 * k < |bytes|
      invariant s == EncodeSpec(bytes[..ChunkStart(|bytes|, k)])
    {
      EncodeStep(bytes, k);
      var text := EncodeGroup(bytes[ChunkStart(|bytes|, k)..ChunkStart(|bytes|, k + 1)]);
      s := s + text;
      k := k + 1;
    }
  }

  // ----- Round trip -----

  function Pow64(k: nat): nat {
    if k == 0 then 1 else 64 * Pow64(k - 1)
  }

  lemma {:induction false} ValueOfDigits(k: nat, x: nat)
    requires x < Pow64(k)
    ensures Value64(Digits64(k, x)) == x
  {
    if k > 0 {
      ValueOfDigits(k - 1, x / 64);
      assert Digits64(k, x)[..k - 1] == Digits64(k - 1, x / 64);
    }
  }

  /** Four base-64 digits are three base-256 digits, and shorter groups are filled up. */
  lemma PowersOfGroup(a: nat, b: nat)
    requires Pow64(a) == Pow256(b)
    ensures Pow64(a + 2) == Pow256(b + 1) * 16
    ensures Pow64(a + 3) == Pow256(b + 2) * 4
    ensures Pow64(a + 4) == Pow256(b + 3)
  {
    assert Pow64(a + 2) == 64 * Pow64(a + 1) == 4096 * Pow64(a);
    assert Pow64(a + 4) == 64 * Pow64(a + 3) == 4096 * Pow64(a + 2);
    assert Pow256(b + 1) == 256 * Pow256(b);
    assert Pow256(b + 3) == 256 * Pow256(b + 2) == 65536 * Pow256(b + 1);
  }

  lemma {:induction false} GroupPowers(j: nat)
    ensures Pow64(4 * j) == Pow256(3 * j)
  {
    if j > 0 {
      GroupPowers(j - 1);
      PowersOfGroup(4 * (j - 1), 3 * (j - 1));
    }
  }

  lemma FilledPowers(n: nat)
    ensures Pow64(SextetCount(n)) == Pow256(n) * Fill(n)
  {
    var j, r := n / 3, n % 3;
    Groups(j, r);
    GroupPowers(j);
    PowersOfGroup(4 * j, 3 * j);
    assert n == 3 * j + r;
  }

  lemma {:induction false} BytesOfSextets(b: seq<U8>)
    ensures BytesOf(SextetsOfBytes(b)) == b
  {
    var n := |b|;
    ValueOfSextets(b);
    assert 6 * SextetCount(n) / 8 == n && Pow2Small(Leftover(SextetCount(n))) == Fill(n) by {
      Groups(n / 3, n % 3);
      assert 3 * (n / 3) + n % 3 == n;
    }
    ToFromBe(b);
  }

  lemma {:induction false} ValueOfSextets(b: seq<U8>)
    ensures Value64(SextetsOfBytes(b)) / Fill(|b|) == FromBe(b)
  {
    var n, x := |b|, FromBe(b);
    var y := x * Fill(n);
    FromBeBound(b);
    FilledValueFits(n, x, y);
    ValueOfDigits(SextetCount(n), y);
  }

  lemma FilledValueFits(n: nat, x: nat, y: nat)
    requires x < Pow256(n) && y == x * Fill(n)
    ensures y < Pow64(SextetCount(n)) && y / Fill(n) == x
  {
    FilledPowers(n);
    FillKeepsOrder(x, Pow256(n), n);
  }

  lemma FillKeepsOrder(x: nat, y: nat, n: nat)
    requires x < y
    ensures x * Fill(n) < y * Fill(n) && x * Fill(n) / Fill(n) == x
  {
  }

  lemma {:induction false} SextetsOfChars(s: seq<Sextet>)
    ensures Sextets(Chars(s)) == Ok(s) && WithoutPadding(Chars(s)) == Chars(s)
  {
    if s != [] {
      var p := s[..|s| - 1];
      assert Chars(s)[..|s| - 1] == Chars(p);
      SextetsOfChars(p);
      assert Chars(s) == Chars(p) + [CharOf(s[|s| - 1])];
      assert s == p + [s[|s| - 1]];
    } else {
      assert Chars(s) == "";
    }
  }

  lemma {:induction false} PaddingDropped(t: string)
    ensures WithoutPadding(t + "=") == WithoutPadding(t) == WithoutPadding(t + "==")
  {
    assert (t + "=")[..|t|] == t;
    assert (t + "==")[..|t| + 1] == t + "=";
  }

  /** Every byte string survives encoding and decoding. */
  lemma {:induction false} RoundTrip(b: seq<U8>)
    ensures DecodeSpec(EncodeSpec(b)) == Ok(b)
  {
    var s := SextetsOfBytes(b);
    var text := EncodeSpec(b);
    assert forall i :: 0 <= i < |text| ==> !IsWhitespace(text[i]);
    assert Trim(text) == text;
    SextetsOfChars(s);
    PaddingDropped(Chars(s));
    assert Chars(s) + "" == Chars(s);
    BytesOfSextets(b);
  }

  // ----- Which texts carry the same bytes -----

  lemma {:induction false} ValueBelow(s: seq<Sextet>)
    ensures Value64(s) < Pow64(|s|)
  {
    if s != [] {
      ValueBelow(s[..|s| - 1]);
    }
  }

  lemma GroupOf(k: nat) returns (j: nat, q: nat)
    ensures k == 4 * j + q && q < 4 && q == k % 4
  {
    j, q := k / 4, k % 4;
  }

  /** The whole bytes and the leftover bits of k sextets. */
  lemma PowersOfSextets(k: nat)
    ensures Pow64(k) == Pow256(6 * k / 8) * Pow2Small(Leftover(k))
  {
    var j, q := GroupOf(k);
    LeftoverByGroup(j, q);
    PowersInGroup(4 * j, 3 * j, q, j);
  }

  lemma PowersInGroup(a: nat, b: nat, q: nat, j: nat)
    requires q < 4 && a == 4 * j && b == 3 * j
    ensures Pow64(a + q) == Pow256(b + (if q == 0 then 0 else q - 1)) * Pow2Small(if q == 0 then 0 else 8 - 2 * q)
  {
    GroupPowers(j);
    PowersOfGroup(a, b);
    if q == 1 {
      assert Pow64(a + 1) == 64 * Pow64(a);
    }
  }

  lemma ProductAtMost(b: nat, x: nat, y: nat)
    requires x <= y
    ensures x * b <= y * b
  {
  }

  lemma QuotientBelow(x: nat, a: nat, b: nat)
    requires b > 0 && x < a * b
    ensures x / b < a
  {
    if a <= x / b {
      ProductAtMost(b, a, x / b);
      assert false;
    }
  }

  /** The number the bytes of a sextet string stand for fits them. */
  lemma {:induction false} BytesFit(s: seq<Sextet>)
    ensures Value64(s) / Pow2Small(Leftover(|s|)) < Pow256(6 * |s| / 8)
    ensures FromBe(BytesOf(s)) == Value64(s) / Pow2Small(Leftover(|s|))
  {
    ValueBelow(s);
    PowersOfSextets(|s|);
    QuotientBelow(Value64(s), Pow256(6 * |s| / 8), Pow2Small(Leftover(|s|)));
    FromToBe(6 * |s| / 8, Value64(s) / Pow2Small(Leftover(|s|)));
  }

  /** Two accepted texts carry the same bytes exactly when their sextets make equally
      many whole bytes and agree as numbers once the leftover bits are dropped. */
  lemma {:induction false} SameBytesExactly(s: string, t: string)
    requires DecodeSpec(s).Ok? && DecodeSpec(t).Ok?
    ensures var a, b := Payload(s), Payload(t);
            DecodeSpec(s) == DecodeSpec(t) <==>
            && 6 * |a| / 8 == 6 * |b| / 8
            && Value64(a) / Pow2Small(Leftover(|a|)) == Value64(b) / Pow2Small(Leftover(|b|))
  {
    DecodeByPayload(s);
    DecodeByPayload(t);
    BytesFit(Payload(s));
    BytesFit(Payload(t));
  }

  // ----- Which texts are encodings -----

  /** The padding behind k sextets. */
  function PaddingBehind(k: nat): string {
    if k % 4 == 2 then "==" else if k % 4 == 3 then "=" else ""
  }

  /** Standard characters, no lone sextet, zero leftover bits, full padding, nothing else. */
  predicate Canonical(t: string) {
    var s := Payload(t);
    && |s| % 4 != 1
    && Value64(s) % Pow2Small(Leftover(|s|)) == 0
    && t == Chars(s) + PaddingBehind(|s|)
  }

  lemma {:induction false} PayloadOfChars(s: seq<Sextet>)
    ensures Payload(Chars(s)) == s
  {
    if s != [] {
      var p, v := s[..|s| - 1], s[|s| - 1];
      PayloadOfChars(p);
      assert Chars(s) == Chars(p) + [CharOf(v)] && s == p + [v];
      PayloadStep(Chars(p), CharOf(v));
    }
  }

  lemma {:induction false} PayloadIgnoresPadding(t: string)
    ensures Payload(t + "=") == Payload(t) == Payload(t + "==")
  {
    PayloadStep(t, '=');
    PayloadStep(t + "=", '=');
    assert t + "=" + "=" == t + "==";
  }

  lemma {:induction false} PayloadOfPadded(s: seq<Sextet>, k: nat)
    ensures Payload(Chars(s) + PaddingBehind(k)) == s
  {
    PayloadOfChars(s);
    assert Chars(s) + "" == Chars(s);
    PayloadIgnoresPadding(Chars(s));
  }

  /** The sextet count of an encoding: whole groups of four, or two or three more. */
  lemma CountsOfBytes(n: nat)
    ensures SextetCount(n) % 4 != 1 && PaddingBehind(SextetCount(n)) == Padding(n)
    ensures Pow2Small(Leftover(SextetCount(n))) == Fill(n)
  {
    var j, r := n / 3, n % 3;
    assert n == 3 * j + r;
    Groups(j, r);
    RestOfFour(j, if r == 0 then 0 else r + 1);
  }

  lemma RestOfFour(j: nat, q: nat)
    requires q < 4
    ensures (4 * j + q) % 4 == q
  {
  }

  lemma MultipleOfFill(x: nat, n: nat)
    ensures x * Fill(n) % Fill(n) == 0
  {
  }

  lemma {:induction false} EncodingCanonical(b: seq<U8>)
    ensures Canonical(EncodeSpec(b))
  {
    var n, s, y := |b|, SextetsOfBytes(b), FromBe(b) * Fill(|b|);
    CountsOfBytes(n);
    PayloadOfPadded(s, |s|);
    assert Value64(s) == y by {
      FromBeBound(b);
      FilledValueFits(n, FromBe(b), y);
      ValueOfDigits(SextetCount(n), y);
    }
    MultipleOfFill(FromBe(b), n);
  }

  lemma {:induction false} DigitsOfValue(s: seq<Sextet>)
    ensures Digits64(|s|, Value64(s)) == s
  {
    if s != [] {
      DigitsOfValue(s[..|s| - 1]);
      OneDigit(|s| - 1, Value64(s[..|s| - 1]), s[|s| - 1]);
    }
  }

  /** Sextets that make whole bytes with nothing left over: the bytes' own count. */
  lemma CountsOfSextets(k: nat)
    requires k % 4 != 1
    ensures SextetCount(6 * k / 8) == k && Fill(6 * k / 8) == Pow2Small(Leftover(k))
    ensures Padding(6 * k / 8) == PaddingBehind(k)
  {
    var j, q := GroupOf(k);
    LeftoverByGroup(j, q);
    Groups(j, if q == 0 then 0 else q - 1);
  }

  lemma WholeQuotient(x: nat, f: nat)
    requires f > 0 && x % f == 0
    ensures x / f * f == x
  {
  }

  lemma {:induction false} CanonicalIsEncoding(s: seq<Sextet>)
    requires |s| % 4 != 1 && Value64(s) % Pow2Small(Leftover(|s|)) == 0
    ensures EncodeSpec(BytesOf(s)) == Chars(s) + PaddingBehind(|s|)
  {
    BytesFit(s);
    CountsOfSextets(|s|);
    WholeQuotient(Value64(s), Pow2Small(Leftover(|s|)));
    DigitsOfValue(s);
  }

  lemma {:induction false} CanonicalAccepted(t: string)
    requires t == Chars(Payload(t)) + PaddingBehind(|Payload(t)|)
    ensures DecodeSpec(t) == Ok(BytesOf(Payload(t)))
  {
    assert forall i :: 0 <= i < |t| ==> TolerableChar(t[i]) && !IsWhitespace(t[i]);
    assert Trim(t) == t;
    DecodeByPayload(t);
  }

  /** A text is the encoding of the bytes it decodes to exactly when it is canonical. */
  lemma {:induction false} ReencodesExactly(t: string)
    ensures DecodeSpec(t).Ok? && EncodeSpec(DecodeSpec(t).value) == t <==> Canonical(t)
  {
    if DecodeSpec(t).Ok? && EncodeSpec(DecodeSpec(t).value) == t {
      EncodingCanonical(DecodeSpec(t).value);
    }
    if Canonical(t) {
      CanonicalAccepted(t);
      CanonicalIsEncoding(Payload(t));
    }
  }

  // ----- Characters and groups, literally -----

  /** The alphabet of RFC 4648, section 4, as ASCII codes. */
  lemma CharCodes(v: Sextet)
    ensures CharOf(v) as int == if v < 26 then 65 + v else if v < 52 then 71 + v else if v < 62 then v - 4
                                else if v == 62 then 43 else 47
  {
  }

  /** A character stands for a sextet exactly when it is its letter, or `-` or `_` for
      the last two. */
  lemma SextetsByChar(c: char, v: Sextet)
    ensures SextetOf(c) == Some(v) <==> c == CharOf(v) || (v == 62 && c as int == 45) || (v == 63 && c as int == 95)
  {
  }

  /** Besides sextets, padding, CR, LF and spaces are tolerated. */
  lemma TolerableExactly(c: char)
    ensures TolerableChar(c) <==>
            (exists v: Sextet :: SextetOf(c) == Some(v)) || c as int in {10, 13, 32, 61}
  {
  }

  /** The 25 code points of the White_Space property. */
  lemma WhitespaceExactly(c: char)
    ensures IsWhitespace(c) <==>
            c as int in {0x9, 0xa, 0xb, 0xc, 0xd, 0x20, 0x85, 0xa0, 0x1680, 0x2000, 0x2001, 0x2002, 0x2003, 0x2004,
                         0x2005, 0x2006, 0x2007, 0x2008, 0x2009, 0x200a, 0x2028, 0x2029, 0x202f, 0x205f, 0x3000}
  {
  }

  lemma {:induction false} TrimStartExactly(s: string) returns (i: nat)
    ensures i <= |s| && TrimStart(s) == s[i..] && (forall k :: 0 <= k < i ==> IsWhitespace(s[k]))
    ensures i < |s| ==> !IsWhitespace(s[i])
  {
    if s != [] && IsWhitespace(s[0]) {
      i := TrimStartExactly(s[1..]);
      i := i + 1;
    } else {
      i := 0;
    }
  }

  lemma {:induction false} TrimEndExactly(s: string) returns (j: nat)
    ensures j <= |s| && TrimEnd(s) == s[..j] && (forall k :: j <= k < |s| ==> IsWhitespace(s[k]))
    ensures j > 0 ==> !IsWhitespace(s[j - 1])
  {
    if s != [] && IsWhitespace(s[|s| - 1]) {
      j := TrimEndExactly(s[..|s| - 1]);
    } else {
      j := |s|;
    }
  }

  /** Trimming cuts white space at both ends and nothing else. */
  lemma {:induction false} TrimExactly(s: string) returns (i: nat, j: nat)
    ensures i <= j <= |s| && Trim(s) == s[i..j]
    ensures forall k :: 0 <= k < i || j <= k < |s| ==> IsWhitespace(s[k])
    ensures i < j ==> !IsWhitespace(s[i]) && !IsWhitespace(s[j - 1])
  {
    i := TrimStartExactly(s);
    j := TrimEndExactly(s[i..]);
    j := i + j;
  }

  /** Four sextets are three bytes, bit for bit; two or three are one or two bytes. */
  lemma {:induction false} BytesOfGroup(s: seq<Sextet>, a: Sextet, b: Sextet, c: Sextet, d: Sextet)
    requires |s| % 4 == 0
    ensures BytesOf([]) == [] && BytesOf(s + [a]) == BytesOf(s)
    ensures BytesOf(s + [a, b]) == BytesOf(s) + [4 * a + b / 16]
    ensures BytesOf(s + [a, b, c]) == BytesOf(s) + [4 * a + b / 16] + [16 * (b % 16) + c / 4]
    ensures BytesOf(s + [a, b, c, d]) == BytesOf(s) + [4 * a + b / 16] + [16 * (b % 16) + c / 4] + [64 * (c % 4) + d]
  {
    var s1 := s + [a];
    var s2 := s1 + [b];
    var s3 := s2 + [c];
    assert s + [a, b] == s2 && s + [a, b, c] == s3 && s + [a, b, c, d] == s3 + [d];
    GroupLeftovers(|s|);
    ShiftIn(s, a);
    SecondByte(s, a, b);
    ThirdByte(s1, b, c);
    FourthByte(s2, c, d);
  }

  lemma GroupLeftovers(n: nat)
    requires n % 4 == 0
    ensures Leftover(n) == 0 && Leftover(n + 1) == 6 && Leftover(n + 2) == 4 && Leftover(n + 3) == 2
  {
    var j := n / 4;
    LeftoverByGroup(j, 0);
    LeftoverByGroup(j, 1);
    LeftoverByGroup(j, 2);
    LeftoverByGroup(j, 3);
  }

  /** The byte the second, third or fourth sextet of a group completes. */
  lemma {:induction false} SecondByte(s: seq<Sextet>, a: Sextet, b: Sextet)
    requires Leftover(|s + [a]|) == 6
    ensures BytesOf(s + [a] + [b]) == BytesOf(s + [a]) + [4 * a + b / 16]
  {
    ShiftIn(s, a);
    ShiftIn(s + [a], b);
    SecondBits(Value64(s), a, b);
  }

  lemma SecondBits(v: nat, a: Sextet, b: Sextet)
    ensures ((v * 64 + a) * 64 + b) / 16 % 256 == 4 * a + b / 16
  {
    assert ((v * 64 + a) * 64 + b) / 16 == 4 * a + b / 16 + 256 * v;
    Mod256(4 * a + b / 16, v);
  }

  lemma {:induction false} ThirdByte(s: seq<Sextet>, b: Sextet, c: Sextet)
    requires Leftover(|s + [b]|) == 4
    ensures BytesOf(s + [b] + [c]) == BytesOf(s + [b]) + [16 * (b % 16) + c / 4]
  {
    ShiftIn(s, b);
    ShiftIn(s + [b], c);
    ThirdBits(Value64(s), b, c);
  }

  lemma ThirdBits(v: nat, b: Sextet, c: Sextet)
    ensures ((v * 64 + b) * 64 + c) / 4 % 256 == 16 * (b % 16) + c / 4
  {
    var high := 4 * v + b / 16;
    assert v * 64 + b == 16 * high + b % 16;
    assert ((v * 64 + b) * 64 + c) / 4 == 16 * (b % 16) + c / 4 + 256 * high;
    Mod256(16 * (b % 16) + c / 4, high);
  }

  lemma {:induction false} FourthByte(s: seq<Sextet>, c: Sextet, d: Sextet)
    requires Leftover(|s + [c]|) == 2
    ensures BytesOf(s + [c] + [d]) == BytesOf(s + [c]) + [64 * (c % 4) + d]
  {
    ShiftIn(s, c);
    ShiftIn(s + [c], d);
    FourthBits(Value64(s), c, d);
  }

  lemma FourthBits(v: nat, c: Sextet, d: Sextet)
    ensures ((v * 64 + c) * 64 + d) % 256 == 64 * (c % 4) + d
  {
    var high := 16 * v + c / 4;
    assert v * 64 + c == 4 * high + c % 4;
    assert (v * 64 + c) * 64 + d == 64 * (c % 4) + d + 256 * high;
    Mod256(64 * (c % 4) + d, high);
  }

  /** Three bytes are four characters, bit for bit. */
  lemma {:induction false} EncodingOfThree(p: seq<U8>, x: U8, y: U8, z: U8)
    requires |p| % 3 == 0
    ensures EncodeSpec(p + [x, y, z]) == EncodeSpec(p) +
              [CharOf(x / 4), CharOf(16 * (x % 4) + y / 16), CharOf(4 * (y % 16) + z / 64), CharOf(z % 64)]
  {
    GroupOfBytes(p, [x, y, z], x, y, z);
  }

  /** Two or one at the end are padded, and no bytes are no characters. */
  lemma {:induction false} EncodingOfTwo(p: seq<U8>, x: U8, y: U8)
    requires |p| % 3 == 0
    ensures EncodeSpec(p + [x, y]) == EncodeSpec(p) +
              [CharOf(x / 4), CharOf(16 * (x % 4) + y / 16), CharOf(4 * (y % 16)), '=']
  {
    GroupOfBytes(p, [x, y], x, y, 0);
  }

  lemma {:induction false} EncodingOfOne(p: seq<U8>, x: U8)
    requires |p| % 3 == 0
    ensures EncodeSpec(p + [x]) == EncodeSpec(p) + [CharOf(x / 4), CharOf(16 * (x % 4)), '=', '=']
    ensures EncodeSpec([]) == ""
  {
    GroupOfBytes(p, [x], x, 0, 0);
    EncodeEmpty([]);
  }

  lemma {:induction false} GroupOfBytes(p: seq<U8>, chunk: seq<U8>, x: U8, y: U8, z: U8)
    requires |p| % 3 == 0 && 1 <= |chunk| <= 3 && chunk == [x, y, z][..|chunk|]
    requires (|chunk| < 3 ==> z == 0) && (|chunk| < 2 ==> y == 0)
    ensures EncodeSpec(p + chunk) == EncodeSpec(p) +
            ([CharOf(x / 4), CharOf(16 * (x % 4) + y / 16)]
             + (if |chunk| > 1 then [CharOf(4 * (y % 16) + z / 64)] else "=")
             + (if |chunk| > 2 then [CharOf(z % 64)] else "="))
  {
    assert Quad(Triple(chunk)) == [x / 4, 16 * (x % 4) + y / 16, 4 * (y % 16) + z / 64, z % 64] by {
      QuadBits(x, y, z);
    }
    GroupText(p, chunk);
    GroupChars(Quad(Triple(chunk)), |chunk|);
  }

  lemma TopDigit(h: nat, r: nat)
    requires r < 0x4_0000
    ensures (0x4_0000 * h + r) / 0x4_0000 == h
  {
  }

  lemma UpperDigits(h: nat, r: nat)
    requires r < 0x1000
    ensures (0x1000 * h + r) / 0x1000 == h
  {
  }

  lemma LowDigit(h: nat, r: nat)
    requires r < 64
    ensures (64 * h + r) / 64 == h && (64 * h + r) % 64 == r
  {
  }

  lemma QuadOfParts(a: Sextet, b: Sextet, c: Sextet, d: Sextet)
    ensures Quad(0x4_0000 * (a as int) + 0x1000 * (b as int) + 64 * (c as int) + d) == [a, b, c, d]
  {
    TopDigit(a, 0x1000 * (b as int) + 64 * (c as int) + d);
    UpperDigits(64 * (a as int) + b, 64 * (c as int) + d);
    LowDigit(0x1000 * (a as int) + 64 * (b as int) + c, d);
    LowDigit(a, b);
    LowDigit(64 * (a as int) + b, c);
  }

  lemma QuadBits(x: U8, y: U8, z: U8)
    ensures Quad(0x1_0000 * (x as int) + 0x100 * (y as int) + z) ==
            [x / 4, 16 * (x % 4) + y / 16, 4 * (y % 16) + z / 64, z % 64]
  {
    QuadOfParts(x / 4, 16 * (x % 4) + y / 16, 4 * (y % 16) + z / 64, z % 64);
    assert x == 4 * (x / 4) + x % 4 && y == 16 * (y / 16) + y % 16 && z == 64 * (z / 64) + z % 64;
  }
}

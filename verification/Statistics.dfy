/** Sums and squared deviations of real samples, in exact arithmetic. The
    inductive lemmas speak of an arbitrary summand, so that every product stays
    inside a small lemma about plain numbers. */
module Statistics {
  function Sum(s: seq<real>): real {
    if s == [] then 0.0 else Sum(s[..|s| - 1]) + s[|s| - 1]
  }

  /** Squared deviations from m, summed. */
  function SqDev(s: seq<real>, m: real): real {
    if s == [] then 0.0 else SqDev(s[..|s| - 1], m) + (s[|s| - 1] - m) * (s[|s| - 1] - m)
  }

  function Mean(s: seq<real>): real
    requires s != []
  {
    Sum(s) / (|s| as real)
  }

  function Variance(s: seq<real>): real
    requires s != []
  {
    SqDev(s, Mean(s)) / (|s| as real)
  }

  /** `clamp(0.0, 1.0)` */
  function Clamp01(x: real): real {
    if x < 0.0 then 0.0 else if x > 1.0 then 1.0 else x
  }

  function AbsReal(x: real): real { if x < 0.0 then -x else x }

  /** How many samples reach a threshold. */
  function CountAtLeast(s: seq<real>, t: real): (n: nat)
    ensures n <= |s|
  {
    if s == [] then 0 else CountAtLeast(s[..|s| - 1], t) + (if s[|s| - 1] >= t then 1 else 0)
  }

  lemma {:induction false} SumsPush(p: seq<real>, x: real, m: real)
    ensures Sum(p + [x]) == Sum(p) + x && SqDev(p + [x], m) == SqDev(p, m) + (x - m) * (x - m)
  {
    assert (p + [x])[..|p|] == p;
  }

  lemma {:induction false} CountPush(p: seq<real>, x: real, t: real)
    ensures CountAtLeast(p + [x], t) == CountAtLeast(p, t) + (if x >= t then 1 else 0)
  {
    assert (p + [x])[..|p|] == p;
  }

  /** How a set of indices grows by one element. */
  lemma OneMoreMember(s: set<int>, n: int, more: set<int>)
    requires n !in s && (more == {n} || more == {})
    ensures |s + more| == |s| + |more|
  {
    if more == {} {
      assert s + more == s;
    }
  }

  ghost predicate Within(s: seq<real>, lo: real, hi: real) {
    forall i :: 0 <= i < |s| ==> lo <= s[i] <= hi
  }

  // ----- Products of plain numbers -----

  lemma MulMonotone(k: real, x: real, y: real)
    requires k >= 0.0 && x <= y
    ensures k * x <= k * y
  {
  }

  lemma StrictMul(k: real, x: real, y: real)
    requires k > 0.0 && x < y
    ensures k * x < k * y
  {
  }

  /** The same with the products named, for callers that compare them further. */
  lemma StrictProduct(k: real, x: real, y: real, kx: real, ky: real)
    requires k > 0.0 && x < y && kx == k * x && ky == k * y
    ensures kx < ky
  {
  }

  /** A product under a name of its own, which keeps it apart from the factors. */
  lemma Product(x: real, y: real) returns (p: real)
    ensures p == x * y
  {
    p := x * y;
  }

  lemma Cancel(k: real, x: real, y: real)
    requires k > 0.0 && k * x <= k * y
    ensures x <= y
  {
    if x > y {
      StrictMul(k, y, x);
    }
  }

  lemma Quotient(x: real, n: real)
    requires n != 0.0
    ensures n * (x / n) == x
  {
  }

  lemma Distribute(d: real, u: real, v: real)
    ensures d * (u + v) == d * u + d * v
  {
  }

  lemma SquareNonNegative(a: real)
    ensures a * a >= 0.0
  {
  }

  lemma SquareAtMost(d: real, r: real)
    requires -r <= d <= r
    ensures d * d <= r * r
  {
    assert (r - d) * (r + d) >= 0.0;
  }

  lemma SquareOfNegation(d: real)
    ensures (-d) * (-d) == d * d
  {
  }

  /** n copies of x, added. */
  function Times(n: nat, x: real): real {
    if n == 0 then 0.0 else Times(n - 1, x) + x
  }

  lemma {:induction false} TimesIsProduct(n: nat, x: real)
    ensures Times(n, x) == n as real * x
  {
    if n > 0 {
      TimesIsProduct(n - 1, x);
      Distribute(x, (n - 1) as real, 1.0);
    }
  }

  lemma QuotientAtMost(x: real, n: nat, y: real)
    requires n > 0 && x <= Times(n, y)
    ensures x / n as real <= y
  {
    TimesIsProduct(n, y);
    Quotient(x, n as real);
    Cancel(n as real, x / n as real, y);
  }

  lemma QuotientAtLeast(x: real, n: nat, y: real)
    requires n > 0 && Times(n, y) <= x
    ensures y <= x / n as real
  {
    TimesIsProduct(n, y);
    Quotient(x, n as real);
    Cancel(n as real, y, x / n as real);
  }

  // ----- Sums of an arbitrary summand -----

  function SumOf(f: real -> real, s: seq<real>): real {
    if s == [] then 0.0 else SumOf(f, s[..|s| - 1]) + f(s[|s| - 1])
  }

  lemma {:induction false} SqDevAsSum(s: seq<real>, m: real, f: real -> real)
    requires forall x :: f(x) == (x - m) * (x - m)
    ensures SqDev(s, m) == SumOf(f, s)
  {
    if s != [] {
      SqDevAsSum(s[..|s| - 1], m, f);
    }
  }

  lemma {:induction false} SumOfGroups(f: real -> real, s: seq<real>, hi: real, high: real, low: real)
    requires forall i :: 0 <= i < |s| ==> f(s[i]) >= if s[i] >= hi then high else low
    ensures SumOf(f, s) >= Times(CountAtLeast(s, hi), high) + Times(|s| - CountAtLeast(s, hi), low)
  {
    if s != [] {
      SumOfGroups(f, s[..|s| - 1], hi, high, low);
    }
  }

  lemma {:induction false} SumOfTerm(f: real -> real, s: seq<real>, i: nat)
    requires i < |s| && forall x :: f(x) >= 0.0
    ensures 0.0 <= f(s[i]) <= SumOf(f, s)
  {
    if i < |s| - 1 {
      SumOfTerm(f, s[..|s| - 1], i);
    } else {
      SumOfNonNegative(f, s[..|s| - 1]);
    }
  }

  lemma {:induction false} SumOfNonNegative(f: real -> real, s: seq<real>)
    requires forall x :: f(x) >= 0.0
    ensures SumOf(f, s) >= 0.0
  {
    if s != [] {
      SumOfNonNegative(f, s[..|s| - 1]);
    }
  }

  lemma {:induction false} SumOfDeviations(s: seq<real>, m: real, d: real -> real)
    requires forall x :: d(x) == x - m
    ensures SumOf(d, s) == Sum(s) - Times(|s|, m)
  {
    if s != [] {
      SumOfDeviations(s[..|s| - 1], m, d);
    }
  }

  lemma {:induction false} SumOfScaled(s: seq<real>, k: real, d: real -> real, h: real -> real)
    requires forall x :: h(x) == k * d(x)
    ensures SumOf(h, s) == k * SumOf(d, s)
  {
    if s != [] {
      var p, e := s[..|s| - 1], s[|s| - 1];
      SumOfScaled(p, k, d, h);
      Distribute(k, SumOf(d, p), d(e));
    }
  }

  ghost predicate SquaresAround(f: real -> real, m: real) {
    forall x :: f(x) == (x - m) * (x - m)
  }

  ghost predicate Slope(h: real -> real, k: real, m: real) {
    forall x :: h(x) == k * (x - m)
  }

  function SquareFrom(m: real): (f: real -> real)
    ensures SquaresAround(f, m)
  {
    (x: real) => (x - m) * (x - m)
  }

  function SlopeFrom(k: real, m: real): (h: real -> real)
    ensures Slope(h, k, m)
  {
    (x: real) => k * (x - m)
  }

  /** Deviations from the mean cancel, also when scaled. */
  lemma {:induction false} MeanCancels(s: seq<real>, m: real, k: real, h: real -> real)
    requires s != [] && m == Mean(s) && Slope(h, k, m)
    ensures SumOf(h, s) == 0.0
  {
    var d := SlopeFrom(1.0, m);
    SumOfScaled(s, k, d, h);
    SumOfDeviations(s, m, d);
    TimesIsProduct(|s|, m);
    Quotient(Sum(s), |s| as real);
  }

  // ----- Sequences of two values -----

  lemma TimesByName(n: nat, x: real, nr: real)
    requires nr == n as real
    ensures Times(n, x) == nr * x
  {
    TimesIsProduct(n, x);
  }

  lemma {:induction false} SumScaled(s: seq<real>, k: real, h: real -> real)
    requires Slope(h, k, 0.0)
    ensures SumOf(h, s) == k * Sum(s)
  {
    var d := SlopeFrom(1.0, 0.0);
    SumOfDeviations(s, 0.0, d);
    TimesIsProduct(|s|, 0.0);
    SumOfScaled(s, k, d, h);
  }

  lemma {:induction false} TwoValuedSum(f: real -> real, s: seq<real>, lo: real, hi: real)
    requires lo < hi && forall i :: 0 <= i < |s| ==> s[i] == lo || s[i] == hi
    ensures SumOf(f, s) == Times(CountAtLeast(s, hi), f(hi)) + Times(|s| - CountAtLeast(s, hi), f(lo))
  {
    if s != [] {
      TwoValuedSum(f, s[..|s| - 1], lo, hi);
    }
  }

  /** n times the total is the product of the group sizes and the squared gap. */
  ghost predicate SpreadIs(n: nat, h: nat, gap: real, total: real)
    requires h <= n
  {
    n as real * total == (h as real * (n - h) as real) * (gap * gap)
  }

  lemma {:induction false} TimesMinus(n: nat, x: real, y: real)
    ensures Times(n, x - y) == Times(n, x) - Times(n, y)
  {
    if n > 0 {
      TimesMinus(n - 1, x, y);
    }
  }

  lemma {:induction false} TimesPlus(k: nat, l: nat, x: real)
    ensures Times(k + l, x) == Times(k, x) + Times(l, x)
  {
    if l > 0 {
      TimesPlus(k, l - 1, x);
    }
  }

  lemma TimesOfMean(n: nat, t: real)
    requires n > 0
    ensures Times(n, t / n as real) == t
  {
    TimesIsProduct(n, t / n as real);
    Quotient(t, n as real);
  }

  /** Two groups balance around their mean. */
  lemma {:induction false} BalanceOfTimes(h: nat, l: nat, lo: real, hi: real, m: real)
    requires Times(h + l, m) == Times(h, hi) + Times(l, lo)
    ensures Times(h, hi - m) == Times(l, m - lo)
  {
    TimesMinus(h, hi, m);
    TimesMinus(l, m, lo);
    TimesPlus(h, l, m);
  }

  /** Cauchy-Schwarz is an equation for groups in balance. */
  lemma BalancedSquares(h: real, l: real, a: real, c: real, aa: real, cc: real, gap: real,
                        n: real, total: real, p: real, g: real)
    requires h * a == l * c && aa == a * a && cc == c * c && total == h * aa + l * cc && n == h + l
    requires p == h * l && gap == a + c && g == gap * gap
    ensures n * total == p * g
  {
    assert (h + l) * (h * (a * a) + l * (c * c)) - (h * l) * ((a + c) * (a + c)) == (h * a - l * c) * (h * a - l * c);
  }

  lemma TimesAsProducts(h: nat, l: nat, a: real, c: real, aa: real, cc: real, total: real, hr: real, lr: real)
    requires hr == h as real && lr == l as real && Times(h, a) == Times(l, c) && total == Times(h, aa) + Times(l, cc)
    ensures hr * a == lr * c && total == hr * aa + lr * cc
  {
    TimesByName(h, a, hr);
    TimesByName(l, c, lr);
    TimesByName(h, aa, hr);
    TimesByName(l, cc, lr);
  }

  lemma SpreadIsNamed(n: nat, h: nat, gap: real, total: real, nr: real, p: real, g: real)
    requires h <= n && nr == n as real && p == h as real * (n - h) as real && g == gap * gap
    ensures SpreadIs(n, h, gap, total) <==> nr * total == p * g
  {
  }

  lemma SpreadOfProducts(h: nat, l: nat, a: real, c: real, aa: real, cc: real, gap: real, total: real,
                         hr: real, lr: real, p: real, g: real)
    requires hr == h as real && lr == l as real && aa == a * a && cc == c * c && gap == a + c
    requires Times(h, a) == Times(l, c) && total == Times(h, aa) + Times(l, cc)
    requires p == hr * lr && g == gap * gap
    ensures (hr + lr) * total == p * g
  {
    TimesAsProducts(h, l, a, c, aa, cc, total, hr, lr);
    BalancedSquares(hr, lr, a, c, aa, cc, gap, hr + lr, total, p, g);
  }

  lemma SpreadOfTimes(h: nat, l: nat, a: real, c: real, aa: real, cc: real, gap: real, total: real)
    requires aa == a * a && cc == c * c && gap == a + c
    requires Times(h, a) == Times(l, c) && total == Times(h, aa) + Times(l, cc)
    ensures SpreadIs(h + l, h, gap, total)
  {
    var hr, lr := h as real, l as real;
    var p := Product(hr, lr);
    var g := Product(gap, gap);
    SpreadOfProducts(h, l, a, c, aa, cc, gap, total, hr, lr, p, g);
    SpreadIsIf(h, l, gap, total, hr, lr, p, g);
  }

  lemma SpreadIsIf(h: nat, l: nat, gap: real, total: real, hr: real, lr: real, p: real, g: real)
    requires hr == h as real && lr == l as real && p == hr * lr && g == gap * gap && (hr + lr) * total == p * g
    ensures SpreadIs(h + l, h, gap, total)
  {
    SpreadIsNamed(h + l, h, gap, total, hr + lr, p, g);
  }

  lemma {:induction false} TwoValuedPlain(s: seq<real>, lo: real, hi: real)
    requires lo < hi && forall i :: 0 <= i < |s| ==> s[i] == lo || s[i] == hi
    ensures Sum(s) == Times(CountAtLeast(s, hi), hi) + Times(|s| - CountAtLeast(s, hi), lo)
  {
    var d := SlopeFrom(1.0, 0.0);
    assert d(lo) == lo && d(hi) == hi;
    SumScaled(s, 1.0, d);
    TwoValuedSum(d, s, lo, hi);
  }

  lemma {:induction false} TwoValuedSquares(s: seq<real>, lo: real, hi: real, m: real, a: real, c: real, aa: real, cc: real)
    requires lo < hi && (forall i :: 0 <= i < |s| ==> s[i] == lo || s[i] == hi) && a == hi - m && c == m - lo
    requires aa == a * a && cc == c * c
    ensures SqDev(s, m) == Times(CountAtLeast(s, hi), aa) + Times(|s| - CountAtLeast(s, hi), cc)
  {
    var f := SquareFrom(m);
    assert f(hi) == aa && f(lo) == cc by { SquareOfNegation(c); }
    SqDevAsSum(s, m, f);
    TwoValuedSum(f, s, lo, hi);
  }

  /** The squared deviations of a sequence of two values are as small as its group
      sizes allow. */
  lemma {:induction false} TwoValuedSpread(s: seq<real>, lo: real, hi: real)
    requires s != [] && lo < hi && forall i :: 0 <= i < |s| ==> s[i] == lo || s[i] == hi
    ensures SpreadIs(|s|, CountAtLeast(s, hi), hi - lo, SqDev(s, Mean(s)))
  {
    var h, m := CountAtLeast(s, hi), Mean(s);
    var l, a, c := |s| - h, hi - m, m - lo;
    assert Times(h, a) == Times(l, c) by {
      TwoValuedPlain(s, lo, hi);
      TimesOfMean(|s|, Sum(s));
      BalanceOfTimes(h, l, lo, hi, m);
    }
    var aa := Product(a, a);
    var cc := Product(c, c);
    TwoValuedSquares(s, lo, hi, m, a, c, aa, cc);
    SpreadOfTimes(h, l, a, c, aa, cc, hi - lo, SqDev(s, m));
  }

  // ----- Range, variance, single deviations -----

  lemma {:induction false} SumBounds(s: seq<real>, lo: real, hi: real)
    requires Within(s, lo, hi)
    ensures Times(|s|, lo) <= Sum(s) <= Times(|s|, hi)
  {
    if s != [] {
      SumBounds(s[..|s| - 1], lo, hi);
    }
  }

  lemma {:induction false} MeanBounds(s: seq<real>, lo: real, hi: real)
    requires s != [] && Within(s, lo, hi)
    ensures lo <= Mean(s) <= hi
  {
    SumBounds(s, lo, hi);
    QuotientAtMost(Sum(s), |s|, hi);
    QuotientAtLeast(Sum(s), |s|, lo);
  }

  /** One sample within r of c: its squared deviation from m is at most r squared
      plus a multiple of the deviation itself. */
  lemma TangentBound(e: real, m: real, c: real, r: real, k: real)
    requires c - r <= e <= c + r && k == 2.0 * (c - m)
    ensures (e - m) * (e - m) <= r * r + k * (e - m)
  {
    SquareAtMost(e - c, r);
    SquareNonNegative(m - c);
    assert (e - m) * (e - m) == (e - c) * (e - c) + 2.0 * (c - m) * (e - m) - (m - c) * (m - c);
  }

  lemma {:induction false} TangentAt(f: real -> real, h: real -> real, e: real, m: real, c: real, r: real, k: real, rr: real)
    requires SquaresAround(f, m) && Slope(h, k, m) && k == 2.0 * (c - m) && rr == r * r
    requires c - r <= e <= c + r
    ensures f(e) <= rr + h(e)
  {
    TangentBound(e, m, c, r, k);
  }

  lemma {:induction false} SumOfTangents(s: seq<real>, f: real -> real, h: real -> real,
                                         m: real, c: real, r: real, k: real, rr: real)
    requires SquaresAround(f, m) && Slope(h, k, m) && k == 2.0 * (c - m) && rr == r * r
    requires Within(s, c - r, c + r)
    ensures SumOf(f, s) <= Times(|s|, rr) + SumOf(h, s)
  {
    if s != [] {
      SumOfTangents(s[..|s| - 1], f, h, m, c, r, k, rr);
      TangentAt(f, h, s[|s| - 1], m, c, r, k, rr);
    }
  }

  lemma {:induction false} SqDevFromMeanAtMost(s: seq<real>, f: real -> real, h: real -> real,
                                               m: real, c: real, r: real, k: real, rr: real)
    requires s != [] && m == Mean(s) && Within(s, c - r, c + r)
    requires SquaresAround(f, m) && Slope(h, k, m) && k == 2.0 * (c - m) && rr == r * r
    ensures SqDev(s, m) <= Times(|s|, rr)
  {
    assert SumOf(f, s) <= Times(|s|, rr) + SumOf(h, s) by { SumOfTangents(s, f, h, m, c, r, k, rr); }
    assert SqDev(s, m) == SumOf(f, s) by { SqDevAsSum(s, m, f); }
    assert SumOf(h, s) == 0.0 by { MeanCancels(s, m, k, h); }
  }

  /** Variance against range: at most half the range, squared. */
  lemma {:induction false} VarianceAtMost(s: seq<real>, lo: real, hi: real, r: real)
    requires s != [] && Within(s, lo, hi) && r == (hi - lo) / 2.0
    ensures Variance(s) <= r * r
  {
    var m, c, rr := Mean(s), (lo + hi) / 2.0, r * r;
    var k := 2.0 * (c - m);
    SqDevFromMeanAtMost(s, SquareFrom(m), SlopeFrom(k, m), m, c, r, k, rr);
    QuotientAtMost(SqDev(s, m), |s|, rr);
  }

  /** One deviation against the total. */
  lemma {:induction false} OneDeviation(s: seq<real>, m: real, i: nat)
    requires i < |s|
    ensures (s[i] - m) * (s[i] - m) <= SqDev(s, m)
  {
    var f := SquareFrom(m);
    forall x ensures f(x) >= 0.0 {
      SquareNonNegative(x - m);
    }
    SqDevAsSum(s, m, f);
    SumOfTerm(f, s, i);
  }

  // ----- Two groups with a gap -----

  lemma DistanceShare(e: real, lo: real, hi: real, m: real, a: real, c: real)
    requires lo < hi && (e <= lo || hi <= e)
    requires a == (if m < hi then hi - m else 0.0) && c == (if lo < m then m - lo else 0.0)
    ensures (e - m) * (e - m) >= if e >= hi then a * a else c * c
  {
    SquareNonNegative(e - m);
    if e >= hi {
      if m < hi { SquareAtMost(a, e - m); }
    } else if lo < m {
      SquareAtMost(c, m - e);
      SquareOfNegation(e - m);
    }
  }

  lemma {:induction false} SqDevCoversShares(s: seq<real>, lo: real, hi: real, m: real, a: real, c: real)
    requires forall i :: 0 <= i < |s| ==> s[i] <= lo || hi <= s[i]
    requires lo < hi
    requires a == (if m < hi then hi - m else 0.0) && c == (if lo < m then m - lo else 0.0)
    ensures SqDev(s, m) >= Times(CountAtLeast(s, hi), a * a) + Times(|s| - CountAtLeast(s, hi), c * c)
  {
    var f := SquareFrom(m);
    forall i | 0 <= i < |s| ensures f(s[i]) >= if s[i] >= hi then a * a else c * c {
      DistanceShare(s[i], lo, hi, m, a, c);
    }
    SqDevAsSum(s, m, f);
    SumOfGroups(f, s, hi, a * a, c * c);
  }

  /** Cauchy-Schwarz for two groups, h samples at distance a and l at distance c. */
  lemma WeightedSquares(h: real, l: real, a: real, c: real)
    ensures (h + l) * (h * (a * a) + l * (c * c)) >= (h * l) * ((a + c) * (a + c))
  {
    SquareNonNegative(h * a - l * c);
    assert (h + l) * (h * (a * a) + l * (c * c)) - (h * l) * ((a + c) * (a + c))
        == (h * a - l * c) * (h * a - l * c);
  }

  /** The same with every product named. */
  lemma WeightedSquaresNamed(h: real, l: real, a: real, c: real, w: real, p: real, t: real)
    requires w == h * (a * a) + l * (c * c) && p == h * l && t == (a + c) * (a + c)
    ensures (h + l) * w >= p * t
  {
    WeightedSquares(h, l, a, c);
  }

  lemma Chain(n: real, w: real, total: real, p: real, g: real, t: real)
    requires n >= 0.0 && p >= 0.0 && w <= total && g <= t && n * w >= p * t
    ensures n * total >= p * g
  {
    MulMonotone(n, w, total);
    MulMonotone(p, g, t);
  }

  lemma ProductNonNegative(x: real, y: real)
    requires x >= 0.0 && y >= 0.0
    ensures x * y >= 0.0
  {
  }

  /** w, p, g: the weighted squares, the product of the weights, the squared gap. */
  lemma SpreadBound(h: real, l: real, a: real, c: real, gap: real, total: real, w: real, p: real, g: real)
    requires h >= 0.0 && l >= 0.0 && 0.0 <= gap <= a + c && total >= w
    requires w == h * (a * a) + l * (c * c) && p == h * l && g == gap * gap
    ensures (h + l) * total >= p * g
  {
    var t := (a + c) * (a + c);
    WeightedSquaresNamed(h, l, a, c, w, p, t);
    ProductNonNegative(h, l);
    SquareAtMost(gap, a + c);
    Chain(h + l, w, total, p, g, t);
  }

  lemma WeightedTimes(h: nat, l: nat, aa: real, cc: real)
    ensures Times(h, aa) + Times(l, cc) == h as real * aa + l as real * cc
  {
    TimesIsProduct(h, aa);
    TimesIsProduct(l, cc);
  }

  /** n times the total reaches the product of the group sizes and the squared gap. */
  ghost predicate SpreadCovers(n: nat, h: nat, gap: real, total: real)
    requires h <= n
  {
    n as real * total >= (h as real * (n - h) as real) * (gap * gap)
  }

  lemma SpreadByName(n: nat, h: nat, gap: real, total: real, nr: real, p: real, g: real)
    requires h <= n && nr == n as real && p == h as real * (n - h) as real && g == gap * gap
    requires nr * total >= p * g
    ensures SpreadCovers(n, h, gap, total)
  {
  }

  lemma SpreadByCount(h: nat, l: nat, a: real, c: real, gap: real, total: real, hr: real, lr: real)
    requires hr == h as real && lr == l as real
    requires 0.0 <= gap <= a + c && total >= Times(h, a * a) + Times(l, c * c)
    ensures SpreadCovers(h + l, h, gap, total)
  {
    var aa, cc := a * a, c * c;
    var w, p, g := hr * aa + lr * cc, hr * lr, gap * gap;
    assert Times(h, aa) + Times(l, cc) == w by { WeightedTimes(h, l, aa, cc); }
    assert (hr + lr) * total >= p * g by { SpreadBound(hr, lr, a, c, gap, total, w, p, g); }
    SpreadByName(h + l, h, gap, total, hr + lr, p, g);
  }

  /** Between-group spread: samples at or below lo and samples at or above hi,
      with a gap between, force squared deviation around any centre. */
  lemma {:induction false} BetweenGroups(s: seq<real>, lo: real, hi: real, m: real)
    requires forall i :: 0 <= i < |s| ==> s[i] <= lo || hi <= s[i]
    requires lo < hi
    ensures SpreadCovers(|s|, CountAtLeast(s, hi), hi - lo, SqDev(s, m))
  {
    var a := if m < hi then hi - m else 0.0;
    var c := if lo < m then m - lo else 0.0;
    var h := CountAtLeast(s, hi);
    SqDevCoversShares(s, lo, hi, m, a, c);
    SpreadByCount(h, |s| - h, a, c, hi - lo, SqDev(s, m), h as real, (|s| - h) as real);
  }
}

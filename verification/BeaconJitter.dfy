/** How much jitter the rhythm test (crates/kavach-beacon/src/detector.rs)
    tolerates: exactly which bounds on the gaps, and which jittered sleeps, are
    flagged whatever the 31 gaps between those bounds are. */
module BeaconJitter {
  import opened MachineInts
  import opened Statistics
  import opened Beacon

  // ----- The rhythm in terms of two sums -----

  /** t is a sum of 31 gaps, q the sum of their squares: their variance is at most
      (0.175 mean)^2. */
  ghost predicate Tight(q: real, t: real) {
    31.0 * q <= 1.030625 * (t * t)
  }

  lemma {:induction false} SumOfShifted(s: seq<real>, f: real -> real, f0: real -> real, h: real -> real, mm: real)
    requires forall x :: f(x) == f0(x) + h(x) + mm
    ensures SumOf(f, s) == SumOf(f0, s) + SumOf(h, s) + Times(|s|, mm)
  {
    if s != [] {
      SumOfShifted(s[..|s| - 1], f, f0, h, mm);
    }
  }

  lemma ShiftAt(f: real -> real, f0: real -> real, h: real -> real, x: real, m: real, mm: real)
    requires SquaresAround(f, m) && SquaresAround(f0, 0.0) && Slope(h, -2.0 * m, 0.0) && mm == m * m
    ensures f(x) == f0(x) + h(x) + mm
  {
  }

  lemma {:induction false} SqDevShift(s: seq<real>, m: real, k: real, mm: real)
    requires mm == m * m && k == -2.0 * m
    ensures SqDev(s, m) == SqDev(s, 0.0) + k * Sum(s) + Times(|s|, mm)
  {
    var f, f0, h := SquareFrom(m), SquareFrom(0.0), SlopeFrom(k, 0.0);
    forall x ensures f(x) == f0(x) + h(x) + mm {
      ShiftAt(f, f0, h, x, m, mm);
    }
    SumOfShifted(s, f, f0, h, mm);
    SumScaled(s, k, h);
    SqDevAsSum(s, m, f);
    SqDevAsSum(s, 0.0, f0);
  }

  lemma TightByMean(q: real, t: real, m: real, mm: real, total: real)
    requires t == 31.0 * m && mm == m * m && total == q + -2.0 * m * t + 31.0 * mm
    ensures Tight(q, t) <==> total / 31.0 <= (0.175 * m) * (0.175 * m)
  {
    assert m * t == 31.0 * mm && t * t == 961.0 * mm;
    assert (0.175 * m) * (0.175 * m) == 0.030625 * mm;
  }

  lemma {:induction false} RhythmBySums(g: seq<real>)
    requires |g| == 31
    ensures Rhythmic(g) <==> Mean(g) >= MIN_BEACON_INTERVAL_MS && Tight(SqDev(g, 0.0), Sum(g))
  {
    var m := Mean(g);
    SqDevShift(g, m, -2.0 * m, m * m);
    TimesIsProduct(31, m * m);
    TightByMean(SqDev(g, 0.0), Sum(g), m, m * m, SqDev(g, m));
  }

  // ----- Gaps at the ends of a range are the worst -----

  /** How far 31 times the squares exceed what is allowed. */
  function Excess(q: real, t: real): real {
    31.0 * q - 1.030625 * (t * t)
  }

  lemma ExcessMoves(q: real, t: real, a: real, x: real, k: real)
    requires k == 29.969375 * (x + a) - 2.06125 * t
    ensures Excess(q + x * x, t + x) == Excess(q + a * a, t + a) + (x - a) * k
  {
  }

  /** One gap moved to one of the ends: the excess is convex in each gap. The
      squares are named. */
  lemma ConvexStep(q: real, t: real, x: real, xx: real, lo: real, ll: real, hi: real, hh: real)
    requires lo <= x <= hi && xx == x * x && ll == lo * lo && hh == hi * hi
    requires Tight(q + ll, t + lo) && Tight(q + hh, t + hi)
    ensures Tight(q + xx, t + x)
  {
    var rise, fall := 29.969375 * (x + lo) - 2.06125 * t, 29.969375 * (x + hi) - 2.06125 * t;
    ExcessMoves(q, t, lo, x, rise);
    ExcessMoves(q, t, hi, x, fall);
    if rise <= 0.0 {
      assert (x - lo) * rise <= 0.0 by { OppositeSigns(x - lo, rise); }
    } else {
      assert (x - hi) * fall <= 0.0 by { OppositeSigns(fall, x - hi); }
    }
  }

  lemma OppositeSigns(a: real, b: real)
    requires a >= 0.0 && b <= 0.0
    ensures a * b <= 0.0
  {
  }

  /** The sum of k values at the upper end and l at the lower one. */
  function EndSum(k: nat, l: nat, lo: real, hi: real): real {
    Times(k, hi) + Times(l, lo)
  }

  lemma OneMore(k: nat, l: nat, lo: real, hi: real)
    ensures EndSum(k + 1, l, lo, hi) == EndSum(k, l, lo, hi) + hi
    ensures EndSum(k, l + 1, lo, hi) == EndSum(k, l, lo, hi) + lo
  {
  }

  /** step(q, t, x) tests the sums q and t grown by one gap x. */
  ghost predicate Grows(test: (real, real) -> bool, step: (real, real, real) -> bool, f: real -> real) {
    forall q, t, x :: step(q, t, x) <==> test(q + f(x), t + x)
  }

  ghost predicate ConvexTest(step: (real, real, real) -> bool, lo: real, hi: real) {
    forall q, t, x :: lo <= x <= hi && step(q, t, lo) && step(q, t, hi) ==> step(q, t, x)
  }

  ghost predicate EndsPass(test: (real, real) -> bool, f: real -> real, lo: real, hi: real) {
    forall k: nat, l: nat :: k + l == 31 ==> test(EndSum(k, l, f(lo), f(hi)), EndSum(k, l, lo, hi))
  }

  /** Gap after gap is pushed to an end, until only the ends are left: a test that is
      convex in each gap holds of all gaps when it holds of the ends. */
  lemma {:induction false} PushToEnds(test: (real, real) -> bool, step: (real, real, real) -> bool, f: real -> real,
                                      s: seq<real>, k: nat, l: nat, lo: real, hi: real)
    requires |s| + k + l == 31 && Within(s, lo, hi)
    requires Grows(test, step, f) && ConvexTest(step, lo, hi) && EndsPass(test, f, lo, hi)
    ensures test(SumOf(f, s) + EndSum(k, l, f(lo), f(hi)), Sum(s) + EndSum(k, l, lo, hi))
  {
    var squares, sum := EndSum(k, l, f(lo), f(hi)), EndSum(k, l, lo, hi);
    if s == [] {
      assert test(squares, sum);
    } else {
      var p, x := s[..|s| - 1], s[|s| - 1];
      PushToEnds(test, step, f, p, k + 1, l, lo, hi);
      PushToEnds(test, step, f, p, k, l + 1, lo, hi);
      OneMore(k, l, lo, hi);
      OneMore(k, l, f(lo), f(hi));
      var q, t := SumOf(f, p) + squares, Sum(p) + sum;
      assert step(q, t, lo) && step(q, t, hi);
      assert step(q, t, x);
      assert q + f(x) == SumOf(f, s) + squares && t + x == Sum(s) + sum;
    }
  }

  ghost predicate TestsTight(test: (real, real) -> bool) {
    forall q, t :: test(q, t) <==> Tight(q, t)
  }

  ghost predicate TestsTightStep(step: (real, real, real) -> bool, f: real -> real) {
    forall q, t, x :: step(q, t, x) <==> Tight(q + f(x), t + x)
  }

  ghost function TightTest(): (test: (real, real) -> bool)
    ensures TestsTight(test)
  {
    (q: real, t: real) => 31.0 * q <= 1.030625 * (t * t)
  }

  ghost function TightStep(f: real -> real): (step: (real, real, real) -> bool)
    ensures TestsTightStep(step, f)
  {
    (q: real, t: real, x: real) => 31.0 * (q + f(x)) <= 1.030625 * ((t + x) * (t + x))
  }

  lemma TightIsConvex(step: (real, real, real) -> bool, f: real -> real, lo: real, hi: real)
    requires SquaresAround(f, 0.0) && TestsTightStep(step, f)
    ensures ConvexTest(step, lo, hi)
  {
    forall q, t, x | lo <= x <= hi && step(q, t, lo) && step(q, t, hi) ensures step(q, t, x) {
      ConvexStep(q, t, x, f(x), lo, f(lo), hi, f(hi));
    }
  }

  /** 31 gaps with the k longest at the end. */
  function Ends(k: nat, l: nat, lo: real, hi: real): (g: seq<real>)
    ensures |g| == k + l
    decreases k + l
  {
    if k > 0 then Ends(k - 1, l, lo, hi) + [hi]
    else if l > 0 then Ends(0, l - 1, lo, hi) + [lo]
    else []
  }

  lemma {:induction false} EndsWithin(k: nat, l: nat, lo: real, hi: real)
    requires lo <= hi
    ensures Within(Ends(k, l, lo, hi), lo, hi)
    decreases k + l
  {
    if k > 0 {
      EndsWithin(k - 1, l, lo, hi);
    } else if l > 0 {
      EndsWithin(0, l - 1, lo, hi);
    }
  }

  lemma {:induction false} SumOfPush(f: real -> real, p: seq<real>, x: real)
    ensures SumOf(f, p + [x]) == SumOf(f, p) + f(x)
  {
    assert (p + [x])[..|p|] == p;
  }

  lemma {:induction false} EndsSumOf(f: real -> real, k: nat, l: nat, lo: real, hi: real)
    ensures SumOf(f, Ends(k, l, lo, hi)) == EndSum(k, l, f(lo), f(hi))
    decreases k + l
  {
    if k > 0 {
      EndsSumOf(f, k - 1, l, lo, hi);
      SumOfPush(f, Ends(k - 1, l, lo, hi), hi);
    } else if l > 0 {
      EndsSumOf(f, 0, l - 1, lo, hi);
      SumOfPush(f, Ends(0, l - 1, lo, hi), lo);
    }
  }

  lemma {:induction false} EndsSums(k: nat, l: nat, lo: real, hi: real, f: real -> real)
    requires lo <= hi && SquaresAround(f, 0.0)
    ensures Within(Ends(k, l, lo, hi), lo, hi)
    ensures Sum(Ends(k, l, lo, hi)) == EndSum(k, l, lo, hi)
    ensures SqDev(Ends(k, l, lo, hi), 0.0) == EndSum(k, l, f(lo), f(hi))
  {
    EndsWithin(k, l, lo, hi);
    EndsTotal(k, l, lo, hi);
    EndsSumOf(f, k, l, lo, hi);
    SqDevAsSum(Ends(k, l, lo, hi), 0.0, f);
  }

  lemma {:induction false} EndsTotal(k: nat, l: nat, lo: real, hi: real)
    ensures Sum(Ends(k, l, lo, hi)) == EndSum(k, l, lo, hi)
  {
    var d := SlopeFrom(1.0, 0.0);
    EndsSumOf(d, k, l, lo, hi);
    SumOfDeviations(Ends(k, l, lo, hi), 0.0, d);
    TimesIsProduct(k + l, 0.0);
  }

  // ----- The condition on the range -----

  /** With k of 31 gaps at hi and the others at lo, 31^2 times the variance is
      k (31 - k) (hi - lo)^2, and 31 times the mean is the sum on the right. */
  ghost predicate EndsAllowed(lo: real, hi: real, k: nat)
    requires k <= 31
  {
    var h, l := k as real, (31 - k) as real;
    h * l * ((hi - lo) * (hi - lo)) <= 0.030625 * ((h * hi + l * lo) * (h * hi + l * lo))
  }

  /** No split of the 31 gaps between the two ends varies too much. */
  ghost predicate RangeAllowed(lo: real, hi: real) {
    forall k: nat :: k <= 31 ==> EndsAllowed(lo, hi, k)
  }

  lemma EndsIdentity(k: nat, lo: real, hi: real, ll: real, hh: real, h: real, l: real, q: real, t: real)
    requires k <= 31 && h == k as real && l == (31 - k) as real && ll == lo * lo && hh == hi * hi
    requires q == h * hh + l * ll && t == h * hi + l * lo
    ensures Tight(q, t) <==> EndsAllowed(lo, hi, k)
  {
    assert 31.0 * q - t * t == h * l * ((hi - lo) * (hi - lo)) by {
      assert h + l == 31.0;
      TwoGroups(h, l, lo, hi);
    }
  }

  lemma TwoGroups(h: real, l: real, lo: real, hi: real)
    ensures (h + l) * (h * (hi * hi) + l * (lo * lo)) - (h * hi + l * lo) * (h * hi + l * lo)
         == h * l * ((hi - lo) * (hi - lo))
  {
  }

  lemma EndSumIsProduct(k: nat, l: nat, lo: real, hi: real)
    ensures EndSum(k, l, lo, hi) == k as real * hi + l as real * lo
  {
    TimesIsProduct(k, hi);
    TimesIsProduct(l, lo);
  }

  lemma EndsAllowedExactly(lo: real, hi: real, k: nat, ll: real, hh: real)
    requires k <= 31 && ll == lo * lo && hh == hi * hi
    ensures EndsAllowed(lo, hi, k) <==> Tight(EndSum(k, 31 - k, ll, hh), EndSum(k, 31 - k, lo, hi))
  {
    EndSumIsProduct(k, 31 - k, ll, hh);
    EndSumIsProduct(k, 31 - k, lo, hi);
    EndsIdentity(k, lo, hi, ll, hh, k as real, (31 - k) as real, EndSum(k, 31 - k, ll, hh), EndSum(k, 31 - k, lo, hi));
  }

  /** Sufficient for every choice of 31 gaps in the range. */
  lemma {:induction false} RangeRhythmic(g: seq<real>, lo: real, hi: real)
    requires |g| == 31 && Within(g, lo, hi) && lo >= MIN_BEACON_INTERVAL_MS && RangeAllowed(lo, hi)
    ensures Rhythmic(g)
  {
    RangeTight(g, lo, hi, SquareFrom(0.0));
    MeanBounds(g, lo, hi);
    RhythmBySums(g);
  }

  lemma {:induction false} RangeTight(g: seq<real>, lo: real, hi: real, f: real -> real)
    requires |g| == 31 && Within(g, lo, hi) && SquaresAround(f, 0.0) && RangeAllowed(lo, hi)
    ensures Tight(SqDev(g, 0.0), Sum(g))
  {
    var test, step := TightTest(), TightStep(f);
    forall k: nat, l: nat | k + l == 31 ensures test(EndSum(k, l, f(lo), f(hi)), EndSum(k, l, lo, hi)) {
      assert EndsAllowed(lo, hi, k);
      EndsAllowedExactly(lo, hi, k, f(lo), f(hi));
    }
    TightIsConvex(step, f, lo, hi);
    PushToEnds(test, step, f, g, 0, 0, lo, hi);
    SqDevAsSum(g, 0.0, f);
  }

  /** Necessary for the choice with k gaps at the upper end. */
  lemma {:induction false} EndsRhythmic(lo: real, hi: real, k: nat, f: real -> real)
    requires k <= 31 && lo <= hi && SquaresAround(f, 0.0) && Rhythmic(Ends(k, 31 - k, lo, hi))
    ensures EndsAllowed(lo, hi, k)
    ensures k == 0 ==> lo >= MIN_BEACON_INTERVAL_MS
  {
    EndsSums(k, 31 - k, lo, hi, f);
    RhythmBySums(Ends(k, 31 - k, lo, hi));
    EndsAllowedExactly(lo, hi, k, f(lo), f(hi));
    if k == 0 {
      TimesIsProduct(31, lo);
    }
  }

  // ----- Windows of packets -----

  /** Nanoseconds as milliseconds. */
  function Ms(ns: nat): real { ns as real / 1_000_000.0 }

  /** When the packet after i gaps is sent, the first l of them a and the others b. */
  function Stamp(i: nat, l: nat, a: nat, b: nat): nat {
    if i == 0 then 0 else Stamp(i - 1, l, a, b) + (if i <= l then a else b)
  }

  lemma {:induction false} StampFits(i: nat, l: nat, a: nat, b: nat)
    requires a <= b && i <= 31 && 31 * b < TWO_64
    ensures Stamp(i, l, a, b) < TWO_64
  {
    StampAtMost(i, 31, l, a, b, 31 * b);
  }

  lemma {:induction false} StampAtMost(i: nat, n: nat, l: nat, a: nat, b: nat, total: nat)
    requires a <= b && i <= n && total == n * b
    ensures Stamp(i, l, a, b) <= total
    decreases n
  {
    if i > 0 {
      assert total - b == (n - 1) * b;
      StampAtMost(i - 1, n - 1, l, a, b, total - b);
    }
  }

  /** A packet without payload. */
  function Beat(ns: U64): Packet { Packet(ns, 0, Outbound) }

  lemma BeatGap(ns: U64, b: nat)
    requires ns + b < TWO_64
    ensures GapMs(Beat(ns), Beat(ns + b)) == Ms(b)
  {
  }

  lemma {:induction false} EndsAt(k: nat, l: nat, lo: real, hi: real, i: nat)
    requires i < k + l
    ensures Ends(k, l, lo, hi)[i] == if i < l then lo else hi
    decreases k + l
  {
    if k > 0 && i < k + l - 1 {
      EndsAt(k - 1, l, lo, hi, i);
    } else if k == 0 && i < l - 1 {
      EndsAt(0, l - 1, lo, hi, i);
    }
  }

  ghost predicate BeatsAt(p: seq<Packet>, l: nat, a: nat, b: nat) {
    forall i :: 0 <= i < |p| ==> Stamp(i, l, a, b) < TWO_64 && p[i] == Beat(Stamp(i, l, a, b))
  }

  lemma {:induction false} BeatsGaps(p: seq<Packet>, k: nat, l: nat, a: nat, b: nat)
    requires |p| == k + l + 1 && BeatsAt(p, l, a, b)
    ensures Gaps(p) == Ends(k, l, Ms(a), Ms(b))
  {
    forall i | 0 <= i < k + l ensures Gaps(p)[i] == Ends(k, l, Ms(a), Ms(b))[i] {
      BeatsGapAt(p, l, a, b, i + 1);
      EndsAt(k, l, Ms(a), Ms(b), i);
    }
  }

  lemma {:induction false} BeatsGapAt(p: seq<Packet>, l: nat, a: nat, b: nat, i: nat)
    requires 1 <= i < |p| && BeatsAt(p, l, a, b)
    ensures Gaps(p)[i - 1] == if i <= l then Ms(a) else Ms(b)
  {
    GapAt(p, i);
    assert p[i - 1] == Beat(Stamp(i - 1, l, a, b)) && p[i] == Beat(Stamp(i, l, a, b));
    BeatGap(Stamp(i - 1, l, a, b), if i <= l then a else b);
  }

  lemma {:induction false} AllSmall(p: seq<Packet>)
    requires forall i :: 0 <= i < |p| ==> p[i].payloadBytes <= 512
    ensures CountTail(p, IsSmall()) == if p == [] then 0 else |p| - 1
  {
    if |p| > 1 {
      AllSmall(p[..|p| - 1]);
    }
  }

  /** Every full window with all gaps between a and b nanoseconds and at most six
      large payloads is flagged. */
  ghost predicate AlwaysFlagged(sqrt: real -> real, a: nat, b: nat) {
    forall p: seq<Packet> :: |p| == FLOW_WINDOW_SIZE && Within(Gaps(p), Ms(a), Ms(b)) && CountTail(p, IsSmall()) >= 25
      ==> Detect(p, sqrt).isBeacon
  }

  lemma InMilliseconds(a: nat, b: nat, k: nat)
    requires k <= 31
    ensures EndsAllowed(Ms(a), Ms(b), k) <==> EndsAllowed(a as real, b as real, k)
  {
  }

  /** Steady enough, exactly: all windows with gaps in a range are flagged if and only
      if the range starts at 500 ms or later and no split of the 31 gaps between its
      two ends varies too much. */
  lemma SteadyExactly(sqrt: real -> real, a: nat, b: nat)
    requires IsSquareRoot(sqrt) && a <= b && 31 * b < TWO_64
    ensures AlwaysFlagged(sqrt, a, b) <==>
            a >= 500_000_000 && RangeAllowed(a as real, b as real)
  {
    var lo, hi := a as real, b as real;
    if a >= 500_000_000 && RangeAllowed(lo, hi) {
      forall p: seq<Packet> | |p| == FLOW_WINDOW_SIZE && Within(Gaps(p), Ms(a), Ms(b)) && CountTail(p, IsSmall()) >= 25
        ensures Detect(p, sqrt).isBeacon
      {
        AllowedFlagged(sqrt, a, b, p);
      }
    }
    if AlwaysFlagged(sqrt, a, b) {
      forall k: nat | k <= 31 ensures EndsAllowed(lo, hi, k) {
        FlaggedAllowed(sqrt, a, b, k);
      }
      FlaggedAllowed(sqrt, a, b, 0);
    }
  }

  lemma {:induction false} AllowedFlagged(sqrt: real -> real, a: nat, b: nat, p: seq<Packet>)
    requires IsSquareRoot(sqrt) && a >= 500_000_000 && RangeAllowed(a as real, b as real)
    requires |p| == FLOW_WINDOW_SIZE && Within(Gaps(p), Ms(a), Ms(b)) && CountTail(p, IsSmall()) >= 25
    ensures Detect(p, sqrt).isBeacon
  {
    forall k: nat | k <= 31 ensures EndsAllowed(Ms(a), Ms(b), k) {
      InMilliseconds(a, b, k);
      assert EndsAllowed(a as real, b as real, k);
    }
    RangeRhythmic(Gaps(p), Ms(a), Ms(b));
    SmallPayloadsSuffice(p);
    RhythmAndSymmetry(p, sqrt);
  }

  /** The window with 31 - k gaps of a and then k of b is one of the windows in the range. */
  lemma {:induction false} EndsWindow(a: nat, b: nat, k: nat) returns (p: seq<Packet>)
    requires k <= 31 && a <= b && 31 * b < TWO_64
    ensures |p| == FLOW_WINDOW_SIZE && Gaps(p) == Ends(k, 31 - k, Ms(a), Ms(b))
    ensures Within(Gaps(p), Ms(a), Ms(b)) && CountTail(p, IsSmall()) == 31
  {
    p := Beats(32, 31 - k, a, b);
    BeatsGaps(p, k, 31 - k, a, b);
    EndsWithin(k, 31 - k, Ms(a), Ms(b));
    AllSmall(p);
  }

  lemma {:induction false} Beats(n: nat, l: nat, a: nat, b: nat) returns (p: seq<Packet>)
    requires n <= 32 && a <= b && 31 * b < TWO_64
    ensures |p| == n && BeatsAt(p, l, a, b) && forall i :: 0 <= i < n ==> p[i].payloadBytes == 0
  {
    if n == 0 {
      p := [];
    } else {
      p := Beats(n - 1, l, a, b);
      StampFits(n - 1, l, a, b);
      p := p + [Beat(Stamp(n - 1, l, a, b))];
    }
  }

  lemma FlaggedAllowed(sqrt: real -> real, a: nat, b: nat, k: nat)
    requires IsSquareRoot(sqrt) && k <= 31 && a <= b && 31 * b < TWO_64 && AlwaysFlagged(sqrt, a, b)
    ensures EndsAllowed(a as real, b as real, k)
    ensures k == 0 ==> a >= 500_000_000
  {
    var p := EndsWindow(a, b, k);
    assert Detect(p, sqrt).isBeacon;
    RhythmAndSymmetry(p, sqrt);
    EndsRhythmic(Ms(a), Ms(b), k, SquareFrom(0.0));
    InMilliseconds(a, b, k);
  }

  // ----- Jittered sleeps -----

  /** The condition at 13 long gaps and 18 short ones, the worst split of all:
      d is at most about 17.239 percent of the sleep t. */
  ghost predicate JitterTolerated(t: real, d: real) {
    936.0 * (d * d) <= 0.030625 * ((31.0 * t - 5.0 * d) * (31.0 * t - 5.0 * d))
  }

  /** EndsAllowed for the range t - d to t + d, with x = k - (31 - k) and the squares named. */
  lemma SleepEnds(t: real, d: real, k: nat, h: real, l: real, x: real, dd: real, w: real)
    requires k <= 31 && h == k as real && l == (31 - k) as real && x == h - l && dd == d * d
    requires w == 31.0 * t + x * d
    ensures EndsAllowed(t - d, t + d, k) <==> (961.0 - x * x) * dd <= 0.030625 * (w * w)
  {
    var lo, hi := t - d, t + d;
    assert h * hi + l * lo == w by { SleepSum(h, l, t, d); }
    assert (hi - lo) * (hi - lo) == 4.0 * dd;
    assert h * l * (4.0 * dd) == (961.0 - x * x) * dd by { SplitProduct(h, l, x, dd); }
  }

  lemma SleepSum(h: real, l: real, t: real, d: real)
    requires h + l == 31.0
    ensures h * (t + d) + l * (t - d) == 31.0 * t + (h - l) * d
  {
    assert h * (t + d) + l * (t - d) == (h + l) * t + (h - l) * d;
  }

  lemma SplitProduct(h: real, l: real, x: real, dd: real)
    requires h + l == 31.0 && x == h - l
    ensures h * l * (4.0 * dd) == (961.0 - x * x) * dd
  {
    assert 4.0 * (h * l) == (h + l) * (h + l) - x * x;
  }

  /** Up to 16 percent every split is allowed, by completing a square. */
  lemma SmallJitter(t: real, d: real, x: real, tt: real, dd: real, w: real, ww: real)
    requires 0.0 <= d <= 0.16 * t && -31.0 <= x <= 31.0
    requires tt == t * t && dd == d * d && w == 31.0 * t + x * d && ww == w * w
    ensures (961.0 - x * x) * dd <= 0.030625 * ww
  {
    var c := 961.0 - x * x;
    assert c >= 0.0 by { SquareAtMost(x, 31.0); }
    assert dd <= 0.030625 * (tt - dd) by { SquareShare(t, d, tt, dd); }
    assert c * (tt - dd) <= ww by { CompletedSquare(t, d, x, tt, dd, w); }
    MulMonotone(c, dd, 0.030625 * (tt - dd));
    assert c * (0.030625 * (tt - dd)) == 0.030625 * (c * (tt - dd));
  }

  lemma SquareShare(t: real, d: real, tt: real, dd: real)
    requires 0.0 <= d <= 0.16 * t && tt == t * t && dd == d * d
    ensures dd <= 0.030625 * (tt - dd)
  {
    SquareAtMost(d, 0.16 * t);
    assert (0.16 * t) * (0.16 * t) == 0.0256 * tt;
    SquareNonNegative(t);
  }

  lemma CompletedSquare(t: real, d: real, x: real, tt: real, dd: real, w: real)
    requires tt == t * t && dd == d * d && w == 31.0 * t + x * d
    ensures (961.0 - x * x) * (tt - dd) <= w * w
  {
    SquareNonNegative(31.0 * d + x * t);
    assert w * w - (961.0 - x * x) * (tt - dd) == (31.0 * d + x * t) * (31.0 * d + x * t);
  }

  /** Between 16 and 17.24 percent the split 13 to 18 is the worst: x = -5, and the
      next possible ones are 2 away. */
  lemma LargeJitter(t: real, d: real, x: real, z: real, dd: real, w: real, w5: real)
    requires 0.16 * t <= d <= 0.1724 * t && 0.0 <= d
    requires x == 2.0 * z - 5.0 && (z <= -1.0 || z == 0.0 || z >= 1.0)
    requires dd == d * d && w == 31.0 * t + x * d && w5 == 31.0 * t - 5.0 * d
    requires 936.0 * dd <= 0.030625 * (w5 * w5)
    ensures (961.0 - x * x) * dd <= 0.030625 * (w * w)
  {
    var rest := 0.030625 * w5 - 5.0 * d + z * (1.030625 * d);
    SplitDifference(d, x, z, dd, w, w5, rest);
    assert z * rest >= 0.0 by { SameSide(t, d, z, w5, rest); }
    MulMonotone(4.0 * d, 0.0, z * rest);
  }

  lemma SplitDifference(d: real, x: real, z: real, dd: real, w: real, w5: real, rest: real)
    requires x == 2.0 * z - 5.0 && dd == d * d && w == w5 + 2.0 * (z * d)
    requires rest == 0.030625 * w5 - 5.0 * d + z * (1.030625 * d)
    ensures 0.030625 * (w * w) - (961.0 - x * x) * dd == 0.030625 * (w5 * w5) - 936.0 * dd + 4.0 * d * (z * rest)
  {
  }

  lemma SameSide(t: real, d: real, z: real, w5: real, rest: real)
    requires 0.16 * t <= d <= 0.1724 * t && 0.0 <= d && (z <= -1.0 || z == 0.0 || z >= 1.0)
    requires w5 == 31.0 * t - 5.0 * d && rest == 0.030625 * w5 - 5.0 * d + z * (1.030625 * d)
    ensures z * rest >= 0.0
  {
    var a := 1.030625 * d;
    if z >= 1.0 {
      MulMonotone(a, 1.0, z);
      MulMonotone(z, 0.0, rest);
    } else if z <= -1.0 {
      MulMonotone(a, z, -1.0);
      MulMonotone(-z, 0.0, -rest);
    }
  }

  lemma ToleratedAtMost(t: real, d: real)
    requires t > 0.0 && 0.0 <= d <= t && JitterTolerated(t, d)
    ensures d <= 0.1724 * t
  {
    if d > 0.1724 * t {
      var tt, dd, w := t * t, d * d, 31.0 * t - 5.0 * d;
      SquareAtMost(w, 30.138 * t);
      assert (30.138 * t) * (30.138 * t) == 908.299044 * tt;
      SquareNonNegative(t);
      SquareBelow(0.1724 * t, d, 0.02972176 * tt, dd);
    }
  }

  lemma SleepRange(t: real, d: real)
    requires t > 0.0 && 0.0 <= d <= t
    ensures RangeAllowed(t - d, t + d) <==> JitterTolerated(t, d)
  {
    var lo, hi := t - d, t + d;
    if JitterTolerated(t, d) {
      ToleratedAtMost(t, d);
      forall k: nat | k <= 31 ensures EndsAllowed(lo, hi, k) {
        SleepSplit(t, d, k);
      }
    }
    if RangeAllowed(lo, hi) {
      assert EndsAllowed(lo, hi, 13);
      SleepEnds(t, d, 13, 13.0, 18.0, -5.0, d * d, 31.0 * t + -5.0 * d);
    }
  }

  lemma SleepSplit(t: real, d: real, k: nat)
    requires k <= 31 && 0.0 <= d <= 0.1724 * t && JitterTolerated(t, d)
    ensures EndsAllowed(t - d, t + d, k)
  {
    var h, l := k as real, (31 - k) as real;
    var x, dd := h - l, d * d;
    var w := 31.0 * t + x * d;
    assert (961.0 - x * x) * dd <= 0.030625 * (w * w) by { SplitTolerated(t, d, k, x, dd, w, 31.0 * t - 5.0 * d); }
    SleepEnds(t, d, k, h, l, x, dd, w);
  }

  lemma SplitTolerated(t: real, d: real, k: nat, x: real, dd: real, w: real, w5: real)
    requires k <= 31 && x == k as real - (31 - k) as real && 0.0 <= d <= 0.1724 * t
    requires dd == d * d && w == 31.0 * t + x * d && w5 == 31.0 * t - 5.0 * d && 936.0 * dd <= 0.030625 * (w5 * w5)
    ensures (961.0 - x * x) * dd <= 0.030625 * (w * w)
  {
    if d <= 0.16 * t {
      SmallJitter(t, d, x, t * t, dd, w, w * w);
    } else {
      LargeJitter(t, d, x, k as real - 13.0, dd, w, w5);
    }
  }

  /** Every sleep, exactly: all windows whose gaps stay within d of it are flagged if
      and only if the shortest gap is at least 500 ms and the jitter is tolerated. */
  lemma SleepExactly(sqrt: real -> real, sleep: nat, d: nat)
    requires IsSquareRoot(sqrt) && 0 < sleep && d <= sleep && 31 * (sleep + d) < TWO_64
    ensures AlwaysFlagged(sqrt, sleep - d, sleep + d) <==>
            sleep - d >= 500_000_000 && JitterTolerated(sleep as real, d as real)
  {
    if sleep - d >= 500_000_000 && JitterTolerated(sleep as real, d as real) {
      SleepFlagged(sqrt, sleep, d);
    } else {
      SleepEscapes(sqrt, sleep, d);
    }
  }

  lemma SleepFlagged(sqrt: real -> real, sleep: nat, d: nat)
    requires IsSquareRoot(sqrt) && 0 < sleep && d <= sleep && 31 * (sleep + d) < TWO_64
    requires sleep - d >= 500_000_000 && JitterTolerated(sleep as real, d as real)
    ensures AlwaysFlagged(sqrt, sleep - d, sleep + d)
  {
    SleepCondition(sleep, d);
    SteadyExactly(sqrt, sleep - d, sleep + d);
  }

  lemma SleepEscapes(sqrt: real -> real, sleep: nat, d: nat)
    requires IsSquareRoot(sqrt) && 0 < sleep && d <= sleep && 31 * (sleep + d) < TWO_64
    requires sleep - d < 500_000_000 || !JitterTolerated(sleep as real, d as real)
    ensures !AlwaysFlagged(sqrt, sleep - d, sleep + d)
  {
    SleepCondition(sleep, d);
    SteadyExactly(sqrt, sleep - d, sleep + d);
  }

  lemma SleepCondition(sleep: nat, d: nat)
    requires 0 < sleep && d <= sleep
    ensures JitterTolerated(sleep as real, d as real) <==>
            RangeAllowed((sleep - d) as real, (sleep + d) as real)
  {
    assert (sleep - d) as real == sleep as real - d as real && (sleep + d) as real == sleep as real + d as real;
    SleepRange(sleep as real, d as real);
  }

  /** In round numbers, for sleeps long enough to stay above 500 ms: 17 percent of
      jitter is always flagged, 18 percent is not. */
  lemma SleepByPercent(sqrt: real -> real, sleep: nat, d: nat)
    requires IsSquareRoot(sqrt) && 0 < sleep && d <= sleep && 31 * (sleep + d) < TWO_64
    ensures sleep - d >= 500_000_000 && 100 * d <= 17 * sleep ==> AlwaysFlagged(sqrt, sleep - d, sleep + d)
    ensures 100 * d >= 18 * sleep ==> !AlwaysFlagged(sqrt, sleep - d, sleep + d)
  {
    if sleep - d >= 500_000_000 && 100 * d <= 17 * sleep {
      Tolerated17(sleep as real, d as real);
      SleepFlagged(sqrt, sleep, d);
    }
    if 100 * d >= 18 * sleep {
      NotTolerated18(sleep as real, d as real);
      SleepEscapes(sqrt, sleep, d);
    }
  }

  /** So from 600 ms on 14 percent of jitter is always flagged, and one sixth is. */
  lemma SleepFrom600(sqrt: real -> real, sleep: nat, d: nat)
    requires IsSquareRoot(sqrt) && sleep >= 600_000_000 && 31 * (sleep + d) < TWO_64
    requires 100 * d <= 14 * sleep || 6 * d <= sleep
    ensures d <= sleep && AlwaysFlagged(sqrt, sleep - d, sleep + d)
  {
    SleepByPercent(sqrt, sleep, d);
  }

  lemma NotTolerated18(t: real, d: real)
    requires t > 0.0 && 18.0 * t <= 100.0 * d && d <= t
    ensures !JitterTolerated(t, d)
  {
    if JitterTolerated(t, d) {
      ToleratedAtMost(t, d);
    }
  }

  lemma Tolerated17(t: real, d: real)
    requires 0.0 <= 100.0 * d <= 17.0 * t
    ensures JitterTolerated(t, d)
  {
    var tt, dd, w := t * t, d * d, 31.0 * t - 5.0 * d;
    SquareAtMost(d, 0.17 * t);
    SquareAtMost(30.15 * t, w);
    assert (0.17 * t) * (0.17 * t) == 0.0289 * tt && (30.15 * t) * (30.15 * t) == 909.0225 * tt;
    assert tt >= 0.0 by { SquareNonNegative(t); }
  }

  /** The advertised 20 percent is beyond that. Eighteen gaps of 8 s and then thirteen
      of 12 s, all within 20 percent of 10 s and without payload, are not flagged. */
  lemma TwentyPercentEscapes(sqrt: real -> real) returns (p: seq<Packet>)
    requires IsSquareRoot(sqrt)
    ensures |p| == FLOW_WINDOW_SIZE && Gaps(p) == Ends(13, 18, 8_000.0, 12_000.0)
    ensures CountTail(p, IsSmall()) == 31 && !Detect(p, sqrt).isBeacon
  {
    p := EndsWindow(8_000_000_000, 12_000_000_000, 13);
    RhythmAndSymmetry(p, sqrt);
    if Rhythmic(Gaps(p)) {
      EndsRhythmic(8_000.0, 12_000.0, 13, SquareFrom(0.0));
    }
  }
}

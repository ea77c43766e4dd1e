/** Differential block-entropy analysis
    (crates/kavach-tripwire/src/entropy.rs), over given block entropies in exact
    real arithmetic. */
module Entropy {
  import opened Statistics

  const ENTROPY_MAX := 8.0
  const RANSOMWARE_THRESHOLD := 7.95
  const SUSPICIOUS_THRESHOLD := 7.50

  datatype Summary = Summary(
    totalBlocks: nat,
    meanEntropy: real,
    maxEntropy: real,
    minEntropy: real,
    variance: real,
    highEntropyRatio: real,
    intermittentScore: real,
    isAnomalous: bool)

  function MaxFrom0(s: seq<real>): real {
    if s == [] then 0.0
    else var m := MaxFrom0(s[..|s| - 1]); if s[|s| - 1] > m then s[|s| - 1] else m
  }

  function MinFrom8(s: seq<real>): real {
    if s == [] then ENTROPY_MAX
    else var m := MinFrom8(s[..|s| - 1]); if s[|s| - 1] < m then s[|s| - 1] else m
  }

  /** A jump of at least 2 bits with a suspicious block on one side. */
  predicate IsTransition(a: real, b: real) {
    AbsReal(b - a) >= 2.0 && (a >= SUSPICIOUS_THRESHOLD || b >= SUSPICIOUS_THRESHOLD)
  }

  function Transitions(s: seq<real>): (n: nat)
    ensures n <= if s == [] then 0 else |s| - 1
  {
    if |s| <= 1 then 0
    else Transitions(s[..|s| - 1]) + (if IsTransition(s[|s| - 2], s[|s| - 1]) then 1 else 0)
  }

  function TransitionRatio(s: seq<real>): real {
    if |s| > 1 then (Transitions(s) as real) / ((|s| - 1) as real) else 0.0
  }

  function HighRatio(s: seq<real>): real
    requires s != []
  {
    CountAtLeast(s, RANSOMWARE_THRESHOLD) as real / (|s| as real)
  }

  function IntermittentScore(s: seq<real>): real
    requires s != []
  {
    if MaxFrom0(s) >= RANSOMWARE_THRESHOLD && Variance(s) >= 1.0
    then Clamp01(TransitionRatio(s) * 0.5 + Variance(s) / 8.0 * 0.5)
    else 0.0
  }

  predicate Anomalous(s: seq<real>) {
    s != [] && (|| HighRatio(s) >= 0.7
                || (CountAtLeast(s, RANSOMWARE_THRESHOLD) >= 2 && IntermittentScore(s) >= 0.35))
  }

  function Summarize(s: seq<real>): Summary {
    if s == [] then Summary(0, 0.0, 0.0, 0.0, 0.0, 0.0, 0.0, false)
    else Summary(|s|, Mean(s), MaxFrom0(s), MinFrom8(s), Variance(s), HighRatio(s),
                 IntermittentScore(s), Anomalous(s))
  }

  /** First pass: sum, extremes and the number of ciphertext-grade blocks. */
  method Accumulate(blocks: seq<real>) returns (sum: real, maxE: real, minE: real, highCount: nat)
    ensures sum == Sum(blocks) && maxE == MaxFrom0(blocks) && minE == MinFrom8(blocks)
    ensures highCount == CountAtLeast(blocks, RANSOMWARE_THRESHOLD)
  {
    sum, maxE, minE, highCount := 0.0, 0.0, ENTROPY_MAX, 0;
    for i := 0 to |blocks|
      invariant sum == Sum(blocks[..i])
      invariant maxE == MaxFrom0(blocks[..i]) && minE == MinFrom8(blocks[..i])
      invariant highCount == CountAtLeast(blocks[..i], RANSOMWARE_THRESHOLD)
    {
      var e := blocks[i];
      assert blocks[..i + 1][..i] == blocks[..i];
      sum := sum + e;
      if e > maxE {
        maxE := e;
      }
      if e < minE {
        minE := e;
      }
      if e >= RANSOMWARE_THRESHOLD {
        highCount := highCount + 1;
      }
    }
    assert blocks[..|blocks|] == blocks;
  }

  /** Second pass: squared deviations from the mean. */
  method SquaredDeviations(blocks: seq<real>, mean: real) returns (varSum: real)
    ensures varSum == SqDev(blocks, mean)
  {
    varSum := 0.0;
    for i := 0 to |blocks|
      invariant varSum == SqDev(blocks[..i], mean)
    {
      assert blocks[..i + 1][..i] == blocks[..i];
      var diff := blocks[i] - mean;
      varSum := varSum + diff * diff;
    }
    assert blocks[..|blocks|] == blocks;
  }

  /** Third pass: jumps between neighbouring blocks. */
  method CountTransitions(blocks: seq<real>) returns (n: nat)
    ensures n == Transitions(blocks)
  {
    n := 0;
    if |blocks| > 1 {
      for i := 1 to |blocks|
        invariant n == Transitions(blocks[..i])
      {
        assert blocks[..i + 1][..i] == blocks[..i];
        var delta := AbsReal(blocks[i] - blocks[i - 1]);
        if delta >= 2.0
           && (blocks[i - 1] >= SUSPICIOUS_THRESHOLD || blocks[i] >= SUSPICIOUS_THRESHOLD) {
          n := n + 1;
        }
      }
      assert blocks[..|blocks|] == blocks;
    }
  }

  method DifferentialEntropy(blocks: seq<real>) returns (r: Summary)
    ensures r == Summarize(blocks)
  {
    if blocks == [] {
      return Summary(0, 0.0, 0.0, 0.0, 0.0, 0.0, 0.0, false);
    }
    var n := |blocks| as real;
    var sum, maxE, minE, highCount := Accumulate(blocks);
    var mean := sum / n;
    var varSum := SquaredDeviations(blocks, mean);
    var variance := varSum / n;
    var highRatio := highCount as real / n;
    var deltaTransitions := CountTransitions(blocks);
    var transitionRatio := if |blocks| > 1 then (deltaTransitions as real) / ((|blocks| - 1) as real) else 0.0;
    var score := if maxE >= RANSOMWARE_THRESHOLD && variance >= 1.0
                 then Clamp01(transitionRatio * 0.5 + variance / 8.0 * 0.5)
                 else 0.0;
    var anomalous := highRatio >= 0.7 || (highCount >= 2 && score >= 0.35);
    return Summary(|blocks|, mean, maxE, minE, variance, highRatio, score, anomalous);
  }

  // ----- The summary, read off the blocks -----

  /** Where the ciphertext-grade blocks are. */
  ghost function HighIndices(s: seq<real>): set<int> {
    set i | 0 <= i < |s| && s[i] >= 7.95
  }

  /** A block differs from the one before by 2 bits or more, one of the two being suspicious. */
  ghost predicate JumpsAt(s: seq<real>, i: int)
    requires 1 <= i < |s|
  {
    && (s[i] - s[i - 1] >= 2.0 || s[i - 1] - s[i] >= 2.0)
    && (s[i - 1] >= 7.5 || s[i] >= 7.5)
  }

  ghost function JumpIndices(s: seq<real>): set<int> {
    set i | 1 <= i < |s| && JumpsAt(s, i)
  }

  lemma {:induction false} HighCount(s: seq<real>)
    ensures CountAtLeast(s, RANSOMWARE_THRESHOLD) == |HighIndices(s)|
  {
    if s != [] {
      var n := |s| - 1;
      HighCount(s[..n]);
      assert HighIndices(s) == HighIndices(s[..n]) + if s[n] >= 7.95 then {n} else {};
    }
  }

  lemma {:induction false} LastJump(s: seq<real>, n: int)
    requires n == |s| - 1 >= 1
    ensures JumpIndices(s) == JumpIndices(s[..n]) + if IsTransition(s[n - 1], s[n]) then {n} else {}
  {
    forall i | 1 <= i < n ensures JumpsAt(s, i) <==> JumpsAt(s[..n], i) {
    }
  }

  lemma {:induction false} JumpCount(s: seq<real>)
    ensures Transitions(s) == |JumpIndices(s)|
  {
    if |s| <= 1 {
      assert JumpIndices(s) == {};
    } else {
      var n := |s| - 1;
      JumpCount(s[..n]);
      LastJump(s, n);
    }
  }

  /** 16 times the score: 8 times the share of jumps plus the variance. */
  ghost function Intensity(s: seq<real>): real
    requires s != []
  {
    (if |s| > 1 then 8.0 * |JumpIndices(s)| as real / (|s| - 1) as real else 0.0) + Variance(s)
  }

  lemma IntensityOfRatio(k: real, n: real, v: real)
    requires n > 0.0
    ensures 8.0 * k / n + v == 16.0 * (k / n * 0.5 + v / 8.0 * 0.5)
  {
    Quotient(k, n);
    Quotient(8.0 * k, n);
    var d := 8.0 * k / n - 8.0 * (k / n);
    Distribute(n, 8.0 * k / n, -8.0 * (k / n));
    if d > 0.0 {
      StrictMul(n, 0.0, d);
    } else if d < 0.0 {
      StrictMul(n, d, 0.0);
    }
  }

  lemma {:induction false} ScaledScore(s: seq<real>)
    requires s != []
    ensures Intensity(s) == 16.0 * (TransitionRatio(s) * 0.5 + Variance(s) / 8.0 * 0.5)
  {
    JumpCount(s);
    if |s| > 1 {
      IntensityOfRatio(|JumpIndices(s)| as real, (|s| - 1) as real, Variance(s));
    }
  }

  /** The score: zero without a high block or with a variance below 1, and otherwise a
      sixteenth of the intensity, at most 1. */
  lemma {:induction false} ScoreExactly(s: seq<real>)
    requires s != []
    ensures HighIndices(s) == {} || Variance(s) < 1.0 ==> Summarize(s).intermittentScore == 0.0
    ensures HighIndices(s) != {} && Variance(s) >= 1.0 ==>
              16.0 * Summarize(s).intermittentScore == if Intensity(s) <= 16.0 then Intensity(s) else 16.0
  {
    HighCount(s);
    MaxCoversHigh(s);
    ScaledScore(s);
    RatioNonNegative(s);
  }

  lemma {:induction false} RatioNonNegative(s: seq<real>)
    ensures TransitionRatio(s) >= 0.0
  {
    if |s| > 1 {
      TimesIsProduct(|s| - 1, 0.0);
      QuotientAtLeast(Transitions(s) as real, |s| - 1, 0.0);
    }
  }

  /** Exactly which block sequences are anomalous: at least 70 percent high, or two high
      blocks, a variance of at least 1 and an intensity of at least 5.6. */
  lemma {:induction false} AnomalyExactly(s: seq<real>)
    requires s != []
    ensures Summarize(s).isAnomalous <==>
            || 10 * |HighIndices(s)| >= 7 * |s|
            || (|HighIndices(s)| >= 2 && Variance(s) >= 1.0 && Intensity(s) >= 5.6)
  {
    HighCount(s);
    MaxCoversHigh(s);
    ScaledScore(s);
    RatioThreshold(CountAtLeast(s, RANSOMWARE_THRESHOLD) as real, |s| as real);
  }

  lemma {:induction false} MaxExactly(s: seq<real>)
    ensures MaxFrom0(s) >= 0.0 && (MaxFrom0(s) == 0.0 || MaxFrom0(s) in s)
    ensures forall i :: 0 <= i < |s| ==> s[i] <= MaxFrom0(s)
  {
    if s != [] {
      MaxExactly(s[..|s| - 1]);
    }
  }

  lemma {:induction false} MinExactly(s: seq<real>)
    ensures MinFrom8(s) <= 8.0 && (MinFrom8(s) == 8.0 || MinFrom8(s) in s)
    ensures forall i :: 0 <= i < |s| ==> MinFrom8(s) <= s[i]
  {
    if s != [] {
      MinExactly(s[..|s| - 1]);
    }
  }

  /** Number, mean, variance and high ratio of a summary. */
  lemma {:induction false} SummaryShares(s: seq<real>)
    requires s != []
    ensures Summarize(s).totalBlocks == |s|
    ensures Summarize(s).meanEntropy == Sum(s) / |s| as real
    ensures Summarize(s).variance == SqDev(s, Sum(s) / |s| as real) / |s| as real
    ensures Summarize(s).highEntropyRatio == |HighIndices(s)| as real / |s| as real
  {
    HighCount(s);
  }

  /** Its extremes bound the blocks and are blocks, or 0 and 8. */
  lemma {:induction false} SummaryExtremes(s: seq<real>)
    ensures forall i :: 0 <= i < |s| ==> Summarize(s).minEntropy <= s[i] <= Summarize(s).maxEntropy
    ensures s != [] ==> Summarize(s).maxEntropy >= 0.0 && (Summarize(s).maxEntropy == 0.0 || Summarize(s).maxEntropy in s)
    ensures s != [] ==> Summarize(s).minEntropy <= 8.0 && (Summarize(s).minEntropy == 8.0 || Summarize(s).minEntropy in s)
    ensures s == [] ==> Summarize(s) == Summary(0, 0.0, 0.0, 0.0, 0.0, 0.0, 0.0, false)
  {
    if s != [] {
      MaxExactly(s);
      MinExactly(s);
    }
  }

  // ----- What an anomaly requires -----

  lemma {:induction false} MaxCoversHigh(s: seq<real>)
    ensures MaxFrom0(s) >= RANSOMWARE_THRESHOLD <==> CountAtLeast(s, RANSOMWARE_THRESHOLD) > 0
  {
    if s != [] {
      MaxCoversHigh(s[..|s| - 1]);
    }
  }

  /** No file is called anomalous without a ciphertext-grade block in it. */
  lemma {:induction false} AnomalyNeedsHighBlock(s: seq<real>)
    ensures Summarize(s).isAnomalous ==> Summarize(s).maxEntropy >= RANSOMWARE_THRESHOLD
  {
    MaxCoversHigh(s);
    if s != [] && CountAtLeast(s, RANSOMWARE_THRESHOLD) == 0 {
      assert HighRatio(s) == 0.0;
    }
  }

  /** Blocks spanning less than 2 bits cannot look intermittent: only the share
      of high blocks can then flag the file. */
  lemma {:induction false} NarrowRangeOnlySustained(s: seq<real>, lo: real, hi: real)
    requires s != [] && Within(s, lo, hi) && lo <= hi < lo + 2.0
    ensures Summarize(s).intermittentScore == 0.0
    ensures Summarize(s).isAnomalous <==> CountAtLeast(s, RANSOMWARE_THRESHOLD) as real >= 0.7 * |s| as real
  {
    var r := (hi - lo) / 2.0;
    VarianceAtMost(s, lo, hi, r);
    assert r * r < 1.0 by { SquareBelowOne(r); }
    RatioThreshold(CountAtLeast(s, RANSOMWARE_THRESHOLD) as real, |s| as real);
  }

  lemma SquareBelowOne(r: real)
    requires 0.0 <= r < 1.0
    ensures r * r < 1.0
  {
    MulMonotone(r, r, 1.0);
  }

  lemma RatioThreshold(h: real, n: real)
    requires n > 0.0
    ensures h / n >= 0.7 <==> h >= 0.7 * n
  {
    var q := h / n;
    assert q * n == h;
    if q >= 0.7 {
      MulMonotone(n, 0.7, q);
    } else {
      StrictMul(n, q, 0.7);
    }
  }

  // ----- Intermittent encryption -----

  /** Every block is high (at least 7.95) or at most `low`, never twice the same in a row. */
  ghost predicate Alternating(s: seq<real>, low: real) {
    && (forall i :: 0 <= i < |s| ==> s[i] <= low || RANSOMWARE_THRESHOLD <= s[i])
    && (forall i :: 1 <= i < |s| ==> (s[i - 1] >= RANSOMWARE_THRESHOLD) != (s[i] >= RANSOMWARE_THRESHOLD))
  }

  lemma {:induction false} AlternatingCounts(s: seq<real>, low: real)
    requires s != [] && Alternating(s, low)
    ensures var h := CountAtLeast(s, RANSOMWARE_THRESHOLD);
            2 * h == if |s| % 2 == 0 then |s| else if s[|s| - 1] >= RANSOMWARE_THRESHOLD then |s| + 1 else |s| - 1
  {
    var p := s[..|s| - 1];
    if |s| > 1 {
      AlternatingCounts(p, low);
      assert (s[|s| - 2] >= RANSOMWARE_THRESHOLD) != (s[|s| - 1] >= RANSOMWARE_THRESHOLD);
    } else {
      assert p == [];
    }
  }

  lemma {:induction false} AlternatingTransitions(s: seq<real>, low: real)
    requires s != [] && Alternating(s, low) && low <= RANSOMWARE_THRESHOLD - 2.0
    ensures Transitions(s) == |s| - 1
  {
    if |s| > 1 {
      AlternatingTransitions(s[..|s| - 1], low);
      assert (s[|s| - 2] >= RANSOMWARE_THRESHOLD) != (s[|s| - 1] >= RANSOMWARE_THRESHOLD);
      assert IsTransition(s[|s| - 2], s[|s| - 1]);
    }
  }

  /** Two groups of nearly equal size, at least two of them high: 9hl >= 2n^2. */
  lemma BalancedGroups(h: nat, l: nat)
    requires h >= 2 && h - 1 <= l <= h + 1
    ensures 9 * (h * l) >= 2 * ((h + l) * (h + l))
  {
    if l == h - 1 {
      assert 9 * (h * l) == 9 * (h * h) - 9 * h;
      assert (h + l) * (h + l) == 4 * (h * h) - 4 * h + 1;
      assert h * h >= 2 * h;
    } else if l == h {
      assert (h + l) * (h + l) == 4 * (h * l);
    } else {
      assert 9 * (h * l) == 9 * (h * h) + 9 * h;
      assert (h + l) * (h + l) == 4 * (h * h) + 4 * h + 1;
      assert h * h >= 2 * h;
    }
  }

  lemma SquarePositive(n: real, q: real)
    requires n > 0.0 && q == n * n
    ensures q > 0.0
  {
    StrictProduct(n, 0.0, n, 0.0, q);
  }

  lemma CancelSquare(q: real, v: real, t: real, p: real, g: real)
    requires q > 0.0 && g > 0.0 && q * v >= p * g && 9.0 * p >= 2.0 * q
    requires t == g * 2.0 / 9.0
    ensures v >= t
  {
    MulMonotone(g, 2.0 / 9.0 * q, p);
    Ninths(q, g, t);
    Cancel(q, t, v);
  }

  lemma VarianceFromGroups(n: real, v: real, total: real, q: real, p: real, g: real)
    requires n > 0.0 && g > 0.0 && n * total >= p * g && q == n * n && q > 0.0 && 9.0 * p >= 2.0 * q
    requires v * n == total
    ensures v >= g * 2.0 / 9.0
  {
    assert q * v == n * (v * n);
    CancelSquare(q, v, g * 2.0 / 9.0, p, g);
  }

  lemma Ninths(q: real, g: real, t: real)
    requires t == g * 2.0 / 9.0
    ensures g * (2.0 / 9.0 * q) == q * t
  {
  }

  lemma SpreadOpened(n: nat, h: nat, gap: real, total: real, nr: real, p: real, g: real)
    requires h <= n && SpreadCovers(n, h, gap, total)
    requires nr == n as real && p == h as real * (n - h) as real && g == gap * gap
    ensures nr * total >= p * g
  {
  }

  /** The variance of an alternating sequence with two high blocks is at least two
      ninths of the squared gap g. */
  lemma {:induction false} AlternatingVariance(s: seq<real>, low: real, gap: real, g: real)
    requires Alternating(s, low) && CountAtLeast(s, RANSOMWARE_THRESHOLD) >= 2
    requires gap == RANSOMWARE_THRESHOLD - low > 0.0 && g == gap * gap
    ensures Variance(s) >= g * 2.0 / 9.0
  {
    var h := CountAtLeast(s, RANSOMWARE_THRESHOLD);
    var total := SqDev(s, Mean(s));
    assert h - 1 <= |s| - h <= h + 1 by { AlternatingCounts(s, low); }
    assert SpreadCovers(|s|, h, gap, total) by { BetweenGroups(s, low, RANSOMWARE_THRESHOLD, Mean(s)); }
    GroupVariance(|s|, h, |s| - h, gap, g, Variance(s), total, |s| as real);
  }

  lemma GroupVariance(n: nat, h: nat, l: nat, gap: real, g: real, v: real, total: real, nr: real)
    requires n > 0 && n == h + l && nr == n as real && gap > 0.0 && g == gap * gap
    requires h >= 2 && h - 1 <= l <= h + 1 && SpreadCovers(n, h, gap, total) && v == total / nr
    ensures v >= g * 2.0 / 9.0
  {
    var p, q := h as real * l as real, nr * nr;
    assert 9.0 * p >= 2.0 * q by {
      BalancedGroups(h, l);
      ProductsAsReals(h, l, n);
    }
    assert nr * total >= p * g by { SpreadOpened(n, h, gap, total, nr, p, g); }
    assert q > 0.0 && g > 0.0 by {
      SquarePositive(nr, q);
      SquarePositive(gap, g);
    }
    Quotient(total, nr);
    VarianceFromGroups(nr, v, total, q, p, g);
  }

  lemma GapAtLeastTwo(gap: real)
    requires gap > 0.0 && 2.0 * (gap * gap) >= 9.0
    ensures gap >= 2.0
  {
    if gap < 2.0 {
      MulMonotone(gap, gap, 2.0);
    }
  }

  /** Every strictly alternating file with at least two high blocks and lows this far
      down is flagged, whatever its length: all its steps are transitions, its variance
      is at least two ninths of the squared gap, and the score clears the threshold. */
  lemma {:induction false} AlternatingFlagged(s: seq<real>, low: real)
    requires Alternating(s, low) && CountAtLeast(s, RANSOMWARE_THRESHOLD) >= 2
    requires low < RANSOMWARE_THRESHOLD
    requires 2.0 * ((RANSOMWARE_THRESHOLD - low) * (RANSOMWARE_THRESHOLD - low)) >= 9.0
    ensures TransitionRatio(s) == 1.0
    ensures Summarize(s).variance >= (RANSOMWARE_THRESHOLD - low) * (RANSOMWARE_THRESHOLD - low) * 2.0 / 9.0
    ensures Summarize(s).intermittentScore >= 0.5625
    ensures Summarize(s).isAnomalous
  {
    var gap := RANSOMWARE_THRESHOLD - low;
    GapAtLeastTwo(gap);
    AlternatingTransitions(s, low);
    MaxCoversHigh(s);
    AlternatingVariance(s, low, gap, gap * gap);
    WholeRatio(|s| - 1);
    ScoreOfFullRatio(Variance(s));
  }

  ghost predicate AlwaysFlagged(low: real) {
    forall s :: Alternating(s, low) && CountAtLeast(s, RANSOMWARE_THRESHOLD) >= 2 ==> Summarize(s).isAnomalous
  }

  /** How low the lows must be: all alternating files with two high blocks are flagged
      exactly when the squared gap is at least 4.5 (lows up to about 5.828 bits). */
  lemma AlternatingFlaggedExactly(low: real)
    requires low < RANSOMWARE_THRESHOLD
    ensures AlwaysFlagged(low) <==>
            2.0 * ((RANSOMWARE_THRESHOLD - low) * (RANSOMWARE_THRESHOLD - low)) >= 9.0
  {
    var gap := RANSOMWARE_THRESHOLD - low;
    if 2.0 * (gap * gap) >= 9.0 {
      forall s | Alternating(s, low) && CountAtLeast(s, RANSOMWARE_THRESHOLD) >= 2
        ensures Summarize(s).isAnomalous
      {
        AlternatingFlagged(s, low);
      }
    } else {
      ShallowNotFlagged(low, gap, gap * gap);
    }
  }

  /** Otherwise high, low, high already escapes: its variance is exactly two ninths of
      the squared gap, below 1, and two high blocks of three are below 70 percent. */
  lemma ShallowNotFlagged(low: real, gap: real, g: real)
    requires gap == RANSOMWARE_THRESHOLD - low > 0.0 && g == gap * gap && 2.0 * g < 9.0
    ensures var s := [RANSOMWARE_THRESHOLD, low, RANSOMWARE_THRESHOLD];
            && Alternating(s, low) && CountAtLeast(s, RANSOMWARE_THRESHOLD) == 2
            && Variance(s) == g * 2.0 / 9.0
            && !Summarize(s).isAnomalous
  {
    ThreeHighs(low);
    ThreeVariance(RANSOMWARE_THRESHOLD, low, gap, g);
  }

  lemma ThreeHighs(low: real)
    requires low < RANSOMWARE_THRESHOLD
    ensures CountAtLeast([RANSOMWARE_THRESHOLD, low, RANSOMWARE_THRESHOLD], RANSOMWARE_THRESHOLD) == 2
  {
    CountOfThree(RANSOMWARE_THRESHOLD, low, RANSOMWARE_THRESHOLD);
  }

  lemma ThreeSums(a: real, b: real, c: real, m: real)
    ensures Sum([a, b, c]) == a + b + c
    ensures SqDev([a, b, c], m) == (a - m) * (a - m) + (b - m) * (b - m) + (c - m) * (c - m)
  {
    assert [a] == [] + [a] && [a, b] == [a] + [b] && [a, b, c] == [a, b] + [c];
    SumsPush([], a, m);
    SumsPush([a], b, m);
    SumsPush([a, b], c, m);
  }

  lemma ThreeSquares(gap: real)
    ensures (gap / 3.0) * (gap / 3.0) + (-2.0 * gap / 3.0) * (-2.0 * gap / 3.0) + (gap / 3.0) * (gap / 3.0)
         == gap * gap * 2.0 / 3.0
  {
  }

  lemma ThreeVariance(high: real, low: real, gap: real, g: real)
    requires gap == high - low && g == gap * gap
    ensures Variance([high, low, high]) == g * 2.0 / 9.0
  {
    var m := Mean([high, low, high]);
    ThreeSums(high, low, high, m);
    assert high - m == gap / 3.0 && low - m == -2.0 * gap / 3.0;
    ThreeSquares(gap);
  }

  lemma WholeRatio(k: nat)
    requires k > 0
    ensures (k as real) / (k as real) == 1.0
  {
  }

  lemma ScoreOfFullRatio(v: real)
    requires v >= 1.0
    ensures Clamp01(1.0 * 0.5 + v / 8.0 * 0.5) >= 0.5625
  {
  }

  lemma ProductsAsReals(h: nat, l: nat, n: nat)
    requires n == h + l && 9 * (h * l) >= 2 * (n * n)
    ensures 9.0 * (h as real * l as real) >= 2.0 * (n as real * n as real)
  {
    assert (h * l) as real == h as real * l as real;
    assert (n * n) as real == n as real * n as real;
  }

  // ----- The same for one length at a time -----

  /** All alternating sequences of h high blocks and l blocks at most low are flagged. */
  ghost predicate LengthFlagged(low: real, h: nat, l: nat) {
    forall s :: Alternating(s, low) && |s| == h + l && CountAtLeast(s, RANSOMWARE_THRESHOLD) == h
      ==> Summarize(s).isAnomalous
  }

  /** The group sizes and the gap force a variance of at least 1. */
  ghost predicate GapSuffices(h: nat, l: nat, gap: real) {
    h as real * l as real * (gap * gap) >= (h + l) as real * (h + l) as real
  }

  lemma SquareOfSum(h: real, l: real)
    ensures (h + l) * (h + l) >= 4.0 * (h * l)
  {
    SquareNonNegative(h - l);
    assert (h + l) * (h + l) - 4.0 * (h * l) == (h - l) * (h - l);
  }

  lemma SufficientGap(h: nat, l: nat, gap: real)
    requires h > 0 && l > 0 && gap > 0.0 && GapSuffices(h, l, gap)
    ensures gap >= 2.0
  {
    var p, q, g := h as real * l as real, (h + l) as real * (h + l) as real, gap * gap;
    assert q >= 4.0 * p by {
      assert (h + l) as real == h as real + l as real;
      SquareOfSum(h as real, l as real);
    }
    assert p > 0.0 by { StrictProduct(h as real, 0.0, l as real, 0.0, p); }
    if gap < 2.0 {
      SquareBelowFour(gap, g);
      StrictProduct(p, g, 4.0, p * g, 4.0 * p);
    }
  }

  lemma SquareBelowFour(gap: real, g: real)
    requires 0.0 < gap < 2.0 && g == gap * gap
    ensures g < 4.0
  {
    StrictProduct(gap, gap, 2.0, g, 2.0 * gap);
  }

  lemma AtLeastOne(n: real, total: real, v: real, p: real, g: real)
    requires n > 0.0 && v == total / n && n * total >= p * g && p * g >= n * n
    ensures v >= 1.0
  {
    Cancel(n, n, total);
    Quotient(total, n);
    Cancel(n, 1.0, v);
  }

  lemma BelowOneByTotal(n: real, total: real, v: real)
    requires n > 0.0 && v == total / n && n * total < n * n
    ensures v < 1.0
  {
    Quotient(total, n);
    if v >= 1.0 {
      MulMonotone(n, 1.0, v);
      MulMonotone(n, n, total);
    }
  }

  lemma SufficesByName(h: nat, l: nat, gap: real, n: real, p: real, g: real)
    requires n == (h + l) as real && p == h as real * l as real && g == gap * gap
    ensures GapSuffices(h, l, gap) <==> p * g >= n * n
  {
  }

  lemma CoveredVariance(h: nat, l: nat, gap: real, n: real, total: real, v: real)
    requires n == (h + l) as real > 0.0 && SpreadCovers(h + l, h, gap, total) && GapSuffices(h, l, gap) && v == total / n
    ensures v >= 1.0
  {
    var p, g := h as real * l as real, gap * gap;
    assert n * total >= p * g by {
      assert h + l - h == l;
      SpreadOpened(h + l, h, gap, total, n, p, g);
    }
    assert p * g >= n * n by { SufficesByName(h, l, gap, n, p, g); }
    AtLeastOne(n, total, v, p, g);
  }

  lemma {:induction false} LengthVariance(s: seq<real>, low: real, h: nat, l: nat, gap: real)
    requires Alternating(s, low) && |s| == h + l > 0 && CountAtLeast(s, RANSOMWARE_THRESHOLD) == h
    requires gap == RANSOMWARE_THRESHOLD - low > 0.0 && GapSuffices(h, l, gap)
    ensures Variance(s) >= 1.0
  {
    var total := SqDev(s, Mean(s));
    assert SpreadCovers(h + l, h, gap, total) by { BetweenGroups(s, low, RANSOMWARE_THRESHOLD, Mean(s)); }
    CoveredVariance(h, l, gap, |s| as real, total, Variance(s));
  }

  lemma {:induction false} SufficientFlagged(s: seq<real>, low: real, h: nat, l: nat)
    requires Alternating(s, low) && |s| == h + l && CountAtLeast(s, RANSOMWARE_THRESHOLD) == h
    requires h >= 2 && l > 0 && low < RANSOMWARE_THRESHOLD && GapSuffices(h, l, RANSOMWARE_THRESHOLD - low)
    ensures Summarize(s).isAnomalous && Summarize(s).intermittentScore >= 0.5625
  {
    SufficientGap(h, l, RANSOMWARE_THRESHOLD - low);
    LengthVariance(s, low, h, l, RANSOMWARE_THRESHOLD - low);
    AlternatingTransitions(s, low);
    MaxCoversHigh(s);
    WholeRatio(|s| - 1);
    ScoreOfFullRatio(Variance(s));
  }

  /** Alternation between exactly 7.95 and low. */
  function Zigzag(n: nat, low: real, lastHigh: bool): (s: seq<real>)
    ensures |s| == n
  {
    if n == 0 then [] else Zigzag(n - 1, low, !lastHigh) + [if lastHigh then RANSOMWARE_THRESHOLD else low]
  }

  lemma {:induction false} ZigzagAlternates(n: nat, low: real, lastHigh: bool)
    requires low < RANSOMWARE_THRESHOLD
    ensures var s := Zigzag(n, low, lastHigh);
            && Alternating(s, low)
            && (n > 0 ==> s[n - 1] == if lastHigh then RANSOMWARE_THRESHOLD else low)
            && (forall i :: 0 <= i < n ==> s[i] == low || s[i] == RANSOMWARE_THRESHOLD)
  {
    if n > 0 {
      ZigzagAlternates(n - 1, low, !lastHigh);
    }
  }

  lemma {:induction false} ZigzagCount(n: nat, low: real, lastHigh: bool)
    requires low < RANSOMWARE_THRESHOLD
    ensures CountAtLeast(Zigzag(n, low, lastHigh), RANSOMWARE_THRESHOLD) == if lastHigh then (n + 1) / 2 else n / 2
  {
    if n > 0 {
      ZigzagCount(n - 1, low, !lastHigh);
      CountPush(Zigzag(n - 1, low, !lastHigh), if lastHigh then RANSOMWARE_THRESHOLD else low, RANSOMWARE_THRESHOLD);
    }
  }

  lemma {:induction false} ZigzagOf(low: real, h: nat, l: nat) returns (s: seq<real>)
    requires h - 1 <= l <= h + 1 && low < RANSOMWARE_THRESHOLD
    ensures Alternating(s, low) && |s| == h + l && CountAtLeast(s, RANSOMWARE_THRESHOLD) == h
    ensures forall i :: 0 <= i < |s| ==> s[i] == low || s[i] == RANSOMWARE_THRESHOLD
  {
    s := Zigzag(h + l, low, h >= l);
    ZigzagAlternates(h + l, low, h >= l);
    ZigzagCount(h + l, low, h >= l);
  }

  /** With less gap a sequence of the two values is not flagged: its variance is below
      1, and at most two thirds of its blocks are high. */
  lemma {:induction false} TwoValuedNotFlagged(s: seq<real>, low: real, h: nat, l: nat)
    requires |s| == h + l && CountAtLeast(s, RANSOMWARE_THRESHOLD) == h && low < RANSOMWARE_THRESHOLD
    requires forall i :: 0 <= i < |s| ==> s[i] == low || s[i] == RANSOMWARE_THRESHOLD
    requires h >= 2 && h - 1 <= l && !GapSuffices(h, l, RANSOMWARE_THRESHOLD - low)
    ensures !Summarize(s).isAnomalous
  {
    TwoValuedVariance(s, low, h, l, RANSOMWARE_THRESHOLD - low);
    FewHigh(h, l);
  }

  lemma {:induction false} TwoValuedVariance(s: seq<real>, low: real, h: nat, l: nat, gap: real)
    requires |s| == h + l > 0 && CountAtLeast(s, RANSOMWARE_THRESHOLD) == h
    requires forall i :: 0 <= i < |s| ==> s[i] == low || s[i] == RANSOMWARE_THRESHOLD
    requires gap == RANSOMWARE_THRESHOLD - low > 0.0 && !GapSuffices(h, l, gap)
    ensures Variance(s) < 1.0
  {
    TwoValuedSpread(s, low, RANSOMWARE_THRESHOLD);
    BelowOneByGap(h, l, gap, |s| as real, SqDev(s, Mean(s)), Variance(s));
  }

  lemma BelowOneByGap(h: nat, l: nat, gap: real, n: real, total: real, v: real)
    requires n == (h + l) as real > 0.0 && SpreadIs(h + l, h, gap, total) && !GapSuffices(h, l, gap) && v == total / n
    ensures v < 1.0
  {
    var p, g := h as real * l as real, gap * gap;
    assert n * total == p * g by {
      assert h + l - h == l;
      SpreadIsNamed(h + l, h, gap, total, n, p, g);
    }
    assert p * g < n * n by { SufficesByName(h, l, gap, n, p, g); }
    BelowOneByTotal(n, total, v);
  }

  lemma FewHigh(h: nat, l: nat)
    requires h >= 2 && h - 1 <= l
    ensures h as real / (h + l) as real < 0.7
  {
    RatioThreshold(h as real, (h + l) as real);
  }

  /** How much gap each length needs, exactly: with h high and l low blocks, all
      alternating sequences are flagged if and only if h l gap^2 >= (h + l)^2. */
  lemma AlternatingByLength(low: real, h: nat, l: nat)
    requires h >= 2 && h - 1 <= l <= h + 1 && low < RANSOMWARE_THRESHOLD
    ensures LengthFlagged(low, h, l) <==> GapSuffices(h, l, RANSOMWARE_THRESHOLD - low)
  {
    if GapSuffices(h, l, RANSOMWARE_THRESHOLD - low) {
      forall s | Alternating(s, low) && |s| == h + l && CountAtLeast(s, RANSOMWARE_THRESHOLD) == h
        ensures Summarize(s).isAnomalous
      {
        SufficientFlagged(s, low, h, l);
      }
    } else {
      var s := ZigzagOf(low, h, l);
      TwoValuedNotFlagged(s, low, h, l);
    }
  }

  /** The two-block requirement is real: one high block among low ones, though it
      alternates, need not be flagged. */
  lemma SingleHighNotFlagged()
    ensures Alternating([0.0, 8.0, 0.0], 0.0) && !Summarize([0.0, 8.0, 0.0]).isAnomalous
  {
    CountOfThree(0.0, 8.0, 0.0);
    assert HighRatio([0.0, 8.0, 0.0]) == 1.0 / 3.0;
  }

  lemma CountOfThree(a: real, b: real, c: real)
    ensures CountAtLeast([a, b, c], RANSOMWARE_THRESHOLD) == High(a) + High(b) + High(c)
  {
    assert [a] == [] + [a] && [a, b] == [a] + [b] && [a, b, c] == [a, b] + [c];
    CountPush([], a, RANSOMWARE_THRESHOLD);
    CountPush([a], b, RANSOMWARE_THRESHOLD);
    CountPush([a, b], c, RANSOMWARE_THRESHOLD);
  }

  function High(x: real): nat { if x >= RANSOMWARE_THRESHOLD then 1 else 0 }
}

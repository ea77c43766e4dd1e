/** The 32-packet flow window (crates/kavach-beacon/src/flow.rs) and the beacon
    rhythm test over it (crates/kavach-beacon/src/detector.rs), in exact
    arithmetic. The log-scaled tensor and the digest are not modelled. */
module Beacon {
  import opened MachineInts
  import opened Sequences
  import opened Wrappers
  import opened Statistics

  const FLOW_WINDOW_SIZE := 32
  const MIN_BEACON_INTERVAL_MS := 500.0

  datatype Direction = Outbound | Inbound
  datatype Packet = Packet(timestampNs: U64, payloadBytes: U32, direction: Direction)

  datatype Detection = Detection(
    meanDeltaMs: real,
    stdDevMs: real,
    coefficientOfVariation: real,
    jitterScore: real,
    symmetryScore: real,
    isBeacon: bool,
    confidence: real)

  class RollingFlow {
    var packets: seq<Packet>
    var totalPacketsSeen: nat
    ghost var log: seq<Packet>

    ghost predicate Valid()
      reads this
    {
      packets == LastN(log, FLOW_WINDOW_SIZE) && totalPacketsSeen == |log|
    }

    constructor ()
      ensures Valid() && log == []
    {
      packets := [];
      totalPacketsSeen := 0;
      log := [];
    }

    method RecordPacket(meta: Packet) returns (full: bool)
      requires Valid()
      modifies this
      ensures Valid() && log == old(log) + [meta]
      ensures full <==> |log| >= FLOW_WINDOW_SIZE
    {
      LastNPush(log, meta, FLOW_WINDOW_SIZE);
      if |packets| == FLOW_WINDOW_SIZE {
        packets := packets[1..];
      }
      packets := packets + [meta];
      totalPacketsSeen := totalPacketsSeen + 1;
      log := log + [meta];
      full := |packets| == FLOW_WINDOW_SIZE;
    }
  }

  // ----- The rhythm of a window -----

  /** `saturating_sub` in nanoseconds, as milliseconds. */
  function GapMs(earlier: Packet, later: Packet): real {
    (if later.timestampNs < earlier.timestampNs then 0 else later.timestampNs - earlier.timestampNs) as real
      / 1_000_000.0
  }

  function Gaps(p: seq<Packet>): (g: seq<real>)
    ensures |g| == if p == [] then 0 else |p| - 1
  {
    if |p| <= 1 then [] else Gaps(p[..|p| - 1]) + [GapMs(p[|p| - 2], p[|p| - 1])]
  }

  /** Packets after the first that satisfy a test. */
  function CountTail(p: seq<Packet>, test: Packet -> bool): (n: nat)
    ensures n <= if p == [] then 0 else |p| - 1
  {
    if |p| <= 1 then 0 else CountTail(p[..|p| - 1], test) + (if test(p[|p| - 1]) then 1 else 0)
  }

  function IsOutbound(): Packet -> bool { (m: Packet) => m.direction == Outbound }
  function IsInbound(): Packet -> bool { (m: Packet) => m.direction == Inbound }
  function IsSmall(): Packet -> bool { (m: Packet) => m.payloadBytes <= 512 }

  function BalanceRatio(outbound: nat, inbound: nat): real {
    if outbound > 0 && inbound > 0 then
      (if outbound < inbound then outbound else inbound) as real
      / (if outbound < inbound then inbound else outbound) as real
    else 0.0
  }

  function Symmetry(p: seq<Packet>): real
    requires |p| == FLOW_WINDOW_SIZE
  {
    Clamp01(BalanceRatio(CountTail(p, IsOutbound()), CountTail(p, IsInbound())) * 0.5
            + CountTail(p, IsSmall()) as real / 31.0 * 0.5)
  }

  /** The library square root is a parameter: any function with its two properties. */
  ghost predicate IsSquareRoot(sqrt: real -> real) {
    forall x :: x >= 0.0 ==> sqrt(x) >= 0.0 && sqrt(x) * sqrt(x) == x
  }

  function JitterScore(mean: real, cv: real): real {
    if mean >= MIN_BEACON_INTERVAL_MS && cv <= 0.35 then Clamp01(1.0 - cv / 0.35) else 0.0
  }

  /** The coefficient of variation. */
  function Variation(mean: real, stdDev: real): real {
    if mean > 0.0 then stdDev / mean else 1.0
  }

  function Detect(p: seq<Packet>, sqrt: real -> real): Detection
    requires |p| == FLOW_WINDOW_SIZE
  {
    var g := Gaps(p);
    var mean := Mean(g);
    var stdDev := sqrt(Variance(g));
    var cv := Variation(mean, stdDev);
    var jitter := JitterScore(mean, cv);
    var symmetry := Symmetry(p);
    Detection(mean, stdDev, cv, jitter, symmetry, jitter >= 0.5 && symmetry >= 0.4,
              Clamp01(jitter * 0.6 + symmetry * 0.4))
  }

  method GapsAndCounts(packets: seq<Packet>)
    returns (deltas: seq<real>, outbound: nat, inbound: nat, small: nat)
    requires packets != []
    ensures deltas == Gaps(packets)
    ensures outbound == CountTail(packets, IsOutbound()) && inbound == CountTail(packets, IsInbound())
    ensures small == CountTail(packets, IsSmall())
  {
    deltas, outbound, inbound, small := [], 0, 0, 0;
    for i := 1 to |packets|
      invariant deltas == Gaps(packets[..i])
      invariant outbound == CountTail(packets[..i], IsOutbound())
      invariant inbound == CountTail(packets[..i], IsInbound())
      invariant small == CountTail(packets[..i], IsSmall())
    {
      assert packets[..i + 1][..i] == packets[..i];
      var dtNs := if packets[i].timestampNs < packets[i - 1].timestampNs then 0
                  else packets[i].timestampNs - packets[i - 1].timestampNs;
      deltas := deltas + [dtNs as real / 1_000_000.0];
      match packets[i].direction {
        case Outbound => outbound := outbound + 1;
        case Inbound => inbound := inbound + 1;
      }
      if packets[i].payloadBytes <= 512 {
        small := small + 1;
      }
    }
    assert packets[..|packets|] == packets;
  }

  /** Mean, deviation, variation and jitter score of the gaps. */
  method ScoreRhythm(deltas: seq<real>, sqrt: real -> real)
    returns (mean: real, stdDev: real, cv: real, jitter: real)
    requires deltas != []
    ensures mean == Mean(deltas) && stdDev == sqrt(Variance(deltas))
    ensures cv == Variation(mean, stdDev) && jitter == JitterScore(mean, cv)
  {
    var count := |deltas| as real;
    mean := Sum(deltas) / count;
    stdDev := sqrt(SqDev(deltas, mean) / count);
    cv := if mean > 0.0 then stdDev / mean else 1.0;
    jitter := if mean >= MIN_BEACON_INTERVAL_MS && cv <= 0.35 then Clamp01(1.0 - cv / 0.35) else 0.0;
  }

  /** Direction balance and the share of small payloads. */
  method ScoreSymmetry(outbound: nat, inbound: nat, small: nat, count: real) returns (symmetry: real)
    requires count == 31.0
    ensures symmetry == Clamp01(BalanceRatio(outbound, inbound) * 0.5 + small as real / 31.0 * 0.5)
  {
    var balance := if outbound > 0 && inbound > 0 then
                     (if outbound < inbound then outbound else inbound) as real
                     / (if outbound < inbound then inbound else outbound) as real
                   else 0.0;
    var payloadRatio := small as real / count;
    symmetry := Clamp01(balance * 0.5 + payloadRatio * 0.5);
  }

  method EvaluateBeaconRhythm(packets: seq<Packet>, sqrt: real -> real) returns (r: Option<Detection>)
    ensures r.Some? <==> |packets| == FLOW_WINDOW_SIZE
    ensures r.Some? ==> r.value == Detect(packets, sqrt)
  {
    if |packets| != FLOW_WINDOW_SIZE {
      return None;
    }
    var deltas, outbound, inbound, small := GapsAndCounts(packets);
    var mean, stdDev, cv, jitter := ScoreRhythm(deltas, sqrt);
    var symmetry := ScoreSymmetry(outbound, inbound, small, |deltas| as real);
    var flagged := jitter >= 0.5 && symmetry >= 0.4;
    return Some(Detection(mean, stdDev, cv, jitter, symmetry, flagged, Clamp01(jitter * 0.6 + symmetry * 0.4)));
  }

  // ----- Exactly what is flagged -----

  lemma JitterHalf(mean: real, cv: real)
    ensures JitterScore(mean, cv) >= 0.5 <==> mean >= MIN_BEACON_INTERVAL_MS && cv <= 0.175
  {
  }

  lemma RatioAtMost(sd: real, mean: real, cv: real)
    requires mean > 0.0 && mean * cv == sd
    ensures cv <= 0.175 <==> sd <= 0.175 * mean
  {
    if cv <= 0.175 {
      MulMonotone(mean, cv, 0.175);
    } else {
      StrictMul(mean, 0.175, cv);
    }
  }

  lemma RootAtMost(sd: real, variance: real, limit: real)
    requires sd >= 0.0 && limit >= 0.0 && sd * sd == variance
    ensures sd <= limit <==> variance <= limit * limit
  {
    if sd <= limit {
      SquareAtMost(sd, limit);
    } else {
      SquareBelow(limit, sd, limit * limit, variance);
    }
  }

  /** Below half the permitted variation, without dividing or taking roots. */
  lemma TightExactly(mean: real, variance: real, sd: real, cv: real, limit: real, square: real)
    requires mean > 0.0 ==> (cv <= 0.175 <==> sd <= limit) && (sd <= limit <==> variance <= square)
    ensures JitterScore(mean, cv) >= 0.5 <==> mean >= MIN_BEACON_INTERVAL_MS && variance <= square
  {
    JitterHalf(mean, cv);
  }

  lemma SquareBelow(a: real, b: real, aa: real, bb: real)
    requires 0.0 <= a < b && aa == a * a && bb == b * b
    ensures aa < bb
  {
    var ab := a * b;
    assert aa <= ab by { MulMonotone(a, a, b); }
    assert ab < bb by { StrictProduct(b, a, b, ab, bb); }
  }

  /** The mean gap is at least 500 ms and the variance at most (0.175 mean)^2. */
  ghost predicate Rhythmic(g: seq<real>)
    requires g != []
  {
    var limit := 0.175 * Mean(g);
    Mean(g) >= 500.0 && Variance(g) <= limit * limit
  }

  lemma {:induction false} RhythmAndSymmetry(p: seq<Packet>, sqrt: real -> real)
    requires |p| == FLOW_WINDOW_SIZE && IsSquareRoot(sqrt)
    ensures Detect(p, sqrt).isBeacon <==> Rhythmic(Gaps(p)) && Symmetry(p) >= 0.4
  {
    var g := Gaps(p);
    var mean, sd := Mean(g), sqrt(Variance(g));
    var cv := if mean > 0.0 then sd / mean else 1.0;
    var limit := 0.175 * mean;
    VarianceNonNegative(g);
    if mean > 0.0 {
      Quotient(sd, mean);
      RatioAtMost(sd, mean, cv);
      RootAtMost(sd, Variance(g), limit);
    }
    TightExactly(mean, Variance(g), sd, cv, limit, limit * limit);
  }

  lemma {:induction false} VarianceNonNegative(s: seq<real>)
    requires s != []
    ensures Variance(s) >= 0.0
  {
    OneDeviation(s, Mean(s), 0);
    SquareNonNegative(s[0] - Mean(s));
    Quotient(SqDev(s, Mean(s)), |s| as real);
    Cancel(|s| as real, 0.0, Variance(s));
  }

  /** At least 25 small payloads among the 31 settle the symmetry whatever the directions. */
  lemma {:induction false} SmallPayloadsSuffice(p: seq<Packet>)
    requires |p| == FLOW_WINDOW_SIZE && CountTail(p, IsSmall()) >= 25
    ensures Symmetry(p) >= 0.4
  {
    BalanceNonNegative(CountTail(p, IsOutbound()), CountTail(p, IsInbound()));
  }

  lemma BalanceNonNegative(a: nat, b: nat)
    ensures BalanceRatio(a, b) >= 0.0
  {
  }

  // ----- What a flag implies about every packet -----

  lemma {:induction false} GapAt(p: seq<Packet>, i: nat)
    requires 1 <= i < |p|
    ensures Gaps(p)[i - 1] == GapMs(p[i - 1], p[i])
  {
    if i < |p| - 1 {
      GapAt(p[..|p| - 1], i);
    }
  }

  lemma LimitSquared(m: real, limit: real, square: real, mm: real)
    requires limit == 0.175 * m && square == limit * limit && mm == m * m
    ensures square == 0.030625 * mm
  {
  }

  lemma Squeeze(dd: real, total: real, v: real, square: real, mm: real)
    requires dd <= total && total == 31.0 * v && v <= square && square == 0.030625 * mm && mm > 0.0
    ensures dd < mm
  {
  }

  lemma OneGapNearMean(d: real, m: real, limit: real, total: real, v: real)
    requires m > 0.0 && limit == 0.175 * m && d * d <= total && total == 31.0 * v && v <= limit * limit
    ensures -m < d < m
  {
    var dd, square, mm := d * d, limit * limit, m * m;
    LimitSquared(m, limit, square, mm);
    StrictProduct(m, 0.0, m, 0.0, mm);
    Squeeze(dd, total, v, square, mm);
    Inside(d, m, dd, mm);
  }

  lemma Inside(d: real, m: real, dd: real, mm: real)
    requires m > 0.0 && dd == d * d && mm == m * m && dd < mm
    ensures -m < d < m
  {
    if d >= m {
      SquareAtMost(m, d);
    } else if d <= -m {
      SquareAtMost(m, -d);
      SquareOfNegation(d);
    }
  }

  /** In a flagged window every gap lies strictly between zero and twice the mean:
      no two packets share a time, none is out of order, and no pause is long. */
  lemma {:induction false} FlaggedMeansOrdered(p: seq<Packet>, sqrt: real -> real, i: nat)
    requires |p| == FLOW_WINDOW_SIZE && IsSquareRoot(sqrt)
    requires Detect(p, sqrt).isBeacon && 1 <= i < |p|
    ensures 0.0 < GapMs(p[i - 1], p[i]) < 2.0 * Detect(p, sqrt).meanDeltaMs
    ensures p[i - 1].timestampNs < p[i].timestampNs
  {
    RhythmAndSymmetry(p, sqrt);
    GapAt(p, i);
    RhythmicGap(Gaps(p), i - 1);
  }

  lemma {:induction false} RhythmicGap(g: seq<real>, i: nat)
    requires |g| == 31 && i < 31 && Rhythmic(g)
    ensures 0.0 < g[i] < 2.0 * Mean(g)
  {
    var m := Mean(g);
    OneDeviation(g, m, i);
    Quotient(SqDev(g, m), 31.0);
    OneGapNearMean(g[i] - m, m, 0.175 * m, SqDev(g, m), Variance(g));
  }

  // ----- The detection, read off the packets -----

  /** The gap before each packet but the first, in milliseconds; zero for a clock that
      went back. */
  lemma {:induction false} GapsExactly(p: seq<Packet>)
    requires p != []
    ensures |Gaps(p)| == |p| - 1
    ensures forall i :: 0 <= i < |p| - 1 ==>
              1_000_000.0 * Gaps(p)[i] ==
              if p[i].timestampNs <= p[i + 1].timestampNs then (p[i + 1].timestampNs - p[i].timestampNs) as real else 0.0
  {
    forall i | 0 <= i < |p| - 1
      ensures 1_000_000.0 * Gaps(p)[i] ==
              if p[i].timestampNs <= p[i + 1].timestampNs then (p[i + 1].timestampNs - p[i].timestampNs) as real else 0.0
    {
      GapAt(p, i + 1);
    }
  }

  /** The packets after the first that go out, that come in, and that are small. */
  ghost function Outs(p: seq<Packet>): set<int> { set i | 1 <= i < |p| && p[i].direction == Outbound }
  ghost function Ins(p: seq<Packet>): set<int> { set i | 1 <= i < |p| && p[i].direction == Inbound }
  ghost function Smalls(p: seq<Packet>): set<int> { set i | 1 <= i < |p| && p[i].payloadBytes <= 512 }

  lemma {:induction false} LastTail(p: seq<Packet>)
    requires |p| > 1
    ensures var q, n := p[..|p| - 1], |p| - 1;
            && Outs(p) == Outs(q) + (if p[n].direction == Outbound then {n} else {})
            && Ins(p) == Ins(q) + (if p[n].direction == Inbound then {n} else {})
            && Smalls(p) == Smalls(q) + (if p[n].payloadBytes <= 512 then {n} else {})
            && n !in Outs(q) && n !in Ins(q) && n !in Smalls(q)
  {
  }

  lemma {:induction false} TailCounts(p: seq<Packet>)
    requires p != []
    ensures CountTail(p, IsOutbound()) == |Outs(p)| && CountTail(p, IsInbound()) == |Ins(p)|
    ensures CountTail(p, IsSmall()) == |Smalls(p)|
    ensures |Outs(p)| + |Ins(p)| == |p| - 1
  {
    if |p| == 1 {
      assert Outs(p) == {} && Ins(p) == {} && Smalls(p) == {};
    } else {
      TailCounts(p[..|p| - 1]);
      LastCounts(p);
    }
  }

  lemma {:induction false} LastCounts(p: seq<Packet>)
    requires |p| > 1
    ensures var q, last := p[..|p| - 1], p[|p| - 1];
            && |Outs(p)| == |Outs(q)| + (if last.direction == Outbound then 1 else 0)
            && |Ins(p)| == |Ins(q)| + (if last.direction == Inbound then 1 else 0)
            && |Smalls(p)| == |Smalls(q)| + (if last.payloadBytes <= 512 then 1 else 0)
  {
    var q, n := p[..|p| - 1], |p| - 1;
    LastTail(p);
    OneMoreMember(Outs(q), n, if p[n].direction == Outbound then {n} else {});
    OneMoreMember(Ins(q), n, if p[n].direction == Inbound then {n} else {});
    OneMoreMember(Smalls(q), n, if p[n].payloadBytes <= 512 then {n} else {});
  }

  /** The rarer and the commoner direction. */
  ghost function Fewer(p: seq<Packet>): nat { if |Outs(p)| < |Ins(p)| then |Outs(p)| else |Ins(p)| }
  ghost function More(p: seq<Packet>): nat { if |Outs(p)| < |Ins(p)| then |Ins(p)| else |Outs(p)| }

  lemma BalanceByCounts(a: nat, b: nat, few: nat, many: nat)
    requires few == (if a < b then a else b) && many == (if a < b then b else a) && many > 0
    ensures 0.0 <= BalanceRatio(a, b) <= 1.0 && BalanceRatio(a, b) * many as real == few as real
  {
    if few > 0 {
      Quotient(few as real, many as real);
      Cancel(many as real, BalanceRatio(a, b), 1.0);
      Cancel(many as real, 0.0, BalanceRatio(a, b));
    }
  }

  /** 62 M times the symmetry is 31 m + s M: half the balance of the directions and half
      the share of small payloads. */
  ghost predicate Weighs(symmetry: real, few: nat, many: nat, small: nat) {
    62.0 * (many as real * symmetry) == 31.0 * few as real + (small * many) as real
  }

  lemma {:induction false} SymmetryExactly(p: seq<Packet>)
    requires |p| == 32
    ensures More(p) > 0 && Weighs(Symmetry(p), Fewer(p), More(p), |Smalls(p)|)
    ensures 0.0 <= Symmetry(p) <= 1.0
  {
    TailCounts(p);
    WeighSymmetry(|Outs(p)|, |Ins(p)|, Fewer(p), More(p), |Smalls(p)|, Symmetry(p));
  }

  lemma WeighSymmetry(a: nat, b: nat, few: nat, many: nat, small: nat, symmetry: real)
    requires few == (if a < b then a else b) && many == (if a < b then b else a) && many > 0 && small <= 31
    requires symmetry == Clamp01(BalanceRatio(a, b) * 0.5 + small as real / 31.0 * 0.5)
    ensures Weighs(symmetry, few, many, small) && 0.0 <= symmetry <= 1.0
  {
    BalanceByCounts(a, b, few, many);
    WeighByNumbers(BalanceRatio(a, b), small as real, few as real, many as real, symmetry);
    assert (small * many) as real == small as real * many as real;
  }

  lemma WeighByNumbers(balance: real, small: real, few: real, many: real, symmetry: real)
    requires 0.0 <= balance <= 1.0 && 0.0 <= small <= 31.0 && balance * many == few
    requires symmetry == Clamp01(balance * 0.5 + small / 31.0 * 0.5)
    ensures 62.0 * (many * symmetry) == 31.0 * few + small * many && 0.0 <= symmetry <= 1.0
  {
    assert 62.0 * symmetry == 31.0 * balance + small;
    Distribute(many, 31.0 * balance, small);
  }

  lemma ThresholdOfProduct(m: real, symmetry: real, x: real)
    requires m > 0.0 && x == m * symmetry
    ensures symmetry >= 0.4 <==> x >= 0.4 * m
  {
    if symmetry >= 0.4 {
      MulMonotone(m, 0.4, symmetry);
    } else {
      StrictProduct(m, symmetry, 0.4, x, 0.4 * m);
    }
  }

  lemma SymmetryThreshold(symmetry: real, few: nat, many: nat, small: nat, sm: nat)
    requires many > 0 && Weighs(symmetry, few, many, small) && sm == small * many
    ensures symmetry >= 0.4 <==> 5 * (31 * few + sm) >= 124 * many
  {
    ThresholdOfProduct(many as real, symmetry, many as real * symmetry);
  }

  lemma {:induction false} SymmetryAtLeast(p: seq<Packet>, sm: nat)
    requires |p| == 32 && sm == |Smalls(p)| * More(p)
    ensures Symmetry(p) >= 0.4 <==> 5 * (31 * Fewer(p) + sm) >= 124 * More(p)
  {
    SymmetryExactly(p);
    SymmetryThreshold(Symmetry(p), Fewer(p), More(p), |Smalls(p)|, sm);
  }

  /** A window is flagged exactly when its gaps are rhythmic and, with m and M packets in
      the rarer and the commoner direction and s small ones, 5 (31 m + s M) >= 124 M. */
  lemma {:induction false} FlaggedExactly(p: seq<Packet>, sqrt: real -> real)
    requires |p| == 32 && IsSquareRoot(sqrt)
    ensures Detect(p, sqrt).isBeacon <==>
            Rhythmic(Gaps(p)) && 5 * (31 * Fewer(p) + |Smalls(p)| * More(p)) >= 124 * More(p)
  {
    RhythmAndSymmetry(p, sqrt);
    SymmetryAtLeast(p, |Smalls(p)| * More(p));
  }

  lemma JitterByDeviation(mean: real, sd: real, cv: real)
    requires sd >= 0.0 && cv == Variation(mean, sd)
    ensures 0.0 <= JitterScore(mean, cv) <= 1.0
    ensures mean >= 500.0 && sd <= 0.35 * mean ==> 0.35 * mean * JitterScore(mean, cv) == 0.35 * mean - sd
    ensures !(mean >= 500.0 && sd <= 0.35 * mean) ==> JitterScore(mean, cv) == 0.0
  {
    if mean >= 500.0 {
      Quotient(sd, mean);
      Cancel(mean, 0.0, cv);
      DeviationLimit(mean, sd, cv);
      if cv <= 0.35 {
        Distribute(mean, 1.0, -(cv / 0.35));
      }
    }
  }

  lemma DeviationLimit(mean: real, sd: real, cv: real)
    requires mean > 0.0 && mean * cv == sd
    ensures cv <= 0.35 <==> sd <= 0.35 * mean
  {
    if cv <= 0.35 {
      MulMonotone(mean, cv, 0.35);
    } else {
      StrictMul(mean, 0.35, cv);
    }
  }

  /** Mean and standard deviation of the gaps, and their quotient. */
  lemma {:induction false} DeviationExactly(p: seq<Packet>, sqrt: real -> real)
    requires |p| == 32 && IsSquareRoot(sqrt)
    ensures var d := Detect(p, sqrt);
            && d.meanDeltaMs == Sum(Gaps(p)) / 31.0
            && d.stdDevMs >= 0.0 && d.stdDevMs * d.stdDevMs == SqDev(Gaps(p), d.meanDeltaMs) / 31.0
            && (d.meanDeltaMs > 0.0 ==> d.coefficientOfVariation == d.stdDevMs / d.meanDeltaMs)
            && (d.meanDeltaMs <= 0.0 ==> d.coefficientOfVariation == 1.0)
  {
    VarianceNonNegative(Gaps(p));
  }

  /** How far the deviation stays below 0.35 of the mean, the symmetry, and the weighted
      confidence. */
  lemma {:induction false} ScoresExactly(p: seq<Packet>, sqrt: real -> real)
    requires |p| == 32 && IsSquareRoot(sqrt)
    ensures var d := Detect(p, sqrt);
            && (d.meanDeltaMs >= 500.0 && d.stdDevMs <= 0.35 * d.meanDeltaMs ==>
                  0.35 * d.meanDeltaMs * d.jitterScore == 0.35 * d.meanDeltaMs - d.stdDevMs)
            && (!(d.meanDeltaMs >= 500.0 && d.stdDevMs <= 0.35 * d.meanDeltaMs) ==> d.jitterScore == 0.0)
    ensures var d := Detect(p, sqrt);
            && More(p) > 0 && Weighs(d.symmetryScore, Fewer(p), More(p), |Smalls(p)|)
            && d.confidence == 0.6 * d.jitterScore + 0.4 * d.symmetryScore
  {
    var d := Detect(p, sqrt);
    assert d.stdDevMs >= 0.0 by { VarianceNonNegative(Gaps(p)); }
    JitterByDeviation(d.meanDeltaMs, d.stdDevMs, d.coefficientOfVariation);
    SymmetryExactly(p);
    ConfidenceByScores(d.jitterScore, d.symmetryScore);
  }

  lemma ConfidenceByScores(jitter: real, symmetry: real)
    requires 0.0 <= jitter <= 1.0 && 0.0 <= symmetry <= 1.0
    ensures Clamp01(jitter * 0.6 + symmetry * 0.4) == 0.6 * jitter + 0.4 * symmetry
  {
  }
}

/** Challenge/response clock-offset estimation between the Windows host and a
    WSL2 guest (crates/kavach-wsl/src/clock_sync.rs).

    The synchronizer object carries the exchange history as a ghost field, and
    its invariant describes the real fields as functions of that history. The
    lemmas then reason about every history, with a true offset that the program
    never sees. */
module ClockSync {
  import opened MachineInts
  import opened Sequences
  import opened Wrappers

  const MAX_RTT_NS := 100_000_000
  const MAX_ACCEPTABLE_UNCERTAINTY_NS := 50_000_000
  const CLOCK_SYNC_VALIDITY_NS := 90_000_000_000
  const SAMPLE_CAPACITY := 5
  const FAILURE_LIMIT := 3

  datatype Challenge = Challenge(nonce: Bytes16, t0: U64)
  datatype Response = Response(nonce: Bytes16, g1: U64, g2: U64)
  datatype Exchange = Exchange(challenge: Challenge, response: Response, t3: U64)
  datatype Sample = Sample(offset: I64, rtt: U64, hostTimestamp: U64)
  datatype Estimate = Estimate(
    distributionId: Bytes16, offset: I64, uncertainty: U64, acceptedAt: U64, validUntil: U64)
  datatype SyncError =
    | NonceMismatch
    | NonMonotonicTimestamps
    | RttTooHigh(rtt: U64, limit: U64)

  // ----- What one exchange means -----

  predicate Accepts(x: Exchange) {
    && x.challenge.nonce == x.response.nonce
    && x.challenge.t0 < x.t3
    && x.response.g1 <= x.response.g2
    && x.t3 - x.challenge.t0 <= MAX_RTT_NS
  }

  function SampleOf(x: Exchange): Sample
    requires Accepts(x)
  {
    Sample(WrapI64((x.challenge.t0 + x.t3) / 2 - (x.response.g1 + x.response.g2) / 2),
           x.t3 - x.challenge.t0, x.t3)
  }

  // ----- What a history of exchanges means -----

  function AcceptedSamples(h: seq<Exchange>): (r: seq<Sample>)
    ensures |r| <= |h|
  {
    if h == [] then []
    else
      var last := h[|h| - 1];
      var before := AcceptedSamples(h[..|h| - 1]);
      if Accepts(last) then before + [SampleOf(last)] else before
  }

  function RejectionsSinceAcceptance(h: seq<Exchange>): nat {
    if h == [] || Accepts(h[|h| - 1]) then 0
    else 1 + RejectionsSinceAcceptance(h[..|h| - 1])
  }

  function Push(s: seq<Sample>, x: Sample): seq<Sample> {
    (if |s| == SAMPLE_CAPACITY then s[1..] else s) + [x]
  }

  /** The samples held after a history. */
  function Buffered(h: seq<Exchange>): seq<Sample> {
    if h == [] then []
    else
      var last := h[|h| - 1];
      var before := Buffered(h[..|h| - 1]);
      if Accepts(last) then Push(before, SampleOf(last)) else before
  }

  lemma {:induction false} BufferedIsLastFive(h: seq<Exchange>)
    ensures Buffered(h) == LastN(AcceptedSamples(h), 5)
  {
    if h != [] {
      BufferedIsLastFive(h[..|h| - 1]);
      if Accepts(h[|h| - 1]) {
        LastNPush(AcceptedSamples(h[..|h| - 1]), SampleOf(h[|h| - 1]), SAMPLE_CAPACITY);
      }
    }
  }

  /** i is the earliest of the lowest round-trip samples. */
  ghost predicate IsFirstMinRtt(s: seq<Sample>, i: nat) {
    && i < |s|
    && (forall j :: 0 <= j < |s| ==> s[i].rtt <= s[j].rtt)
    && (forall j :: 0 <= j < i ==> s[i].rtt < s[j].rtt)
  }

  ghost predicate IsMinOffset(s: seq<Sample>, m: int) {
    (exists i :: 0 <= i < |s| && s[i].offset == m) && forall i :: 0 <= i < |s| ==> m <= s[i].offset
  }

  ghost predicate IsMaxOffset(s: seq<Sample>, m: int) {
    (exists i :: 0 <= i < |s| && s[i].offset == m) && forall i :: 0 <= i < |s| ==> s[i].offset <= m
  }

  // `min_by_key` keeps the first of equal keys.
  function FirstMinRtt(s: seq<Sample>): (i: nat)
    requires s != []
    ensures i < |s|
  {
    if |s| == 1 then 0
    else
      var k := FirstMinRtt(s[..|s| - 1]);
      if s[|s| - 1].rtt < s[k].rtt then |s| - 1 else k
  }

  function MinOffset(s: seq<Sample>): I64
    requires s != []
  {
    if |s| == 1 then s[0].offset
    else
      var k := MinOffset(s[..|s| - 1]);
      if s[|s| - 1].offset < k then s[|s| - 1].offset else k
  }

  function MaxOffset(s: seq<Sample>): I64
    requires s != []
  {
    if |s| == 1 then s[0].offset
    else
      var k := MaxOffset(s[..|s| - 1]);
      if k < s[|s| - 1].offset then s[|s| - 1].offset else k
  }

  lemma {:induction false} FirstMinRttCorrect(s: seq<Sample>)
    requires s != []
    ensures IsFirstMinRtt(s, FirstMinRtt(s))
  {
    if |s| > 1 {
      FirstMinRttCorrect(s[..|s| - 1]);
    }
  }

  lemma {:induction false} MinOffsetCorrect(s: seq<Sample>)
    requires s != []
    ensures IsMinOffset(s, MinOffset(s))
  {
    if |s| > 1 {
      var p := s[..|s| - 1];
      MinOffsetCorrect(p);
      var i :| 0 <= i < |p| && p[i].offset == MinOffset(p);
      assert s[i] == p[i];
    }
  }

  lemma {:induction false} MaxOffsetCorrect(s: seq<Sample>)
    requires s != []
    ensures IsMaxOffset(s, MaxOffset(s))
  {
    if |s| > 1 {
      var p := s[..|s| - 1];
      MaxOffsetCorrect(p);
      var i :| 0 <= i < |p| && p[i].offset == MaxOffset(p);
      assert s[i] == p[i];
    }
  }

  /** Half the best round trip plus half the offset spread, over the held samples. */
  function Uncertainty(s: seq<Sample>): U64
    requires s != []
  {
    s[FirstMinRtt(s)].rtt / 2 + Abs(WrapI64(MaxOffset(s) - MinOffset(s))) / 2
  }

  function EstimateFrom(id: Bytes16, s: seq<Sample>): Estimate
    requires s != []
  {
    var arrival := s[|s| - 1].hostTimestamp;
    Estimate(id, s[FirstMinRtt(s)].offset, Uncertainty(s),
             arrival, WrapU64(arrival + CLOCK_SYNC_VALIDITY_NS))
  }

  /** The estimate held after a history: none before the first acceptance, and
      untouched by rejections after it. */
  function EstimateOf(id: Bytes16, h: seq<Exchange>): Option<Estimate>
  {
    if Buffered(h) == [] then None else Some(EstimateFrom(id, Buffered(h)))
  }

  /** The estimate the correlator may use at host time `now`. */
  function ValidEstimate(id: Bytes16, h: seq<Exchange>, now: U64): (r: Option<Estimate>)
    ensures r.Some? ==> r == EstimateOf(id, h)
  {
    var current := EstimateOf(id, h);
    if && current.Some?
       && RejectionsSinceAcceptance(h) < FAILURE_LIMIT
       && now <= current.value.validUntil
       && current.value.uncertainty <= MAX_ACCEPTABLE_UNCERTAINTY_NS
    then current else None
  }

  /** How one more exchange changes what the history means. */
  lemma {:induction false} HistoryStep(id: Bytes16, h: seq<Exchange>, x: Exchange)
    ensures !Accepts(x) ==>
              && EstimateOf(id, h + [x]) == EstimateOf(id, h)
              && Buffered(h + [x]) == Buffered(h)
              && RejectionsSinceAcceptance(h + [x]) == RejectionsSinceAcceptance(h) + 1
    ensures Accepts(x) ==>
              && RejectionsSinceAcceptance(h + [x]) == 0
              && Buffered(h + [x]) == Push(Buffered(h), SampleOf(x))
              && EstimateOf(id, h + [x]) == Some(EstimateFrom(id, Push(Buffered(h), SampleOf(x))))
  {
    assert (h + [x])[..|h|] == h;
  }

  // ----- The synchronizer object -----

  class ClockSynchronizer {
    const distributionId: Bytes16
    var acceptedSamples: seq<Sample>
    var currentEstimate: Option<Estimate>
    var consecutiveFailures: nat
    ghost var history: seq<Exchange>

    ghost predicate Valid()
      reads this
    {
      && acceptedSamples == Buffered(history)
      && currentEstimate == EstimateOf(distributionId, history)
      && consecutiveFailures == RejectionsSinceAcceptance(history)
    }

    constructor (id: Bytes16)
      ensures Valid() && history == [] && distributionId == id
    {
      distributionId := id;
      acceptedSamples := [];
      currentEstimate := None;
      consecutiveFailures := 0;
      history := [];
    }

    method ProcessResponse(challenge: Challenge, response: Response, t3: U64)
      returns (r: Result<Estimate, SyncError>)
      requires Valid()
      modifies this
      ensures Valid()
      ensures history == old(history) + [Exchange(challenge, response, t3)]
      ensures r.Ok? <==> Accepts(Exchange(challenge, response, t3))
      ensures r.Ok? ==> Some(r.value) == EstimateOf(distributionId, history)
      ensures r == Err(NonceMismatch) <==> challenge.nonce != response.nonce
      ensures r == Err(NonMonotonicTimestamps) <==>
                challenge.nonce == response.nonce && (t3 <= challenge.t0 || response.g2 < response.g1)
      ensures r.Err? && r.error.RttTooHigh? <==>
                && challenge.nonce == response.nonce && challenge.t0 < t3 && response.g1 <= response.g2
                && t3 - challenge.t0 > 100_000_000
      ensures r.Err? && r.error.RttTooHigh? ==> r.error == RttTooHigh(t3 - challenge.t0, 100_000_000)
    {
      ghost var x := Exchange(challenge, response, t3);
      if challenge.nonce != response.nonce {
        CountFailure(x);
        return Err(NonceMismatch);
      }
      if t3 <= challenge.t0 || response.g2 < response.g1 {
        CountFailure(x);
        return Err(NonMonotonicTimestamps);
      }
      var rtt := t3 - challenge.t0;
      if rtt > MAX_RTT_NS {
        CountFailure(x);
        return Err(RttTooHigh(rtt, MAX_RTT_NS));
      }
      var hostMid := (challenge.t0 + t3) / 2;
      var guestMid := (response.g1 + response.g2) / 2;
      r := AcceptSample(Sample(WrapI64(hostMid - guestMid), rtt, t3), x);
    }

    /** `consecutive_failures += 1` */
    method CountFailure(ghost x: Exchange)
      requires Valid() && !Accepts(x)
      modifies this`consecutiveFailures, this`history
      ensures Valid() && history == old(history) + [x]
    {
      HistoryStep(distributionId, history, x);
      history := history + [x];
      consecutiveFailures := consecutiveFailures + 1;
    }

    /** Bounded push of the accepted sample, failure count back to zero, new estimate. */
    method AcceptSample(sample: Sample, ghost x: Exchange) returns (r: Result<Estimate, SyncError>)
      requires Valid() && Accepts(x) && sample == SampleOf(x)
      modifies this
      ensures Valid() && history == old(history) + [x]
      ensures r.Ok? && Some(r.value) == EstimateOf(distributionId, history)
    {
      HistoryStep(distributionId, history, x);
      ghost var pushed := Push(acceptedSamples, sample);
      history := history + [x];
      if |acceptedSamples| == SAMPLE_CAPACITY {
        acceptedSamples := acceptedSamples[1..];
      }
      acceptedSamples := acceptedSamples + [sample];
      assert acceptedSamples == pushed;
      consecutiveFailures := 0;
      var estimate := EstimateFromSamples(sample.hostTimestamp);
      currentEstimate := Some(estimate);
      r := Ok(estimate);
    }

    /** The second half of the exchange: pick the lowest round trip held and
        widen its half by half the offset spread. */
    method EstimateFromSamples(t3: U64) returns (e: Estimate)
      requires acceptedSamples != [] && acceptedSamples[|acceptedSamples| - 1].hostTimestamp == t3
      ensures e == EstimateFrom(distributionId, acceptedSamples)
    {
      var best := acceptedSamples[FirstMinRtt(acceptedSamples)];
      var spread := Abs(WrapI64(MaxOffset(acceptedSamples) - MinOffset(acceptedSamples)));
      e := Estimate(distributionId, best.offset, best.rtt / 2 + spread / 2,
                    t3, WrapU64(t3 + CLOCK_SYNC_VALIDITY_NS));
    }

    method GetValidEstimate(now: U64) returns (r: Option<Estimate>)
      requires Valid()
      ensures r == ValidEstimate(distributionId, history, now)
    {
      if currentEstimate.None? {
        return None;
      }
      var est := currentEstimate.value;
      if now > est.validUntil {
        return None;
      }
      if est.uncertainty > MAX_ACCEPTABLE_UNCERTAINTY_NS {
        return None;
      }
      if consecutiveFailures >= FAILURE_LIMIT {
        return None;
      }
      return Some(est);
    }
  }

  // ----- Availability after any history -----

  /** h ends with an accepted exchange followed by `failures` rejected ones. */
  ghost predicate AcceptedThenRejected(h: seq<Exchange>, accepted: nat, failures: nat) {
    && accepted + 1 + failures == |h|
    && Accepts(h[accepted])
    && forall i :: accepted < i < |h| ==> !Accepts(h[i])
  }

  lemma {:induction false} LastAcceptance(h: seq<Exchange>)
    ensures AcceptedSamples(h) == [] <==> forall i :: 0 <= i < |h| ==> !Accepts(h[i])
    ensures AcceptedSamples(h) != [] ==>
              exists k: nat ::
                && AcceptedThenRejected(h, k, RejectionsSinceAcceptance(h))
                && AcceptedSamples(h)[|AcceptedSamples(h)| - 1] == SampleOf(h[k])
    decreases |h|
  {
    if h != [] {
      var p := h[..|h| - 1];
      LastAcceptance(p);
      if Accepts(h[|h| - 1]) {
        assert AcceptedThenRejected(h, |h| - 1, 0);
      } else if AcceptedSamples(p) != [] {
        var k: nat :| AcceptedThenRejected(p, k, RejectionsSinceAcceptance(p))
                   && AcceptedSamples(p)[|AcceptedSamples(p)| - 1] == SampleOf(p[k]);
        OneMoreRejected(h, k, RejectionsSinceAcceptance(p));
        assert p[k] == h[k];
      }
    }
  }

  lemma {:induction false} OneMoreRejected(h: seq<Exchange>, k: nat, failures: nat)
    requires h != [] && !Accepts(h[|h| - 1]) && AcceptedThenRejected(h[..|h| - 1], k, failures)
    ensures AcceptedThenRejected(h, k, failures + 1)
  {
    var p := h[..|h| - 1];
    assert p[k] == h[k];
    forall i | k < i < |h| ensures !Accepts(h[i]) {
      assert i < |p| ==> p[i] == h[i];
    }
  }

  lemma {:induction false} OneLastAcceptance(h: seq<Exchange>, k: nat, failures: nat, k': nat, failures': nat)
    requires AcceptedThenRejected(h, k, failures) && AcceptedThenRejected(h, k', failures')
    ensures k == k' && failures == failures'
  {
  }

  lemma {:induction false} NewestHeld(h: seq<Exchange>)
    requires AcceptedSamples(h) != []
    ensures Buffered(h) != []
    ensures Buffered(h)[|Buffered(h)| - 1] == AcceptedSamples(h)[|AcceptedSamples(h)| - 1]
  {
    BufferedIsLastFive(h);
  }

  lemma {:induction false} UsableByNewest(id: Bytes16, h: seq<Exchange>, now: U64, k: nat)
    requires k < |h| && Accepts(h[k]) && AcceptedSamples(h) != []
    requires AcceptedSamples(h)[|AcceptedSamples(h)| - 1] == SampleOf(h[k])
    ensures ValidEstimate(id, h, now).Some? <==> Usable(h, now, k, RejectionsSinceAcceptance(h))
  {
    NewestHeld(h);
    assert EstimateOf(id, h).value.validUntil == WrapU64(h[k].t3 + CLOCK_SYNC_VALIDITY_NS);
  }

  lemma {:induction false} UsableOffset(id: Bytes16, h: seq<Exchange>, now: U64)
    requires ValidEstimate(id, h, now).Some?
    ensures IsFirstMinRtt(Buffered(h), FirstMinRtt(Buffered(h)))
    ensures ValidEstimate(id, h, now).value.offset == Buffered(h)[FirstMinRtt(Buffered(h))].offset
  {
    FirstMinRttCorrect(Buffered(h));
  }

  /** The estimate of a history, part by part: the offset of the earliest lowest round
      trip among the last five accepted, half that round trip plus half the distance
      of the extreme offsets, and 90 s of validity from the newest one's arrival. */
  lemma {:induction false} EstimateExactly(id: Bytes16, h: seq<Exchange>)
    requires AcceptedSamples(h) != []
    ensures EstimateOf(id, h).Some?
    ensures exists i: nat, low: int, high: int ::
              EstimateParts(EstimateOf(id, h).value, id, LastN(AcceptedSamples(h), 5), i, low, high)
  {
    BufferedIsLastFive(h);
    var s := Buffered(h);
    FirstMinRttCorrect(s);
    MinOffsetCorrect(s);
    MaxOffsetCorrect(s);
    assert EstimateParts(EstimateOf(id, h).value, id, s, FirstMinRtt(s), MinOffset(s), MaxOffset(s));
  }

  /** With an offset spread beyond i64, the u64 distance and the deadline wrap. */
  ghost predicate EstimateParts(e: Estimate, id: Bytes16, s: seq<Sample>, i: nat, low: int, high: int) {
    && IsFirstMinRtt(s, i) && IsMinOffset(s, low) && IsMaxOffset(s, high)
    && e.distributionId == id
    && e.offset == s[i].offset
    && (high - low < 0x8000_0000_0000_0000 ==> e.uncertainty == s[i].rtt / 2 + (high - low) / 2)
    && (high - low >= 0x8000_0000_0000_0000 ==>
          e.uncertainty == s[i].rtt / 2 + (0x1_0000_0000_0000_0000 - (high - low)) / 2)
    && e.acceptedAt == s[|s| - 1].hostTimestamp
    && (e.validUntil == e.acceptedAt + 90_000_000_000
        || e.validUntil == e.acceptedAt + 90_000_000_000 - 0x1_0000_0000_0000_0000)
  }

  /** One more exchange joins the accepted samples exactly when it passes the three checks. */
  lemma {:induction false} AcceptedStep(h: seq<Exchange>, x: Exchange)
    ensures AcceptedSamples(h + [x]) ==
            if && x.challenge.nonce == x.response.nonce && x.challenge.t0 < x.t3 && x.response.g1 <= x.response.g2
               && x.t3 - x.challenge.t0 <= 100_000_000
            then AcceptedSamples(h) + [SampleOf(x)] else AcceptedSamples(h)
  {
    assert (h + [x])[..|h|] == h;
  }

  /** Exactly when a usable estimate exists, read off the raw exchanges: some
      exchange was accepted, it arrived at most 90 s ago (as an unchecked u64 sum),
      fewer than three were rejected after it, and the held samples agree to 50 ms. Its offset is that
      of the earliest lowest round trip among the last five accepted. */
  lemma {:induction false} AvailabilityExactly(id: Bytes16, h: seq<Exchange>, now: U64)
    ensures ValidEstimate(id, h, now).Some? <==>
            exists k: nat, failures: nat ::
              AcceptedThenRejected(h, k, failures) && Usable(h, now, k, failures)
    ensures ValidEstimate(id, h, now).Some? ==>
              exists i: nat ::
                && IsFirstMinRtt(Buffered(h), i)
                && ValidEstimate(id, h, now).value.offset == Buffered(h)[i].offset
  {
    LastAcceptance(h);
    if AcceptedSamples(h) == [] {
      BufferedIsLastFive(h);
    } else {
      var k: nat :| AcceptedThenRejected(h, k, RejectionsSinceAcceptance(h))
                 && AcceptedSamples(h)[|AcceptedSamples(h)| - 1] == SampleOf(h[k]);
      UsableByNewest(id, h, now, k);
      forall k': nat, f: nat | AcceptedThenRejected(h, k', f)
        ensures k' == k && f == RejectionsSinceAcceptance(h)
      {
        OneLastAcceptance(h, k, RejectionsSinceAcceptance(h), k', f);
      }
    }
    if ValidEstimate(id, h, now).Some? {
      UsableOffset(id, h, now);
    }
  }

  ghost predicate Usable(h: seq<Exchange>, now: U64, accepted: nat, failures: nat)
    requires accepted < |h|
  {
    && failures < 3
    && now <= WrapU64(h[accepted].t3 + 90_000_000_000)
    && Buffered(h) != []
    && Uncertainty(Buffered(h)) <= 50_000_000
  }

  // ----- Honest guests: one fixed true offset -----

  /** Host time is guest time plus theta, and the guest sampled between send and receipt. */
  predicate HonestExchange(x: Exchange, theta: int) {
    x.challenge.t0 <= x.response.g1 + theta <= x.response.g2 + theta <= x.t3
  }

  /** Only accepted exchanges need be honest: a rejected one leaves no trace in the samples. */
  ghost predicate HonestRun(h: seq<Exchange>, theta: int) {
    forall i :: 0 <= i < |h| && Accepts(h[i]) ==> HonestExchange(h[i], theta)
  }

  /** The true offset fits i64 with one round trip to spare, so no cast loses anything. */
  predicate Representable(theta: int) {
    -TWO_63 + MAX_RTT_NS <= theta < TWO_63 - MAX_RTT_NS
  }

  /** Rounding both midpoints down makes the error one-sided: at most half the
      round trip too high, at most half of it rounded up too low. */
  predicate WithinHalfRtt(s: Sample, theta: int) {
    -((s.rtt + 1) / 2) <= s.offset - theta <= s.rtt / 2
  }

  lemma HonestSample(x: Exchange, theta: int)
    requires Accepts(x) && HonestExchange(x, theta) && Representable(theta)
    ensures WithinHalfRtt(SampleOf(x), theta)
  {
    var host, guest := x.challenge.t0 + x.t3, x.response.g1 + x.response.g2;
    var rtt := x.t3 - x.challenge.t0;
    assert -rtt <= host - guest - 2 * theta <= rtt;
    assert rtt % 2 == host % 2;
    assert -((rtt + 1) / 2) <= host / 2 - guest / 2 - theta <= rtt / 2;
  }

  /** What the offset measures, whatever the two stamps in between: half the
      difference of the way back and the way there, to half a nanosecond. */
  lemma OffsetAsymmetry(x: Exchange, theta: int)
    requires Accepts(x) && HonestExchange(x, theta) && Representable(theta)
    ensures var there, back := x.response.g1 + theta - x.challenge.t0, x.t3 - (x.response.g2 + theta);
            Abs(2 * (SampleOf(x).offset - theta) - (back - there)) <= 1
    ensures SampleOf(x).rtt == x.t3 - x.challenge.t0 && SampleOf(x).hostTimestamp == x.t3
  {
    HonestSample(x, theta);
    var host, guest := x.challenge.t0 + x.t3, x.response.g1 + x.response.g2;
    assert host / 2 - guest / 2 == SampleOf(x).offset;
    assert host - 1 <= 2 * (host / 2) <= host && guest - 1 <= 2 * (guest / 2) <= guest;
  }

  /** The offset of any accepted exchange is the difference of the midpoints, rounded to
      half a nanosecond at either end, as an i64: up to a multiple of 2^64. */
  lemma OffsetModulo(x: Exchange)
    requires Accepts(x)
    ensures var difference := x.challenge.t0 + x.t3 - (x.response.g1 + x.response.g2);
            exists wraps: int :: -1 <= wraps <= 1
              && Abs(2 * (SampleOf(x).offset + wraps * 0x1_0000_0000_0000_0000) - difference) <= 1
  {
    var host, guest := x.challenge.t0 + x.t3, x.response.g1 + x.response.g2;
    var exact := host / 2 - guest / 2;
    var wraps := if exact < -TWO_63 then -1 else if exact < TWO_63 then 0 else 1;
    assert SampleOf(x).offset + wraps * 0x1_0000_0000_0000_0000 == exact;
    assert host - 1 <= 2 * (host / 2) <= host && guest - 1 <= 2 * (guest / 2) <= guest;
  }

  lemma {:induction false} HonestSamples(h: seq<Exchange>, theta: int)
    requires HonestRun(h, theta) && Representable(theta)
    ensures forall i :: 0 <= i < |AcceptedSamples(h)| ==> WithinHalfRtt(AcceptedSamples(h)[i], theta)
  {
    if h != [] {
      HonestSamples(h[..|h| - 1], theta);
      if Accepts(h[|h| - 1]) {
        HonestSample(h[|h| - 1], theta);
      }
    }
  }

  /** Every estimate an honest run can store is within its own uncertainty of
      the truth, plus one nanosecond downwards. */
  lemma {:induction false} EstimateErrorBound(id: Bytes16, h: seq<Exchange>, theta: int)
    requires HonestRun(h, theta) && Representable(theta)
    requires EstimateOf(id, h).Some?
    ensures var e := EstimateOf(id, h).value;
            theta - e.offset <= e.uncertainty + 1 && e.offset - theta <= e.uncertainty
  {
    HonestSamples(h, theta);
    BufferedIsLastFive(h);
  }

  /** And, whatever its uncertainty, within half the longest round trip accepted. */
  lemma {:induction false} OffsetErrorBound(id: Bytes16, h: seq<Exchange>, theta: int)
    requires HonestRun(h, theta) && Representable(theta)
    requires EstimateOf(id, h).Some?
    ensures Abs(EstimateOf(id, h).value.offset - theta) <= 50_000_000
  {
    HonestSamples(h, theta);
    BufferedIsLastFive(h);
    AcceptedRttsBounded(h);
    HalfOfLongest(Buffered(h)[FirstMinRtt(Buffered(h))], theta);
  }

  lemma HalfOfLongest(s: Sample, theta: int)
    requires WithinHalfRtt(s, theta) && s.rtt <= MAX_RTT_NS
    ensures Abs(s.offset - theta) <= MAX_RTT_NS / 2
  {
    assert (s.rtt + 1) / 2 <= MAX_RTT_NS / 2 && s.rtt / 2 <= MAX_RTT_NS / 2;
  }

  /** An exchange whose guest answers right at its receipt. */
  function LateAnswer(nonce: Bytes16, t0: U64, rtt: nat, theta: int): Exchange
    requires t0 + rtt < TWO_64 && 0 <= t0 + rtt - theta < TWO_64
  {
    var g := t0 + rtt - theta;
    Exchange(Challenge(nonce, t0), Response(nonce, g, g), t0 + rtt)
  }

  lemma LateAnswerOffset(nonce: Bytes16, t0: U64, rtt: nat, theta: int)
    requires t0 + rtt < TWO_64 && 0 <= t0 + rtt - theta < TWO_64
    requires 0 < rtt <= MAX_RTT_NS && Representable(theta)
    ensures var x := LateAnswer(nonce, t0, rtt, theta);
            Accepts(x) && HonestExchange(x, theta) && SampleOf(x).offset == theta - (rtt + 1) / 2
  {
    MidpointLow(t0, rtt, theta);
  }

  lemma MidpointLow(t0: int, rtt: int, theta: int)
    ensures (t0 + (t0 + rtt)) / 2 - ((t0 + rtt - theta) + (t0 + rtt - theta)) / 2 == theta - (rtt + 1) / 2
  {
    assert (t0 + (t0 + rtt)) / 2 == t0 + rtt / 2;
  }

  /** The extra nanosecond is real: every odd round trip can produce it. */
  lemma {:induction false} ErrorBoundAttained(id: Bytes16, nonce: Bytes16, rtt: nat, theta: int) returns (x: Exchange)
    requires 0 < rtt <= MAX_RTT_NS && rtt % 2 == 1 && Representable(theta)
    ensures Accepts(x) && HonestExchange(x, theta) && x.t3 - x.challenge.t0 == rtt
    ensures EstimateOf(id, [x]).Some?
    ensures var e := EstimateOf(id, [x]).value; theta - e.offset == e.uncertainty + 1
  {
    var t0 := if theta >= 0 then theta else 0;
    x := LateAnswer(nonce, t0, rtt, theta);
    LateAnswerOffset(nonce, t0, rtt, theta);
    SingleEstimate(id, x);
  }

  /** An exchange whose guest answers at once. */
  function EarlyAnswer(nonce: Bytes16, t0: U64, rtt: nat, theta: int): Exchange
    requires t0 + rtt < TWO_64 && 0 <= t0 - theta < TWO_64
  {
    var g := t0 - theta;
    Exchange(Challenge(nonce, t0), Response(nonce, g, g), t0 + rtt)
  }

  lemma EarlyAnswerOffset(nonce: Bytes16, t0: U64, rtt: nat, theta: int)
    requires t0 + rtt < TWO_64 && 0 <= t0 - theta < TWO_64
    requires 0 < rtt <= MAX_RTT_NS && Representable(theta)
    ensures var x := EarlyAnswer(nonce, t0, rtt, theta);
            Accepts(x) && HonestExchange(x, theta) && SampleOf(x).offset == theta + rtt / 2
  {
    assert (t0 + (t0 + rtt)) / 2 == t0 + rtt / 2;
  }

  /** Both ends of the error are reached at the longest round trip. */
  lemma OffsetErrorAttained(id: Bytes16, nonce: Bytes16, theta: int, early: bool) returns (x: Exchange)
    requires Representable(theta)
    ensures Accepts(x) && HonestExchange(x, theta) && x.t3 <= TWO_63
    ensures EstimateOf(id, [x]).Some?
    ensures EstimateOf(id, [x]).value.offset == theta + (if early then 50_000_000 else -50_000_000)
    ensures EstimateOf(id, [x]).value.uncertainty == 50_000_000
  {
    var t0 := if theta >= 0 then theta else 0;
    if early {
      x := EarlyAnswer(nonce, t0, MAX_RTT_NS, theta);
      EarlyAnswerOffset(nonce, t0, MAX_RTT_NS, theta);
    } else {
      x := LateAnswer(nonce, t0, MAX_RTT_NS, theta);
      LateAnswerOffset(nonce, t0, MAX_RTT_NS, theta);
    }
    SingleEstimate(id, x);
  }

  lemma SingleEstimate(id: Bytes16, x: Exchange)
    requires Accepts(x)
    ensures EstimateOf(id, [x]).Some?
    ensures var e := EstimateOf(id, [x]).value;
            e.offset == SampleOf(x).offset && e.uncertainty == SampleOf(x).rtt / 2
  {
    SingleSample(x);
    var s := Buffered([x]);
    assert |s| == 1;
    assert FirstMinRtt(s) == 0 && MaxOffset(s) == MinOffset(s);
  }

  lemma SingleSample(x: Exchange)
    requires Accepts(x)
    ensures Buffered([x]) == [SampleOf(x)]
  {
    assert [x][..0] == [];
  }

  ghost predicate RttsAtMost(h: seq<Exchange>, limit: int) {
    forall i :: 0 <= i < |Buffered(h)| ==> Buffered(h)[i].rtt <= limit
  }

  lemma OffsetsClose(low: Sample, high: Sample, theta: int, limit: nat)
    requires WithinHalfRtt(low, theta) && WithinHalfRtt(high, theta) && low.rtt <= limit && high.rtt <= limit
    ensures high.offset - low.offset <= limit
  {
    assert (low.rtt + 1) / 2 <= (limit + 1) / 2 && high.rtt / 2 <= limit / 2;
    assert limit / 2 + (limit + 1) / 2 == limit;
  }

  lemma {:induction false} AcceptedRttsBounded(h: seq<Exchange>)
    ensures forall i :: 0 <= i < |AcceptedSamples(h)| ==> AcceptedSamples(h)[i].rtt <= MAX_RTT_NS
  {
    if h != [] {
      AcceptedRttsBounded(h[..|h| - 1]);
    }
  }

  lemma {:induction false} SpreadOfHonestSamples(s: seq<Sample>, theta: int, limit: nat)
    requires s != []
    requires forall i :: 0 <= i < |s| ==> WithinHalfRtt(s[i], theta) && s[i].rtt <= limit
    ensures 0 <= MaxOffset(s) - MinOffset(s) <= limit
  {
    MinOffsetCorrect(s);
    MaxOffsetCorrect(s);
    var i :| 0 <= i < |s| && s[i].offset == MinOffset(s);
    var j :| 0 <= j < |s| && s[j].offset == MaxOffset(s);
    OffsetsClose(s[i], s[j], theta, limit);
  }

  lemma {:induction false} UncertaintyOfHonestSamples(s: seq<Sample>, theta: int, limit: nat)
    requires s != [] && limit <= MAX_RTT_NS
    requires forall i :: 0 <= i < |s| ==> WithinHalfRtt(s[i], theta) && s[i].rtt <= limit
    ensures Uncertainty(s) <= limit / 2 + limit / 2
  {
    SpreadOfHonestSamples(s, theta, limit);
    assert s[FirstMinRtt(s)].rtt <= limit;
  }

  /** However the held samples are spread inside their error bounds, the
      uncertainty of an honest run never exceeds the longest round trip held. */
  lemma {:induction false} HonestUncertainty(id: Bytes16, h: seq<Exchange>, theta: int, limit: nat)
    requires HonestRun(h, theta) && Representable(theta) && RttsAtMost(h, limit)
    requires EstimateOf(id, h).Some?
    ensures EstimateOf(id, h).value.uncertainty <= limit / 2 + limit / 2
  {
    HonestSamples(h, theta);
    BufferedIsLastFive(h);
    AcceptedRttsBounded(h);
    UncertaintyOfHonestSamples(Buffered(h), theta, if limit <= MAX_RTT_NS then limit else MAX_RTT_NS);
  }

  /** The 50 ms gate never turns an honest guest away. */
  ghost predicate GateAlwaysPasses(limit: nat) {
    forall id: Bytes16, h: seq<Exchange>, theta: int ::
      HonestRun(h, theta) && Representable(theta) && RttsAtMost(h, limit) && EstimateOf(id, h).Some?
      ==> EstimateOf(id, h).value.uncertainty <= 50_000_000
  }

  /** ... exactly while the held round trips stay at or below 50 ms + 1 ns. */
  lemma HonestGateExactly(limit: nat)
    ensures GateAlwaysPasses(limit) <==> limit <= 50_000_001
  {
    if limit <= MAX_ACCEPTABLE_UNCERTAINTY_NS + 1 {
      forall id: Bytes16, h: seq<Exchange>, theta: int |
        HonestRun(h, theta) && Representable(theta) && RttsAtMost(h, limit) && EstimateOf(id, h).Some?
        ensures EstimateOf(id, h).value.uncertainty <= MAX_ACCEPTABLE_UNCERTAINTY_NS
      {
        HonestUncertainty(id, h, theta, limit);
      }
    } else {
      var id: Bytes16 := seq(16, _ => 0);
      var h := GateFailure(id, id, limit);
    }
  }

  /** Two honest exchanges of 50 ms + 2 ns, the first answered at once and the
      second just before its receipt, are refused. */
  lemma GateFailure(id: Bytes16, nonce: Bytes16, limit: nat) returns (h: seq<Exchange>)
    requires limit > MAX_ACCEPTABLE_UNCERTAINTY_NS + 1
    ensures HonestRun(h, 0) && RttsAtMost(h, limit)
    ensures |h| == 2 && Accepts(h[0]) && Accepts(h[1]) && h[0].t3 < h[1].challenge.t0
    ensures EstimateOf(id, h).Some?
    ensures EstimateOf(id, h).value.uncertainty > MAX_ACCEPTABLE_UNCERTAINTY_NS
  {
    var r: U64 := MAX_ACCEPTABLE_UNCERTAINTY_NS + 2;
    var early := Exchange(Challenge(nonce, 0), Response(nonce, 0, 0), r);
    var late := LateAnswer(nonce, 2 * r, r, 0);
    LateAnswerOffset(nonce, 2 * r, r, 0);
    h := [early, late];
    PairUncertainty(early, late, r);
  }

  lemma PairUncertainty(early: Exchange, late: Exchange, r: U64)
    requires Accepts(early) && Accepts(late)
    requires SampleOf(early).rtt == SampleOf(late).rtt == r <= MAX_RTT_NS
    requires SampleOf(early).offset == r / 2 && SampleOf(late).offset == -((r + 1) / 2)
    ensures Buffered([early, late]) == [SampleOf(early), SampleOf(late)]
    ensures Uncertainty(Buffered([early, late])) == r / 2 + r / 2
  {
    var h := [early, late];
    assert h[..1] == [early];
    SingleSample(early);
    var s := Buffered(h);
    assert s == [SampleOf(early), SampleOf(late)];
    TwoExtremes(s);
  }

  lemma {:induction false} TwoExtremes(s: seq<Sample>)
    requires |s| == 2 && s[1].offset <= s[0].offset && s[0].rtt <= s[1].rtt
    ensures FirstMinRtt(s) == 0 && MinOffset(s) == s[1].offset && MaxOffset(s) == s[0].offset
  {
    assert s[..1] == [s[0]];
  }
}

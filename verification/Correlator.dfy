/** Joining guest write records to host file events
    (crates/kavach-wsl/src/correlator.rs), and what a High verdict then means
    about true time. */
module Correlator {
  import opened MachineInts
  import opened Sequences
  import opened Wrappers
  import opened ClockSync
  import opened GuestRecord
  import opened WslPath

  const MAX_CORRELATION_WINDOW_MS := 250
  const BUFFER_CAPACITY := 1000
  const NS_PER_MS := 1_000_000

  datatype Confidence = High | Medium | Low

  datatype HostFileEvent = HostFileEvent(
    hostTimestamp: U64, windowsPath: Path, isVmmemProcess: bool, bytesWritten: U64)

  datatype Attribution = Attribution(
    guestProcessId: U32,
    distributionId: Bytes16,
    normalizedPath: Path,
    windowsPath: Path,
    confidence: Confidence,
    deltaMs: U64,
    allowPidEnforcement: bool)

  /** The translated path, or the guest path itself when it names no drive. */
  function WindowsPath(p: Path): Path {
    var t := Translate(p);
    if t.Some? then t.value else p
  }

  function AdjustedTime(guest: U64, offset: I64): U64 {
    WrapU64(guest + offset)
  }

  predicate IsMatch(e: HostFileEvent, path: Path, t: U64, windowMs: nat) {
    && EqIgnoreCase(e.windowsPath, path)
    && Abs(e.hostTimestamp - t) <= windowMs * NS_PER_MS
  }

  /** `iter().filter(..).collect()`: the matching events in buffer order. */
  function Matching(events: seq<HostFileEvent>, path: Path, t: U64, windowMs: nat): seq<HostFileEvent> {
    if events == [] then []
    else
      var before := Matching(events[..|events| - 1], path, t, windowMs);
      var e := events[|events| - 1];
      if IsMatch(e, path, t, windowMs) then before + [e] else before
  }

  function DeltaMs(e: HostFileEvent, t: U64): U64 {
    Abs(e.hostTimestamp - t) / NS_PER_MS
  }

  /** Confidence and delta given the estimate, the matches and the adjusted time. */
  function Rate(est: Estimate, m: seq<HostFileEvent>, t: U64): (Confidence, U64) {
    if m == [] then (Low, 0)
    else
      (if |m| == 1 && est.uncertainty <= MAX_ACCEPTABLE_UNCERTAINTY_NS then High else Medium,
       DeltaMs(m[0], t))
  }

  /** Confidence and delta at one adjusted time for one Windows path. */
  function RateAt(est: Estimate, events: seq<HostFileEvent>, windowMs: nat, path: Path, t: U64): (Confidence, U64) {
    Rate(est, Matching(events, path, t, windowMs), t)
  }

  /** Confidence and delta for one record against the events on hand. */
  function Classify(est: Option<Estimate>, events: seq<HostFileEvent>, windowMs: nat, record: GuestWriteRecord)
    : (Confidence, U64)
  {
    if est.None? then (Low, 0)
    else
      RateAt(est.value, events, windowMs, WindowsPath(record.normalizedPath),
             AdjustedTime(record.guestMonotonicNs, est.value.offset))
  }

  // ----- The answer, read off the buffered events -----

  /** The indices of the events with the path, ignoring ASCII case, whose time is
      within the window around t. */
  ghost function MatchIndices(events: seq<HostFileEvent>, path: Path, t: U64, windowMs: nat): set<int> {
    set i | 0 <= i < |events|
            && EqIgnoreCase(events[i].windowsPath, path)
            && -(windowMs * 1_000_000) <= events[i].hostTimestamp - t <= windowMs * 1_000_000
  }

  /** Confidence and delta at adjusted time t: Low without a match, High with exactly one
      and Medium with more; the delta is the distance of the earliest match in whole
      milliseconds. */
  ghost predicate AnswersAt(confidence: Confidence, deltaMs: int, events: seq<HostFileEvent>,
                            windowMs: nat, path: Path, t: U64) {
    var m := MatchIndices(events, path, t, windowMs);
    && (m == {} ==> confidence == Low && deltaMs == 0)
    && (|m| == 1 ==> confidence == High)
    && (|m| >= 2 ==> confidence == Medium)
    && (m != {} ==> exists first ::
          && first in m && (forall i :: i in m ==> first <= i)
          && deltaMs * 1_000_000 <= Distance(events[first].hostTimestamp, t) < (deltaMs + 1) * 1_000_000)
  }

  function Distance(a: int, b: int): int { if a < b then b - a else a - b }

  /** The same for a record: Low and zero without a usable estimate, and otherwise at
      the guest time moved by the estimated offset, as an u64. */
  ghost predicate Answers(confidence: Confidence, deltaMs: int, est: Option<Estimate>,
                          events: seq<HostFileEvent>, windowMs: nat, path: Path, guest: U64) {
    && (est.None? ==> confidence == Low && deltaMs == 0)
    && (est.Some? ==>
          exists t: U64 ::
            && (t == guest + est.value.offset || t == guest + est.value.offset + 0x1_0000_0000_0000_0000
                || t == guest + est.value.offset - 0x1_0000_0000_0000_0000)
            && AnswersAt(confidence, deltaMs, events, windowMs, path, t))
  }

  lemma {:induction false} LastIndex(events: seq<HostFileEvent>, path: Path, t: U64, windowMs: nat)
    requires events != []
    ensures var n := |events| - 1;
            MatchIndices(events, path, t, windowMs) ==
            MatchIndices(events[..n], path, t, windowMs) + (if IsMatch(events[n], path, t, windowMs) then {n} else {})
  {
  }

  lemma {:induction false} MatchCount(events: seq<HostFileEvent>, path: Path, t: U64, windowMs: nat)
    ensures |MatchIndices(events, path, t, windowMs)| == |Matching(events, path, t, windowMs)|
  {
    if events != [] {
      MatchCount(events[..|events| - 1], path, t, windowMs);
      LastIndex(events, path, t, windowMs);
    }
  }

  lemma {:induction false} FirstMatch(events: seq<HostFileEvent>, path: Path, t: U64, windowMs: nat) returns (first: int)
    requires Matching(events, path, t, windowMs) != []
    ensures first in MatchIndices(events, path, t, windowMs)
    ensures forall i :: i in MatchIndices(events, path, t, windowMs) ==> first <= i
    ensures Matching(events, path, t, windowMs)[0] == events[first]
  {
    var n := |events| - 1;
    LastIndex(events, path, t, windowMs);
    if Matching(events[..n], path, t, windowMs) == [] {
      MatchCount(events[..n], path, t, windowMs);
      first := n;
    } else {
      first := FirstMatch(events[..n], path, t, windowMs);
    }
  }

  lemma {:induction false} RateAnswers(est: Estimate, events: seq<HostFileEvent>, windowMs: nat, path: Path, t: U64)
    requires est.uncertainty <= 50_000_000
    ensures var (confidence, deltaMs) := RateAt(est, events, windowMs, path, t);
            AnswersAt(confidence, deltaMs, events, windowMs, path, t)
  {
    MatchCount(events, path, t, windowMs);
    var d := Matching(events, path, t, windowMs);
    if d != [] {
      var first := FirstMatch(events, path, t, windowMs);
      WholeMilliseconds(d[0], t);
    }
  }

  lemma WholeMilliseconds(e: HostFileEvent, t: U64)
    ensures DeltaMs(e, t) * 1_000_000 <= Distance(e.hostTimestamp, t) < (DeltaMs(e, t) + 1) * 1_000_000
  {
  }

  /** Confidence and delta of a record are what the buffered events say. */
  lemma {:induction false} ClassifyAnswers(id: Bytes16, h: seq<Exchange>, now: U64, events: seq<HostFileEvent>,
                                           windowMs: nat, record: GuestWriteRecord)
    ensures var est := ValidEstimate(id, h, now);
            var (confidence, deltaMs) := Classify(est, events, windowMs, record);
            Answers(confidence, deltaMs, est, events, windowMs, WindowsPath(record.normalizedPath),
                    record.guestMonotonicNs)
  {
    var est := ValidEstimate(id, h, now);
    if est.Some? {
      RateAnswers(est.value, events, windowMs, WindowsPath(record.normalizedPath),
                  AdjustedTime(record.guestMonotonicNs, est.value.offset));
    }
  }

  class WslCorrelator {
    const clockSync: ClockSynchronizer
    var guestRecords: seq<GuestWriteRecord>
    var hostEvents: seq<HostFileEvent>
    const correlationWindowMs: nat
    ghost var guestLog: seq<GuestWriteRecord>
    ghost var hostLog: seq<HostFileEvent>

    ghost predicate Valid()
      reads this, clockSync
    {
      && clockSync.Valid()
      && correlationWindowMs <= MAX_CORRELATION_WINDOW_MS
      && guestRecords == LastN(guestLog, BUFFER_CAPACITY)
      && hostEvents == LastN(hostLog, BUFFER_CAPACITY)
    }

    constructor (distributionId: Bytes16, windowMs: nat)
      ensures Valid() && fresh(clockSync)
      ensures guestLog == [] && hostLog == [] && clockSync.history == []
      ensures clockSync.distributionId == distributionId
      ensures correlationWindowMs == if windowMs < 250 then windowMs else 250
    {
      clockSync := new ClockSynchronizer(distributionId);
      correlationWindowMs := if windowMs <= MAX_CORRELATION_WINDOW_MS then windowMs else MAX_CORRELATION_WINDOW_MS;
      guestRecords := [];
      hostEvents := [];
      guestLog := [];
      hostLog := [];
    }

    method RecordHostEvent(event: HostFileEvent)
      requires Valid()
      modifies this`hostEvents, this`hostLog
      ensures Valid()
      ensures hostLog == old(hostLog) + [event]
      ensures hostEvents == hostLog[if |hostLog| <= 1000 then 0 else |hostLog| - 1000..]
    {
      LastNOverflow(hostLog, event, BUFFER_CAPACITY);
      hostEvents := hostEvents + [event];
      if |hostEvents| > BUFFER_CAPACITY {
        hostEvents := hostEvents[1..];
      }
      hostLog := hostLog + [event];
    }

    /** The join: freshness, adjusted time, matches, confidence and delta. */
    method Judge(record: GuestWriteRecord, windowsPath: Path, now: U64) returns (confidence: Confidence, deltaMs: U64)
      requires Valid() && windowsPath == WindowsPath(record.normalizedPath)
      ensures (confidence, deltaMs) ==
              Classify(ValidEstimate(clockSync.distributionId, clockSync.history, now),
                       hostEvents, correlationWindowMs, record)
    {
      var estimate := clockSync.GetValidEstimate(now);
      confidence, deltaMs := Low, 0;
      if estimate.Some? {
        var adjusted := AdjustedTime(record.guestMonotonicNs, estimate.value.offset);
        var matches := Matching(hostEvents, windowsPath, adjusted, correlationWindowMs);
        if |matches| > 0 {
          deltaMs := Abs(matches[0].hostTimestamp - adjusted) / NS_PER_MS;
        }
        if |matches| == 1 && estimate.value.uncertainty <= 50_000_000 {
          confidence := High;
        } else if matches != [] {
          confidence := Medium;
        } else {
          confidence := Low;
        }
      }
    }

    method CorrelateGuestRecord(record: GuestWriteRecord, now: U64) returns (r: Attribution)
      requires Valid()
      modifies this`guestRecords, this`guestLog
      ensures Valid()
      ensures guestLog == old(guestLog) + [record]
      ensures guestRecords == guestLog[if |guestLog| <= 1000 then 0 else |guestLog| - 1000..]
      ensures (r.confidence, r.deltaMs) ==
              Classify(ValidEstimate(clockSync.distributionId, clockSync.history, now),
                       LastN(hostLog, BUFFER_CAPACITY), correlationWindowMs, record)
      ensures Answers(r.confidence, r.deltaMs,
                      ValidEstimate(clockSync.distributionId, clockSync.history, now),
                      hostEvents, correlationWindowMs, r.windowsPath, record.guestMonotonicNs)
      ensures r.allowPidEnforcement <==> r.confidence == High
      ensures r.guestProcessId == record.guestProcessId && r.distributionId == record.distributionId
      ensures r.normalizedPath == record.normalizedPath
      ensures Some(r.windowsPath) == Translate(record.normalizedPath)
              || (Translate(record.normalizedPath).None? && r.windowsPath == record.normalizedPath)
    {
      var translated := Translate(record.normalizedPath);
      var windowsPath := if translated.Some? then translated.value else record.normalizedPath;
      var confidence, deltaMs := Judge(record, windowsPath, now);
      ClassifyAnswers(clockSync.distributionId, clockSync.history, now, hostEvents, correlationWindowMs, record);
      r := Attribution(record.guestProcessId, record.distributionId, record.normalizedPath,
                       windowsPath, confidence, deltaMs, confidence == High);

      LastNOverflow(guestLog, record, BUFFER_CAPACITY);
      guestRecords := guestRecords + [record];
      if |guestRecords| > BUFFER_CAPACITY {
        guestRecords := guestRecords[1..];
      }
      guestLog := guestLog + [record];
    }
  }

  // ----- Counting matches -----

  ghost predicate OnlyMatch(events: seq<HostFileEvent>, path: Path, t: U64, windowMs: nat, i: nat) {
    && i < |events|
    && IsMatch(events[i], path, t, windowMs)
    && forall j :: 0 <= j < |events| && j != i ==> !IsMatch(events[j], path, t, windowMs)
  }

  lemma {:induction false} NoMatches(events: seq<HostFileEvent>, path: Path, t: U64, windowMs: nat)
    ensures Matching(events, path, t, windowMs) == [] <==>
            forall i :: 0 <= i < |events| ==> !IsMatch(events[i], path, t, windowMs)
  {
    if events != [] {
      var p := events[..|events| - 1];
      NoMatches(p, path, t, windowMs);
      if Matching(events, path, t, windowMs) == [] {
        forall i | 0 <= i < |events| ensures !IsMatch(events[i], path, t, windowMs) {
          assert i < |p| ==> events[i] == p[i];
        }
      }
    }
  }

  lemma {:induction false} SingleMatch(events: seq<HostFileEvent>, path: Path, t: U64, windowMs: nat)
    ensures |Matching(events, path, t, windowMs)| == 1 <==>
            exists i: nat :: OnlyMatch(events, path, t, windowMs, i)
  {
    if events != [] {
      var n := |events| - 1;
      var p := events[..n];
      SingleMatch(p, path, t, windowMs);
      NoMatches(p, path, t, windowMs);
      if IsMatch(events[n], path, t, windowMs) {
        if Matching(p, path, t, windowMs) == [] {
          assert OnlyMatch(events, path, t, windowMs, n);
        } else {
          var k :| 0 <= k < |p| && IsMatch(p[k], path, t, windowMs);
          assert events[k] == p[k];
        }
      } else {
        forall i: nat ensures OnlyMatch(events, path, t, windowMs, i) <==> OnlyMatch(p, path, t, windowMs, i) {
        }
      }
    }
  }

  // ----- What High means about true time -----

  /** The setting of the guarantee: the guest clock that answers the challenges is
      theta behind host time, and host times are far from the end of the 64-bit
      range. The clock that stamps the records may have its own origin, `delta`
      further behind, so the write really happened at host time `Truth`. */
  ghost predicate Setting(h: seq<Exchange>, theta: int, events: seq<HostFileEvent>,
                          record: GuestWriteRecord, windowMs: nat) {
    && HonestRun(h, theta) && Representable(theta)
    && windowMs <= MAX_CORRELATION_WINDOW_MS
    && 0 <= record.guestMonotonicNs + theta < TWO_63
    && forall i :: 0 <= i < |events| ==> events[i].hostTimestamp < TWO_63
  }

  function Truth(record: GuestWriteRecord, theta: int, delta: int): int {
    record.guestMonotonicNs + theta + delta
  }

  lemma AdjustedNearTruth(e: Estimate, guest: U64, theta: int, ts: U64)
    requires Abs(e.offset - theta) <= 50_000_000
    requires 0 <= guest + theta < TWO_63 && ts < TWO_63
    ensures var t := AdjustedTime(guest, e.offset);
            Abs(ts - t) <= 250 * NS_PER_MS ==> t == guest + e.offset
  {
  }

  /** High confidence: exactly one buffered event has the translated path inside
      the window; it lies within window + uncertainty + 1 ns of the true time of the
      guest write, within window + 50 ms (so 300 ms) whatever the uncertainty, and
      every other event on that path is at least window - uncertainty away. Two guest
      clocks add their difference. */
  lemma {:induction false} HighMeans(id: Bytes16, h: seq<Exchange>, theta: int, delta: int, now: U64,
                                     events: seq<HostFileEvent>, windowMs: nat, record: GuestWriteRecord)
    returns (i: nat)
    requires Setting(h, theta, events, record, windowMs)
    requires Classify(ValidEstimate(id, h, now), events, windowMs, record).0 == High
    ensures ValidEstimate(id, h, now).Some?
    ensures var e := ValidEstimate(id, h, now).value;
            var truth := Truth(record, theta, delta);
            var path := WindowsPath(record.normalizedPath);
            && OnlyMatch(events, path, AdjustedTime(record.guestMonotonicNs, e.offset), windowMs, i)
            && EqIgnoreCase(events[i].windowsPath, path)
            && Abs(events[i].hostTimestamp - truth) <= windowMs * NS_PER_MS + e.uncertainty + 1 + Abs(delta)
            && Abs(events[i].hostTimestamp - truth) <= windowMs * 1_000_000 + 50_000_000 + Abs(delta)
            && (forall j :: 0 <= j < |events| && j != i && EqIgnoreCase(events[j].windowsPath, path) ==>
                  Abs(events[j].hostTimestamp - truth) >= windowMs * NS_PER_MS - e.uncertainty - Abs(delta))
  {
    var e := ValidEstimate(id, h, now).value;
    var path := WindowsPath(record.normalizedPath);
    var t := AdjustedTime(record.guestMonotonicNs, e.offset);
    EstimateErrorBound(id, h, theta);
    OffsetErrorBound(id, h, theta);
    SingleMatch(events, path, t, windowMs);
    i :| OnlyMatch(events, path, t, windowMs, i);
    AdjustedNearTruth(e, record.guestMonotonicNs, theta, events[i].hostTimestamp);
    MatchDistances(events, path, t, windowMs, i, record.guestMonotonicNs + theta, delta, e.uncertainty);
  }

  /** The distances from a time that t misses by so much, moved by delta. */
  lemma {:induction false} MatchDistances(events: seq<HostFileEvent>, path: Path, t: U64, windowMs: nat, i: nat,
                                          near: int, delta: int, u: nat)
    requires OnlyMatch(events, path, t, windowMs, i)
    requires near - t <= u + 1 && t - near <= u && Abs(t - near) <= 50 * NS_PER_MS
    ensures Abs(events[i].hostTimestamp - (near + delta)) <= windowMs * NS_PER_MS + u + 1 + Abs(delta)
    ensures Abs(events[i].hostTimestamp - (near + delta)) <= windowMs * 1_000_000 + 50_000_000 + Abs(delta)
    ensures forall j :: 0 <= j < |events| && j != i && EqIgnoreCase(events[j].windowsPath, path) ==>
              Abs(events[j].hostTimestamp - (near + delta)) >= windowMs * NS_PER_MS - u - Abs(delta)
  {
    forall j | 0 <= j < |events| && j != i && EqIgnoreCase(events[j].windowsPath, path)
      ensures Abs(events[j].hostTimestamp - (near + delta)) >= windowMs * NS_PER_MS - u - Abs(delta)
    {
      assert !IsMatch(events[j], path, t, windowMs);
    }
  }

  /** 300 ms is sharp, and so is every clock difference on top of it: one honest
      exchange and one event that far away give High. */
  lemma {:induction false} HighAttained(id: Bytes16, nonce: Bytes16, theta: int, delta: int, windowMs: nat,
                                        record: GuestWriteRecord)
    returns (x: Exchange, event: HostFileEvent)
    requires Representable(theta) && windowMs <= MAX_CORRELATION_WINDOW_MS
    requires 300 * NS_PER_MS <= record.guestMonotonicNs + theta < TWO_63 - 300 * NS_PER_MS
    ensures Setting([x], theta, [event], record, windowMs)
    ensures Classify(ValidEstimate(id, [x], x.t3), [event], windowMs, record).0 == High
    ensures Abs(event.hostTimestamp - Truth(record, theta, delta)) ==
            windowMs * 1_000_000 + 50_000_000 + Abs(delta)
  {
    var early := delta < 0;
    x := OffsetErrorAttained(id, nonce, theta, early);
    var e := EstimateOf(id, [x]).value;
    var path := WindowsPath(record.normalizedPath);
    var t := AdjustedTime(record.guestMonotonicNs, e.offset);
    event := HostFileEvent(if early then t + windowMs * NS_PER_MS else t - windowMs * NS_PER_MS, path, false, 0);
    FreshEstimate(id, x);
    AloneIsHigh(e, event, windowMs, path, t);
  }

  lemma {:induction false} AloneIsHigh(est: Estimate, event: HostFileEvent, windowMs: nat, path: Path, t: U64)
    requires est.uncertainty <= MAX_ACCEPTABLE_UNCERTAINTY_NS && IsMatch(event, path, t, windowMs)
    ensures RateAt(est, [event], windowMs, path, t).0 == High
  {
    SingleMatching(event, path, t, windowMs);
  }

  lemma FreshEstimate(id: Bytes16, x: Exchange)
    requires Accepts(x) && x.t3 <= TWO_63
    requires EstimateOf(id, [x]).Some? && EstimateOf(id, [x]).value.uncertainty <= MAX_ACCEPTABLE_UNCERTAINTY_NS
    ensures ValidEstimate(id, [x], x.t3) == EstimateOf(id, [x])
  {
    SingleSample(x);
  }

  /** The other way round: one event on the path well inside the window around the
      true time, every other one well outside it, and a usable estimate give High. */
  lemma {:induction false} HighGuaranteed(id: Bytes16, h: seq<Exchange>, theta: int, delta: int, now: U64,
                                          events: seq<HostFileEvent>, windowMs: nat, record: GuestWriteRecord, i: nat)
    requires Setting(h, theta, events, record, windowMs)
    requires ValidEstimate(id, h, now).Some?
    requires record.guestMonotonicNs + theta > MAX_ACCEPTABLE_UNCERTAINTY_NS
    requires i < |events|
    requires EqIgnoreCase(events[i].windowsPath, WindowsPath(record.normalizedPath))
    requires Abs(events[i].hostTimestamp - Truth(record, theta, delta)) + 1 + Abs(delta) <=
             windowMs * NS_PER_MS - ValidEstimate(id, h, now).value.uncertainty
    requires forall j :: 0 <= j < |events| && j != i &&
               EqIgnoreCase(events[j].windowsPath, WindowsPath(record.normalizedPath))
               ==> Abs(events[j].hostTimestamp - Truth(record, theta, delta)) >
                   windowMs * NS_PER_MS + ValidEstimate(id, h, now).value.uncertainty + 1 + Abs(delta)
    ensures Classify(ValidEstimate(id, h, now), events, windowMs, record).0 == High
  {
    var e := ValidEstimate(id, h, now).value;
    var path := WindowsPath(record.normalizedPath);
    EstimateErrorBound(id, h, theta);
    var t := AdjustedTime(record.guestMonotonicNs, e.offset);
    assert t == record.guestMonotonicNs + e.offset;
    forall j | 0 <= j < |events| && j != i
      ensures !IsMatch(events[j], path, t, windowMs)
    {
    }
    assert OnlyMatch(events, path, t, windowMs, i);
    SingleMatch(events, path, t, windowMs);
  }

  // ----- Bounded buffer against an unbounded log -----

  lemma {:induction false} MatchingAppend(a: seq<HostFileEvent>, b: seq<HostFileEvent>,
                                          path: Path, t: U64, windowMs: nat)
    ensures Matching(a + b, path, t, windowMs) ==
            Matching(a, path, t, windowMs) + Matching(b, path, t, windowMs)
  {
    if b == [] {
      assert a + b == a;
    } else {
      assert (a + b)[..|a + b| - 1] == a + b[..|b| - 1];
      MatchingAppend(a, b[..|b| - 1], path, t, windowMs);
    }
  }

  ghost predicate Ordered(events: seq<HostFileEvent>) {
    forall i, j :: 0 <= i < j < |events| ==> events[i].hostTimestamp <= events[j].hostTimestamp
  }

  lemma {:induction false} RateUnchanged(est: Estimate, gone: seq<HostFileEvent>, left: seq<HostFileEvent>, t: U64)
    requires est.uncertainty <= MAX_ACCEPTABLE_UNCERTAINTY_NS
    ensures Rate(est, left, t).0 == Rate(est, gone + left, t).0 <==> gone == [] || |left| >= 2
    ensures Rate(est, left, t) == Rate(est, gone + left, t) <==>
            || gone == []
            || (|left| >= 2 && DeltaMs(gone[0], t) == DeltaMs(left[0], t))
  {
    if gone == [] {
      assert gone + left == left;
    }
  }

  /** Exactly when eviction changes nothing, for any log: no evicted event matches,
      or two retained ones do and, for the delta, the first of them is as many
      milliseconds away as the first evicted match was. */
  lemma {:induction false} EvictionExactly(est: Estimate, log: seq<HostFileEvent>,
                                           windowMs: nat, record: GuestWriteRecord)
    requires est.uncertainty <= MAX_ACCEPTABLE_UNCERTAINTY_NS
    ensures var kept := LastN(log, 1000);
            var path := WindowsPath(record.normalizedPath);
            var t := AdjustedTime(record.guestMonotonicNs, est.offset);
            var gone := Matching(log[..|log| - |kept|], path, t, windowMs);
            var left := Matching(kept, path, t, windowMs);
            && (Classify(Some(est), kept, windowMs, record).0 == Classify(Some(est), log, windowMs, record).0 <==>
                gone == [] || |left| >= 2)
            && (Classify(Some(est), kept, windowMs, record) == Classify(Some(est), log, windowMs, record) <==>
                || gone == []
                || (|left| >= 2 && DeltaMs(gone[0], t) == DeltaMs(left[0], t)))
  {
    var kept := LastN(log, 1000);
    var evicted := log[..|log| - |kept|];
    assert log == evicted + kept;
    SplitUnchanged(est, evicted, kept, windowMs, WindowsPath(record.normalizedPath),
                   AdjustedTime(record.guestMonotonicNs, est.offset));
  }

  lemma {:induction false} SplitUnchanged(est: Estimate, evicted: seq<HostFileEvent>, kept: seq<HostFileEvent>,
                                          windowMs: nat, path: Path, t: U64)
    requires est.uncertainty <= MAX_ACCEPTABLE_UNCERTAINTY_NS
    ensures var gone := Matching(evicted, path, t, windowMs);
            var left := Matching(kept, path, t, windowMs);
            var before, after := RateAt(est, evicted + kept, windowMs, path, t), RateAt(est, kept, windowMs, path, t);
            && (after.0 == before.0 <==> gone == [] || |left| >= 2)
            && (after == before <==> gone == [] || (|left| >= 2 && DeltaMs(gone[0], t) == DeltaMs(left[0], t)))
  {
    MatchingAppend(evicted, kept, path, t, windowMs);
    RateUnchanged(est, Matching(evicted, path, t, windowMs), Matching(kept, path, t, windowMs), t);
  }

  /** Whatever was evicted, in timestamp order, the confidence is that of the whole log. */
  ghost predicate EvictionKeepsConfidence(est: Estimate, kept: seq<HostFileEvent>,
                                          windowMs: nat, record: GuestWriteRecord) {
    forall evicted :: Ordered(evicted + kept) ==>
      Classify(Some(est), kept, windowMs, record).0 == Classify(Some(est), evicted + kept, windowMs, record).0
  }

  /** What the buffer alone shows: it keeps the confidence of every ordered log it can
      have come from exactly when its oldest event is before the window or two match. */
  lemma {:induction false} EvictionByTimestamps(est: Estimate, kept: seq<HostFileEvent>,
                                                windowMs: nat, record: GuestWriteRecord)
    requires est.uncertainty <= MAX_ACCEPTABLE_UNCERTAINTY_NS
    requires |kept| == BUFFER_CAPACITY && Ordered(kept)
    ensures var t := AdjustedTime(record.guestMonotonicNs, est.offset);
            EvictionKeepsConfidence(est, kept, windowMs, record) <==>
            || kept[0].hostTimestamp < t - windowMs * NS_PER_MS
            || |Matching(kept, WindowsPath(record.normalizedPath), t, windowMs)| >= 2
  {
    var path := WindowsPath(record.normalizedPath);
    var t := AdjustedTime(record.guestMonotonicNs, est.offset);
    if kept[0].hostTimestamp < t - windowMs * NS_PER_MS || |Matching(kept, path, t, windowMs)| >= 2 {
      forall evicted | Ordered(evicted + kept)
        ensures Classify(Some(est), kept, windowMs, record).0 == Classify(Some(est), evicted + kept, windowMs, record).0
      {
        OrderedEvictionKeeps(est, evicted, kept, windowMs, path, t);
      }
    } else {
      var lost := LostMatch(est, kept, windowMs, path, t);
      assert Classify(Some(est), kept, windowMs, record).0 != Classify(Some(est), [lost] + kept, windowMs, record).0;
    }
  }

  lemma {:induction false} OrderedEvictionKeeps(est: Estimate, evicted: seq<HostFileEvent>, kept: seq<HostFileEvent>,
                                                windowMs: nat, path: Path, t: U64)
    requires est.uncertainty <= MAX_ACCEPTABLE_UNCERTAINTY_NS && kept != [] && Ordered(evicted + kept)
    requires kept[0].hostTimestamp < t - windowMs * NS_PER_MS || |Matching(kept, path, t, windowMs)| >= 2
    ensures RateAt(est, kept, windowMs, path, t).0 == RateAt(est, evicted + kept, windowMs, path, t).0
  {
    SplitUnchanged(est, evicted, kept, windowMs, path, t);
    if kept[0].hostTimestamp < t - windowMs * NS_PER_MS {
      OlderNeverMatch(evicted, kept, path, t, windowMs);
    }
  }

  /** Otherwise an event as old as the oldest one kept, or at t, makes the difference. */
  lemma {:induction false} LostMatch(est: Estimate, kept: seq<HostFileEvent>, windowMs: nat, path: Path, t: U64)
    returns (lost: HostFileEvent)
    requires est.uncertainty <= MAX_ACCEPTABLE_UNCERTAINTY_NS && kept != [] && Ordered(kept)
    requires kept[0].hostTimestamp >= t - windowMs * NS_PER_MS && |Matching(kept, path, t, windowMs)| < 2
    ensures Ordered([lost] + kept)
    ensures RateAt(est, kept, windowMs, path, t).0 != RateAt(est, [lost] + kept, windowMs, path, t).0
  {
    lost := HostFileEvent(if t < kept[0].hostTimestamp then t else kept[0].hostTimestamp, path, true, 0);
    SingleMatching(lost, path, t, windowMs);
    SplitUnchanged(est, [lost], kept, windowMs, path, t);
  }

  lemma {:induction false} OlderNeverMatch(evicted: seq<HostFileEvent>, kept: seq<HostFileEvent>,
                                           path: Path, t: U64, windowMs: nat)
    requires kept != [] && Ordered(evicted + kept) && kept[0].hostTimestamp < t - windowMs * NS_PER_MS
    ensures Matching(evicted, path, t, windowMs) == []
  {
    forall i | 0 <= i < |evicted| ensures !IsMatch(evicted[i], path, t, windowMs) {
      assert (evicted + kept)[i].hostTimestamp <= (evicted + kept)[|evicted|].hostTimestamp;
    }
    NoMatches(evicted, path, t, windowMs);
  }

  /** Dropping the oldest events is invisible in both outputs while host timestamps do
      not decrease and the window around the record lies inside what is retained. */
  lemma {:induction false} EvictionInvisible(est: Option<Estimate>, log: seq<HostFileEvent>,
                                             windowMs: nat, record: GuestWriteRecord)
    requires Ordered(log)
    requires est.Some? && |log| > 1000 ==>
               LastN(log, 1000)[0].hostTimestamp <
               AdjustedTime(record.guestMonotonicNs, est.value.offset) - windowMs * NS_PER_MS
    ensures Classify(est, LastN(log, 1000), windowMs, record) == Classify(est, log, windowMs, record)
  {
    if est.Some? && |log| > BUFFER_CAPACITY {
      var k := |log| - BUFFER_CAPACITY;
      assert log == log[..k] + log[k..];
      OlderInvisible(est.value, log[..k], log[k..], windowMs, WindowsPath(record.normalizedPath),
                     AdjustedTime(record.guestMonotonicNs, est.value.offset));
    }
  }

  lemma {:induction false} OlderInvisible(est: Estimate, evicted: seq<HostFileEvent>, kept: seq<HostFileEvent>,
                                          windowMs: nat, path: Path, t: U64)
    requires kept != [] && Ordered(evicted + kept) && kept[0].hostTimestamp < t - windowMs * NS_PER_MS
    ensures RateAt(est, kept, windowMs, path, t) == RateAt(est, evicted + kept, windowMs, path, t)
  {
    OlderNeverMatch(evicted, kept, path, t, windowMs);
    MatchingAppend(evicted, kept, path, t, windowMs);
  }

  /** Outside that condition the bound shows: losing an earlier candidate turns
      an ambiguous Medium into High, which alone allows enforcement on the PID. */
  lemma EvictionCanRaiseConfidence(est: Estimate, windowMs: nat, record: GuestWriteRecord)
    returns (log: seq<HostFileEvent>)
    requires est.uncertainty <= MAX_ACCEPTABLE_UNCERTAINTY_NS
    ensures Ordered(log)
    ensures Classify(Some(est), log, windowMs, record).0 == Medium
    ensures Classify(Some(est), LastN(log, 1000), windowMs, record).0 == High
  {
    var path := WindowsPath(record.normalizedPath);
    var t := AdjustedTime(record.guestMonotonicNs, est.offset);
    log := OneAmongMisses(est, windowMs, path, t);
  }

  lemma {:induction false} OneAmongMisses(est: Estimate, windowMs: nat, path: Path, t: U64)
    returns (log: seq<HostFileEvent>)
    requires est.uncertainty <= MAX_ACCEPTABLE_UNCERTAINTY_NS
    ensures Ordered(log)
    ensures RateAt(est, log, windowMs, path, t).0 == Medium
    ensures RateAt(est, LastN(log, 1000), windowMs, path, t).0 == High
  {
    var hit, miss := HostFileEvent(t, path, true, 0), HostFileEvent(t, path + [0], true, 0);
    var misses := seq(BUFFER_CAPACITY - 1, _ => miss);
    log := [hit] + (misses + [hit]);
    assert LastN(log, 1000) == misses + [hit];
    AmongMisses(misses, hit, path, t, windowMs);
  }

  lemma {:induction false} AmongMisses(misses: seq<HostFileEvent>, hit: HostFileEvent, path: Path, t: U64, windowMs: nat)
    requires IsMatch(hit, path, t, windowMs)
    requires forall i :: 0 <= i < |misses| ==> !IsMatch(misses[i], path, t, windowMs)
    ensures |Matching(misses + [hit], path, t, windowMs)| == 1
    ensures |Matching([hit] + (misses + [hit]), path, t, windowMs)| == 2
  {
    NoMatches(misses, path, t, windowMs);
    SingleMatching(hit, path, t, windowMs);
    MatchingAppend(misses, [hit], path, t, windowMs);
    MatchingAppend([hit], misses + [hit], path, t, windowMs);
  }

  lemma {:induction false} SingleMatching(e: HostFileEvent, path: Path, t: U64, windowMs: nat)
    requires IsMatch(e, path, t, windowMs)
    ensures Matching([e], path, t, windowMs) == [e]
  {
    assert [e][..0] == [];
  }
}

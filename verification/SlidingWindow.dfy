/** The sliding-window write-burst tracker
    (crates/kavach-tripwire/src/sliding_window.rs). Slot edges and features are in
    exact arithmetic; the SHA-256 evidence digest is not modelled. */
module SlidingWindow {
  import opened MachineInts
  import opened Wrappers
  import opened Statistics
  import opened Entropy
  import opened VerdictWire

  const TIME_SLOTS := 10
  /** Default minimum of corroborating evidence (crates/kavach-core/src/config.rs). */
  const DEFAULT_MINIMUM_EVIDENCE := 3

  datatype FileEvent = FileEvent(
    pid: U32, timestampMs: U64, path: seq<U8>, bytesWritten: nat, blockEntropies: seq<real>, isRename: bool)

  datatype Totals = Totals(
    writes: nat, renames: nat, bytes: nat, files: set<seq<U8>>, entropies: seq<real>)

  datatype Evaluation = Evaluation(
    pid: U32,
    windowStartMs: U64,
    windowDurationMs: U64,
    totals: Totals,
    summary: Summary,
    tensor: seq<seq<real>>,
    recommendedAction: EnforcementAction,
    evidenceCount: nat)

  /** `now.saturating_sub(window)` */
  function Cutoff(now: U64, window: U64): U64 {
    if now < window then 0 else now - window
  }

  /** `retain(|e| e.timestamp_ms >= cutoff)` */
  function Retain(events: seq<FileEvent>, cutoff: U64): seq<FileEvent> {
    if events == [] then []
    else
      var before := Retain(events[..|events| - 1], cutoff);
      var e := events[|events| - 1];
      if e.timestampMs >= cutoff then before + [e] else before
  }

  function OfPid(events: seq<FileEvent>, pid: U32): seq<FileEvent> {
    if events == [] then []
    else
      var before := OfPid(events[..|events| - 1], pid);
      var e := events[|events| - 1];
      if e.pid == pid then before + [e] else before
  }

  /** Events with lo <= timestamp < hi. */
  function Between(events: seq<FileEvent>, lo: nat, hi: nat): seq<FileEvent> {
    if events == [] then []
    else
      var before := Between(events[..|events| - 1], lo, hi);
      var e := events[|events| - 1];
      if lo <= e.timestampMs < hi then before + [e] else before
  }

  function TotalsOf(events: seq<FileEvent>): Totals {
    if events == [] then Totals(0, 0, 0, {}, [])
    else
      var t := TotalsOf(events[..|events| - 1]);
      var e := events[|events| - 1];
      Totals(t.writes + (if e.isRename then 0 else 1), t.renames + (if e.isRename then 1 else 0),
             t.bytes + e.bytesWritten, t.files + {e.path}, t.entropies + e.blockEntropies)
  }

  /** Where slot i begins, relative to the window start. */
  function Edge(window: U64, i: nat): nat {
    i * window / TIME_SLOTS
  }

  function SlotEvents(events: seq<FileEvent>, start: U64, window: U64, i: nat): seq<FileEvent> {
    Between(events, start + Edge(window, i), start + Edge(window, i + 1))
  }

  /** The four features of one slot; an empty slot stays zero. */
  function SlotFeatures(events: seq<FileEvent>): seq<real> {
    if events == [] then [0.0, 0.0, 0.0, 0.0]
    else
      var t := TotalsOf(events);
      var s := Summarize(t.entropies);
      [s.meanEntropy / 8.0, Clamp01(t.renames as real / 10.0), Clamp01(t.bytes as real / 65536.0),
       s.intermittentScore]
  }

  function Tensor(events: seq<FileEvent>, start: U64, window: U64): seq<seq<real>> {
    seq(TIME_SLOTS, i requires 0 <= i < TIME_SLOTS => SlotFeatures(SlotEvents(events, start, window, i)))
  }

  function EvidenceCount(t: Totals, s: Summary, fileThreshold: nat): nat {
    (if s.maxEntropy >= 7.95 then 1 else 0) + (if s.isAnomalous then 1 else 0)
    + (if t.renames >= 3 then 1 else 0) + (if |t.files| >= fileThreshold then 1 else 0)
  }

  function Evaluate(events: seq<FileEvent>, pid: U32, now: U64, window: U64, fileThreshold: nat)
    : Option<Evaluation>
  {
    var mine := OfPid(events, pid);
    if mine == [] then None
    else
      var t := TotalsOf(mine);
      var s := Summarize(t.entropies);
      var start := Cutoff(now, window);
      Some(Evaluation(pid, start, window, t, s,
                      Tensor(mine, start, window),
                      if s.isAnomalous && |t.files| >= fileThreshold then SuspendAndAlert else Alert,
                      EvidenceCount(t, s, fileThreshold)))
  }

  class WriteBurstTracker {
    const windowDurationMs: U64
    const suspensionFileThreshold: nat
    var events: seq<FileEvent>
    ghost var history: seq<Op>

    ghost predicate Valid()
      reads this
    {
      events == EventsAfter(history, windowDurationMs)
    }

    constructor (window: U64, fileThreshold: nat)
      ensures windowDurationMs == window && suspensionFileThreshold == fileThreshold
      ensures Valid() && history == [] && events == []
    {
      windowDurationMs := window;
      suspensionFileThreshold := fileThreshold;
      events := [];
      history := [];
    }

    /** Exactly the events at or after the cutoff stay, as often as they were there
        and in their order. */
    method PurgeExpired(now: U64)
      modifies this
      ensures events == Retain(old(events), Cutoff(now, windowDurationMs))
      ensures forall e :: multiset(events)[e] ==
                (if e.timestampMs + windowDurationMs >= now then multiset(old(events))[e] else 0)
      ensures history == old(history) + [Purge(now)]
      ensures old(Valid()) ==> Valid()
    {
      var kept := Filter(Cutoff(now, windowDurationMs));
      RetainExactly(events, Cutoff(now, windowDurationMs));
      assert (history + [Purge(now)])[..|history|] == history;
      events := kept;
      history := history + [Purge(now)];
    }

    /** The loop of `retain`. */
    method Filter(cutoff: U64) returns (kept: seq<FileEvent>)
      ensures kept == Retain(events, cutoff)
    {
      kept := [];
      for i := 0 to |events|
        invariant kept == Retain(events[..i], cutoff)
      {
        assert events[..i + 1][..i] == events[..i];
        if events[i].timestampMs >= cutoff {
          kept := kept + [events[i]];
        }
      }
      assert events[..|events|] == events;
    }

    method RecordEvent(event: FileEvent, now: U64)
      requires Valid()
      modifies this
      ensures Valid() && history == old(history) + [Record(event, now)]
      ensures events == Retain(old(events) + [event], Cutoff(now, windowDurationMs))
    {
      ghost var before := history;
      events := events + [event];
      PurgeExpired(now);
      history := before + [Record(event, now)];
      assert history[..|before|] == before;
    }

    /** The accumulation both the whole window and each slot go through. */
    method Tally(es: seq<FileEvent>) returns (t: Totals)
      ensures t == TotalsOf(es)
    {
      var writes: nat, renames: nat, bytes: nat := 0, 0, 0;
      var files: set<seq<U8>> := {};
      var entropies: seq<real> := [];
      for i := 0 to |es|
        invariant Totals(writes, renames, bytes, files, entropies) == TotalsOf(es[..i])
      {
        assert es[..i + 1][..i] == es[..i];
        if es[i].isRename {
          renames := renames + 1;
        } else {
          writes := writes + 1;
        }
        bytes := bytes + es[i].bytesWritten;
        files := files + {es[i].path};
        entropies := entropies + es[i].blockEntropies;
      }
      assert es[..|es|] == es;
      t := Totals(writes, renames, bytes, files, entropies);
    }

    method BuildSlot(bucket: seq<FileEvent>) returns (f: seq<real>)
      ensures f == SlotFeatures(bucket)
    {
      if bucket == [] {
        return [0.0, 0.0, 0.0, 0.0];
      }
      var t := Tally(bucket);
      var s := DifferentialEntropy(t.entropies);
      return [s.meanEntropy / 8.0, Clamp01(t.renames as real / 10.0), Clamp01(t.bytes as real / 65536.0),
              s.intermittentScore];
    }

    method BuildTensor(mine: seq<FileEvent>, start: U64) returns (tensor: seq<seq<real>>)
      ensures tensor == Tensor(mine, start, windowDurationMs)
    {
      tensor := [];
      for i := 0 to TIME_SLOTS
        invariant |tensor| == i
        invariant forall k :: 0 <= k < i ==>
                    tensor[k] == SlotFeatures(SlotEvents(mine, start, windowDurationMs, k))
      {
        var f := BuildSlot(SlotEvents(mine, start, windowDurationMs, i));
        tensor := tensor + [f];
      }
    }

    method EvaluatePid(pid: U32, now: U64) returns (r: Option<Evaluation>)
      ensures r == Evaluate(events, pid, now, windowDurationMs, suspensionFileThreshold)
    {
      var mine := OfPid(events, pid);
      if mine == [] {
        return None;
      }
      var t := Tally(mine);
      var s := DifferentialEntropy(t.entropies);
      var start := Cutoff(now, windowDurationMs);
      var tensor := BuildTensor(mine, start);
      var evidence := 0;
      if s.maxEntropy >= 7.95 {
        evidence := evidence + 1;
      }
      if s.isAnomalous {
        evidence := evidence + 1;
      }
      if t.renames >= 3 {
        evidence := evidence + 1;
      }
      if |t.files| >= suspensionFileThreshold {
        evidence := evidence + 1;
      }
      var action := if s.isAnomalous && |t.files| >= suspensionFileThreshold then SuspendAndAlert else Alert;
      return Some(Evaluation(pid, start, windowDurationMs, t, s, tensor, action, evidence));
    }
  }

  // ----- Runs -----

  datatype Op = Record(event: FileEvent, now: U64) | Purge(now: U64)

  function EventsAfter(ops: seq<Op>, window: U64): seq<FileEvent> {
    if ops == [] then []
    else
      var before := EventsAfter(ops[..|ops| - 1], window);
      var op := ops[|ops| - 1];
      Retain(if op.Record? then before + [op.event] else before, Cutoff(op.now, window))
  }

  /** Everything ever recorded. */
  function Log(ops: seq<Op>): seq<FileEvent> {
    if ops == [] then []
    else
      var before := Log(ops[..|ops| - 1]);
      var op := ops[|ops| - 1];
      if op.Record? then before + [op.event] else before
  }

  /** An event survives as often as it was there when it is not before the cutoff,
      and not at all otherwise. */
  lemma {:induction false} RetainExactly(es: seq<FileEvent>, cutoff: U64)
    ensures forall e :: multiset(Retain(es, cutoff))[e] == if e.timestampMs >= cutoff then multiset(es)[e] else 0
  {
    if es != [] {
      var p, last := es[..|es| - 1], es[|es| - 1];
      RetainExactly(p, cutoff);
      assert es == p + [last];
    }
  }

  /** Filtering keeps the order: the parts of a log are filtered one after the other. */
  lemma {:induction false} RetainAppend(a: seq<FileEvent>, b: seq<FileEvent>, cutoff: U64)
    ensures Retain(a + b, cutoff) == Retain(a, cutoff) + Retain(b, cutoff)
  {
    if b == [] {
      assert a + b == a;
    } else {
      assert (a + b)[..|a + b| - 1] == a + b[..|b| - 1];
      RetainAppend(a, b[..|b| - 1], cutoff);
    }
  }

  lemma {:induction false} RetainOne(es: seq<FileEvent>, e: FileEvent, cutoff: U64)
    ensures Retain(es + [e], cutoff) == if e.timestampMs >= cutoff then Retain(es, cutoff) + [e] else Retain(es, cutoff)
  {
    assert (es + [e])[..|es|] == es;
  }

  /** The event recorded by operation k meets the cutoff of that operation and of
      every later one. */
  ghost predicate Survives(ops: seq<Op>, window: U64, k: nat)
    requires k < |ops| && ops[k].Record?
  {
    forall j :: k <= j < |ops| ==> ops[k].event.timestampMs >= Cutoff(ops[j].now, window)
  }

  /** The surviving events of the first n operations, in the order of recording. */
  ghost function Survivors(ops: seq<Op>, window: U64, n: nat): seq<FileEvent>
    requires n <= |ops|
  {
    if n == 0 then []
    else
      var before := Survivors(ops, window, n - 1);
      if ops[n - 1].Record? && Survives(ops, window, n - 1) then before + [ops[n - 1].event] else before
  }

  lemma {:induction false} SurvivesLonger(ops: seq<Op>, op: Op, window: U64, k: nat)
    requires k < |ops| && ops[k].Record?
    ensures Survives(ops + [op], window, k) <==>
            Survives(ops, window, k) && ops[k].event.timestampMs >= Cutoff(op.now, window)
  {
    var longer := ops + [op];
    assert longer[|ops|] == op;
    if Survives(longer, window, k) {
      assert forall j :: k <= j < |ops| ==> longer[j] == ops[j];
    }
  }

  /** One more operation filters the survivors by its own cutoff. */
  lemma {:induction false} SurvivorsFiltered(ops: seq<Op>, op: Op, window: U64, n: nat)
    requires n <= |ops|
    ensures Survivors(ops + [op], window, n) == Retain(Survivors(ops, window, n), Cutoff(op.now, window))
  {
    if n > 0 {
      var cutoff, last := Cutoff(op.now, window), ops[n - 1];
      var before := Survivors(ops, window, n - 1);
      assert Survivors(ops + [op], window, n - 1) == Retain(before, cutoff) by { SurvivorsFiltered(ops, op, window, n - 1); }
      assert (ops + [op])[n - 1] == last;
      if last.Record? {
        SurvivesLonger(ops, op, window, n - 1);
        RetainOne(before, last.event, cutoff);
      }
    }
  }

  lemma {:induction false} SurvivorsStep(ops: seq<Op>, op: Op, window: U64)
    ensures Survivors(ops + [op], window, |ops| + 1) ==
            Retain(if op.Record? then Survivors(ops, window, |ops|) + [op.event] else Survivors(ops, window, |ops|),
                   Cutoff(op.now, window))
  {
    SurvivorsFiltered(ops, op, window, |ops|);
    assert (ops + [op])[|ops|] == op;
    if op.Record? {
      RetainOne(Survivors(ops, window, |ops|), op.event, Cutoff(op.now, window));
    }
  }

  /** For every clock, a recorded event is held exactly while it meets every cutoff
      since its recording; held events stay in the order of recording. */
  lemma {:induction false} HeldExactly(ops: seq<Op>, window: U64)
    ensures EventsAfter(ops, window) == Survivors(ops, window, |ops|)
  {
    if ops != [] {
      var p, op := ops[..|ops| - 1], ops[|ops| - 1];
      HeldExactly(p, window);
      assert ops == p + [op];
      SurvivorsStep(p, op, window);
    }
  }

  ghost predicate ClockRises(ops: seq<Op>) {
    forall i, j :: 0 <= i < j < |ops| ==> ops[i].now <= ops[j].now
  }

  lemma {:induction false} LatestCutoffDecides(ops: seq<Op>, window: U64, n: nat, now: U64)
    requires ops != [] && n <= |ops| && ClockRises(ops) && now == ops[|ops| - 1].now
    ensures Survivors(ops, window, n) == Retain(Log(ops[..n]), Cutoff(now, window))
  {
    if n > 0 {
      LatestCutoffDecides(ops, window, n - 1, now);
      assert ops[..n][..n - 1] == ops[..n - 1];
      if ops[n - 1].Record? {
        RetainOne(Log(ops[..n - 1]), ops[n - 1].event, Cutoff(now, window));
        LastSurvives(ops, window, n - 1);
      }
    }
  }

  lemma {:induction false} LastSurvives(ops: seq<Op>, window: U64, k: nat)
    requires k < |ops| && ops[k].Record? && ClockRises(ops)
    ensures Survives(ops, window, k) <==> ops[k].event.timestampMs >= Cutoff(ops[|ops| - 1].now, window)
  {
    forall j | k <= j < |ops| ensures Cutoff(ops[j].now, window) <= Cutoff(ops[|ops| - 1].now, window) {
      assert j < |ops| - 1 ==> ops[j].now <= ops[|ops| - 1].now;
    }
  }

  /** With a clock that does not go back, purging on the way loses nothing: the
      tracker holds the whole log filtered by the current cutoff. */
  lemma {:induction false} WindowIsFilteredLog(ops: seq<Op>, window: U64)
    requires ops != [] && ClockRises(ops)
    ensures EventsAfter(ops, window) == Retain(Log(ops), Cutoff(ops[|ops| - 1].now, window))
  {
    HeldExactly(ops, window);
    assert ops[..|ops|] == ops;
    LatestCutoffDecides(ops, window, |ops|, ops[|ops| - 1].now);
  }

  // ----- Slots -----

  lemma EdgesIncrease(window: U64, i: nat, j: nat)
    requires i <= j
    ensures Edge(window, i) <= Edge(window, j)
    ensures Edge(window, 0) == 0 && Edge(window, TIME_SLOTS) == window
  {
    ProductGrows(i, j, window);
    EdgesOrdered(i * window, j * window);
  }

  lemma ProductGrows(i: nat, j: nat, window: nat)
    requires i <= j
    ensures i * window <= j * window
  {
  }

  lemma EdgesOrdered(a: nat, b: nat)
    requires a <= b
    ensures a / TIME_SLOTS <= b / TIME_SLOTS
  {
  }

  ghost predicate InSlot(ts: U64, start: U64, window: U64, i: nat) {
    i < TIME_SLOTS && start + Edge(window, i) <= ts < start + Edge(window, i + 1)
  }

  lemma SlotsDisjoint(ts: U64, start: U64, window: U64, i: nat, j: nat)
    requires InSlot(ts, start, window, i) && InSlot(ts, start, window, j)
    ensures i == j
  {
    if i < j {
      EdgesIncrease(window, i + 1, j);
    } else if j < i {
      EdgesIncrease(window, j + 1, i);
    }
  }

  lemma {:induction false} SlotSearch(ts: U64, start: U64, window: U64, n: nat) returns (i: nat)
    requires n <= TIME_SLOTS && start <= ts < start + Edge(window, n)
    ensures i < n && InSlot(ts, start, window, i)
  {
    EdgesIncrease(window, 0, n);
    if start + Edge(window, n - 1) <= ts {
      i := n - 1;
    } else {
      i := SlotSearch(ts, start, window, n - 1);
    }
  }

  /** The ten slots partition the window, for every window length: a time lies in
      exactly one slot if it is inside [start, start + window), in none otherwise. */
  lemma SlotsPartitionWindow(ts: U64, start: U64, window: U64)
    ensures (exists i: nat :: InSlot(ts, start, window, i)) <==> start <= ts < start + window
    ensures forall i: nat, j: nat :: InSlot(ts, start, window, i) && InSlot(ts, start, window, j) ==> i == j
  {
    EdgesIncrease(window, 0, TIME_SLOTS);
    if start <= ts < start + window {
      var i := SlotSearch(ts, start, window, TIME_SLOTS);
    }
    forall i: nat | InSlot(ts, start, window, i) ensures start <= ts < start + window {
      EdgesIncrease(window, 0, i);
      EdgesIncrease(window, i + 1, TIME_SLOTS);
    }
    forall i: nat, j: nat | InSlot(ts, start, window, i) && InSlot(ts, start, window, j) ensures i == j {
      SlotsDisjoint(ts, start, window, i, j);
    }
  }

  /** A range holds its events as often as the list does, and no others. */
  lemma {:induction false} BetweenExactly(es: seq<FileEvent>, lo: nat, hi: nat)
    ensures forall e :: multiset(Between(es, lo, hi))[e] == if lo <= e.timestampMs < hi then multiset(es)[e] else 0
  {
    if es != [] {
      var p, last := es[..|es| - 1], es[|es| - 1];
      BetweenExactly(p, lo, hi);
      assert es == p + [last];
    }
  }

  /** All events the first n slots are built from. */
  function InSlots(es: seq<FileEvent>, start: U64, window: U64, n: nat): multiset<FileEvent> {
    if n == 0 then multiset{} else InSlots(es, start, window, n - 1) + multiset(SlotEvents(es, start, window, n - 1))
  }

  lemma {:induction false} AdjacentEvents(es: seq<FileEvent>, a: nat, b: nat, c: nat)
    requires a <= b <= c
    ensures multiset(Between(es, a, c)) == multiset(Between(es, a, b)) + multiset(Between(es, b, c))
  {
    if es != [] {
      AdjacentEvents(es[..|es| - 1], a, b, c);
    }
  }

  lemma {:induction false} InSlotsPrefix(es: seq<FileEvent>, start: U64, window: U64, n: nat, hi: nat)
    requires n <= TIME_SLOTS && hi == start + Edge(window, n)
    ensures InSlots(es, start, window, n) == multiset(Between(es, start, hi))
  {
    if n == 0 {
      EdgesIncrease(window, 0, 0);
      EmptyRange(es, start);
    } else {
      var mid := start + Edge(window, n - 1);
      InSlotsPrefix(es, start, window, n - 1, mid);
      NextSlot(es, start, window, n - 1, mid, hi);
    }
  }

  lemma {:induction false} NextSlot(es: seq<FileEvent>, start: U64, window: U64, n: nat, mid: nat, hi: nat)
    requires mid == start + Edge(window, n) && hi == start + Edge(window, n + 1)
    requires InSlots(es, start, window, n) == multiset(Between(es, start, mid))
    ensures InSlots(es, start, window, n + 1) == multiset(Between(es, start, hi))
  {
    assert start <= mid <= hi by {
      EdgesIncrease(window, 0, n);
      EdgesIncrease(window, n, n + 1);
    }
    assert SlotEvents(es, start, window, n) == Between(es, mid, hi);
    assert InSlots(es, start, window, n + 1) == multiset(Between(es, start, mid)) + multiset(Between(es, mid, hi));
    AdjacentEvents(es, start, mid, hi);
  }

  /** What the tensor is built from: the ten slots together hold every event inside
      [start, start + window) as often as the list does, and nothing else. */
  lemma {:induction false} SlotsPartitionEvents(es: seq<FileEvent>, start: U64, window: U64)
    ensures InSlots(es, start, window, TIME_SLOTS) == multiset(Between(es, start, start + window))
    ensures forall e :: InSlots(es, start, window, TIME_SLOTS)[e] ==
              if start <= e.timestampMs < start + window then multiset(es)[e] else 0
  {
    assert Edge(window, TIME_SLOTS) == window by { EdgesIncrease(window, 0, TIME_SLOTS); }
    InSlotsPrefix(es, start, window, TIME_SLOTS, start + window);
    BetweenExactly(es, start, start + window);
  }

  lemma {:induction false} SlotHoldsExactly(es: seq<FileEvent>, start: U64, window: U64, i: nat, e: FileEvent)
    requires i < TIME_SLOTS
    ensures e in SlotEvents(es, start, window, i) <==> e in es && InSlot(e.timestampMs, start, window, i)
  {
    BetweenExactly(es, start + Edge(window, i), start + Edge(window, i + 1));
    assert e in SlotEvents(es, start, window, i) <==> multiset(SlotEvents(es, start, window, i))[e] > 0;
    assert e in es <==> multiset(es)[e] > 0;
  }

  /** An event stamped with the evaluation time itself is in a slot only during
      the first window after time zero. */
  lemma {:induction false} EventAtNowInSlotExactly(es: seq<FileEvent>, e: FileEvent, window: U64)
    requires e in es
    ensures var now := e.timestampMs;
            (exists i: nat :: i < TIME_SLOTS && e in SlotEvents(es, Cutoff(now, window), window, i)) <==> now < window
  {
    var now := e.timestampMs;
    var start := Cutoff(now, window);
    SlotsPartitionWindow(now, start, window);
    forall i: nat | i < TIME_SLOTS
      ensures e in SlotEvents(es, start, window, i) <==> InSlot(now, start, window, i)
    {
      SlotHoldsExactly(es, start, window, i, e);
    }
    if now < window {
      var i: nat :| InSlot(now, start, window, i);
      assert e in SlotEvents(es, start, window, i);
    }
  }

  lemma {:induction false} BetweenPush(es: seq<FileEvent>, e: FileEvent, lo: nat, hi: nat)
    requires e.timestampMs >= hi
    ensures Between(es + [e], lo, hi) == Between(es, lo, hi)
  {
    assert (es + [e])[..|es|] == es;
  }

  /** Afterwards the newest write of an evaluation leaves no trace in its tensor:
      it is the tensor of the list without it. */
  lemma {:induction false} NewestLeavesNoTrace(es: seq<FileEvent>, e: FileEvent, now: U64, window: U64)
    requires window <= now <= e.timestampMs
    ensures Tensor(es + [e], Cutoff(now, window), window) == Tensor(es, Cutoff(now, window), window)
  {
    var start := Cutoff(now, window);
    forall i | 0 <= i < TIME_SLOTS
      ensures SlotEvents(es + [e], start, window, i) == SlotEvents(es, start, window, i)
    {
      SlotIgnores(es, e, start, window, i);
    }
  }

  lemma {:induction false} SlotIgnores(es: seq<FileEvent>, e: FileEvent, start: U64, window: U64, i: nat)
    requires i < TIME_SLOTS && start + window <= e.timestampMs
    ensures SlotEvents(es + [e], start, window, i) == SlotEvents(es, start, window, i)
  {
    EdgesIncrease(window, i + 1, TIME_SLOTS);
    EdgesIncrease(window, 0, TIME_SLOTS);
    BetweenPush(es, e, start + Edge(window, i), start + Edge(window, i + 1));
  }

  function SlotBytes(es: seq<FileEvent>, start: U64, window: U64, n: nat): nat {
    if n == 0 then 0
    else SlotBytes(es, start, window, n - 1) + TotalsOf(SlotEvents(es, start, window, n - 1)).bytes
  }

  function SlotRenames(es: seq<FileEvent>, start: U64, window: U64, n: nat): nat {
    if n == 0 then 0
    else SlotRenames(es, start, window, n - 1) + TotalsOf(SlotEvents(es, start, window, n - 1)).renames
  }

  lemma {:induction false} AdjacentRanges(es: seq<FileEvent>, a: nat, b: nat, c: nat)
    requires a <= b <= c
    ensures TotalsOf(Between(es, a, c)).bytes == TotalsOf(Between(es, a, b)).bytes + TotalsOf(Between(es, b, c)).bytes
    ensures TotalsOf(Between(es, a, c)).renames ==
            TotalsOf(Between(es, a, b)).renames + TotalsOf(Between(es, b, c)).renames
  {
    if es != [] {
      AdjacentRanges(es[..|es| - 1], a, b, c);
    }
  }

  lemma {:induction false} EmptyRange(es: seq<FileEvent>, a: nat)
    ensures Between(es, a, a) == []
  {
    if es != [] {
      EmptyRange(es[..|es| - 1], a);
    }
  }

  lemma {:induction false} SlotPrefix(es: seq<FileEvent>, start: U64, window: U64, n: nat)
    requires n <= TIME_SLOTS
    ensures SlotBytes(es, start, window, n) == TotalsOf(Between(es, start, start + Edge(window, n))).bytes
    ensures SlotRenames(es, start, window, n) == TotalsOf(Between(es, start, start + Edge(window, n))).renames
  {
    if n == 0 {
      EmptyRange(es, start);
    } else {
      SlotPrefix(es, start, window, n - 1);
      EdgesIncrease(window, 0, n - 1);
      EdgesIncrease(window, n - 1, n);
      AdjacentRanges(es, start, start + Edge(window, n - 1), start + Edge(window, n));
    }
  }

  /** Nothing is counted twice or lost between slots: their byte and rename counts
      add up to those of the events inside [start, start + window). */
  lemma {:induction false} SlotsConserve(es: seq<FileEvent>, start: U64, window: U64)
    ensures SlotBytes(es, start, window, TIME_SLOTS) == TotalsOf(Between(es, start, start + window)).bytes
    ensures SlotRenames(es, start, window, TIME_SLOTS) == TotalsOf(Between(es, start, start + window)).renames
  {
    SlotPrefix(es, start, window, TIME_SLOTS);
    EdgesIncrease(window, 0, TIME_SLOTS);
  }

  // ----- Evidence -----

  /** A recommended suspension always carries enough evidence for the default
      policy: three items, or four with three renames. */
  lemma {:induction false} SuspensionIsCorroborated(events: seq<FileEvent>, pid: U32, now: U64,
                                                    window: U64, fileThreshold: nat)
    ensures var r := Evaluate(events, pid, now, window, fileThreshold);
            r.Some? && r.value.recommendedAction == SuspendAndAlert ==>
              && r.value.evidenceCount == (if r.value.totals.renames >= 3 then 4 else 3)
              && r.value.evidenceCount >= DEFAULT_MINIMUM_EVIDENCE
  {
    AnomalyNeedsHighBlock(TotalsOf(OfPid(events, pid)).entropies);
  }

  // ----- The evaluation, read off the raw events -----

  /** Exactly the events of the process are looked at, as often as they were recorded. */
  lemma {:induction false} OfPidExactly(events: seq<FileEvent>, pid: U32)
    ensures forall e :: multiset(OfPid(events, pid))[e] == if e.pid == pid then multiset(events)[e] else 0
  {
    if events != [] {
      var p, last := events[..|events| - 1], events[|events| - 1];
      OfPidExactly(p, pid);
      assert events == p + [last];
    }
  }

  /** And in their order. */
  lemma {:induction false} OfPidAppend(a: seq<FileEvent>, b: seq<FileEvent>, pid: U32)
    ensures OfPid(a + b, pid) == OfPid(a, pid) + OfPid(b, pid)
  {
    if b == [] {
      assert a + b == a;
    } else {
      assert (a + b)[..|a + b| - 1] == a + b[..|b| - 1];
      OfPidAppend(a, b[..|b| - 1], pid);
    }
  }

  /** What other processes write never matters. */
  lemma {:induction false} OthersIgnored(a: seq<FileEvent>, e: FileEvent, b: seq<FileEvent>, pid: U32, now: U64,
                                         window: U64, fileThreshold: nat)
    requires e.pid != pid
    ensures Evaluate(a + [e] + b, pid, now, window, fileThreshold) == Evaluate(a + b, pid, now, window, fileThreshold)
  {
    OfPidAppend(a + [e], b, pid);
    OfPidAppend(a, [e], pid);
    OfPidAppend(a, b, pid);
    assert [e][..0] == [] && OfPid([e], pid) == [];
  }

  ghost function WriteIndices(events: seq<FileEvent>, pid: U32): set<int> {
    set i | 0 <= i < |events| && events[i].pid == pid && !events[i].isRename
  }

  ghost function RenameIndices(events: seq<FileEvent>, pid: U32): set<int> {
    set i | 0 <= i < |events| && events[i].pid == pid && events[i].isRename
  }

  ghost function PathsOf(events: seq<FileEvent>, pid: U32): set<seq<U8>> {
    set i | 0 <= i < |events| && events[i].pid == pid :: events[i].path
  }

  /** All block entropies of the process, from the first event on. */
  ghost function BlocksOf(events: seq<FileEvent>, pid: U32): seq<real> {
    if events == [] then []
    else (if events[0].pid == pid then events[0].blockEntropies else []) + BlocksOf(events[1..], pid)
  }

  ghost function BytesOf(events: seq<FileEvent>, pid: U32): nat {
    if events == [] then 0
    else (if events[0].pid == pid then events[0].bytesWritten else 0) + BytesOf(events[1..], pid)
  }

  lemma {:induction false} BlocksLast(events: seq<FileEvent>, e: FileEvent, pid: U32)
    ensures BlocksOf(events + [e], pid) == BlocksOf(events, pid) + (if e.pid == pid then e.blockEntropies else [])
    ensures BytesOf(events + [e], pid) == BytesOf(events, pid) + (if e.pid == pid then e.bytesWritten else 0)
  {
    if events == [] {
      assert ([] + [e])[1..] == [];
    } else {
      assert (events + [e])[1..] == events[1..] + [e];
      BlocksLast(events[1..], e, pid);
    }
  }

  lemma {:induction false} LastIndices(events: seq<FileEvent>, pid: U32)
    requires events != []
    ensures var p, n := events[..|events| - 1], |events| - 1;
            var e := events[n];
            && WriteIndices(events, pid) == WriteIndices(p, pid) + (if e.pid == pid && !e.isRename then {n} else {})
            && RenameIndices(events, pid) == RenameIndices(p, pid) + (if e.pid == pid && e.isRename then {n} else {})
            && n !in WriteIndices(p, pid) && n !in RenameIndices(p, pid)
  {
  }

  lemma {:induction false} IndicesLast(events: seq<FileEvent>, p: seq<FileEvent>, e: FileEvent, pid: U32)
    requires events != [] && p == events[..|events| - 1] && e == events[|events| - 1]
    ensures |WriteIndices(events, pid)| == |WriteIndices(p, pid)| + (if e.pid == pid && !e.isRename then 1 else 0)
    ensures |RenameIndices(events, pid)| == |RenameIndices(p, pid)| + (if e.pid == pid && e.isRename then 1 else 0)
  {
    var n := |events| - 1;
    LastIndices(events, pid);
    OneMoreMember(WriteIndices(p, pid), n, if e.pid == pid && !e.isRename then {n} else {});
    OneMoreMember(RenameIndices(p, pid), n, if e.pid == pid && e.isRename then {n} else {});
  }

  lemma {:induction false} PathsLast(p: seq<FileEvent>, e: FileEvent, pid: U32)
    ensures PathsOf(p + [e], pid) == PathsOf(p, pid) + (if e.pid == pid then {e.path} else {})
  {
    var events, n := p + [e], |p|;
    forall x | x in PathsOf(events, pid) ensures x in PathsOf(p, pid) || (e.pid == pid && x == e.path) {
      var i :| 0 <= i < |events| && events[i].pid == pid && events[i].path == x;
      assert i < n ==> p[i] == events[i];
    }
    forall x | x in PathsOf(p, pid) ensures x in PathsOf(events, pid) {
      var i :| 0 <= i < |p| && p[i].pid == pid && p[i].path == x;
      assert events[i] == p[i];
    }
    assert events[n] == e;
  }

  /** The totals of a process: how many writes and renames, how many bytes, which paths
      and which blocks. */
  ghost function RawTotals(events: seq<FileEvent>, pid: U32): Totals {
    Totals(|WriteIndices(events, pid)|, |RenameIndices(events, pid)|, BytesOf(events, pid),
           PathsOf(events, pid), BlocksOf(events, pid))
  }

  function PlusEvent(t: Totals, e: FileEvent): Totals {
    Totals(t.writes + (if e.isRename then 0 else 1), t.renames + (if e.isRename then 1 else 0),
           t.bytes + e.bytesWritten, t.files + {e.path}, t.entropies + e.blockEntropies)
  }

  lemma {:induction false} RawLast(p: seq<FileEvent>, e: FileEvent, pid: U32)
    ensures RawTotals(p + [e], pid) == if e.pid == pid then PlusEvent(RawTotals(p, pid), e) else RawTotals(p, pid)
  {
    assert (p + [e])[..|p|] == p;
    IndicesLast(p + [e], p, e, pid);
    PathsLast(p, e, pid);
    BlocksLast(p, e, pid);
  }

  lemma {:induction false} TotalsLast(es: seq<FileEvent>, e: FileEvent)
    ensures TotalsOf(es + [e]) == PlusEvent(TotalsOf(es), e)
  {
    assert (es + [e])[..|es|] == es;
  }

  lemma {:induction false} TotalsExactly(events: seq<FileEvent>, pid: U32)
    ensures TotalsOf(OfPid(events, pid)) == RawTotals(events, pid)
  {
    if events == [] {
      assert WriteIndices(events, pid) == {} && RenameIndices(events, pid) == {} && PathsOf(events, pid) == {};
    } else {
      var p, e := events[..|events| - 1], events[|events| - 1];
      TotalsExactly(p, pid);
      RawLast(p, e, pid);
      assert events == p + [e];
      TotalsLast(OfPid(p, pid), e);
    }
  }

  /** An evaluation exists exactly for a process with an event, and holds its totals,
      the window, and the summary of its blocks. */
  lemma {:induction false} EvaluationExactly(events: seq<FileEvent>, pid: U32, now: U64, window: U64, fileThreshold: nat)
    ensures var r := Evaluate(events, pid, now, window, fileThreshold);
            && (r.Some? <==> exists i :: 0 <= i < |events| && events[i].pid == pid)
            && (r.Some? ==>
                  && r.value.pid == pid && r.value.windowDurationMs == window
                  && r.value.windowStartMs == (if now < window then 0 else now - window)
                  && r.value.totals == RawTotals(events, pid)
                  && r.value.summary == Summarize(BlocksOf(events, pid)))
  {
    OfPidExactly(events, pid);
    TotalsExactly(events, pid);
    var mine := OfPid(events, pid);
    if mine != [] {
      assert mine[0] in multiset(mine);
      assert mine[0] in multiset(events);
      var i :| 0 <= i < |events| && events[i] == mine[0];
    }
    if i :| 0 <= i < |events| && events[i].pid == pid {
      assert events[i] in multiset(events);
      assert events[i] in multiset(mine);
    }
  }

  /** How many of the four signs a process shows. */
  ghost function SignsOf(events: seq<FileEvent>, pid: U32, fileThreshold: nat): nat {
    (if exists i :: 0 <= i < |BlocksOf(events, pid)| && BlocksOf(events, pid)[i] >= 7.95 then 1 else 0)
    + (if Summarize(BlocksOf(events, pid)).isAnomalous then 1 else 0)
    + (if |RenameIndices(events, pid)| >= 3 then 1 else 0)
    + (if |PathsOf(events, pid)| >= fileThreshold then 1 else 0)
  }

  lemma {:induction false} HighBlockExists(s: seq<real>)
    ensures MaxFrom0(s) >= 7.95 <==> exists i :: 0 <= i < |s| && s[i] >= 7.95
  {
    MaxExactly(s);
  }

  /** A suspension is recommended exactly when the process touched enough distinct paths
      and its blocks are anomalous, an alert in every other case; and the evidence is
      the number of signs, whatever is recommended. */
  lemma {:induction false} SuspensionExactly(events: seq<FileEvent>, pid: U32, now: U64, window: U64, fileThreshold: nat)
    requires Evaluate(events, pid, now, window, fileThreshold).Some?
    ensures var r := Evaluate(events, pid, now, window, fileThreshold).value;
            && (r.recommendedAction == SuspendAndAlert <==>
                |PathsOf(events, pid)| >= fileThreshold && Summarize(BlocksOf(events, pid)).isAnomalous)
            && (r.recommendedAction == Alert <==>
                !(|PathsOf(events, pid)| >= fileThreshold && Summarize(BlocksOf(events, pid)).isAnomalous))
            && r.evidenceCount == SignsOf(events, pid, fileThreshold)
  {
    TotalsExactly(events, pid);
    HighBlockExists(BlocksOf(events, pid));
  }

  /** So a burst over enough files, at least 70 percent of whose blocks are high, is
      suspended with three pieces of evidence. */
  lemma {:induction false} HighBurstSuspended(events: seq<FileEvent>, pid: U32, now: U64, window: U64, fileThreshold: nat)
    requires Evaluate(events, pid, now, window, fileThreshold).Some?
    requires |PathsOf(events, pid)| >= fileThreshold && BlocksOf(events, pid) != []
    requires 10 * |HighIndices(BlocksOf(events, pid))| >= 7 * |BlocksOf(events, pid)|
    ensures var r := Evaluate(events, pid, now, window, fileThreshold).value;
            r.recommendedAction == SuspendAndAlert && r.evidenceCount >= 3
  {
    AnomalyExactly(BlocksOf(events, pid));
    SuspensionExactly(events, pid, now, window, fileThreshold);
    SuspensionIsCorroborated(events, pid, now, window, fileThreshold);
  }

  /** And so is one that alternates between high blocks and blocks far enough below. */
  lemma {:induction false} AlternatingBurstSuspended(events: seq<FileEvent>, pid: U32, now: U64, window: U64,
                                                     fileThreshold: nat, low: real)
    requires Evaluate(events, pid, now, window, fileThreshold).Some?
    requires |PathsOf(events, pid)| >= fileThreshold && Alternating(BlocksOf(events, pid), low)
    requires |HighIndices(BlocksOf(events, pid))| >= 2
    requires low < 7.95 && 2.0 * ((7.95 - low) * (7.95 - low)) >= 9.0
    ensures var r := Evaluate(events, pid, now, window, fileThreshold).value;
            r.recommendedAction == SuspendAndAlert && r.evidenceCount >= 3
  {
    HighCount(BlocksOf(events, pid));
    AlternatingFlagged(BlocksOf(events, pid), low);
    SuspensionExactly(events, pid, now, window, fileThreshold);
    SuspensionIsCorroborated(events, pid, now, window, fileThreshold);
  }

  // ----- The columns of the tensor -----

  /** Slot edges are the tenths of the window, rounded down. */
  lemma EdgeExactly(window: U64, i: nat)
    ensures 10 * Edge(window, i) <= i * window < 10 * Edge(window, i) + 10
  {
  }

  /** Which column holds which feature: mean entropy over 8, renames over 10, bytes over
      64 KiB and the intermittent score, all at most 1; zeros for an empty slot. */
  lemma {:induction false} SlotFeaturesExactly(es: seq<FileEvent>)
    ensures var f, t := SlotFeatures(es), TotalsOf(es);
            && |f| == 4
            && (es == [] ==> f == [0.0, 0.0, 0.0, 0.0])
            && (es != [] ==>
                  && 8.0 * f[0] == (if t.entropies == [] then 0.0 else Mean(t.entropies))
                  && 10.0 * f[1] == (if t.renames <= 10 then t.renames as real else 10.0)
                  && 65536.0 * f[2] == (if t.bytes <= 65536 then t.bytes as real else 65536.0)
                  && f[3] == Summarize(t.entropies).intermittentScore)
  {
  }

  /** Every row of the tensor is that of the process's events in its slot. */
  lemma {:induction false} TensorExactly(events: seq<FileEvent>, pid: U32, now: U64, window: U64, fileThreshold: nat, i: nat)
    returns (slot: seq<FileEvent>)
    requires Evaluate(events, pid, now, window, fileThreshold).Some? && i < 10
    ensures var r := Evaluate(events, pid, now, window, fileThreshold).value;
            && |r.tensor| == 10
            && r.tensor[i] == SlotFeatures(slot)
            && SlotOf(slot, events, pid, r.windowStartMs + Edge(window, i), r.windowStartMs + Edge(window, i + 1))
  {
    var start := Evaluate(events, pid, now, window, fileThreshold).value.windowStartMs;
    slot := SlotEvents(OfPid(events, pid), start, window, i);
    SlotOfPid(events, pid, start + Edge(window, i), start + Edge(window, i + 1));
  }

  /** The slot holds the events of the process with lo <= timestamp < hi. */
  ghost predicate SlotOf(slot: seq<FileEvent>, events: seq<FileEvent>, pid: U32, lo: int, hi: int) {
    forall e :: multiset(slot)[e] == if e.pid == pid && lo <= e.timestampMs < hi then multiset(events)[e] else 0
  }

  lemma {:induction false} SlotOfPid(events: seq<FileEvent>, pid: U32, lo: nat, hi: nat)
    ensures SlotOf(Between(OfPid(events, pid), lo, hi), events, pid, lo, hi)
  {
    OfPidExactly(events, pid);
    BetweenExactly(OfPid(events, pid), lo, hi);
  }
}

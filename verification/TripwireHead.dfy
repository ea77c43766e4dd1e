/** From tracked file events to the score of head 1: the tensor the tracker builds
    is always in the range the quantizer keeps faithful. */
module TripwireHead {
  import opened MachineInts
  import opened Statistics
  import opened SlidingWindow
  import Q = Quantization

  /** Block entropies are Shannon entropies of bytes: between 0 and 8 bits. */
  ghost predicate EntropiesInRange(events: seq<FileEvent>) {
    forall i :: 0 <= i < |events| ==> Within(events[i].blockEntropies, 0.0, 8.0)
  }

  lemma {:induction false} OfPidInRange(events: seq<FileEvent>, pid: U32)
    requires EntropiesInRange(events)
    ensures EntropiesInRange(OfPid(events, pid))
  {
    if events != [] {
      OfPidInRange(events[..|events| - 1], pid);
    }
  }

  lemma {:induction false} BetweenInRange(events: seq<FileEvent>, lo: nat, hi: nat)
    requires EntropiesInRange(events)
    ensures EntropiesInRange(Between(events, lo, hi))
  {
    if events != [] {
      BetweenInRange(events[..|events| - 1], lo, hi);
    }
  }

  lemma {:induction false} TotalsInRange(events: seq<FileEvent>)
    requires EntropiesInRange(events)
    ensures Within(TotalsOf(events).entropies, 0.0, 8.0)
  {
    if events != [] {
      TotalsInRange(events[..|events| - 1]);
    }
  }

  ghost predicate UnitRow(f: seq<real>) {
    |f| == 4 && forall j :: 0 <= j < 4 ==> 0.0 <= f[j] <= 1.0
  }

  /** Every feature of every slot is between 0 and 1. */
  lemma {:induction false} SlotFeaturesNormalized(events: seq<FileEvent>)
    requires EntropiesInRange(events)
    ensures UnitRow(SlotFeatures(events))
  {
    var e := TotalsOf(events).entropies;
    TotalsInRange(events);
    if e != [] {
      MeanBounds(e, 0.0, 8.0);
    }
  }

  /** The whole tensor of an evaluation is ten rows of four features in [0, 1]. */
  lemma {:induction false} TensorNormalized(events: seq<FileEvent>, pid: U32, now: U64,
                                            window: U64, fileThreshold: nat)
    requires EntropiesInRange(events)
    requires Evaluate(events, pid, now, window, fileThreshold).Some?
    ensures var t := Evaluate(events, pid, now, window, fileThreshold).value.tensor;
            |t| == TIME_SLOTS && forall i :: 0 <= i < TIME_SLOTS ==> UnitRow(t[i])
  {
    var mine, start := OfPid(events, pid), Cutoff(now, window);
    OfPidInRange(events, pid);
    forall i | 0 <= i < TIME_SLOTS ensures UnitRow(SlotFeatures(SlotEvents(mine, start, window, i))) {
      BetweenInRange(mine, start + Edge(window, i), start + Edge(window, i + 1));
      SlotFeaturesNormalized(SlotEvents(mine, start, window, i));
    }
  }

  /** Hence the INT8 score of any evaluation is within 1/254 of the score of its
      unquantized features. */
  lemma {:induction false} HeadScoreError(events: seq<FileEvent>, pid: U32, now: U64,
                                          window: U64, fileThreshold: nat)
    requires EntropiesInRange(events)
    requires Evaluate(events, pid, now, window, fileThreshold).Some?
    ensures var t := Evaluate(events, pid, now, window, fileThreshold).value.tensor;
            && Q.Normalized(t) && t != []
            && -1.0 / 254.0
               <= Q.GraphScore(Q.QuantizeRows(t), Q.IO_WEIGHTS) - Q.RealScore(t, Q.IO_WEIGHTS)
               <= 1.0 / 254.0
  {
    var t := Evaluate(events, pid, now, window, fileThreshold).value.tensor;
    TensorNormalized(events, pid, now, window, fileThreshold);
    assert forall i :: 0 <= i < |t| ==> UnitRow(t[i]);
    Q.QuantizedScoreError(t, Q.IO_WEIGHTS);
  }
}

/** Bounded history buffers: what a ring that drops its oldest entry retains. */
module Sequences {
  /** The last n elements of s, or all of s when it is shorter. */
  function LastN<T>(s: seq<T>, n: nat): seq<T>
  {
    if |s| <= n then s else s[|s| - n..]
  }

  /** Pushing onto a bounded buffer and dropping the overflowing front entry
      keeps it equal to the last n entries of the whole log. */
  lemma {:induction false} LastNPush<T>(log: seq<T>, x: T, n: nat)
    requires n > 0
    ensures LastN(log + [x], n) ==
            (if |LastN(log, n)| == n then LastN(log, n)[1..] else LastN(log, n)) + [x]
  {
    assert |log| >= n ==> (log + [x])[|log| + 1 - n..] == log[|log| - n..][1..] + [x];
  }

  /** The same, for a buffer that pushes first and then drops the surplus entry. */
  lemma {:induction false} LastNOverflow<T>(log: seq<T>, x: T, n: nat)
    requires n > 0
    ensures LastN(log + [x], n) ==
            (if |LastN(log, n) + [x]| > n then (LastN(log, n) + [x])[1..] else LastN(log, n) + [x])
  {
    assert |log| >= n ==> (log + [x])[|log| + 1 - n..] == (log[|log| - n..] + [x])[1..];
  }
}

/** The privileged enforcement broker and its replay cache
    (crates/kavach-firewall/src/broker.rs), compared over whole runs with a
    broker that never forgets a request. */
module Broker {
  import opened MachineInts
  import opened Wrappers
  import opened GuestRecord
  import opened VerdictWire

  const RETENTION_MS := 60_000

  datatype DispatchError =
    | BrokerUnreachable
    | VersionMismatch
    | ReplayDetected
    | MalformedMessage
    | AuthenticationFailed
    | Expired
    | ActionDenied

  datatype EnforcedAction =
    | ProcessSuspended(pid: U32, evidenceDigest: Bytes32)
    | ProcessTerminated(pid: U32, evidenceDigest: Bytes32)
    | AlertLogged(evidenceDigest: Bytes32)

  datatype Policy = Policy(
    activeGeneration: U64,
    hardKillEnabled: bool,
    minimumEvidence: U8,
    trustedModel: Bytes32,
    modelDegraded: bool)

  type Answer = Result<EnforcedAction, DispatchError>
  type Cache = map<Bytes16, U64>

  // ----- One evaluation -----

  /** Past the version, flags and deadline checks; only then is the cache touched.
      The deadline itself is still in time. */
  predicate InTime(v: Verdict, now: U64) {
    v.protocolVersion.major == 1 && v.flags == 0 && now <= v.expiresAt
  }

  /** The policy gates behind the replay check. */
  predicate Authorized(p: Policy, v: Verdict) {
    && v.policyGeneration == p.activeGeneration
    && !p.modelDegraded
    && v.modelBundleSha256 == p.trustedModel
    && (v.requestedAction != Alert ==> v.targetProcessId != 0)
    && (v.requestedAction == HardKill ==>
          p.hardKillEnabled && v.corroboratingEvidenceCount >= p.minimumEvidence)
  }

  /** The answer to a verdict, given whether its request id counts as seen. */
  function Evaluate(p: Policy, v: Verdict, now: U64, seen: bool): (r: Answer)
    ensures r.Ok? <==> InTime(v, now) && !seen && Authorized(p, v)
    ensures r == Err(ReplayDetected) <==> InTime(v, now) && seen
    ensures r == Err(Expired) <==> v.protocolVersion.major == 1 && v.flags == 0 && now > v.expiresAt
    ensures r == Err(VersionMismatch) <==> v.protocolVersion.major != 1
    ensures r.Ok? && r.value.ProcessTerminated? ==>
              && v.requestedAction == HardKill && p.hardKillEnabled
              && v.corroboratingEvidenceCount >= p.minimumEvidence
    ensures r.Ok? ==> r.value.evidenceDigest == v.evidenceDigest
    ensures r.Ok? && !r.value.AlertLogged? ==> r.value.pid == v.targetProcessId != 0
    ensures r.Ok? ==> (r.value.AlertLogged? <==> v.requestedAction == Alert)
    ensures r.Ok? ==> (r.value.ProcessSuspended? <==> v.requestedAction == SuspendAndAlert)
  {
    if v.protocolVersion.major != 1 then Err(VersionMismatch)
    else if v.flags != 0 then Err(MalformedMessage)
    else if now > v.expiresAt then Err(Expired)
    else if seen then Err(ReplayDetected)
    else if v.policyGeneration != p.activeGeneration then Err(ActionDenied)
    else if p.modelDegraded || v.modelBundleSha256 != p.trustedModel then Err(ActionDenied)
    else if v.requestedAction == HardKill
            && (!p.hardKillEnabled || v.corroboratingEvidenceCount < p.minimumEvidence) then Err(ActionDenied)
    else if v.requestedAction != Alert && v.targetProcessId == 0 then Err(MalformedMessage)
    else
      match v.requestedAction
      case HardKill => Ok(ProcessTerminated(v.targetProcessId, v.evidenceDigest))
      case SuspendAndAlert => Ok(ProcessSuspended(v.targetProcessId, v.evidenceDigest))
      case Alert => Ok(AlertLogged(v.evidenceDigest))
  }

  /** `expires_at + 60_000`, unchecked: a release build wraps. */
  function RetainUntil(v: Verdict): U64 {
    WrapU64(v.expiresAt + RETENTION_MS)
  }

  function Purged(c: Cache, now: U64): (r: Cache)
    ensures forall k :: k in r <==> k in c && c[k] >= now
    ensures forall k :: k in r ==> r[k] == c[k]
  {
    map k | k in c && c[k] >= now :: c[k]
  }

  /** Each refusal and each action, exactly, from the fields the gates look at. */
  lemma {:induction false} EvaluateExactly(p: Policy, v: Verdict, now: U64, seen: bool)
    ensures var r := Evaluate(p, v, now, seen);
            var current := v.protocolVersion.major == 1 && v.flags == 0 && now <= v.expiresAt;
            var denied := || v.policyGeneration != p.activeGeneration || p.modelDegraded
                          || v.modelBundleSha256 != p.trustedModel
                          || (v.requestedAction == HardKill
                              && (!p.hardKillEnabled || v.corroboratingEvidenceCount < p.minimumEvidence));
            var noTarget := v.requestedAction != Alert && v.targetProcessId == 0;
            && (r == Err(VersionMismatch) <==> v.protocolVersion.major != 1)
            && (r == Err(Expired) <==> v.protocolVersion.major == 1 && v.flags == 0 && v.expiresAt < now)
            && (r == Err(ReplayDetected) <==> current && seen)
            && (r == Err(ActionDenied) <==> current && !seen && denied)
            && (r == Err(MalformedMessage) <==>
                || (v.protocolVersion.major == 1 && v.flags != 0)
                || (current && !seen && !denied && noTarget))
            && (r.Ok? <==> current && !seen && !denied && !noTarget)
            && (r.Ok? ==> r.value == if v.requestedAction == Alert then AlertLogged(v.evidenceDigest)
                                     else if v.requestedAction == SuspendAndAlert
                                     then ProcessSuspended(v.targetProcessId, v.evidenceDigest)
                                     else ProcessTerminated(v.targetProcessId, v.evidenceDigest))
  {
  }

  class EnforcementBroker {
    const policy: Policy
    var replayCache: Cache

    constructor (p: Policy)
      ensures policy == p && replayCache == map[]
    {
      policy := p;
      replayCache := map[];
    }

    method PurgeExpiredReplayCache(now: U64)
      modifies this
      ensures replayCache == Purged(old(replayCache), now)
    {
      replayCache := map k | k in replayCache && replayCache[k] >= now :: replayCache[k];
    }

    method EvaluateAndEnforce(v: Verdict, now: U64) returns (r: Answer)
      modifies this
      ensures r == AnswerTo(policy, old(replayCache), Submit(v, now))
      ensures replayCache == CacheAfter(policy, old(replayCache), Submit(v, now))
      ensures r == Evaluate(policy, v, now,
                            v.requestId in old(replayCache) && old(replayCache)[v.requestId] >= now)
      ensures !(v.protocolVersion.major == 1 && v.flags == 0 && now <= v.expiresAt) ==> replayCache == old(replayCache)
      ensures v.protocolVersion.major == 1 && v.flags == 0 && now <= v.expiresAt ==>
                forall id :: id in replayCache <==>
                  (id in old(replayCache) && old(replayCache)[id] >= now) || (r.Ok? && id == v.requestId)
      ensures forall id :: id in replayCache && !(r.Ok? && id == v.requestId) ==>
                id in old(replayCache) && replayCache[id] == old(replayCache)[id]
      ensures r.Ok? ==> v.requestId in replayCache && replayCache[v.requestId] == WrapU64(v.expiresAt + 60_000)
    {
      if v.protocolVersion.major != 1 {
        return Err(VersionMismatch);
      }
      if v.flags != 0 {
        return Err(MalformedMessage);
      }
      if now > v.expiresAt {
        return Err(Expired);
      }
      PurgeExpiredReplayCache(now);
      if v.requestId in replayCache {
        return Err(ReplayDetected);
      }
      if v.policyGeneration != policy.activeGeneration {
        return Err(ActionDenied);
      }
      if policy.modelDegraded || v.modelBundleSha256 != policy.trustedModel {
        return Err(ActionDenied);
      }
      match v.requestedAction {
        case HardKill =>
          if !policy.hardKillEnabled {
            return Err(ActionDenied);
          }
          if v.corroboratingEvidenceCount < policy.minimumEvidence {
            return Err(ActionDenied);
          }
          if v.targetProcessId == 0 {
            return Err(MalformedMessage);
          }
        case SuspendAndAlert =>
          if v.targetProcessId == 0 {
            return Err(MalformedMessage);
          }
        case Alert =>
      }
      replayCache := replayCache[v.requestId := WrapU64(v.expiresAt + 60_000)];
      match v.requestedAction {
        case HardKill => return Ok(ProcessTerminated(v.targetProcessId, v.evidenceDigest));
        case SuspendAndAlert => return Ok(ProcessSuspended(v.targetProcessId, v.evidenceDigest));
        case Alert => return Ok(AlertLogged(v.evidenceDigest));
      }
    }
  }

  // ----- Runs -----

  /** A verdict submitted, an explicit purge, or a call that never reaches the broker. */
  datatype Op = Submit(v: Verdict, now: U64) | Purge(now: U64) | Idle

  /** The operation purges the cache at its time. */
  predicate Sweeps(op: Op) {
    op.Purge? || (op.Submit? && InTime(op.v, op.now))
  }

  function AnswerTo(p: Policy, c: Cache, op: Op): Answer
    requires op.Submit?
  {
    Evaluate(p, op.v, op.now, op.v.requestId in Purged(c, op.now))
  }

  function CacheAfter(p: Policy, c: Cache, op: Op): Cache {
    if !Sweeps(op) then c
    else if op.Submit? && AnswerTo(p, c, op).Ok? then
      Purged(c, op.now)[op.v.requestId := RetainUntil(op.v)]
    else Purged(c, op.now)
  }

  /** The cache of the real broker after the first n operations. */
  function CacheAt(p: Policy, ops: seq<Op>, n: nat): Cache
    requires n <= |ops|
  {
    if n == 0 then map[] else CacheAfter(p, CacheAt(p, ops, n - 1), ops[n - 1])
  }

  /** Every request id a broker that never forgets has accepted by then. */
  function SeenAt(p: Policy, ops: seq<Op>, n: nat): set<Bytes16>
    requires n <= |ops|
    decreases n, 0
  {
    if n == 0 then {}
    else SeenAt(p, ops, n - 1) + (if RememberingAccepts(p, ops, n - 1) then {ops[n - 1].v.requestId} else {})
  }

  function RememberingAnswer(p: Policy, ops: seq<Op>, k: nat): Answer
    requires k < |ops| && ops[k].Submit?
    decreases k, 1
  {
    Evaluate(p, ops[k].v, ops[k].now, ops[k].v.requestId in SeenAt(p, ops, k))
  }

  predicate RememberingAccepts(p: Policy, ops: seq<Op>, k: nat)
    requires k < |ops|
    decreases k, 2
  {
    ops[k].Submit? && RememberingAnswer(p, ops, k).Ok?
  }

  predicate Accepts(p: Policy, ops: seq<Op>, k: nat)
    requires k < |ops|
  {
    ops[k].Submit? && AnswerTo(p, CacheAt(p, ops, k), ops[k]).Ok?
  }

  ghost predicate AgreeBefore(p: Policy, ops: seq<Op>, n: nat)
    requires n <= |ops|
  {
    forall k :: 0 <= k < n && ops[k].Submit? ==>
      AnswerTo(p, CacheAt(p, ops, k), ops[k]) == RememberingAnswer(p, ops, k)
  }

  /** Some operation between i (exclusive) and n purged the nonce accepted at i. */
  ghost predicate SweptBetween(ops: seq<Op>, i: nat, n: nat)
    requires i < n <= |ops| && ops[i].Submit?
  {
    exists j :: i < j < n && Sweeps(ops[j]) && ops[j].now > RetainUntil(ops[i].v)
  }

  lemma {:induction false} SeenHasAcceptance(p: Policy, ops: seq<Op>, n: nat, id: Bytes16)
    requires n <= |ops|
    ensures id in SeenAt(p, ops, n) <==>
            exists i :: 0 <= i < n && RememberingAccepts(p, ops, i) && ops[i].v.requestId == id
  {
    if n > 0 {
      SeenHasAcceptance(p, ops, n - 1, id);
    }
  }

  /** While the two brokers have agreed, the cache holds exactly the accepted
      nonces no sweep has outlived, each with its own retention time. */
  lemma {:induction false} CacheTracksAcceptances(p: Policy, ops: seq<Op>, n: nat, i: nat)
    requires i < n <= |ops| && AgreeBefore(p, ops, n) && RememberingAccepts(p, ops, i)
    ensures ops[i].v.requestId in CacheAt(p, ops, n) <==> !SweptBetween(ops, i, n)
    ensures ops[i].v.requestId in CacheAt(p, ops, n) ==>
              CacheAt(p, ops, n)[ops[i].v.requestId] == RetainUntil(ops[i].v)
  {
    var id := ops[i].v.requestId;
    if i < n - 1 {
      CacheTracksAcceptances(p, ops, n - 1, i);
      SeenHasAcceptance(p, ops, n - 1, id);
      var op := ops[n - 1];
      assert op.Submit? && op.v.requestId == id ==> !Accepts(p, ops, n - 1);
      if SweptBetween(ops, i, n - 1) {
        assert SweptBetween(ops, i, n);
      }
    }
  }

  lemma {:induction false} CacheWithinSeen(p: Policy, ops: seq<Op>, n: nat)
    requires n <= |ops| && AgreeBefore(p, ops, n)
    ensures CacheAt(p, ops, n).Keys <= SeenAt(p, ops, n)
  {
    if n > 0 {
      CacheWithinSeen(p, ops, n - 1);
    }
  }

  /** An accepted nonce is purged by operation j and presented again, still in
      time, by operation k (which may be the purging one). */
  ghost predicate Resurrected(p: Policy, ops: seq<Op>, i: nat, j: nat, k: nat) {
    && i < j <= k < |ops|
    && RememberingAccepts(p, ops, i)
    && Sweeps(ops[j]) && ops[j].now > RetainUntil(ops[i].v)
    && ops[k].Submit? && InTime(ops[k].v, ops[k].now)
    && ops[k].v.requestId == ops[i].v.requestId
  }

  lemma {:induction false} DisagreementIsResurrection(p: Policy, ops: seq<Op>, n: nat)
    requires n <= |ops|
    ensures AgreeBefore(p, ops, n) || exists i: nat, j: nat, k: nat :: k < n && Resurrected(p, ops, i, j, k)
  {
    if n > 0 {
      DisagreementIsResurrection(p, ops, n - 1);
      if AgreeBefore(p, ops, n - 1) && !AgreeBefore(p, ops, n) {
        var k := n - 1;
        var id := ops[k].v.requestId;
        CacheWithinSeen(p, ops, k);
        SeenHasAcceptance(p, ops, k, id);
        assert InTime(ops[k].v, ops[k].now);
        var i :| 0 <= i < k && RememberingAccepts(p, ops, i) && ops[i].v.requestId == id;
        CacheTracksAcceptances(p, ops, k, i);
        if SweptBetween(ops, i, k) {
          var j :| i < j < k && Sweeps(ops[j]) && ops[j].now > RetainUntil(ops[i].v);
          assert Resurrected(p, ops, i, j, k);
        } else {
          assert Resurrected(p, ops, i, k, k);
        }
      }
    }
  }

  lemma {:induction false} ResurrectionIsDisagreement(p: Policy, ops: seq<Op>, i: nat, j: nat, k: nat)
    requires Resurrected(p, ops, i, j, k)
    ensures !AgreeBefore(p, ops, |ops|)
  {
    if AgreeBefore(p, ops, k) {
      SeenHasAcceptance(p, ops, k, ops[k].v.requestId);
      CacheTracksAcceptances(p, ops, k, i);
      if j < k {
        assert SweptBetween(ops, i, k);
      }
      assert ops[k].v.requestId !in Purged(CacheAt(p, ops, k), ops[k].now);
      assert AnswerTo(p, CacheAt(p, ops, k), ops[k]) != RememberingAnswer(p, ops, k);
    }
  }

  /** The purging broker answers every call of a run as the never-forgetting one
      does exactly when no purged nonce comes back in time. */
  lemma {:induction false} AgreementExactly(p: Policy, ops: seq<Op>)
    ensures AgreeBefore(p, ops, |ops|) <==> !exists i: nat, j: nat, k: nat :: Resurrected(p, ops, i, j, k)
  {
    DisagreementIsResurrection(p, ops, |ops|);
    forall i: nat, j: nat, k: nat | Resurrected(p, ops, i, j, k)
      ensures !AgreeBefore(p, ops, |ops|)
    {
      ResurrectionIsDisagreement(p, ops, i, j, k);
    }
  }

  // ----- What rules resurrection out -----

  ghost predicate ClockRegressesAtMost(ops: seq<Op>, d: nat) {
    forall a, b :: 0 <= a < b < |ops| && !ops[a].Idle? && !ops[b].Idle? ==> ops[a].now <= ops[b].now + d
  }

  ghost predicate OneExpiryPerRequest(ops: seq<Op>) {
    forall a, b :: 0 <= a < |ops| && 0 <= b < |ops| && ops[a].Submit? && ops[b].Submit?
      && ops[a].v.requestId == ops[b].v.requestId
      ==> ops[a].v.expiresAt == ops[b].v.expiresAt
  }

  ghost predicate RetentionFits(ops: seq<Op>) {
    forall a :: 0 <= a < |ops| && ops[a].Submit? ==> ops[a].v.expiresAt + RETENTION_MS < TWO_64
  }

  lemma {:induction false} PurgeUnobservable(p: Policy, ops: seq<Op>)
    requires ClockRegressesAtMost(ops, RETENTION_MS) && OneExpiryPerRequest(ops) && RetentionFits(ops)
    ensures AgreeBefore(p, ops, |ops|)
  {
    forall i: nat, j: nat, k: nat ensures !Resurrected(p, ops, i, j, k) {
      if i < j <= k < |ops| && ops[i].Submit? && ops[k].Submit? && ops[k].v.requestId == ops[i].v.requestId {
        assert RetainUntil(ops[i].v) == ops[k].v.expiresAt + RETENTION_MS;
      }
    }
    AgreementExactly(p, ops);
  }

  ghost predicate AgreesUnderRegress(p: Policy, d: nat) {
    forall ops: seq<Op> :: ClockRegressesAtMost(ops, d) && OneExpiryPerRequest(ops) && RetentionFits(ops)
      ==> AgreeBefore(p, ops, |ops|)
  }

  /** With one expiry per request the purge is unobservable for clocks falling at
      most 60 000 ms below their running maximum, and for no larger fall unless the
      broker accepts nothing anyway. */
  lemma PurgeUnobservableExactly(p: Policy, d: nat)
    ensures AgreesUnderRegress(p, d) <==> d <= 60_000 || p.modelDegraded
  {
    if d <= RETENTION_MS || p.modelDegraded {
      forall ops: seq<Op> | ClockRegressesAtMost(ops, d) && OneExpiryPerRequest(ops) && RetentionFits(ops)
        ensures AgreeBefore(p, ops, |ops|)
      {
        if p.modelDegraded {
          AgreementExactly(p, ops);
        } else {
          PurgeUnobservable(p, ops);
        }
      }
    } else {
      var id: Bytes16, other: Bytes16 := seq(16, _ => 0), seq(16, _ => 1);
      assert id[0] != other[0];
      var ops := LargeRegressForgets(p, id, other);
    }
  }

  /** An alert the policy p accepts. */
  function PlainAlert(p: Policy, id: Bytes16, expiresAt: U64): Verdict {
    Verdict(ArtifactVersion(1, 0), id, expiresAt, expiresAt, seq(16, _ => 0), Alert,
            seq(32, _ => 0), p.trustedModel, p.activeGeneration, 0, 0, 0, 0)
  }

  /** Accept, let another request 60 001 ms later purge the cache, step the clock
      back: accepted again. */
  lemma LargeRegressForgets(p: Policy, id: Bytes16, other: Bytes16) returns (ops: seq<Op>)
    requires !p.modelDegraded && id != other
    ensures ClockRegressesAtMost(ops, 60_001) && OneExpiryPerRequest(ops) && RetentionFits(ops)
    ensures forall k :: 0 <= k < |ops| ==> ops[k].Submit? && InTime(ops[k].v, ops[k].now)
    ensures !AgreeBefore(p, ops, |ops|)
  {
    var first := Submit(PlainAlert(p, id, 1_000), 1_000);
    var later := Submit(PlainAlert(p, other, 61_001), 61_001);
    ops := [first, later, first];
    ReturnShape(first, later);
    ReturnForgotten(p, first, later);
  }

  lemma ReturnShape(a: Op, b: Op)
    requires a.Submit? && b.Submit? && a.now <= b.now <= a.now + RETENTION_MS + 1
    requires a.v.requestId != b.v.requestId
    requires a.v.expiresAt + RETENTION_MS < TWO_64 && b.v.expiresAt + RETENTION_MS < TWO_64
    ensures ClockRegressesAtMost([a, b, a], RETENTION_MS + 1) && OneExpiryPerRequest([a, b, a]) && RetentionFits([a, b, a])
  {
  }

  lemma ReturnForgotten(p: Policy, a: Op, b: Op)
    requires a.Submit? && b.Submit? && InTime(a.v, a.now) && InTime(b.v, b.now)
    requires Authorized(p, a.v) && b.now > RetainUntil(a.v)
    ensures !AgreeBefore(p, [a, b, a], 3)
  {
    var ops := [a, b, a];
    assert RememberingAccepts(p, ops, 0) by {
      assert SeenAt(p, ops, 0) == {};
    }
    ResurrectionIsDisagreement(p, ops, 0, 1, 2);
  }

  /** The unchecked addition: a deadline in the last minute of the u64 range wraps
      its retention to the past, and the same verdict is accepted twice in a row
      by a clock that does not move. */
  lemma WrappedRetentionForgets(p: Policy, expiresAt: U64) returns (ops: seq<Op>)
    requires !p.modelDegraded && expiresAt + RETENTION_MS >= TWO_64
    ensures |ops| == 2 && ops[0] == ops[1] && ops[0].Submit? && ops[0].v.expiresAt == expiresAt
    ensures Accepts(p, ops, 0) && Accepts(p, ops, 1)
  {
    var v := PlainAlert(p, seq(16, _ => 0), expiresAt);
    ops := [Submit(v, expiresAt), Submit(v, expiresAt)];
    assert CacheAt(p, ops, 0) == map[];
    assert Accepts(p, ops, 0);
    assert CacheAt(p, ops, 1) == CacheAfter(p, CacheAt(p, ops, 0), ops[0]);
    assert CacheAt(p, ops, 1)[v.requestId] == RetainUntil(v) < expiresAt;
  }

  lemma {:induction false} NonceRetained(p: Policy, ops: seq<Op>, i: nat, n: nat)
    requires i < n <= |ops| && Accepts(p, ops, i)
    requires forall j :: i < j < n && Sweeps(ops[j]) ==> ops[j].now <= RetainUntil(ops[i].v)
    ensures ops[i].v.requestId in CacheAt(p, ops, n)
    ensures CacheAt(p, ops, n)[ops[i].v.requestId] == RetainUntil(ops[i].v)
  {
    if i < n - 1 {
      NonceRetained(p, ops, i, n - 1);
    }
  }

  /** Once accepted under deadline e, a request id is not accepted again under a
      deadline at most e's retention less the clock's regression, whatever other
      verdicts (even ones reusing the id) come in between. */
  lemma {:induction false} NoSecondAcceptance(p: Policy, ops: seq<Op>, i: nat, k: nat, d: nat)
    requires i < k < |ops| && ops[k].Submit? && Accepts(p, ops, i)
    requires ops[k].v.requestId == ops[i].v.requestId && ClockRegressesAtMost(ops, d)
    requires ops[k].v.expiresAt + d <= RetainUntil(ops[i].v)
    ensures !Accepts(p, ops, k)
    ensures InTime(ops[k].v, ops[k].now) ==> AnswerTo(p, CacheAt(p, ops, k), ops[k]) == Err(ReplayDetected)
  {
    if InTime(ops[k].v, ops[k].now) {
      NonceRetained(p, ops, i, k);
    }
  }

  /** Nothing outlives a retention at the very end of the u64 range. */
  lemma {:induction false} RetainedForever(p: Policy, ops: seq<Op>, i: nat, k: nat)
    requires i < k < |ops| && ops[k].Submit? && Accepts(p, ops, i)
    requires ops[k].v.requestId == ops[i].v.requestId && RetainUntil(ops[i].v) == TWO_64 - 1
    ensures !Accepts(p, ops, k)
  {
    if InTime(ops[k].v, ops[k].now) {
      NonceRetained(p, ops, i, k);
    }
  }

  /** Operations i and k accept the same request id, first under deadline `first` and
      then under `second`. */
  ghost predicate AcceptedTwice(p: Policy, ops: seq<Op>, i: nat, k: nat, first: U64, second: U64) {
    && i < k < |ops| && Accepts(p, ops, i) && Accepts(p, ops, k)
    && ops[i].v.requestId == ops[k].v.requestId
    && ops[i].v.expiresAt == first && ops[k].v.expiresAt == second
  }

  /** In no run whose clock falls back at most d. */
  ghost predicate NeverTwice(p: Policy, first: U64, second: U64, d: nat) {
    forall ops: seq<Op>, i: nat, k: nat :: ClockRegressesAtMost(ops, d) ==> !AcceptedTwice(p, ops, i, k, first, second)
  }

  /** The exact protection the replay cache gives, for any two deadlines and any
      regression: the second deadline must lie the regression before the end of the
      first one's retention, as the u64 addition computes it. */
  lemma NeverTwiceExactly(p: Policy, first: U64, second: U64, d: nat)
    requires !p.modelDegraded
    ensures var retention := WrapU64(first + 60_000);
            NeverTwice(p, first, second, d) <==> second + d <= retention || retention == TWO_64 - 1
  {
    var retention := WrapU64(first + RETENTION_MS);
    if second + d <= retention || retention == TWO_64 - 1 {
      forall ops: seq<Op>, i: nat, k: nat | ClockRegressesAtMost(ops, d)
        ensures !AcceptedTwice(p, ops, i, k, first, second)
      {
        if AcceptedTwice(p, ops, i, k, first, second) {
          if retention == TWO_64 - 1 {
            RetainedForever(p, ops, i, k);
          } else {
            NoSecondAcceptance(p, ops, i, k, d);
          }
        }
      }
    } else {
      var ops, k := SecondAcceptance(p, first, second, d);
      assert AcceptedTwice(p, ops, 0, k, first, second);
    }
  }

  /** The failing run: accept at time 0, purge just after the retention, present again.
      The second verdict is the first one when the deadlines agree. */
  lemma SecondAcceptance(p: Policy, first: U64, second: U64, d: nat) returns (ops: seq<Op>, k: nat)
    requires !p.modelDegraded
    requires WrapU64(first + RETENTION_MS) < TWO_64 - 1 && WrapU64(first + RETENTION_MS) < second + d
    ensures ClockRegressesAtMost(ops, d) && AcceptedTwice(p, ops, 0, k, first, second)
    ensures first == second ==> ops[0].v == ops[k].v
  {
    var id: Bytes16, other: Bytes16 := seq(16, _ => 0), seq(16, _ => 1);
    assert id[0] != other[0];
    var late: U64 := WrapU64(first + RETENTION_MS) + 1;
    var a := Submit(PlainAlert(p, id, first), 0);
    var b := Submit(PlainAlert(p, other, late), late);
    var c := Submit(PlainAlert(p, id, second), if second < late then second else late);
    ops, k := [a, b, c], 2;
    SweptThenAccepted(p, a, b, c);
  }

  lemma SweptThenAccepted(p: Policy, a: Op, b: Op, c: Op)
    requires a.Submit? && b.Submit? && c.Submit?
    requires InTime(a.v, a.now) && InTime(b.v, b.now) && InTime(c.v, c.now)
    requires Authorized(p, a.v) && Authorized(p, c.v) && a.v.requestId == c.v.requestId != b.v.requestId
    requires RetainUntil(a.v) < b.now
    ensures Accepts(p, [a, b, c], 0) && Accepts(p, [a, b, c], 2)
  {
    var ops := [a, b, c];
    assert CacheAt(p, ops, 0) == map[];
    assert CacheAt(p, ops, 1) == map[a.v.requestId := RetainUntil(a.v)];
    assert a.v.requestId !in CacheAt(p, ops, 2);
  }

  /** So one verdict, presented as often as anyone likes to a clock that falls back at
      most 60 s, is accepted once exactly when its retention does not wrap. */
  lemma VerdictOnceExactly(p: Policy, expiresAt: U64)
    requires !p.modelDegraded
    ensures (forall ops: seq<Op>, i: nat, k: nat ::
               ClockRegressesAtMost(ops, 60_000) && AcceptedTwice(p, ops, i, k, expiresAt, expiresAt)
               ==> ops[i].v != ops[k].v)
            <==> expiresAt + 60_000 < 0x1_0000_0000_0000_0000
  {
    NeverTwiceExactly(p, expiresAt, expiresAt, RETENTION_MS);
    if expiresAt + RETENTION_MS >= TWO_64 {
      var ops, k := SecondAcceptance(p, expiresAt, expiresAt, RETENTION_MS);
      assert AcceptedTwice(p, ops, 0, k, expiresAt, expiresAt);
    }
  }
}

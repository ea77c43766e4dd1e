/** The two ways into one shared broker: byte frames on the named pipe and
    in-memory dispatch (crates/kavach-sensors/src/pipe_broker.rs). The mutex makes
    each call one step. */
module PipeBroker {
  import opened MachineInts
  import opened Wrappers
  import opened VerdictWire
  import opened Broker
  import opened BigEndian

  function FromWireError(e: WireError): DispatchError {
    if e.UnsupportedMajorVersion? then VersionMismatch else MalformedMessage
  }

  datatype Call = Frame(bytes: seq<U8>, at: U64) | InMemory(verdict: Verdict, at: U64)

  /** What a call asks of the broker; a frame that does not decode asks nothing. */
  function BrokerOp(c: Call): Op {
    match c
    case InMemory(v, at) => Submit(v, at)
    case Frame(bytes, at) =>
      match FromSlice(bytes)
      case Ok(v) => Submit(v, at)
      case Err(_) => Idle
  }

  /** `.map(|_| ())` */
  function Discard(a: Answer): Result<(), DispatchError> {
    match a
    case Ok(_) => Ok(())
    case Err(e) => Err(e)
  }

  function CallAnswer(p: Policy, cache: Cache, c: Call): Result<(), DispatchError> {
    match c
    case InMemory(v, at) => Discard(AnswerTo(p, cache, Submit(v, at)))
    case Frame(bytes, at) =>
      match FromSlice(bytes)
      case Ok(v) => Discard(AnswerTo(p, cache, Submit(v, at)))
      case Err(e) => Err(FromWireError(e))
  }

  /** The broker's own answer: a request id is seen while its retention has not passed. */
  function AnswerOf(p: Policy, cache: Cache, v: Verdict, now: U64): Answer {
    Evaluate(p, v, now, v.requestId in cache && cache[v.requestId] >= now)
  }

  /** A frame of the right size with another major version is a version mismatch;
      everything else that does not decode is malformed. */
  lemma {:induction false} RefusedFrame(frame: seq<U8>)
    requires FromSlice(frame).Err?
    ensures FromWireError(FromSlice(frame).error) ==
            if |frame| == 139 && !(frame[0] == 0 && frame[1] == 1) then VersionMismatch else MalformedMessage
  {
    if |frame| == 139 {
      WordFromBe(frame[0..2]);
      RefusedKind(frame);
    }
  }

  lemma {:induction false} RefusedKind(frame: seq<U8>)
    requires |frame| == 139 && FromSlice(frame).Err?
    ensures FromSlice(frame).error.UnsupportedMajorVersion? <==> U16FromBe(frame[0..2]) != 1
  {
  }

  class PipeBrokerServer {
    const broker: EnforcementBroker

    constructor (b: EnforcementBroker)
      ensures broker == b
    {
      broker := b;
    }

    method HandleFrame(frame: seq<U8>, now: U64) returns (r: Result<(), DispatchError>)
      modifies broker
      ensures r == CallAnswer(broker.policy, old(broker.replayCache), Frame(frame, now))
      ensures broker.replayCache ==
              CacheAfter(broker.policy, old(broker.replayCache), BrokerOp(Frame(frame, now)))
      ensures FromSlice(frame).Ok? ==>
                r.Ok? == AnswerOf(broker.policy, old(broker.replayCache), FromSlice(frame).value, now).Ok?
      ensures FromSlice(frame).Ok? && r.Err? ==>
                r.error == AnswerOf(broker.policy, old(broker.replayCache), FromSlice(frame).value, now).error
      ensures FromSlice(frame).Err? ==> broker.replayCache == old(broker.replayCache)
      ensures FromSlice(frame).Err? ==>
                r == Err(if |frame| == 139 && !(frame[0] == 0 && frame[1] == 1) then VersionMismatch else MalformedMessage)
    {
      var decoded := FromSlice(frame);
      if decoded.Err? {
        RefusedFrame(frame);
        return Err(FromWireError(decoded.error));
      }
      var answer := broker.EvaluateAndEnforce(decoded.value, now);
      match answer {
        case Ok(_) => return Ok(());
        case Err(e) => return Err(e);
      }
    }
  }

  /** The dispatcher's in-memory branch; its clock reading is a parameter. */
  class PipeVerdictDispatcher {
    const broker: EnforcementBroker

    constructor (b: EnforcementBroker)
      ensures broker == b
    {
      broker := b;
    }

    method Dispatch(v: Verdict, now: U64) returns (r: Result<(), DispatchError>)
      modifies broker
      ensures r == CallAnswer(broker.policy, old(broker.replayCache), InMemory(v, now))
      ensures broker.replayCache ==
              CacheAfter(broker.policy, old(broker.replayCache), BrokerOp(InMemory(v, now)))
      ensures r.Ok? == AnswerOf(broker.policy, old(broker.replayCache), v, now).Ok?
      ensures r.Err? ==> r.error == AnswerOf(broker.policy, old(broker.replayCache), v, now).error
    {
      var answer := broker.EvaluateAndEnforce(v, now);
      match answer {
        case Ok(_) => return Ok(());
        case Err(e) => return Err(e);
      }
    }
  }

  function BrokerOps(calls: seq<Call>): (ops: seq<Op>)
    ensures |ops| == |calls| && forall k :: 0 <= k < |ops| ==> ops[k] == BrokerOp(calls[k])
  {
    seq(|calls|, k requires 0 <= k < |calls| => BrokerOp(calls[k]))
  }

  /** Call k of a run from an empty cache succeeded: an action was enforced. */
  predicate Enforced(p: Policy, calls: seq<Call>, k: nat)
    requires k < |calls|
  {
    CallAnswer(p, CacheAt(p, BrokerOps(calls), k), calls[k]).Ok?
  }

  /** No verdict is enforced twice through either entry point, in any interleaving,
      while the clock falls back at most 60 s. */
  lemma {:induction false} VerdictEnforcedOnce(p: Policy, calls: seq<Call>, i: nat, k: nat)
    requires i < k < |calls|
    requires BrokerOp(calls[i]).Submit? && BrokerOp(calls[k]).Submit?
    requires BrokerOp(calls[i]).v == BrokerOp(calls[k]).v
    requires ClockRegressesAtMost(BrokerOps(calls), RETENTION_MS)
    requires BrokerOp(calls[i]).v.expiresAt + RETENTION_MS < TWO_64
    ensures !(Enforced(p, calls, i) && Enforced(p, calls, k))
  {
    var ops := BrokerOps(calls);
    if Enforced(p, calls, i) {
      NoSecondAcceptance(p, ops, i, k, RETENTION_MS);
    }
  }

  /** The bytes decode to the verdict or are its encoding. */
  predicate Carries(bytes: seq<U8>, v: Verdict) {
    FromSlice(bytes) == Ok(v) || bytes == Encode(v)
  }

  /** Hence no byte frame is enforced twice, whatever its bytes, and a frame and the
      verdict it carries cannot both be: the bytes and the verdict determine each other. */
  lemma {:induction false} FrameEnforcedOnce(p: Policy, calls: seq<Call>, i: nat, k: nat)
    requires 0 <= i < |calls| && 0 <= k < |calls| && i != k && calls[i].Frame?
    requires match calls[k]
             case Frame(bytes, _) => bytes == calls[i].bytes
             case InMemory(v, _) => Carries(calls[i].bytes, v)
    requires ClockRegressesAtMost(BrokerOps(calls), RETENTION_MS)
    requires FromSlice(calls[i].bytes).Ok? ==> FromSlice(calls[i].bytes).value.expiresAt + RETENTION_MS < TWO_64
    ensures !(Enforced(p, calls, i) && Enforced(p, calls, k))
  {
    if Enforced(p, calls, i) {
      SameVerdict(calls[i], calls[k]);
      if i < k {
        VerdictEnforcedOnce(p, calls, i, k);
      } else {
        VerdictEnforcedOnce(p, calls, k, i);
      }
    }
  }

  lemma SameVerdict(a: Call, b: Call)
    requires a.Frame? && FromSlice(a.bytes).Ok?
    requires match b case Frame(bytes, _) => bytes == a.bytes case InMemory(v, _) => Carries(a.bytes, v)
    ensures BrokerOp(b).Submit? && BrokerOp(b).v == BrokerOp(a).v
  {
    EncodeOfDecode(a.bytes);
    if b.InMemory? && a.bytes == Encode(b.verdict) {
      EncodeInjective(b.verdict, FromSlice(a.bytes).value);
    }
  }
}

/**
  The retry loop of a request: choose a node, gate on its health, send, and then retry, finish or
  fail. The loop is cut at its `await`s into three pieces, which the sequential run and the
  interleaved system share.
 */
module Execution {
  import opened Wrappers
  import opened Arith
  import opened Nodes

  type AccountId = nat
  type NodeId = nat

  // ---- what the network answers ----

  /** A rejected call: a gRPC status, an HTTP failure, or anything else (such as a missed deadline). */
  datatype TransportError = Grpc(code: nat, rstStream: bool) | Http(status: nat) | Other(message: string)

  /** `_shouldRetryExceptionally`, for the two kinds of error it is asked about. */
  predicate Retryable(error: TransportError) {
    match error
    case Grpc(code, rstStream) => code == 17 || code == 14 || code == 8 || code == 18 || (code == 13 && rstStream)
    case Http(_) => true
    case Other(_) => false
  }

  datatype Status = StatusOk | StatusSuccess | StatusOther(code: nat)

  datatype Verdict = Retry | Finished | Failed

  datatype Reply = TransportFailure(error: TransportError) | Response(status: Status, verdict: Verdict, output: int)

  /** The last error kept for the message of a run that is out of attempts. */
  datatype Problem = NoProblem | TransportProblem(error: TransportError) | StatusProblem(status: Status)

  datatype Outcome =
    | Output(value: int)
    | StatusError(status: Status)
    | Thrown(error: TransportError)
    | AllUnhealthy(position: nat)
    | TimedOut
    | NoHealthyNode
    | NoValidNodes
    | MaxAttempts(last: Problem)

  // ---- the request ----

  datatype Config = Config(maxAttempts: nat, startTime: real, requestTimeout: Option<real>, allowed: set<AccountId>)

  /** The node account IDs with their round-robin index, the attempt number and the last error. */
  datatype Request = Request(list: seq<AccountId>, index: nat, attempt: nat, last: Problem)

  predicate ValidRequest(r: Request) { r.list != [] ==> r.index < |r.list| }

  function Advance(r: Request): Request
    requires r.list != []
  {
    r.(index := (r.index + 1) % |r.list|)
  }

  function NextAttempt(r: Request): Request { r.(attempt := r.attempt + 1) }

  /** Before the loop: with node IDs on the transaction, at least one must be on the list. */
  predicate HasValidNodes(cfg: Config, list: seq<AccountId>) {
    cfg.allowed == {} || exists i :: 0 <= i < |list| && list[i] in cfg.allowed
  }

  lemma NoValidNodesIff(cfg: Config, list: seq<AccountId>)
    ensures !HasValidNodes(cfg, list) <==> cfg.allowed != {} && forall a :: a in list ==> a !in cfg.allowed
  {
  }

  // ---- first piece: from the loop head to the request being made ----

  datatype Top = TopStop(outcome: Outcome) | TopSkip(request: Request, position: nat) | TopGate(request: Request)

  function AtTop(cfg: Config, r: Request, now: real, fallback: Option<AccountId>): (t: Top)
    requires ValidRequest(r)
    ensures t.TopSkip? || t.TopGate? ==> ValidRequest(t.request) && t.request.list != []
    ensures t.TopSkip? || t.TopGate? ==> r.attempt <= cfg.maxAttempts
  {
    if r.attempt > cfg.maxAttempts then TopStop(MaxAttempts(r.last))
    else if cfg.requestTimeout.Some? && cfg.startTime + cfg.requestTimeout.value <= now then TopStop(TimedOut)
    else if r.list == [] && fallback.None? then TopStop(NoHealthyNode)
    else
      var q := if r.list == [] then r.(list := [fallback.value], index := 0) else r;
      if cfg.allowed != {} && q.list[q.index] !in cfg.allowed then TopSkip(NextAttempt(Advance(q)), q.index)
      else TopGate(q)
  }

  // ---- second piece: the health gate and the send, with no await in between ----

  datatype Gate = GateStop(outcome: Outcome) | GateSkip(request: Request) | GateSend(request: Request)

  function AtGate(r: Request, healthy: bool): Gate
    requires ValidRequest(r) && r.list != []
  {
    if healthy then GateSend(Advance(r))
    else if r.index == |r.list| - 1 || |r.list| <= 1 then GateStop(AllUnhealthy(r.index))
    else GateSkip(NextAttempt(Advance(r)))
  }

  // ---- third piece: the answer ----

  datatype Answer = Stop(request: Request, outcome: Outcome) | Again(request: Request, delay: bool)

  function AtReply(r: Request, reply: Reply): Answer {
    match reply
    case TransportFailure(error) =>
      var q := r.(last := TransportProblem(error));
      if Retryable(error) then Again(NextAttempt(q), false) else Stop(q, Thrown(error))
    case Response(status, verdict, output) =>
      var q := if status.StatusOther? then r.(last := StatusProblem(status)) else r;
      match verdict
      case Retry => Again(NextAttempt(q), true)
      case Finished => Stop(q, Output(output))
      case Failed => Stop(q, StatusError(status))
  }

  function NodeAfter(n: NodeState, reply: Reply, now: real): NodeState {
    match reply
    case TransportFailure(error) => if Retryable(error) then Increased(n, now) else n
    case Response(_, _, _) => Decreased(n)
  }

  /** The errors a request is tried again after, by the names of the gRPC status codes. */
  lemma RetryableErrors(error: TransportError)
    ensures var ResourceExhausted, Internal, Unavailable, Timeout, GrpcWeb := 8, 13, 14, 17, 18;
      Retryable(error) <==>
        || error.Http?
        || (error.Grpc? && error.code in {ResourceExhausted, Unavailable, Timeout, GrpcWeb})
        || (error.Grpc? && error.code == Internal && error.rstStream)
  {
  }

  /** Only an answer to be retried is waited after, and only a finished one gives an output. */
  lemma AfterReply(r: Request, reply: Reply)
    ensures AtReply(r, reply).Again? && AtReply(r, reply).delay <==> reply.Response? && reply.verdict == Retry
    ensures AtReply(r, reply).Again? && !AtReply(r, reply).delay <==> reply.TransportFailure? && Retryable(reply.error)
  {
  }

  /** `delayForAttempt`. */
  function Delay(isLocalNode: bool, attempt: nat, minBackoff: real, maxBackoff: real): real {
    if isLocalNode then minBackoff
    else Min(TimesPower2(minBackoff, attempt).Floor as real, maxBackoff)
  }

  /** A local node is always given the minimum, whatever the attempt and the maximum. */
  lemma DelayLocal(attempt: nat, minBackoff: real, maxBackoff: real)
    ensures Delay(true, attempt, minBackoff, maxBackoff) == minBackoff
  {
  }

  lemma DelayFloor(attempt: nat, minBackoff: real, maxBackoff: real)
    ensures Delay(false, attempt, minBackoff, maxBackoff) == Min(Doubled(minBackoff, attempt).Floor as real, maxBackoff)
  {
    DoubledIsPower(minBackoff, attempt);
  }

  lemma FloorMonotone(x: real, y: real)
    requires x <= y
    ensures x.Floor <= y.Floor
  {
  }

  /** The wait never shrinks from one attempt to the next and never exceeds the maximum. */
  lemma DelayGrows(attempt: nat, minBackoff: real, maxBackoff: real)
    requires minBackoff >= 0.0
    ensures Delay(false, attempt, minBackoff, maxBackoff) <= Delay(false, attempt + 1, minBackoff, maxBackoff)
    ensures Delay(false, attempt, minBackoff, maxBackoff) <= maxBackoff
  {
    DelayFloor(attempt, minBackoff, maxBackoff);
    DelayFloor(attempt + 1, minBackoff, maxBackoff);
    DoubledGrows(minBackoff, attempt);
    FloorMonotone(Doubled(minBackoff, attempt), Doubled(minBackoff, attempt + 1));
  }

  lemma {:induction false} DoubledWhole(b: real, k: nat)
    requires b.Floor as real == b
    ensures Doubled(b, k).Floor as real == Doubled(b, k)
  {
    if k > 0 {
      DoubledWhole(b, k - 1);
      assert Doubled(b, k) == (2 * Doubled(b, k - 1).Floor) as real;
    }
  }

  /** For a whole number of milliseconds it is that number doubled once per attempt, cut at the maximum. */
  lemma DelayDoubles(attempt: nat, minBackoff: real, maxBackoff: real)
    requires minBackoff.Floor as real == minBackoff
    ensures Delay(false, attempt, minBackoff, maxBackoff) == DoubledUpTo(minBackoff, attempt, maxBackoff)
  {
    DelayFloor(attempt, minBackoff, maxBackoff);
    DoubledWhole(minBackoff, attempt);
  }

  // ---- one iteration, and a whole run with nobody else using the nodes ----

  /**
    What the world contributes to one iteration: clock readings at the loop head, at the gate and
    when the answer is handled; the node picked among the account's addresses, or for an account the
    network does not know, anywhere; the account picked when the list is empty; the answer.
   */
  datatype World = World(start: real, fallback: Option<AccountId>, node: NodeId, gate: real, reply: Reply, done: real)

  datatype Event =
    | NotAllowed(position: nat)
    | Unhealthy(position: nat, node: NodeId, time: real)
    | Sent(position: nat, node: NodeId, time: real, reply: Reply, done: real, backoff: real)

  type NodeMap = map<NodeId, NodeState>

  datatype Iteration =
    | Over(events: seq<Event>, nodes: NodeMap, outcome: Outcome)
    | Next(event: Event, nodes: NodeMap, request: Request)

  /** What the answer to a request sent from the given list position does. */
  function Handled(q: Request, position: nat, nodes: NodeMap, w: World): (it: Iteration)
    requires w.node in nodes
    ensures it.nodes.Keys == nodes.Keys
    ensures it.Next? ==> it.request == q.(attempt := q.attempt + 1, last := it.request.last)
    ensures it.Next? ==> it.event.position == position
  {
    var n := NodeAfter(nodes[w.node], w.reply, w.done);
    var event := Sent(position, w.node, w.gate, w.reply, w.done, n.currentBackoff);
    match AtReply(q, w.reply)
    case Stop(_, outcome) => Over([event], nodes[w.node := n], outcome)
    case Again(next, _) => Next(event, nodes[w.node := n], next)
  }

  /** The health gate on the node picked for the request's current account, and the rest of the iteration. */
  function GateAndSend(q: Request, nodes: NodeMap, w: World): (it: Iteration)
    requires ValidRequest(q) && q.list != [] && w.node in nodes
    ensures it.nodes.Keys == nodes.Keys
    ensures it.Next? ==> it.request == Advance(q).(attempt := q.attempt + 1, last := it.request.last)
    ensures it.Next? ==> ValidRequest(it.request) && it.event.position == q.index
  {
    var used := nodes[w.node := Used(nodes[w.node])];
    match AtGate(q, Healthy(used[w.node], w.gate))
    case GateStop(outcome) => Over([], used, outcome)
    case GateSkip(q') => Next(Unhealthy(q.index, w.node, w.gate), used, q')
    case GateSend(q') => Handled(q', q.index, used, w)
  }

  function Iterate(cfg: Config, r: Request, nodes: NodeMap, w: World): (it: Iteration)
    requires ValidRequest(r) && w.node in nodes
    ensures it.nodes.Keys == nodes.Keys
    ensures it.Next? ==> ValidRequest(it.request) && it.request.attempt == r.attempt + 1 && r.attempt <= cfg.maxAttempts
    ensures it.Next? && r.list != [] ==> it.request == Advance(r).(attempt := r.attempt + 1, last := it.request.last)
    ensures it.Next? && r.list != [] ==> it.event.position == r.index
  {
    match AtTop(cfg, r, w.start, w.fallback)
    case TopStop(outcome) => Over([], nodes, outcome)
    case TopSkip(q, position) => Next(NotAllowed(position), nodes, q)
    case TopGate(q) => GateAndSend(q, nodes, w)
  }

  datatype Run = Run(trace: seq<Event>, nodes: NodeMap, outcome: Outcome)

  /** What the world contributes to the iterations, by attempt number. */
  ghost predicate ValidWorld(world: nat -> World, nodes: NodeMap) {
    && (forall i: nat :: world(i).node in nodes)
    && (forall i: nat :: world(i).start <= world(i).gate <= world(i).done <= world(i + 1).start)
  }

  ghost function RunFrom(cfg: Config, r: Request, nodes: NodeMap, world: nat -> World): Run
    requires ValidRequest(r) && ValidWorld(world, nodes)
    decreases if r.attempt <= cfg.maxAttempts then cfg.maxAttempts + 1 - r.attempt else 0
  {
    match Iterate(cfg, r, nodes, world(r.attempt))
    case Over(events, after, outcome) => Run(events, after, outcome)
    case Next(event, after, q) =>
      var rest := RunFrom(cfg, q, after, world);
      rest.(trace := [event] + rest.trace)
  }

  function Prepend(trace: seq<Event>, run: Run): Run { run.(trace := trace + run.trace) }

  /** One turn of the loop moves the iteration's events to the end of the trace so far. */
  lemma TurnOver(cfg: Config, r: Request, nodes: NodeMap, world: nat -> World, trace: seq<Event>)
    requires ValidRequest(r) && ValidWorld(world, nodes)
    ensures var it := Iterate(cfg, r, nodes, world(r.attempt));
      it.Over? ==> Prepend(trace, RunFrom(cfg, r, nodes, world)) == Run(trace + it.events, it.nodes, it.outcome)
    ensures var it := Iterate(cfg, r, nodes, world(r.attempt));
      it.Next? ==>
        Prepend(trace, RunFrom(cfg, r, nodes, world))
        == Prepend(trace + [it.event], RunFrom(cfg, it.request, it.nodes, world))
  {
    var it := Iterate(cfg, r, nodes, world(r.attempt));
    if it.Next? {
      var rest := RunFrom(cfg, it.request, it.nodes, world);
      assert trace + ([it.event] + rest.trace) == trace + [it.event] + rest.trace;
    }
  }

  // ---- the loop itself ----

  /** The nodes of a client, all different objects. */
  class Network {
    var nodes: map<NodeId, ManagedNode>

    constructor (nodes: map<NodeId, ManagedNode>)
      ensures this.nodes == nodes
    {
      this.nodes := nodes;
    }

    ghost predicate Valid()
      reads this
    {
      forall i, j :: i in nodes && j in nodes && i != j ==> nodes[i] != nodes[j]
    }

    ghost function States(): NodeMap
      reads this, nodes.Values
    {
      map i | i in nodes :: nodes[i].State()
    }

    method IncreaseBackoff(id: NodeId, now: real)
      requires Valid() && id in nodes
      modifies nodes[id]
      ensures States() == old(States())[id := Increased(old(States())[id], now)]
    {
      nodes[id].IncreaseBackoff(now);
    }

    method DecreaseBackoff(id: NodeId)
      requires Valid() && id in nodes
      modifies nodes[id]
      ensures States() == old(States())[id := Decreased(old(States())[id])]
    {
      nodes[id].DecreaseBackoff();
    }

    /** `getChannel`, and after the request has been made, `isHealthy`. */
    method UseNode(id: NodeId, now: real) returns (healthy: bool)
      requires Valid() && id in nodes
      modifies nodes[id]
      ensures States() == old(States())[id := Used(old(States())[id])]
      ensures healthy == Healthy(States()[id], now)
    {
      nodes[id].GetChannel();
      healthy := nodes[id].IsHealthy(now);
    }
  }

  class Executable {
    var list: seq<AccountId>
    var index: nat

    constructor (list: seq<AccountId>)
      ensures this.list == list && index == 0
    {
      this.list, index := list, 0;
    }

    method AdvanceIndex()
      requires list != []
      modifies this`index
      ensures index == (old(index) + 1) % |list|
    {
      index := (index + 1) % |list|;
    }

    /** Whether an iteration did what its specification says. */
    ghost predicate Did(it: Iteration, nodes: NodeMap, attempt: nat, outcome: Option<Outcome>, last: Problem,
                        events: seq<Event>)
      reads this
    {
      && nodes == it.nodes
      && (it.Over? ==> events == it.events && outcome == Some(it.outcome))
      && (it.Next? ==> events == [it.event] && outcome == None && it.request == Request(list, index, attempt + 1, last))
    }

    /** The catch block and the switch on the execution state. */
    method HandleReply(network: Network, w: World, attempt: nat, persistentError: Problem, ghost position: nat)
      returns (outcome: Option<Outcome>, last: Problem, ghost events: seq<Event>)
      requires network.Valid() && w.node in network.nodes
      modifies network.nodes.Values
      ensures Did(Handled(Request(list, index, attempt, persistentError), position, old(network.States()), w),
                  network.States(), attempt, outcome, last, events)
    {
      outcome, last := None, persistentError;
      match w.reply
      case TransportFailure(error) =>
        last := TransportProblem(error);
        if Retryable(error) {
          network.IncreaseBackoff(w.node, w.done);
        } else {
          outcome := Some(Thrown(error));
        }
        events := [Sent(position, w.node, w.gate, w.reply, w.done, network.States()[w.node].currentBackoff)];
      case Response(status, verdict, output) =>
        network.DecreaseBackoff(w.node);
        if status.StatusOther? {
          last := StatusProblem(status);
        }
        match verdict {
          case Retry =>
          case Finished =>
            outcome := Some(Output(output));
          case Failed =>
            outcome := Some(StatusError(status));
        }
        events := [Sent(position, w.node, w.gate, w.reply, w.done, network.States()[w.node].currentBackoff)];
    }

    /** The health gate: None lets the request pass, with the index moved on. */
    method PassGate(attempt: nat, persistentError: Problem, healthy: bool) returns (stop: Option<Outcome>)
      requires list != [] && index < |list|
      modifies this`index
      ensures index < |list|
      ensures match AtGate(Request(list, old(index), attempt, persistentError), healthy)
        case GateStop(o) => stop == Some(o) && index == old(index)
        case GateSkip(q) => stop == None && q == Request(list, index, attempt + 1, persistentError)
        case GateSend(q) => stop == None && q == Request(list, index, attempt, persistentError)
    {
      if !healthy && (index == |list| - 1 || |list| <= 1) {
        return Some(AllUnhealthy(index));
      }
      AdvanceIndex();
      stop := None;
    }

    method TryNode(network: Network, w: World, attempt: nat, persistentError: Problem)
      returns (outcome: Option<Outcome>, last: Problem, ghost events: seq<Event>)
      requires network.Valid() && w.node in network.nodes && list != [] && index < |list|
      modifies this`index, network.nodes.Values
      ensures index < |list|
      ensures Did(GateAndSend(Request(list, old(index), attempt, persistentError), old(network.States()), w),
                  network.States(), attempt, outcome, last, events)
    {
      ghost var position := index;
      last, events := persistentError, [];
      var healthy := network.UseNode(w.node, w.gate);
      outcome := PassGate(attempt, persistentError, healthy);
      if outcome == None {
        if healthy {
          outcome, last, events := HandleReply(network, w, attempt, persistentError, position);
        } else {
          events := [Unhealthy(position, w.node, w.gate)];
        }
      }
    }

    /** From the loop head to the choice of a node. */
    method LoopHead(cfg: Config, w: World, attempt: nat, persistentError: Problem)
      returns (outcome: Option<Outcome>, skipped: bool)
      requires attempt <= cfg.maxAttempts && (list != [] ==> index < |list|)
      modifies this
      ensures list != [] ==> index < |list|
      ensures match AtTop(cfg, Request(old(list), old(index), attempt, persistentError), w.start, w.fallback)
        case TopStop(o) => outcome == Some(o)
        case TopSkip(q, _) => outcome == None && skipped && q == Request(list, index, attempt + 1, persistentError)
        case TopGate(q) => outcome == None && !skipped && q == Request(list, index, attempt, persistentError)
    {
      outcome, skipped := None, false;
      if cfg.requestTimeout.Some? && cfg.startTime + cfg.requestTimeout.value <= w.start {
        return Some(TimedOut), false;
      }
      if list == [] {
        if w.fallback.None? {
          return Some(NoHealthyNode), false;
        }
        list, index := [w.fallback.value], 0;
      }
      if cfg.allowed != {} && list[index] !in cfg.allowed {
        AdvanceIndex();
        skipped := true;
      }
    }

    /** The body of the loop: Some outcome ends the run, None continues it. */
    method Attempt(cfg: Config, network: Network, w: World, attempt: nat, persistentError: Problem)
      returns (outcome: Option<Outcome>, last: Problem, ghost events: seq<Event>)
      requires network.Valid() && w.node in network.nodes && attempt <= cfg.maxAttempts
      requires list != [] ==> index < |list|
      modifies this, network.nodes.Values
      ensures list != [] ==> index < |list|
      ensures Did(Iterate(cfg, Request(old(list), old(index), attempt, persistentError), old(network.States()), w),
                  network.States(), attempt, outcome, last, events)
    {
      var skipped: bool;
      ghost var top := AtTop(cfg, Request(list, index, attempt, persistentError), w.start, w.fallback);
      last := persistentError;
      outcome, skipped := LoopHead(cfg, w, attempt, persistentError);
      if outcome.Some? {
        events := [];
      } else if skipped {
        events := [NotAllowed(top.position)];
      } else {
        outcome, last, events := TryNode(network, w, attempt, persistentError);
      }
    }

    /** The loop of `execute`. The ghost trace records what each iteration did. */
    method Execute(cfg: Config, network: Network, world: nat -> World)
      returns (outcome: Outcome, ghost trace: seq<Event>)
      requires network.Valid() && ValidWorld(world, network.States())
      requires list != [] ==> index < |list|
      modifies this, network.nodes.Values
      ensures list != [] ==> index < |list|
      ensures HasValidNodes(cfg, old(list)) ==>
        Run(trace, network.States(), outcome)
        == RunFrom(cfg, Request(old(list), old(index), 1, NoProblem), old(network.States()), world)
      ensures !HasValidNodes(cfg, old(list)) ==>
        outcome == NoValidNodes && trace == [] && network.States() == old(network.States())
    {
      trace := [];
      if !HasValidNodes(cfg, list) {
        return NoValidNodes, [];
      }
      var persistentError := NoProblem;
      ghost var r, nodes := Request(list, index, 1, NoProblem), network.States();
      ghost var whole := RunFrom(cfg, r, nodes, world);
      assert Prepend([], whole) == whole;
      var attempt: nat := 1;
      while attempt <= cfg.maxAttempts
        invariant r == Request(list, index, attempt, persistentError) && ValidRequest(r)
        invariant network.Valid() && nodes == network.States() && ValidWorld(world, nodes)
        invariant whole == Prepend(trace, RunFrom(cfg, r, nodes, world))
        decreases cfg.maxAttempts + 1 - attempt
      {
        TurnOver(cfg, r, nodes, world, trace);
        ghost var events;
        var ended: Option<Outcome>;
        ended, persistentError, events := Attempt(cfg, network, world(attempt), attempt, persistentError);
        trace := trace + events;
        if ended.Some? {
          return ended.value, trace;
        }
        attempt := attempt + 1;
        r, nodes := Request(list, index, attempt, persistentError), network.States();
      }
      outcome := MaxAttempts(persistentError);
      TurnOver(cfg, r, nodes, world, trace);
      assert trace + [] == trace;
    }
  }
}

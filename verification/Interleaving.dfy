/**
  Any number of requests executing at once on one client, sharing its nodes. Control changes hands
  only at the `await`s, so one step of this system is one of the three pieces of the retry loop.
 */
module Interleaving {
  import opened Wrappers
  import opened Nodes
  import opened Execution

  // ---- the system ----

  /** Where an execution stands: at the loop head, making its request, waiting for a node, done. */
  datatype Pc = AtHead | Making(node: NodeId) | Waiting(node: NodeId, sentAt: real) | Done(outcome: Outcome)

  datatype Process = Process(cfg: Config, request: Request, pc: Pc)

  /** The history: who sent what where, and everything that happened to a node. */
  datatype Entry = Send(process: nat, node: NodeId, at: real) | Affected(node: NodeId, event: NodeEvent)

  datatype System = System(nodes: NodeMap, processes: seq<Process>, now: real, log: seq<Entry>)

  /** What happens next. The node an execution is given for its account is up to the network. */
  datatype Label =
    | Tick(elapsed: real)
    | Head(process: nat, fallback: Option<AccountId>, node: NodeId)
    | Gate(process: nat)
    | Answer(process: nat, reply: Reply)
    | SetMinBackoff(node: NodeId, minBackoff: real)

  predicate Enabled(s: System, l: Label) {
    match l
    case Tick(elapsed) => elapsed >= 0.0
    case Head(i, _, node) => i < |s.processes| && s.processes[i].pc.AtHead? && node in s.nodes
    case Gate(i) => i < |s.processes| && s.processes[i].pc.Making?
    case Answer(i, _) => i < |s.processes| && s.processes[i].pc.Waiting?
    case SetMinBackoff(node, m) => node in s.nodes && 0.0 <= m <= s.nodes[node].maxBackoff
  }

  predicate WellFormed(s: System) {
    forall i :: 0 <= i < |s.processes| ==>
      var p := s.processes[i];
      && ValidRequest(p.request)
      && (p.pc.Making? ==> p.request.list != [] && p.pc.node in s.nodes)
      && (p.pc.Waiting? ==> p.pc.node in s.nodes)
  }

  function AfterHead(p: Process, now: real, fallback: Option<AccountId>, node: NodeId): Process
    requires ValidRequest(p.request)
  {
    match AtTop(p.cfg, p.request, now, fallback)
    case TopStop(outcome) => p.(pc := Done(outcome))
    case TopSkip(q, _) => p.(request := q)
    case TopGate(q) => p.(request := q, pc := Making(node))
  }

  function AfterGate(p: Process, healthy: bool, now: real): Process
    requires ValidRequest(p.request) && p.request.list != [] && p.pc.Making?
  {
    match AtGate(p.request, healthy)
    case GateStop(outcome) => p.(pc := Done(outcome))
    case GateSkip(q) => p.(request := q, pc := AtHead)
    case GateSend(q) => p.(request := q, pc := Waiting(p.pc.node, now))
  }

  function AfterAnswer(p: Process, reply: Reply): Process {
    match AtReply(p.request, reply)
    case Stop(q, outcome) => p.(request := q, pc := Done(outcome))
    case Again(q, _) => p.(request := q, pc := AtHead)
  }

  predicate RetryableFailure(reply: Reply) { reply.TransportFailure? && Retryable(reply.error) }

  function Step(s: System, l: Label): System
    requires WellFormed(s) && Enabled(s, l)
  {
    match l
    case Tick(elapsed) => s.(now := s.now + elapsed)
    case Head(i, fallback, node) =>
      var p := AfterHead(s.processes[i], s.now, fallback, node);
      s.(processes := s.processes[i := p],
         nodes := if p.pc.Making? then s.nodes[node := Used(s.nodes[node])] else s.nodes,
         log := if p.pc.Making? then s.log + [Affected(node, Use)] else s.log)
    case Gate(i) =>
      var node := s.processes[i].pc.node;
      var p := AfterGate(s.processes[i], Healthy(s.nodes[node], s.now), s.now);
      s.(processes := s.processes[i := p], log := if p.pc.Waiting? then s.log + [Send(i, node, s.now)] else s.log)
    case Answer(i, reply) =>
      var node := s.processes[i].pc.node;
      s.(processes := s.processes[i := AfterAnswer(s.processes[i], reply)],
         nodes := s.nodes[node := NodeAfter(s.nodes[node], reply, s.now)],
         log := if reply.Response? then s.log + [Affected(node, Success)]
                else if Retryable(reply.error) then s.log + [Affected(node, Failure(s.now))]
                else s.log)
    case SetMinBackoff(node, m) =>
      s.(nodes := s.nodes[node := WithMin(s.nodes[node], m)], log := s.log + [Affected(node, SetMin(m))])
  }

  /** Any schedule: at each point any enabled label, in any order. */
  predicate IsRun(s: System, labels: seq<Label>)
    requires WellFormed(s)
    decreases |labels|
  {
    labels == [] || (Enabled(s, labels[0]) && WellFormed(Step(s, labels[0])) && IsRun(Step(s, labels[0]), labels[1..]))
  }

  function Execute(s: System, labels: seq<Label>): System
    requires WellFormed(s) && IsRun(s, labels)
    decreases |labels|
  {
    if labels == [] then s else Execute(Step(s, labels[0]), labels[1..])
  }

  /** A run may be continued by another from where it ends. */
  lemma {:induction false} RunConcat(s: System, first: seq<Label>, second: seq<Label>)
    requires WellFormed(s) && IsRun(s, first)
    requires WellFormed(Execute(s, first)) && IsRun(Execute(s, first), second)
    ensures IsRun(s, first + second) && Execute(s, first + second) == Execute(Execute(s, first), second)
    decreases |first|
  {
    if first == [] {
      assert first + second == second;
    } else {
      RunConcat(Step(s, first[0]), first[1..], second);
      assert (first + second)[1..] == first[1..] + second;
    }
  }

  lemma {:induction false} RunWellFormed(s: System, labels: seq<Label>)
    requires WellFormed(s) && IsRun(s, labels)
    ensures WellFormed(Execute(s, labels))
    decreases |labels|
  {
    if labels != [] { RunWellFormed(Step(s, labels[0]), labels[1..]); }
  }

  /** The labels are a run from s to t. */
  predicate Reaches(s: System, labels: seq<Label>, t: System)
    requires WellFormed(s)
  {
    IsRun(s, labels) && Execute(s, labels) == t && WellFormed(t)
  }

  /** One more step. */
  lemma Then(s: System, labels: seq<Label>, t: System, l: Label)
    requires WellFormed(s) && Reaches(s, labels, t) && Enabled(t, l)
    ensures Reaches(s, labels + [l], Step(t, l))
  {
    StepWellFormed(t, l);
    RunConcat(s, labels, [l]);
  }

  /** Executions about to start on nodes in any consistent state. */
  predicate Initial(s: System) {
    && WellFormed(s) && s.log == []
    && (forall n :: n in s.nodes ==> Bounded(s.nodes[n]))
    && (forall i :: 0 <= i < |s.processes| ==> s.processes[i].pc.AtHead? && s.processes[i].request.attempt == 1)
  }

  lemma StepWellFormed(s: System, l: Label)
    requires WellFormed(s) && Enabled(s, l)
    ensures WellFormed(Step(s, l)) && Step(s, l).nodes.Keys == s.nodes.Keys
    ensures |Step(s, l).processes| == |s.processes|
  {
  }

  // ---- what every reachable state keeps ----

  /** What the log says happened to a node, by whichever execution. */
  function HistoryOn(log: seq<Entry>, node: NodeId): seq<NodeEvent> {
    if log == [] then []
    else
      var e := log[|log| - 1];
      HistoryOn(log[..|log| - 1], node) + if e.Affected? && e.node == node then [e.event] else []
  }

  /** The state a node's history leads to. */
  function NodeAt(start: NodeMap, log: seq<Entry>, node: NodeId): NodeState
    requires node in start
  {
    AfterAll(start[node], HistoryOn(log, node))
  }

  /** Every send was at or after the readmit time that all failures and successes before it, by anyone, had led to. */
  predicate SendsGated(log: seq<Entry>, start: NodeMap) {
    forall k :: 0 <= k < |log| && log[k].Send? ==> SendGated(log, start, k)
  }

  predicate SendGated(log: seq<Entry>, start: NodeMap, k: nat)
    requires k < |log| && log[k].Send?
  {
    log[k].node in start && log[k].at >= NodeAt(start, log[..k], log[k].node).readmitTime
  }

  predicate Consistent(s: System, start: NodeMap) {
    && WellFormed(s) && s.nodes.Keys == start.Keys
    && (forall n :: n in s.nodes ==> Bounded(s.nodes[n]) && s.nodes[n].maxBackoff == start[n].maxBackoff)
    && (forall n :: n in s.nodes ==> s.nodes[n] == NodeAt(start, s.log, n))
    && SendsGated(s.log, start)
  }

  lemma GatedSnoc(log: seq<Entry>, e: Entry, start: NodeMap)
    requires SendsGated(log, start)
    requires e.Send? ==> e.node in start && e.at >= NodeAt(start, log, e.node).readmitTime
    ensures SendsGated(log + [e], start)
  {
    var t := log + [e];
    forall k | 0 <= k < |t| && t[k].Send? ensures SendGated(t, start, k) {
      if k < |log| {
        assert t[..k] == log[..k] && SendGated(log, start, k);
      } else {
        assert t[..k] == log;
      }
    }
  }

  lemma NodeAtSnoc(start: NodeMap, log: seq<Entry>, e: Entry, node: NodeId)
    requires node in start
    ensures NodeAt(start, log + [e], node) ==
      if e.Affected? && e.node == node then After(NodeAt(start, log, node), e.event) else NodeAt(start, log, node)
  {
    var h := HistoryOn(log, node);
    assert (log + [e])[..|log|] == log;
    if e.Affected? && e.node == node {
      assert (h + [e.event])[..|h|] == h;
    } else {
      assert h + [] == h;
    }
  }

  /** A step adds at most one entry, and that entry explains what became of the nodes. */
  lemma StepLogs(s: System, l: Label)
    requires WellFormed(s) && Enabled(s, l)
    ensures var t := Step(s, l);
      || (t.log == s.log && t.nodes == s.nodes)
      || (|t.log| == |s.log| + 1 && var e := t.log[|s.log|]; t.log == s.log + [e] && e.node in s.nodes && match e
          case Send(i, node, at) => t.nodes == s.nodes && at == s.now && Healthy(s.nodes[node], at)
          case Affected(node, event) => t.nodes == s.nodes[node := After(s.nodes[node], event)])
    ensures Step(s, l).nodes.Keys == s.nodes.Keys
  {
    match l
    case Answer(i, reply) =>
      var node := s.processes[i].pc.node;
      assert s.nodes[node := s.nodes[node]] == s.nodes;
    case _ =>
  }

  lemma EntryConsistent(s: System, t: System, e: Entry, start: NodeMap)
    requires Consistent(s, start) && t.log == s.log + [e] && e.node in s.nodes && t.nodes.Keys == s.nodes.Keys
    requires e.Send? ==> t.nodes == s.nodes && Healthy(s.nodes[e.node], e.at)
    requires e.Affected? ==> t.nodes == s.nodes[e.node := After(s.nodes[e.node], e.event)]
    ensures SendsGated(t.log, start)
    ensures forall n :: n in t.nodes ==> t.nodes[n] == NodeAt(start, t.log, n)
  {
    assert s.nodes[e.node] == NodeAt(start, s.log, e.node);
    GatedSnoc(s.log, e, start);
    forall n | n in t.nodes ensures t.nodes[n] == NodeAt(start, t.log, n) {
      NodeAtSnoc(start, s.log, e, n);
    }
  }

  lemma StepConsistent(s: System, l: Label, start: NodeMap)
    requires Consistent(s, start) && Enabled(s, l)
    ensures Consistent(Step(s, l), start)
  {
    StepWellFormed(s, l);
    StepLogs(s, l);
    StepBounded(s, l);
    if Step(s, l).log != s.log { EntryConsistent(s, Step(s, l), Step(s, l).log[|s.log|], start); }
  }

  lemma StepBounded(s: System, l: Label)
    requires WellFormed(s) && Enabled(s, l) && forall n :: n in s.nodes ==> Bounded(s.nodes[n])
    ensures var t := Step(s, l);
      forall n :: n in t.nodes ==> Bounded(t.nodes[n]) && n in s.nodes && t.nodes[n].maxBackoff == s.nodes[n].maxBackoff
  {
  }

  lemma {:induction false} RunConsistent(s: System, labels: seq<Label>, start: NodeMap)
    requires Consistent(s, start) && IsRun(s, labels)
    ensures Consistent(Execute(s, labels), start)
    decreases |labels|
  {
    if labels != [] {
      StepConsistent(s, labels[0], start);
      RunConsistent(Step(s, labels[0]), labels[1..], start);
    }
  }

  /**
    In every interleaving of any number of executions, every request is sent at or after its node's
    readmit time at that moment, as all earlier failures and successes on that node, by any execution,
    have left it; every node's state is what its history leads to; and every reachable state keeps each
    back-off between its minimum and its maximum.
   */
  lemma GatedInEveryInterleaving(s: System, labels: seq<Label>)
    requires Initial(s) && IsRun(s, labels)
    ensures var t := Execute(s, labels);
      && SendsGated(t.log, s.nodes)
      && t.nodes.Keys == s.nodes.Keys
      && (forall n :: n in t.nodes ==> Bounded(t.nodes[n]) && t.nodes[n] == NodeAt(s.nodes, t.log, n))
  {
    assert forall n :: n in s.nodes ==> HistoryOn([], n) == [] && AfterAll(s.nodes[n], []) == s.nodes[n];
    RunConsistent(s, labels, s.nodes);
  }

  // ---- attempts ----

  /** The sends of one execution. */
  function SendsOf(log: seq<Entry>, i: nat): nat {
    if log == [] then 0
    else SendsOf(log[..|log| - 1], i) + if log[|log| - 1].Send? && log[|log| - 1].process == i then 1 else 0
  }

  /** Each iteration sends at most once, and only the first maxAttempts iterations get that far. */
  predicate Budget(p: Process, sends: nat) {
    match p.pc
    case AtHead => sends + 1 <= p.request.attempt <= p.cfg.maxAttempts + 1
    case Making(_) => sends + 1 <= p.request.attempt <= p.cfg.maxAttempts
    case Waiting(_, _) => sends <= p.request.attempt <= p.cfg.maxAttempts
    case Done(_) => sends <= p.cfg.maxAttempts
  }

  predicate WithinBudget(s: System) {
    forall i :: 0 <= i < |s.processes| ==> Budget(s.processes[i], SendsOf(s.log, i))
  }

  lemma SendsSnoc(log: seq<Entry>, e: Entry, i: nat)
    ensures SendsOf(log + [e], i) == SendsOf(log, i) + if e.Send? && e.process == i then 1 else 0
  {
    assert (log + [e])[..|log|] == log;
  }

  lemma HeadBudget(p: Process, sends: nat, now: real, fallback: Option<AccountId>, node: NodeId)
    requires ValidRequest(p.request) && p.pc.AtHead? && Budget(p, sends)
    ensures Budget(AfterHead(p, now, fallback, node), sends)
  {
  }

  lemma GateBudget(p: Process, sends: nat, healthy: bool, now: real)
    requires ValidRequest(p.request) && p.request.list != [] && p.pc.Making? && Budget(p, sends)
    ensures Budget(AfterGate(p, healthy, now), sends + if AfterGate(p, healthy, now).pc.Waiting? then 1 else 0)
  {
  }

  lemma AnswerBudget(p: Process, sends: nat, reply: Reply)
    requires p.pc.Waiting? && Budget(p, sends)
    ensures Budget(AfterAnswer(p, reply), sends)
  {
  }

  lemma ProcessBudget(s: System, l: Label, i: nat)
    requires WellFormed(s) && Enabled(s, l) && i < |s.processes| && Budget(s.processes[i], SendsOf(s.log, i))
    ensures i < |Step(s, l).processes| && Budget(Step(s, l).processes[i], SendsOf(Step(s, l).log, i))
  {
    var p, sends := s.processes[i], SendsOf(s.log, i);
    match l
    case Head(k, fallback, node) =>
      SendsSnoc(s.log, Affected(node, Use), i);
      if k == i { HeadBudget(p, sends, s.now, fallback, node); }
    case Gate(k) =>
      SendsSnoc(s.log, Send(k, s.processes[k].pc.node, s.now), i);
      if k == i { GateBudget(p, sends, Healthy(s.nodes[p.pc.node], s.now), s.now); }
    case Answer(k, reply) =>
      SendsSnoc(s.log, Affected(s.processes[k].pc.node, Success), i);
      SendsSnoc(s.log, Affected(s.processes[k].pc.node, Failure(s.now)), i);
      if k == i { AnswerBudget(p, sends, reply); }
    case SetMinBackoff(node, m) =>
      SendsSnoc(s.log, Affected(node, SetMin(m)), i);
    case Tick(_) =>
  }

  lemma StepBudget(s: System, l: Label)
    requires WellFormed(s) && WithinBudget(s) && Enabled(s, l)
    ensures WithinBudget(Step(s, l))
  {
    StepWellFormed(s, l);
    forall i | 0 <= i < |s.processes| ensures Budget(Step(s, l).processes[i], SendsOf(Step(s, l).log, i)) {
      ProcessBudget(s, l, i);
    }
  }

  /** In every interleaving each execution sends at most maxAttempts times. */
  lemma {:induction false} SendsBounded(s: System, labels: seq<Label>, i: nat)
    requires WellFormed(s) && WithinBudget(s) && IsRun(s, labels) && i < |s.processes|
    ensures |Execute(s, labels).processes| == |s.processes|
    ensures SendsOf(Execute(s, labels).log, i) <= Execute(s, labels).processes[i].cfg.maxAttempts
    decreases |labels|
  {
    if labels != [] {
      StepBudget(s, labels[0]);
      StepWellFormed(s, labels[0]);
      SendsBounded(Step(s, labels[0]), labels[1..], i);
    } else {
      assert Budget(s.processes[i], SendsOf(s.log, i));
    }
  }

  /** In every interleaving, from the start, each execution sends at most maxAttempts times. */
  lemma SendsBoundedFromStart(s: System, labels: seq<Label>, i: nat)
    requires Initial(s) && IsRun(s, labels) && i < |s.processes|
    ensures |Execute(s, labels).processes| == |s.processes|
    ensures SendsOf(Execute(s, labels).log, i) <= Execute(s, labels).processes[i].cfg.maxAttempts
  {
    assert forall k :: SendsOf([], k) == 0;
    SendsBounded(s, labels, i);
  }

  // ---- when every failure is respected, and when only the latest is ----

  predicate WaitsFor(p: Process, node: NodeId) { p.pc.Waiting? && p.pc.node == node }

  /** How many requests to the node are in flight. */
  function InFlight(ps: seq<Process>, node: NodeId): nat {
    if ps == [] then 0 else InFlight(ps[..|ps| - 1], node) + if WaitsFor(ps[|ps| - 1], node) then 1 else 0
  }

  /** A run throughout which no node has more than k requests in flight. */
  predicate IsRunWithin(s: System, labels: seq<Label>, k: nat)
    requires WellFormed(s)
    decreases |labels|
  {
    && (forall n :: n in s.nodes ==> InFlight(s.processes, n) <= k)
    && (labels == [] || (Enabled(s, labels[0]) && WellFormed(Step(s, labels[0]))
                         && IsRunWithin(Step(s, labels[0]), labels[1..], k)))
  }

  /** The time until which the j-th entry, a failure, keeps its node out. */
  function OutUntil(log: seq<Entry>, start: NodeMap, j: nat): real
    requires j < |log| && log[j].node in start
  {
    NodeAt(start, log[..j + 1], log[j].node).readmitTime
  }

  predicate IsFailure(e: Entry) { e.Affected? && e.event.Failure? }

  /** After any failure on a node, nothing is sent to it before the time set by that failure. */
  predicate EveryFailureRespected(log: seq<Entry>, start: NodeMap)
    requires forall e :: e in log ==> e.node in start
  {
    forall j, k :: 0 <= j < k < |log| && IsFailure(log[j]) && log[k].Send? && log[j].node == log[k].node ==>
      log[k].at >= OutUntil(log, start, j)
  }

  /** No failure so far sets a later time than the node's present readmit time. */
  predicate FailuresPast(log: seq<Entry>, start: NodeMap, nodes: NodeMap)
    requires forall e :: e in log ==> e.node in start
  {
    forall j :: 0 <= j < |log| && IsFailure(log[j]) ==>
      log[j].node in nodes && OutUntil(log, start, j) <= nodes[log[j].node].readmitTime
  }

  predicate Ordered(s: System, start: NodeMap) {
    && (forall e :: e in s.log ==> e.node in start)
    && FailuresPast(s.log, start, s.nodes) && EveryFailureRespected(s.log, start)
  }

  /** The step brings no node's readmit time forward. */
  predicate KeepsReadmit(s: System, l: Label)
    requires WellFormed(s) && Enabled(s, l)
  {
    forall n :: n in s.nodes ==> n in Step(s, l).nodes && s.nodes[n].readmitTime <= Step(s, l).nodes[n].readmitTime
  }

  /**
    A step brings a readmit time forward exactly when it is a retryable failure whose new back-off
    ends before the time set by an earlier one.
   */
  lemma KeepsReadmitIff(s: System, l: Label)
    requires WellFormed(s) && Enabled(s, l)
    ensures KeepsReadmit(s, l) <==>
      !(l.Answer? && RetryableFailure(l.reply)
        && var n := s.nodes[s.processes[l.process].pc.node];
           s.now + Min(n.currentBackoff * 2.0, n.maxBackoff) < n.readmitTime)
  {
    if l.Answer? {
      var node := s.processes[l.process].pc.node;
      assert Step(s, l).nodes[node] == NodeAfter(s.nodes[node], l.reply, s.now);
    }
  }

  predicate IsSteadyRun(s: System, labels: seq<Label>)
    requires WellFormed(s)
    decreases |labels|
  {
    labels == [] || (Enabled(s, labels[0]) && WellFormed(Step(s, labels[0])) && KeepsReadmit(s, labels[0])
                     && IsSteadyRun(Step(s, labels[0]), labels[1..]))
  }

  lemma OutUntilSnoc(log: seq<Entry>, e: Entry, start: NodeMap, j: nat)
    requires j < |log| && log[j].node in start
    ensures OutUntil(log + [e], start, j) == OutUntil(log, start, j)
  {
    assert (log + [e])[..j + 1] == log[..j + 1];
  }

  /** A send at or after the readmit time comes after every failure that is past. */
  lemma SendRespects(log: seq<Entry>, e: Entry, start: NodeMap, nodes: NodeMap)
    requires e.Send? && e.node in start && (forall x :: x in log ==> x.node in start)
    requires FailuresPast(log, start, nodes) && EveryFailureRespected(log, start)
    requires e.node in nodes && e.at >= nodes[e.node].readmitTime
    ensures (forall x :: x in log + [e] ==> x.node in start)
    ensures FailuresPast(log + [e], start, nodes) && EveryFailureRespected(log + [e], start)
  {
    var t := log + [e];
    forall j | 0 <= j < |log| && IsFailure(log[j]) ensures OutUntil(t, start, j) == OutUntil(log, start, j) {
      OutUntilSnoc(log, e, start, j);
    }
  }

  /** An event that does not bring the readmit time forward keeps every failure past. */
  lemma EventRespects(log: seq<Entry>, e: Entry, start: NodeMap, nodes: NodeMap, after: NodeMap)
    requires e.Affected? && e.node in start && (forall x :: x in log ==> x.node in start)
    requires FailuresPast(log, start, nodes) && EveryFailureRespected(log, start)
    requires nodes.Keys == after.Keys && e.node in after
    requires forall n :: n in nodes ==> nodes[n].readmitTime <= after[n].readmitTime
    requires NodeAt(start, log + [e], e.node) == after[e.node]
    ensures (forall x :: x in log + [e] ==> x.node in start)
    ensures FailuresPast(log + [e], start, after) && EveryFailureRespected(log + [e], start)
  {
    var t := log + [e];
    assert t[..|log| + 1] == t;
    forall j | 0 <= j < |log| && IsFailure(log[j]) ensures OutUntil(t, start, j) == OutUntil(log, start, j) {
      OutUntilSnoc(log, e, start, j);
    }
    forall j | 0 <= j < |t| && IsFailure(t[j])
      ensures t[j].node in after && OutUntil(t, start, j) <= after[t[j].node].readmitTime
    {
      if j < |log| { assert t[j] == log[j]; }
    }
    forall j, k | 0 <= j < k < |t| && IsFailure(t[j]) && t[k].Send? && t[j].node == t[k].node
      ensures t[k].at >= OutUntil(t, start, j)
    {
      assert k < |log| && t[j] == log[j] && t[k] == log[k];
    }
  }

  lemma StepOrdered(s: System, l: Label, start: NodeMap)
    requires Consistent(s, start) && Ordered(s, start) && Enabled(s, l) && KeepsReadmit(s, l)
    ensures Ordered(Step(s, l), start)
  {
    var t := Step(s, l);
    StepLogs(s, l);
    StepConsistent(s, l, start);
    if t.log != s.log {
      var e := t.log[|s.log|];
      if e.Send? {
        SendRespects(s.log, e, start, s.nodes);
      } else {
        EventRespects(s.log, e, start, s.nodes, t.nodes);
      }
    }
  }

  lemma {:induction false} RunOrdered(s: System, labels: seq<Label>, start: NodeMap)
    requires Consistent(s, start) && Ordered(s, start) && IsSteadyRun(s, labels)
    ensures IsRun(s, labels) && Ordered(Execute(s, labels), start)
    decreases |labels|
  {
    if labels != [] {
      StepConsistent(s, labels[0], start);
      StepOrdered(s, labels[0], start);
      RunOrdered(Step(s, labels[0]), labels[1..], start);
    }
  }

  /**
    In any run in which no failure brings a readmit time forward, nothing is sent to a node before the
    time set by any earlier failure on it, whichever execution saw that failure.
   */
  lemma SteadyRunsRespectEveryFailure(s: System, labels: seq<Label>)
    requires Initial(s) && IsSteadyRun(s, labels)
    ensures IsRun(s, labels)
    ensures var log := Execute(s, labels).log;
      (forall e :: e in log ==> e.node in s.nodes) && EveryFailureRespected(log, s.nodes)
  {
    assert forall n :: n in s.nodes ==> HistoryOn([], n) == [] && AfterAll(s.nodes[n], []) == s.nodes[n];
    RunOrdered(s, labels, s.nodes);
  }

  // ---- three requests in flight to a node ----

  /** How far ahead of the clock a node's readmit time can be while requests to it are in flight. */
  predicate Headroom(n: NodeState, inFlight: nat, now: real) {
    || n.readmitTime <= now
    || inFlight == 0
    || (inFlight == 1 && n.readmitTime - now <= Min(n.currentBackoff * 2.0, n.maxBackoff))
    || (inFlight == 2 && n.readmitTime - now <= n.currentBackoff)
  }

  predicate AllHeadroom(s: System) {
    forall n :: n in s.nodes ==> Bounded(s.nodes[n]) && Headroom(s.nodes[n], InFlight(s.processes, n), s.now)
  }

  lemma {:induction false} InFlightUpdate(ps: seq<Process>, i: nat, p: Process, node: NodeId)
    requires i < |ps|
    ensures InFlight(ps[i := p], node) + (if WaitsFor(ps[i], node) then 1 else 0)
         == InFlight(ps, node) + if WaitsFor(p, node) then 1 else 0
  {
    var m := |ps| - 1;
    if i < m {
      assert ps[i := p][..m] == ps[..m][i := p];
      InFlightUpdate(ps[..m], i, p, node);
    } else {
      assert ps[i := p][..m] == ps[..m];
    }
  }

  lemma {:induction false} NoneInFlight(ps: seq<Process>, node: NodeId)
    requires forall i :: 0 <= i < |ps| ==> !ps[i].pc.Waiting?
    ensures InFlight(ps, node) == 0
  {
    if ps != [] { NoneInFlight(ps[..|ps| - 1], node); }
  }

  /** An answer, to one of at most three requests in flight, leaves the readmit time no earlier than it was. */
  lemma AnswerHeadroom(n: NodeState, inFlight: nat, reply: Reply, now: real)
    requires Bounded(n) && 0 < inFlight <= 3 && Headroom(n, inFlight, now)
    ensures Headroom(NodeAfter(n, reply, now), inFlight - 1, now)
    ensures n.readmitTime <= NodeAfter(n, reply, now).readmitTime
  {
  }

  lemma StepHeadroom(s: System, l: Label)
    requires WellFormed(s) && Enabled(s, l) && AllHeadroom(s)
    requires forall n :: n in s.nodes ==> InFlight(s.processes, n) <= 3
    ensures AllHeadroom(Step(s, l)) && KeepsReadmit(s, l)
  {
    var t := Step(s, l);
    StepWellFormed(s, l);
    StepBounded(s, l);
    forall n | n in t.nodes
      ensures Headroom(t.nodes[n], InFlight(t.processes, n), t.now) && s.nodes[n].readmitTime <= t.nodes[n].readmitTime
    {
      assert Bounded(s.nodes[n]) && Headroom(s.nodes[n], InFlight(s.processes, n), s.now);
      match l
      case Head(i, _, _) => InFlightUpdate(s.processes, i, t.processes[i], n);
      case Gate(i) => InFlightUpdate(s.processes, i, t.processes[i], n);
      case Answer(i, reply) =>
        InFlightUpdate(s.processes, i, t.processes[i], n);
        if s.processes[i].pc.node == n { AnswerHeadroom(s.nodes[n], InFlight(s.processes, n), reply, s.now); }
      case _ =>
    }
  }

  lemma {:induction false} ThreeInFlightIsSteady(s: System, labels: seq<Label>)
    requires WellFormed(s) && AllHeadroom(s) && IsRunWithin(s, labels, 3)
    ensures IsSteadyRun(s, labels)
    decreases |labels|
  {
    if labels != [] {
      StepHeadroom(s, labels[0]);
      ThreeInFlightIsSteady(Step(s, labels[0]), labels[1..]);
    }
  }

  /**
    As long as no node has more than three requests in flight, nothing is sent to a node before the
    time set by any earlier failure on it, whichever execution saw that failure.
   */
  lemma ThreeInFlightRespectEveryFailure(s: System, labels: seq<Label>)
    requires Initial(s) && IsRunWithin(s, labels, 3)
    ensures IsRun(s, labels)
    ensures var log := Execute(s, labels).log;
      (forall e :: e in log ==> e.node in s.nodes) && EveryFailureRespected(log, s.nodes)
  {
    forall n | n in s.nodes ensures InFlight(s.processes, n) == 0 { NoneInFlight(s.processes, n); }
    ThreeInFlightIsSteady(s, labels);
    SteadyRunsRespectEveryFailure(s, labels);
  }
}

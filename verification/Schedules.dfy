/** The sequential loop inside the interleaved system: its iterations and runs are schedules of it. */
module Schedules {
  import opened Wrappers
  import opened Nodes
  import opened Execution
  import opened Interleaving

  // ---- sends, in the log and on a trace ----

  /** The sends of a log. */
  function SendLog(log: seq<Entry>): seq<Entry> {
    if log == [] then []
    else SendLog(log[..|log| - 1]) + if log[|log| - 1].Send? then [log[|log| - 1]] else []
  }

  function SendOf(e: Event, i: nat): seq<Entry> { if e.Sent? then [Send(i, e.node, e.time)] else [] }

  /** The sends of a sequential run, as process i of the system logs them. */
  function SendsOnTrace(trace: seq<Event>, i: nat): seq<Entry> {
    if trace == [] then []
    else SendOf(trace[0], i) + SendsOnTrace(trace[1..], i)
  }

  function EventsOf(it: Iteration): seq<Event> { if it.Over? then it.events else [it.event] }

  lemma SendLogSnoc(log: seq<Entry>, e: Entry)
    ensures SendLog(log + [e]) == SendLog(log) + if e.Send? then [e] else []
  {
    assert (log + [e])[..|log|] == log;
  }

  lemma OneEvent(e: Event, i: nat)
    ensures SendsOnTrace([e], i) == SendOf(e, i)
  {
    assert [e][1..] == [];
  }

  lemma TraceCons(e: Event, rest: seq<Event>, i: nat)
    ensures SendsOnTrace([e] + rest, i) == SendOf(e, i) + SendsOnTrace(rest, i)
  {
    assert ([e] + rest)[1..] == rest;
  }

  // ---- one iteration ----

  /** The labels of one iteration of process i. */
  function Schedule(p: Process, nodes: NodeMap, w: World, i: nat): seq<Label>
    requires ValidRequest(p.request) && w.node in nodes
  {
    if !AtTop(p.cfg, p.request, w.start, w.fallback).TopGate? then [Head(i, w.fallback, w.node)]
    else if !Healthy(nodes[w.node], w.gate) then [Head(i, w.fallback, w.node), Tick(w.gate - w.start), Gate(i)]
    else [Head(i, w.fallback, w.node), Tick(w.gate - w.start), Gate(i), Tick(w.done - w.gate), Answer(i, w.reply)]
  }

  /** All processes but the i-th are as they were. */
  predicate OnlyMoved(s: System, t: System, i: nat) {
    i < |s.processes| && i < |t.processes| && t.processes == s.processes[i := t.processes[i]]
  }

  /** The nodes, the process, the clock and the sends are as an iteration leaves them. */
  predicate Lands(s: System, t: System, i: nat, w: World, it: Iteration, cfg: Config) {
    && t.nodes == it.nodes && OnlyMoved(s, t, i) && w.start <= t.now <= w.done
    && SendLog(t.log) == SendLog(s.log) + SendsOnTrace(EventsOf(it), i)
    && (it.Over? ==> t.processes[i].pc == Done(it.outcome))
    && (it.Next? ==> t.processes[i] == Process(cfg, it.request, AtHead))
  }

  /** Running the schedule of an iteration comes to what the iteration comes to. */
  predicate MatchesIteration(s: System, i: nat, w: World)
    requires WellFormed(s) && i < |s.processes| && w.node in s.nodes
  {
    var p := s.processes[i];
    var labels := Schedule(p, s.nodes, w, i);
    IsRun(s, labels) && Lands(s, Execute(s, labels), i, w, Iterate(p.cfg, p.request, s.nodes, w), p.cfg)
  }

  lemma ScheduleTop(s: System, i: nat, w: World)
    requires WellFormed(s) && i < |s.processes| && s.processes[i].pc.AtHead? && s.now == w.start && w.node in s.nodes
    requires !AtTop(s.processes[i].cfg, s.processes[i].request, w.start, w.fallback).TopGate?
    requires w.start <= w.gate <= w.done
    ensures MatchesIteration(s, i, w)
  {
    var h := Head(i, w.fallback, w.node);
    var it := Iterate(s.processes[i].cfg, s.processes[i].request, s.nodes, w);
    if it.Next? { OneEvent(it.event, i); }
    Then(s, [], s, h);
    assert [] + [h] == [h];
  }

  /** The state in which the gate has been passed, or not. */
  lemma AtGateState(s: System, i: nat, w: World) returns (t: System)
    requires WellFormed(s) && i < |s.processes| && s.processes[i].pc.AtHead? && s.now == w.start && w.node in s.nodes
    requires w.start <= w.gate && AtTop(s.processes[i].cfg, s.processes[i].request, w.start, w.fallback).TopGate?
    ensures Reaches(s, [Head(i, w.fallback, w.node), Tick(w.gate - w.start), Gate(i)], t)
    ensures var p := s.processes[i]; var q := AtTop(p.cfg, p.request, w.start, w.fallback).request;
      && t.nodes == s.nodes[w.node := Used(s.nodes[w.node])] && t.now == w.gate && OnlyMoved(s, t, i)
      && t.processes[i] == AfterGate(Process(p.cfg, q, Making(w.node)), Healthy(s.nodes[w.node], w.gate), w.gate)
    ensures SendLog(t.log)
         == SendLog(s.log) + if Healthy(s.nodes[w.node], w.gate) then [Send(i, w.node, w.gate)] else []
  {
    var h, d := Head(i, w.fallback, w.node), Tick(w.gate - w.start);
    Then(s, [], s, h);
    Then(s, [] + [h], Step(s, h), d);
    Then(s, [] + [h] + [d], Step(Step(s, h), d), Gate(i));
    assert [] + [h] + [d] + [Gate(i)] == [h, d, Gate(i)];
    t := Step(Step(Step(s, h), d), Gate(i));
    SendLogSnoc(s.log, Affected(w.node, Use));
    SendLogSnoc(s.log + [Affected(w.node, Use)], Send(i, w.node, w.gate));
  }

  lemma ScheduleGate(s: System, i: nat, w: World)
    requires WellFormed(s) && i < |s.processes| && s.processes[i].pc.AtHead? && s.now == w.start && w.node in s.nodes
    requires w.start <= w.gate <= w.done && !Healthy(s.nodes[w.node], w.gate)
    requires AtTop(s.processes[i].cfg, s.processes[i].request, w.start, w.fallback).TopGate?
    ensures MatchesIteration(s, i, w)
  {
    var t := AtGateState(s, i, w);
    var it := Iterate(s.processes[i].cfg, s.processes[i].request, s.nodes, w);
    if it.Next? { OneEvent(it.event, i); }
  }

  /** The same case of the loop's own iteration. */
  lemma IterateSends(cfg: Config, r: Request, nodes: NodeMap, w: World)
    requires ValidRequest(r) && w.node in nodes && Healthy(nodes[w.node], w.gate)
    requires AtTop(cfg, r, w.start, w.fallback).TopGate?
    ensures var q := AtTop(cfg, r, w.start, w.fallback).request;
      Iterate(cfg, r, nodes, w) == Handled(Advance(q), q.index, nodes[w.node := Used(nodes[w.node])], w)
  {
  }

  lemma AnswerMatches(t: System, i: nat, w: World, position: nat)
    requires WellFormed(t) && i < |t.processes| && t.processes[i].pc == Waiting(w.node, w.gate)
    requires t.now == w.gate <= w.done
    ensures var e, a := Tick(w.done - w.gate), Answer(i, w.reply);
      && Enabled(t, e) && WellFormed(Step(t, e)) && Enabled(Step(t, e), a)
    ensures var u := Step(Step(t, Tick(w.done - w.gate)), Answer(i, w.reply));
      var it := Handled(t.processes[i].request, position, t.nodes, w);
      && u.nodes == it.nodes && OnlyMoved(t, u, i) && u.now == w.done && SendLog(u.log) == SendLog(t.log)
      && (it.Over? ==> u.processes[i].pc == Done(it.outcome))
      && (it.Next? ==> u.processes[i] == Process(t.processes[i].cfg, it.request, AtHead))
  {
    SendLogSnoc(t.log, Affected(w.node, Success));
    SendLogSnoc(t.log, Affected(w.node, Failure(w.done)));
  }

  lemma OneSend(q: Request, position: nat, nodes: NodeMap, w: World, i: nat)
    requires w.node in nodes
    ensures SendsOnTrace(EventsOf(Handled(q, position, nodes, w)), i) == [Send(i, w.node, w.gate)]
  {
    OneEvent(EventsOf(Handled(q, position, nodes, w))[0], i);
  }

  /** The state after a request was sent and its answer handled. */
  lemma SendLands(s: System, t: System, i: nat, w: World)
    requires WellFormed(s) && i < |s.processes| && w.node in s.nodes && w.start <= w.gate <= w.done
    requires Healthy(s.nodes[w.node], w.gate)
    requires AtTop(s.processes[i].cfg, s.processes[i].request, w.start, w.fallback).TopGate?
    requires var q := AtTop(s.processes[i].cfg, s.processes[i].request, w.start, w.fallback).request;
      OnlyMoved(s, t, i) && t.processes[i] == Process(s.processes[i].cfg, Advance(q), Waiting(w.node, w.gate))
    requires WellFormed(t) && t.now == w.gate && t.nodes == s.nodes[w.node := Used(s.nodes[w.node])]
    requires SendLog(t.log) == SendLog(s.log) + [Send(i, w.node, w.gate)]
    ensures var e, a := Tick(w.done - w.gate), Answer(i, w.reply); var p := s.processes[i];
      && Enabled(t, e) && WellFormed(Step(t, e)) && Enabled(Step(t, e), a)
      && Lands(s, Step(Step(t, e), a), i, w, Iterate(p.cfg, p.request, s.nodes, w), p.cfg)
  {
    var p := s.processes[i];
    var q := AtTop(p.cfg, p.request, w.start, w.fallback).request;
    IterateSends(p.cfg, p.request, s.nodes, w);
    OneSend(Advance(q), q.index, t.nodes, w, i);
    AnswerMatches(t, i, w, q.index);
  }

  lemma Concluded(s: System, i: nat, w: World, labels: seq<Label>, t: System)
    requires WellFormed(s) && i < |s.processes| && w.node in s.nodes && Reaches(s, labels, t)
    requires var p := s.processes[i];
      && labels == Schedule(p, s.nodes, w, i)
      && Lands(s, t, i, w, Iterate(p.cfg, p.request, s.nodes, w), p.cfg)
    ensures MatchesIteration(s, i, w)
  {
  }

  lemma ScheduleSend(s: System, i: nat, w: World)
    requires WellFormed(s) && i < |s.processes| && s.processes[i].pc.AtHead? && s.now == w.start && w.node in s.nodes
    requires w.start <= w.gate <= w.done && Healthy(s.nodes[w.node], w.gate)
    requires AtTop(s.processes[i].cfg, s.processes[i].request, w.start, w.fallback).TopGate?
    ensures MatchesIteration(s, i, w)
  {
    var h, d, g := Head(i, w.fallback, w.node), Tick(w.gate - w.start), Gate(i);
    var e, a := Tick(w.done - w.gate), Answer(i, w.reply);
    var t := AtGateState(s, i, w);
    SendLands(s, t, i, w);
    Then(s, [h, d, g], t, e);
    Then(s, [h, d, g] + [e], Step(t, e), a);
    assert [h, d, g] + [e] + [a] == [h, d, g, e, a];
    Concluded(s, i, w, [h, d, g, e, a], Step(Step(t, e), a));
  }

  /** Each iteration of the retry loop is a run of this system in which only that process moves. */
  lemma IterationIsSchedule(s: System, i: nat, w: World)
    requires WellFormed(s) && i < |s.processes| && s.processes[i].pc.AtHead? && s.now == w.start && w.node in s.nodes
    requires w.start <= w.gate <= w.done
    ensures MatchesIteration(s, i, w)
  {
    if !AtTop(s.processes[i].cfg, s.processes[i].request, w.start, w.fallback).TopGate? {
      ScheduleTop(s, i, w);
    } else if !Healthy(s.nodes[w.node], w.gate) {
      ScheduleGate(s, i, w);
    } else {
      ScheduleSend(s, i, w);
    }
  }

  // ---- a whole run ----

  /** What a schedule of process i's whole run comes to. */
  ghost predicate MatchesRun(s: System, labels: seq<Label>, i: nat, run: Run)
    requires WellFormed(s)
  {
    && IsRun(s, labels)
    && var t := Execute(s, labels);
       && t.nodes == run.nodes && OnlyMoved(s, t, i) && t.processes[i].pc == Done(run.outcome)
       && SendLog(t.log) == SendLog(s.log) + SendsOnTrace(run.trace, i)
  }

  /** Time passes until the iteration starts, and the iteration runs. */
  lemma IterationAfterTick(s: System, i: nat, w: World) returns (labels: seq<Label>)
    requires WellFormed(s) && i < |s.processes| && s.processes[i].pc.AtHead? && s.now <= w.start && w.node in s.nodes
    requires w.start <= w.gate <= w.done
    ensures IsRun(s, labels) && WellFormed(Execute(s, labels))
    ensures var p := s.processes[i];
      Lands(s, Execute(s, labels), i, w, Iterate(p.cfg, p.request, s.nodes, w), p.cfg)
  {
    var tick := Tick(w.start - s.now);
    var u := Step(s, tick);
    Then(s, [], s, tick);
    IterationIsSchedule(u, i, w);
    var rest := Schedule(u.processes[i], u.nodes, w, i);
    RunConcat(s, [] + [tick], rest);
    labels := [] + [tick] + rest;
    RunWellFormed(s, labels);
  }

  lemma SendsAppend(before: seq<Entry>, event: Event, run: Run, i: nat)
    ensures before + SendsOnTrace([event], i) + SendsOnTrace(run.trace, i)
         == before + SendsOnTrace(Prepend([event], run).trace, i)
  {
    OneEvent(event, i);
    TraceCons(event, run.trace, i);
    var first, rest := SendOf(event, i), SendsOnTrace(run.trace, i);
    assert before + first + rest == before + (first + rest);
  }

  lemma ContinuedRun(s: System, t: System, labels: seq<Label>, rest: seq<Label>, i: nat, event: Event, run: Run)
    requires WellFormed(s) && Reaches(s, labels, t) && MatchesRun(t, rest, i, run)
    requires SendLog(t.log) == SendLog(s.log) + SendsOnTrace([event], i) && OnlyMoved(s, t, i)
    ensures MatchesRun(s, labels + rest, i, Prepend([event], run))
  {
    RunConcat(s, labels, rest);
    SendsAppend(SendLog(s.log), event, run, i);
  }

  /**
    A whole run of the loop is a schedule of the system in which only that process moves: same nodes,
    same outcome, same sends. What holds in every interleaving therefore holds of it.
   */
  lemma {:induction false} RunIsSchedule(s: System, i: nat, world: nat -> World) returns (labels: seq<Label>)
    requires WellFormed(s) && i < |s.processes| && s.processes[i].pc.AtHead? && ValidWorld(world, s.nodes)
    requires s.now <= world(s.processes[i].request.attempt).start
    ensures MatchesRun(s, labels, i, RunFrom(s.processes[i].cfg, s.processes[i].request, s.nodes, world))
    decreases var p := s.processes[i];
      if p.request.attempt <= p.cfg.maxAttempts then p.cfg.maxAttempts + 1 - p.request.attempt else 0
  {
    var p := s.processes[i];
    var it := Iterate(p.cfg, p.request, s.nodes, world(p.request.attempt));
    labels := IterationAfterTick(s, i, world(p.request.attempt));
    if it.Next? {
      var t := Execute(s, labels);
      var rest := RunIsSchedule(t, i, world);
      ContinuedRun(s, t, labels, rest, i, it.event, RunFrom(p.cfg, it.request, it.nodes, world));
      labels := labels + rest;
    }
  }
}

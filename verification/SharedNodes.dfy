/**
  What sharing nodes costs. Up to three requests to one node in flight, every failure keeps the node
  out for as long as it said; with four, two successes between two failures undo that.
 */
module SharedNodes {
  import opened Wrappers
  import opened Nodes
  import opened Execution
  import opened Interleaving

  /** In any interleaving k failures by anyone and no success double its back-off k times, cut at the maximum. */
  lemma BackoffInEveryInterleaving(s: System, labels: seq<Label>, n: NodeId)
    requires Initial(s) && IsRun(s, labels) && n in s.nodes
    requires var es := HistoryOn(Execute(s, labels).log, n);
      forall i :: 0 <= i < |es| ==> es[i].Failure? || es[i].Use?
    ensures var t := Execute(s, labels);
      n in t.nodes && t.nodes[n].currentBackoff
        == DoubledUpTo(s.nodes[n].currentBackoff, Failures(HistoryOn(t.log, n)), s.nodes[n].maxBackoff)
  {
    GatedInEveryInterleaving(s, labels);
    HistoryBackoff(s.nodes, Execute(s, labels).log, n);
  }

  lemma HistoryBackoff(start: NodeMap, log: seq<Entry>, n: NodeId)
    requires n in start && Bounded(start[n])
    requires forall i :: 0 <= i < |HistoryOn(log, n)| ==> HistoryOn(log, n)[i].Failure? || HistoryOn(log, n)[i].Use?
    ensures NodeAt(start, log, n).currentBackoff
         == DoubledUpTo(start[n].currentBackoff, Failures(HistoryOn(log, n)), start[n].maxBackoff)
  {
    BackoffAfterFailures(start[n], HistoryOn(log, n));
  }

  // ---- a run with four requests in flight ----

  const FRESH: Request := Request([0], 0, 1, NoProblem)
  const START: Process := Process(Config(10, 0.0, None, {}), FRESH, AtHead)
  const UNAVAILABLE: Reply := TransportFailure(Grpc(14, false))
  const BUSY: Reply := Response(StatusOther(12), Retry, 0)

  /** The first execution after its first failure. */
  const FAILED: Process := START.(request := Request([0], 0, 2, TransportProblem(Grpc(14, false))))

  /** Four executions on a node just built. */
  function StartState(): System { System(map[0 := NewNode(0.0)], [START, START, START, START], 0.0, []) }

  ghost predicate Reached(labels: seq<Label>, t: System) {
    WellFormed(StartState()) && Reaches(StartState(), labels, t)
  }

  lemma Go(labels: seq<Label>, t: System, l: Label)
    requires Reached(labels, t) && Enabled(t, l)
    ensures Reached(labels + [l], Step(t, l))
  {
    Then(StartState(), labels, t, l);
  }

  /** The first execution has failed at time 0, its node's back-off has passed, and nothing is in flight. */
  lemma FirstFailure() returns (labels: seq<Label>, t: System)
    ensures Reached(labels, t) && AllSent(t, 0)
  {
    labels, t := [], StartState();
    Go(labels, t, Head(0, None, 0));
    labels, t := labels + [Head(0, None, 0)], Step(t, Head(0, None, 0));
    Go(labels, t, Gate(0));
    labels, t := labels + [Gate(0)], Step(t, Gate(0));
    Go(labels, t, Answer(0, UNAVAILABLE));
    labels, t := labels + [Answer(0, UNAVAILABLE)], Step(t, Answer(0, UNAVAILABLE));
    assert t.processes[0] == FAILED;
    Go(labels, t, Tick(16000.0));
    labels, t := labels + [Tick(16000.0)], Step(t, Tick(16000.0));
  }

  function Ready(i: nat): Process { if i == 0 then FAILED else START }

  /** The first k of the four have sent, at time 16000. */
  predicate AllSent(t: System, k: nat) {
    && t.nodes == map[0 := NewNode(0.0).(useCount := k + 1, currentBackoff := 16000.0, readmitTime := 16000.0)]
    && t.now == 16000.0 && |t.processes| == 4
    && forall i :: 0 <= i < 4 ==> t.processes[i] == if i < k then Ready(i).(pc := Waiting(0, 16000.0)) else Ready(i)
  }

  lemma SendOne(labels: seq<Label>, t: System, k: nat) returns (more: seq<Label>, u: System)
    requires k < 4 && Reached(labels, t) && AllSent(t, k)
    ensures Reached(more, u) && AllSent(u, k + 1)
  {
    var h, g := Head(k, None, 0), Gate(k);
    Go(labels, t, h);
    var t1 := Step(t, h);
    assert t1.processes[k] == Ready(k).(pc := Making(0));
    Go(labels + [h], t1, g);
    more, u := labels + [h] + [g], Step(t1, g);
    assert u.processes[k] == Ready(k).(pc := Waiting(0, 16000.0));
  }

  /** The node's back-off and readmit time, and who still waits, all at time 16000. */
  predicate View(t: System, backoff: real, readmit: real, from: nat) {
    && t.nodes.Keys == {0} && t.nodes[0].currentBackoff == backoff && t.nodes[0].readmitTime == readmit
    && t.nodes[0].minBackoff == 8000.0 && t.nodes[0].maxBackoff == 3600000.0
    && t.now == 16000.0 && |t.processes| == 4
    && (forall i :: from <= i < 4 ==> t.processes[i].pc == Waiting(0, 16000.0))
    && t.processes[0].pc == (if from == 0 then Waiting(0, 16000.0) else AtHead)
    && t.processes[0].request.list == [0] && t.processes[0].request.index == 0
    && t.processes[0].request.attempt == (if from == 0 then 2 else 3) && t.processes[0].cfg == START.cfg
  }

  lemma FailAt(labels: seq<Label>, t: System, i: nat, b: real, r: real) returns (more: seq<Label>, u: System)
    requires i < 4 && Reached(labels, t) && View(t, b, r, i)
    ensures Reached(more, u) && View(u, Min(b * 2.0, 3600000.0), 16000.0 + Min(b * 2.0, 3600000.0), i + 1)
    ensures u.log == t.log + [Affected(0, Failure(16000.0))]
  {
    Go(labels, t, Answer(i, UNAVAILABLE));
    more, u := labels + [Answer(i, UNAVAILABLE)], Step(t, Answer(i, UNAVAILABLE));
  }

  lemma SucceedAt(labels: seq<Label>, t: System, i: nat, b: real, r: real) returns (more: seq<Label>, u: System)
    requires 0 < i < 4 && Reached(labels, t) && View(t, b, r, i)
    ensures Reached(more, u) && View(u, Max(b / 2.0, 8000.0), r, i + 1)
    ensures u.log == t.log + [Affected(0, Success)]
  {
    Go(labels, t, Answer(i, BUSY));
    more, u := labels + [Answer(i, BUSY)], Step(t, Answer(i, BUSY));
  }

  lemma FourInFlight() returns (labels: seq<Label>, t: System)
    ensures Reached(labels, t) && View(t, 16000.0, 16000.0, 0)
  {
    labels, t := FirstFailure();
    for k := 0 to 4
      invariant Reached(labels, t) && AllSent(t, k)
    {
      labels, t := SendOne(labels, t, k);
    }
  }

  lemma ReachedHistory(labels: seq<Label>, t: System)
    requires Reached(labels, t) && 0 in t.nodes
    ensures 0 in StartState().nodes && NodeAt(StartState().nodes, t.log, 0) == t.nodes[0]
  {
    GatedInEveryInterleaving(StartState(), labels);
  }

  /** A failure that keeps the node out until 48000, two successes, and another failure. */
  lemma FourAnswers() returns (labels: seq<Label>, t: System, j: nat)
    ensures Reached(labels, t) && View(t, 16000.0, 32000.0, 4)
    ensures j < |t.log| && t.log[j] == Affected(0, Failure(16000.0))
    ensures 0 in StartState().nodes && OutUntil(t.log, StartState().nodes, j) == 48000.0
  {
    labels, t := FourInFlight();
    j := |t.log|;
    labels, t := FailAt(labels, t, 0, 16000.0, 16000.0);
    ReachedHistory(labels, t);
    ghost var first := t.log;
    assert first[..j + 1] == first;
    labels, t := SucceedAt(labels, t, 1, 32000.0, 48000.0);
    labels, t := SucceedAt(labels, t, 2, 16000.0, 48000.0);
    labels, t := FailAt(labels, t, 3, 8000.0, 48000.0);
    assert t.log[..j + 1] == first;
  }

  /**
    Not every failure is respected with four requests to one node in flight, even if the node was just
    built: here a failure keeps it out until 48000, and yet it is sent to at 32000.
   */
  lemma EarlierFailureForgotten() returns (labels: seq<Label>, j: nat, k: nat)
    ensures Initial(StartState()) && IsRun(StartState(), labels)
    ensures var log := Execute(StartState(), labels).log;
      && j < k < |log| && IsFailure(log[j]) && log[k].Send? && log[k].node == log[j].node == 0
      && log[k].at == 32000.0 && OutUntil(log, StartState().nodes, j) == 48000.0
  {
    var t: System;
    labels, t, j := FourAnswers();
    ghost var before := t.log;
    Go(labels, t, Tick(16000.0));
    labels, t := labels + [Tick(16000.0)], Step(t, Tick(16000.0));
    Go(labels, t, Head(0, None, 0));
    labels, t := labels + [Head(0, None, 0)], Step(t, Head(0, None, 0));
    Go(labels, t, Gate(0));
    labels, t := labels + [Gate(0)], Step(t, Gate(0));
    k := |t.log| - 1;
    assert t.log[..j + 1] == before[..j + 1];
  }

  // ---- three is the exact bound ----

  /** With at most k requests to a node in flight, no run ever sends to a node an earlier failure still keeps out. */
  ghost predicate RespectedUpTo(k: nat) {
    forall s, labels :: Initial(s) && IsRunWithin(s, labels, k) ==> RespectsFailures(s, labels)
  }

  ghost predicate RespectsFailures(s: System, labels: seq<Label>)
    requires WellFormed(s)
  {
    && IsRun(s, labels)
    && (forall e :: e in Execute(s, labels).log ==> e.node in s.nodes)
    && EveryFailureRespected(Execute(s, labels).log, s.nodes)
  }

  lemma {:induction false} WithinFewer(s: System, labels: seq<Label>, j: nat, k: nat)
    requires WellFormed(s) && IsRunWithin(s, labels, j) && j <= k
    ensures IsRunWithin(s, labels, k)
    decreases |labels|
  {
    if labels != [] { WithinFewer(Step(s, labels[0]), labels[1..], j, k); }
  }

  lemma {:induction false} InFlightAtMostAll(ps: seq<Process>, node: NodeId)
    ensures InFlight(ps, node) <= |ps|
  {
    if ps != [] { InFlightAtMostAll(ps[..|ps| - 1], node); }
  }

  /** No more requests are in flight than there are executions. */
  lemma {:induction false} RunWithinProcesses(s: System, labels: seq<Label>)
    requires WellFormed(s) && IsRun(s, labels)
    ensures IsRunWithin(s, labels, |s.processes|)
    decreases |labels|
  {
    forall n | n in s.nodes ensures InFlight(s.processes, n) <= |s.processes| { InFlightAtMostAll(s.processes, n); }
    if labels != [] {
      StepWellFormed(s, labels[0]);
      RunWithinProcesses(Step(s, labels[0]), labels[1..]);
    }
  }

  /** Every failure is respected in every run exactly as long as no node has more than three requests in flight. */
  lemma EveryFailureRespectedIff(k: nat)
    ensures RespectedUpTo(k) <==> k <= 3
  {
    if k <= 3 {
      forall s, labels | Initial(s) && IsRunWithin(s, labels, k) ensures RespectsFailures(s, labels) {
        WithinFewer(s, labels, k, 3);
        ThreeInFlightRespectEveryFailure(s, labels);
      }
    } else {
      var labels, i, j := EarlierFailureForgotten();
      RunWithinProcesses(StartState(), labels);
      WithinFewer(StartState(), labels, 4, k);
      assert !RespectsFailures(StartState(), labels);
    }
  }
}

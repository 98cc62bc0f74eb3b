/** What every run of the retry loop keeps, when the request has the nodes to itself. */
module Runs {
  import opened Wrappers
  import opened Arith
  import opened Nodes
  import opened Execution

  // ---- attempts and outcomes ----

  /** An event after which the loop goes on. */
  predicate Continues(e: Event) {
    e.Sent? ==> match e.reply
                case TransportFailure(error) => Retryable(error)
                case Response(_, verdict, _) => verdict == Retry
  }

  /** The answer that makes a run end with this outcome, for outcomes that come from an answer. */
  predicate AnswerOf(outcome: Outcome, e: Event) {
    e.Sent? && match outcome
               case Output(v) => e.reply.Response? && e.reply.verdict == Finished && e.reply.output == v
               case StatusError(s) => e.reply.Response? && e.reply.verdict == Failed && e.reply.status == s
               case Thrown(x) => e.reply == TransportFailure(x) && !Retryable(x)
               case _ => false
  }

  predicate FromAnswer(outcome: Outcome) { outcome.Output? || outcome.StatusError? || outcome.Thrown? }

  /** The latest transport error or latest status other than Ok and Success, whichever came last. */
  function LastProblem(trace: seq<Event>, before: Problem): Problem {
    if trace == [] then before
    else
      var e := trace[|trace| - 1];
      if e.Sent? && e.reply.TransportFailure? then TransportProblem(e.reply.error)
      else if e.Sent? && e.reply.status.StatusOther? then StatusProblem(e.reply.status)
      else LastProblem(trace[..|trace| - 1], before)
  }

  lemma {:induction false} LastProblemCons(e: Event, rest: seq<Event>, before: Problem)
    ensures LastProblem([e] + rest, before) == LastProblem(rest, LastProblem([e], before))
  {
    var t := [e] + rest;
    if rest == [] {
      assert t == [e];
      assert LastProblem(rest, LastProblem([e], before)) == LastProblem([e], before);
    } else {
      assert t[..|t| - 1] == [e] + rest[..|rest| - 1];
      LastProblemCons(e, rest[..|rest| - 1], before);
    }
  }

  lemma IterationFacts(cfg: Config, r: Request, nodes: NodeMap, w: World)
    requires ValidRequest(r) && w.node in nodes
    ensures var it := Iterate(cfg, r, nodes, w);
      && (it.Next? ==> Continues(it.event) && it.request.last == LastProblem([it.event], r.last))
      && (it.Over? ==> |it.events| <= 1)
      && (it.Over? && FromAnswer(it.outcome) ==> |it.events| == 1 && AnswerOf(it.outcome, it.events[0]))
      && (it.Over? && !FromAnswer(it.outcome) ==> it.events == [])
      && (it.Over? && it.outcome.MaxAttempts? ==> r.attempt > cfg.maxAttempts && it.outcome.last == r.last)
      && (it.Over? && it.events != [] ==> r.attempt <= cfg.maxAttempts)
  {
  }

  /**
    A run makes at most maxAttempts iterations (and so at most as many sends). All but the last go on;
    an output, a status error or a thrown error is the one its last answer calls for; running out of
    attempts uses up all of them and reports the latest problem.
   */
  lemma {:induction false} OutcomeExplained(cfg: Config, r: Request, nodes: NodeMap, world: nat -> World)
    requires ValidRequest(r) && ValidWorld(world, nodes) && r.attempt <= cfg.maxAttempts + 1
    ensures var run := RunFrom(cfg, r, nodes, world); var n := |run.trace|;
      && r.attempt + n <= cfg.maxAttempts + 1
      && (forall k :: 0 <= k < n - 1 ==> Continues(run.trace[k]))
      && (FromAnswer(run.outcome) ==> n > 0 && AnswerOf(run.outcome, run.trace[n - 1]))
      && (!FromAnswer(run.outcome) && n > 0 ==> Continues(run.trace[n - 1]))
      && (run.outcome.MaxAttempts? ==>
            r.attempt + n == cfg.maxAttempts + 1 && run.outcome.last == LastProblem(run.trace, r.last))
    decreases cfg.maxAttempts + 1 - r.attempt
  {
    var it := Iterate(cfg, r, nodes, world(r.attempt));
    IterationFacts(cfg, r, nodes, world(r.attempt));
    if it.Next? {
      OutcomeExplained(cfg, it.request, it.nodes, world);
      LastProblemCons(it.event, RunFrom(cfg, it.request, it.nodes, world).trace, r.last);
    }
  }

  predicate Expired(cfg: Config, now: real) {
    cfg.requestTimeout.Some? && cfg.startTime + cfg.requestTimeout.value <= now
  }

  /** No answer ended the run. */
  predicate WentOn(trace: seq<Event>) { trace == [] || Continues(trace[|trace| - 1]) }

  /** No node on the list, and none to put there. */
  predicate Nowhere(r: Request, trace: seq<Event>, w: World) { trace == [] && r.list == [] && w.fallback == None }

  lemma GoesOn(cfg: Config, r: Request, nodes: NodeMap, world: nat -> World)
    returns (e: Event, q: Request, after: NodeMap, rest: Run)
    requires ValidRequest(r) && ValidWorld(world, nodes) && Iterate(cfg, r, nodes, world(r.attempt)).Next?
    ensures ValidRequest(q) && q.list != [] && q.attempt == r.attempt + 1 <= cfg.maxAttempts + 1
    ensures Continues(e) && q.last == LastProblem([e], r.last)
    ensures ValidWorld(world, after) && rest == RunFrom(cfg, q, after, world)
    ensures RunFrom(cfg, r, nodes, world) == Run([e] + rest.trace, rest.nodes, rest.outcome)
  {
    var it := Iterate(cfg, r, nodes, world(r.attempt));
    IterationFacts(cfg, r, nodes, world(r.attempt));
    e, q, after, rest := it.event, it.request, it.nodes, RunFrom(cfg, it.request, it.nodes, world);
  }

  /** What stops a run before it sends, from the request at the start of its last iteration. */
  predicate StoppedBy(cfg: Config, q: Request, outcome: Outcome, w: World) {
    && (outcome == MaxAttempts(q.last) <==> q.attempt == cfg.maxAttempts + 1)
    && (outcome == TimedOut <==> q.attempt <= cfg.maxAttempts && Expired(cfg, w.start))
    && (outcome == NoHealthyNode <==>
          q.attempt <= cfg.maxAttempts && !Expired(cfg, w.start) && q.list == [] && w.fallback == None)
    && (outcome.AllUnhealthy? <==>
          q.attempt <= cfg.maxAttempts && !Expired(cfg, w.start) && !(q.list == [] && w.fallback == None))
  }

  lemma Ends(cfg: Config, r: Request, nodes: NodeMap, world: nat -> World) returns (run: Run, w: World)
    requires ValidRequest(r) && ValidWorld(world, nodes) && r.attempt <= cfg.maxAttempts + 1
    requires Iterate(cfg, r, nodes, world(r.attempt)).Over?
    ensures run == RunFrom(cfg, r, nodes, world) && w == world(r.attempt)
    ensures if FromAnswer(run.outcome) then |run.trace| == 1 && !WentOn(run.trace) && r.attempt <= cfg.maxAttempts
            else run.trace == [] && StoppedBy(cfg, r, run.outcome, w)
    ensures run.outcome.AllUnhealthy? ==> w.node in run.nodes && run.nodes[w.node].readmitTime > w.gate
  {
    w := world(r.attempt);
    var it := Iterate(cfg, r, nodes, w);
    run := Run(it.events, it.nodes, it.outcome);
  }

  /** A run that no answer ended has come to a request with which it stops. */
  lemma {:induction false} LastIteration(cfg: Config, r: Request, nodes: NodeMap, world: nat -> World)
    returns (run: Run, q: Request, w: World)
    requires ValidRequest(r) && ValidWorld(world, nodes) && r.attempt <= cfg.maxAttempts + 1
    ensures run == RunFrom(cfg, r, nodes, world) && r.attempt + |run.trace| <= cfg.maxAttempts + 1
    ensures FromAnswer(run.outcome) <==> !WentOn(run.trace)
    ensures !FromAnswer(run.outcome) ==> StoppedBy(cfg, q, run.outcome, w)
    ensures q.attempt == r.attempt + |run.trace| && q.last == LastProblem(run.trace, r.last) && w == world(q.attempt)
    ensures if run.trace == [] then q == r else q.list != []
    ensures run.outcome.AllUnhealthy? ==> w.node in run.nodes && run.nodes[w.node].readmitTime > w.gate
    decreases cfg.maxAttempts + 1 - r.attempt
  {
    if Iterate(cfg, r, nodes, world(r.attempt)).Next? {
      var e, next, after, rest := GoesOn(cfg, r, nodes, world);
      var p;
      rest, p, w := LastIteration(cfg, next, after, world);
      run := Run([e] + rest.trace, rest.nodes, rest.outcome);
      LastProblemCons(e, rest.trace, r.last);
      q := if rest.trace == [] then next else p;
    } else {
      run, w := Ends(cfg, r, nodes, world);
      if FromAnswer(run.outcome) {
        q := Request([0], 0, r.attempt + 1, LastProblem(run.trace, r.last));
        w := world(r.attempt + 1);
      } else {
        q := r;
      }
    }
  }

  /** The outcome is the one that the trace, and the world where the trace ends, call for. */
  predicate Decided(cfg: Config, r: Request, trace: seq<Event>, outcome: Outcome, w: World) {
    var k := r.attempt + |trace|;
    && (FromAnswer(outcome) <==> !WentOn(trace))
    && (outcome == MaxAttempts(LastProblem(trace, r.last)) <==> WentOn(trace) && k == cfg.maxAttempts + 1)
    && (outcome == TimedOut <==> WentOn(trace) && k <= cfg.maxAttempts && Expired(cfg, w.start))
    && (outcome == NoHealthyNode <==> k <= cfg.maxAttempts && !Expired(cfg, w.start) && Nowhere(r, trace, w))
    && (outcome.AllUnhealthy? <==>
          WentOn(trace) && k <= cfg.maxAttempts && !Expired(cfg, w.start) && !Nowhere(r, trace, w))
  }

  /**
    Which outcome a run has, read off its trace and the clock: unless its last answer ended it, it is out
    of attempts, with the latest problem, or past its deadline, or without any node, and otherwise the
    node it looked at was out.
   */
  lemma OutcomeDecided(cfg: Config, r: Request, nodes: NodeMap, world: nat -> World) returns (run: Run, w: World)
    requires ValidRequest(r) && ValidWorld(world, nodes) && r.attempt <= cfg.maxAttempts + 1
    ensures run == RunFrom(cfg, r, nodes, world) && w == world(r.attempt + |run.trace|)
    ensures Decided(cfg, r, run.trace, run.outcome, w)
    ensures run.outcome.AllUnhealthy? ==> w.node in run.nodes && run.nodes[w.node].readmitTime > w.gate
  {
    var q;
    run, q, w := LastIteration(cfg, r, nodes, world);
  }

  /** A request without nodes is given one when it starts, and goes on as if that had been its list. */
  lemma EmptyListFilled(cfg: Config, r: Request, nodes: NodeMap, world: nat -> World)
    requires ValidRequest(r) && ValidWorld(world, nodes) && r.list == [] && world(r.attempt).fallback.Some?
    ensures RunFrom(cfg, r, nodes, world)
         == RunFrom(cfg, r.(list := [world(r.attempt).fallback.value], index := 0), nodes, world)
  {
    var q := r.(list := [world(r.attempt).fallback.value], index := 0);
    assert Iterate(cfg, r, nodes, world(r.attempt)) == Iterate(cfg, q, nodes, world(r.attempt));
  }

  /** The event is what the world contributed to an iteration. */
  predicate IsOf(e: Event, w: World) {
    match e
    case NotAllowed(_) => true
    case Unhealthy(_, node, time) => node == w.node && time == w.gate
    case Sent(_, node, time, reply, done, _) => node == w.node && time == w.gate && reply == w.reply && done == w.done
  }

  ghost predicate AllOf(trace: seq<Event>, first: nat, world: nat -> World) {
    forall k :: 0 <= k < |trace| ==> IsOf(trace[k], world(first + k))
  }

  lemma AllOfCons(e: Event, rest: seq<Event>, first: nat, world: nat -> World)
    requires IsOf(e, world(first)) && AllOf(rest, first + 1, world)
    ensures AllOf([e] + rest, first, world)
  {
    forall k | 0 < k <= |rest| ensures IsOf(([e] + rest)[k], world(first + k)) {
      assert IsOf(rest[k - 1], world(first + 1 + (k - 1)));
    }
  }

  lemma IterationIsOf(cfg: Config, r: Request, nodes: NodeMap, w: World)
    requires ValidRequest(r) && w.node in nodes
    ensures var it := Iterate(cfg, r, nodes, w);
      (it.Next? ==> IsOf(it.event, w)) && (it.Over? ==> |it.events| <= 1 && (it.events != [] ==> IsOf(it.events[0], w)))
  {
  }

  /** The k-th event of a run is what the world contributed to its k-th iteration. */
  lemma {:induction false} TraceIsOfWorld(cfg: Config, r: Request, nodes: NodeMap, world: nat -> World)
    requires ValidRequest(r) && ValidWorld(world, nodes)
    ensures AllOf(RunFrom(cfg, r, nodes, world).trace, r.attempt, world)
    decreases if r.attempt <= cfg.maxAttempts then cfg.maxAttempts + 1 - r.attempt else 0
  {
    var it := Iterate(cfg, r, nodes, world(r.attempt));
    IterationIsOf(cfg, r, nodes, world(r.attempt));
    if it.Next? {
      TraceIsOfWorld(cfg, it.request, it.nodes, world);
      AllOfCons(it.event, RunFrom(cfg, it.request, it.nodes, world).trace, r.attempt, world);
    }
  }

  // ---- deadline and permitted nodes ----

  /** No iteration starts at or after the request's deadline, and a time-out is raised only then. */
  ghost predicate InTime(cfg: Config, first: nat, run: Run, world: nat -> World) {
    cfg.requestTimeout.Some? ==>
      var deadline := cfg.startTime + cfg.requestTimeout.value;
      && (forall i :: first <= i < first + |run.trace| ==> world(i).start < deadline)
      && (run.outcome.TimedOut? ==> world(first + |run.trace|).start >= deadline)
  }

  lemma InTimeCons(cfg: Config, first: nat, e: Event, run: Run, world: nat -> World)
    requires InTime(cfg, first + 1, run, world)
    requires cfg.requestTimeout.Some? ==> world(first).start < cfg.startTime + cfg.requestTimeout.value
    ensures InTime(cfg, first, run.(trace := [e] + run.trace), world)
  {
    assert |[e] + run.trace| == 1 + |run.trace|;
  }

  lemma {:induction false} DeadlineKept(cfg: Config, r: Request, nodes: NodeMap, world: nat -> World)
    requires ValidRequest(r) && ValidWorld(world, nodes)
    ensures InTime(cfg, r.attempt, RunFrom(cfg, r, nodes, world), world)
    ensures RunFrom(cfg, r, nodes, world).outcome.TimedOut? ==> cfg.requestTimeout.Some?
    decreases if r.attempt <= cfg.maxAttempts then cfg.maxAttempts + 1 - r.attempt else 0
  {
    var it := Iterate(cfg, r, nodes, world(r.attempt));
    IterationDeadline(cfg, r, nodes, world(r.attempt));
    if it.Next? {
      DeadlineKept(cfg, it.request, it.nodes, world);
      InTimeCons(cfg, r.attempt, it.event, RunFrom(cfg, it.request, it.nodes, world), world);
    }
  }

  lemma IterationDeadline(cfg: Config, r: Request, nodes: NodeMap, w: World)
    requires ValidRequest(r) && w.node in nodes
    ensures var it := Iterate(cfg, r, nodes, w);
      && (it.Over? ==> |it.events| <= 1)
      && (it.Over? && it.outcome.TimedOut? ==>
            it.events == [] && cfg.requestTimeout.Some? && w.start >= cfg.startTime + cfg.requestTimeout.value)
      && (it.Next? || it.events != [] ==>
            cfg.requestTimeout.Some? ==> w.start < cfg.startTime + cfg.requestTimeout.value)
  {
  }

  /** A position is passed over as not allowed exactly when its account is not among the permitted ones. */
  predicate Permitted(trace: seq<Event>, list: seq<AccountId>, allowed: set<AccountId>) {
    forall k :: 0 <= k < |trace| ==>
      trace[k].position < |list|
      && (trace[k].NotAllowed? <==> allowed != {} && list[trace[k].position] !in allowed)
  }

  lemma {:induction false} OnlyPermittedNodes(cfg: Config, r: Request, nodes: NodeMap, world: nat -> World)
    requires ValidRequest(r) && ValidWorld(world, nodes) && r.list != []
    ensures Permitted(RunFrom(cfg, r, nodes, world).trace, r.list, cfg.allowed)
    decreases if r.attempt <= cfg.maxAttempts then cfg.maxAttempts + 1 - r.attempt else 0
  {
    var it := Iterate(cfg, r, nodes, world(r.attempt));
    IterationPermitted(cfg, r, nodes, world(r.attempt));
    if it.Next? {
      OnlyPermittedNodes(cfg, it.request, it.nodes, world);
      var rest := RunFrom(cfg, it.request, it.nodes, world).trace;
      assert forall k :: 0 < k <= |rest| ==> ([it.event] + rest)[k] == rest[k - 1];
      assert [it.event][0] == it.event;
    }
  }

  lemma IterationPermitted(cfg: Config, r: Request, nodes: NodeMap, w: World)
    requires ValidRequest(r) && w.node in nodes && r.list != []
    ensures var it := Iterate(cfg, r, nodes, w);
      && (it.Over? ==> Permitted(it.events, r.list, cfg.allowed))
      && (it.Next? ==> it.request.list == r.list && Permitted([it.event], r.list, cfg.allowed))
  {
  }

  // ---- positions in the node list ----

  lemma StepMod(i: nat, k: nat, n: nat)
    requires i < n
    ensures ((i + 1) % n + k) % n == (i + (k + 1)) % n
  {
    if i + 1 == n {
      DivModUnique(n, n, 1, 0);
      assert n + k == n * (k / n + 1) + k % n by { assert n * (k / n + 1) == n * (k / n) + n; }
      DivModUnique(n + k, n, k / n + 1, k % n);
    } else {
      DivModUnique(i + 1, n, 0, i + 1);
    }
  }

  /** The k-th event is at the k-th position after the starting one, round robin over n positions. */
  predicate RoundRobin(trace: seq<Event>, start: nat, n: nat)
    requires n > 0
  {
    forall k :: 0 <= k < |trace| ==> trace[k].position == (start + k) % n
  }

  /** "All nodes are unhealthy" is raised at the last position, where round robin has led. */
  predicate GivesUpAtEnd(run: Run, start: nat, n: nat)
    requires n > 0
  {
    run.outcome.AllUnhealthy? ==> run.outcome.position == n - 1 && (start + |run.trace|) % n == n - 1
  }

  lemma RoundRobinCons(e: Event, rest: seq<Event>, i: nat, n: nat)
    requires i < n && e.position == i && RoundRobin(rest, (i + 1) % n, n)
    ensures RoundRobin([e] + rest, i, n)
  {
    var t := [e] + rest;
    DivModUnique(i, n, 0, i);
    forall k | 0 <= k < |t| ensures t[k].position == (i + k) % n {
      if k > 0 {
        StepMod(i, k - 1, n);
        assert t[k] == rest[k - 1];
      }
    }
  }

  lemma GivesUpCons(e: Event, run: Run, i: nat, n: nat)
    requires i < n && GivesUpAtEnd(run, (i + 1) % n, n)
    ensures GivesUpAtEnd(run.(trace := [e] + run.trace), i, n)
  {
    StepMod(i, |run.trace|, n);
  }

  lemma IterationPosition(cfg: Config, r: Request, nodes: NodeMap, w: World)
    requires ValidRequest(r) && w.node in nodes && r.list != []
    ensures var it := Iterate(cfg, r, nodes, w);
      && (it.Over? ==> RoundRobin(it.events, r.index, |r.list|))
      && (it.Over? ==> GivesUpAtEnd(Run(it.events, it.nodes, it.outcome), r.index, |r.list|))
      && (it.Next? ==> it.event.position == r.index && it.request.list == r.list)
      && (it.Next? ==> it.request.index == (r.index + 1) % |r.list|)
  {
    DivModUnique(r.index, |r.list|, 0, r.index);
  }

  /** On a non-empty list, iterations work on the positions in turn, and giving up happens at the last one. */
  lemma {:induction false} Positions(cfg: Config, r: Request, nodes: NodeMap, world: nat -> World)
    requires ValidRequest(r) && ValidWorld(world, nodes) && r.list != []
    ensures RoundRobin(RunFrom(cfg, r, nodes, world).trace, r.index, |r.list|)
    ensures GivesUpAtEnd(RunFrom(cfg, r, nodes, world), r.index, |r.list|)
    decreases if r.attempt <= cfg.maxAttempts then cfg.maxAttempts + 1 - r.attempt else 0
  {
    var it := Iterate(cfg, r, nodes, world(r.attempt));
    IterationPosition(cfg, r, nodes, world(r.attempt));
    if it.Next? {
      Positions(cfg, it.request, it.nodes, world);
      var rest := RunFrom(cfg, it.request, it.nodes, world);
      RoundRobinCons(it.event, rest.trace, r.index, |r.list|);
      GivesUpCons(it.event, rest, r.index, |r.list|);
    }
  }

  lemma SmallDifference(x: nat, y: nat, n: nat)
    requires x < y < x + n
    ensures x % n != y % n
  {
    SameMod(y, x, n);
    DivModUnique(y - x, n, 0, y - x);
  }

  /** Position p was worked on at some iteration of the trace. */
  predicate Visited(trace: seq<Event>, p: nat) { exists k :: 0 <= k < |trace| && trace[k].position == p }

  lemma HitBy(start: nat, position: nat, n: nat) returns (d: nat)
    requires position < n
    ensures d < n && (start + d) % n == position
  {
    var q, s := start / n, start % n;
    assert start == n * q + s;
    d := if position >= s then position - s else position + n - s;
    if position >= s {
      DivModUnique(start + d, n, q, position);
    } else {
      assert n * (q + 1) == n * q + n;
      DivModUnique(start + d, n, q + 1, position);
    }
  }

  lemma WindowOnce(trace: seq<Event>, start: nat, n: nat, j: nat, position: nat)
    requires position < n && RoundRobin(trace, start, n) && j + n <= |trace|
    ensures Visited(trace[j..j + n], position)
    ensures forall k, m :: j <= k < m < j + n ==> trace[k].position != trace[m].position
  {
    forall k, m | j <= k < m < j + n ensures trace[k].position != trace[m].position {
      SmallDifference(start + k, start + m, n);
    }
    var d := HitBy(start + j, position, n);
    assert trace[j..j + n][d] == trace[j + d];
    assert start + (j + d) == start + j + d;
  }

  /** Any n consecutive iterations on a list of n work on every position exactly once. */
  lemma EveryPositionOnce(cfg: Config, r: Request, nodes: NodeMap, world: nat -> World, j: nat, position: nat)
    requires ValidRequest(r) && ValidWorld(world, nodes) && r.list != [] && position < |r.list|
    requires j + |r.list| <= |RunFrom(cfg, r, nodes, world).trace|
    ensures var trace := RunFrom(cfg, r, nodes, world).trace;
      && Visited(trace[j..j + |r.list|], position)
      && (forall k, m :: j <= k < m < j + |r.list| ==> trace[k].position != trace[m].position)
  {
    Positions(cfg, r, nodes, world);
    WindowOnce(RunFrom(cfg, r, nodes, world).trace, r.index, |r.list|, j, position);
  }

  // ---- "All nodes are unhealthy" ----

  lemma BelowTwice(x: nat, n: nat)
    requires n > 0 && x % n == n - 1 && x < 2 * n - 1
    ensures x == n - 1
  {
    var q := x / n;
    assert x == n * q + (n - 1);
    assert q >= 1 ==> n * q >= n;
  }

  lemma BackFromEnd(x: nat, n: nat, d: nat)
    requires n > 0 && x % n == n - 1 && d < n
    ensures x >= d && (x - d) % n == n - 1 - d
  {
    assert x == n * (x / n) + (n - 1);
    assert n * (x / n) >= 0;
    DivModUnique(x - d, n, x / n, n - 1 - d);
  }

  lemma CoversIff(trace: seq<Event>, start: nat, n: nat)
    requires start < n && RoundRobin(trace, start, n) && (start + |trace|) % n == n - 1
    ensures (forall p: nat :: p < n - 1 ==> Visited(trace, p)) <==> |trace| >= n - 1
  {
    var m := |trace|;
    if m >= n - 1 {
      forall p: nat | p < n - 1 ensures Visited(trace, p) {
        var d := n - 1 - p;
        BackFromEnd(start + m, n, d);
        assert trace[m - d].position == (start + (m - d)) % n;
      }
    } else {
      BelowTwice(start + m, n);
      forall k | 0 <= k < m ensures trace[k].position != 0 {
        DivModUnique(start + k, n, 0, start + k);
      }
      assert !Visited(trace, 0);
    }
  }

  /**
    "All nodes are unhealthy" is raised at the last position of the list. Every other position was
    worked on before in that run exactly when the run had already made at least |list|-1 iterations.
   */
  lemma UnhealthyCoversIff(cfg: Config, r: Request, nodes: NodeMap, world: nat -> World)
    requires ValidRequest(r) && ValidWorld(world, nodes) && r.list != []
    requires RunFrom(cfg, r, nodes, world).outcome.AllUnhealthy?
    ensures var trace := RunFrom(cfg, r, nodes, world).trace;
      (forall p: nat :: p < |r.list| - 1 ==> Visited(trace, p)) <==> |trace| >= |r.list| - 1
  {
    Positions(cfg, r, nodes, world);
    CoversIff(RunFrom(cfg, r, nodes, world).trace, r.index, |r.list|);
  }

  /** A run that starts at the head of the list never gives up before it tried every other position. */
  lemma UnhealthyFromHead(cfg: Config, r: Request, nodes: NodeMap, world: nat -> World, p: nat)
    requires ValidRequest(r) && ValidWorld(world, nodes) && r.list != [] && r.index == 0
    requires RunFrom(cfg, r, nodes, world).outcome.AllUnhealthy? && p < |r.list| - 1
    ensures Visited(RunFrom(cfg, r, nodes, world).trace, p)
  {
    var m, n := |RunFrom(cfg, r, nodes, world).trace|, |r.list|;
    Positions(cfg, r, nodes, world);
    if m < n - 1 {
      DivModUnique(m, n, 0, m);
    }
    UnhealthyCoversIff(cfg, r, nodes, world);
  }

  /** No iteration that a deadline could stop, and every node is out whenever it is looked at. */
  ghost predicate NothingHealthy(cfg: Config, nodes: NodeMap, world: nat -> World) {
    && ValidWorld(world, nodes)
    && (cfg.requestTimeout.Some? ==> forall i: nat :: world(i).start < cfg.startTime + cfg.requestTimeout.value)
    && (forall i: nat :: !Healthy(nodes[world(i).node], world(i).gate))
  }

  /** The run can get from its position to the end of the list, where it may use the node. */
  predicate CanReachEnd(cfg: Config, r: Request) {
    && r.list != [] && r.index < |r.list|
    && r.attempt + (|r.list| - 1 - r.index) <= cfg.maxAttempts
    && (cfg.allowed == {} || r.list[|r.list| - 1] in cfg.allowed)
  }

  lemma StillUnhealthy(cfg: Config, r: Request, nodes: NodeMap, world: nat -> World)
    requires ValidRequest(r) && NothingHealthy(cfg, nodes, world) && CanReachEnd(cfg, r)
    ensures var it := Iterate(cfg, r, nodes, world(r.attempt));
      && (r.index == |r.list| - 1 ==> it == Over([], it.nodes, AllUnhealthy(r.index)))
      && (r.index < |r.list| - 1 ==>
            && it.Next? && it.request == r.(index := r.index + 1, attempt := r.attempt + 1)
            && it.event.position == r.index && NothingHealthy(cfg, it.nodes, world))
  {
    if r.index + 1 < |r.list| { DivModUnique(r.index + 1, |r.list|, 0, r.index + 1); }
  }

  /** With nothing healthy, a run gives up at the end of the list without looking before its start. */
  lemma {:induction false} UnhealthyTooEarly(cfg: Config, r: Request, nodes: NodeMap, world: nat -> World)
    requires ValidRequest(r) && NothingHealthy(cfg, nodes, world) && CanReachEnd(cfg, r)
    ensures var run := RunFrom(cfg, r, nodes, world);
      && run.outcome == AllUnhealthy(|r.list| - 1) && |run.trace| == |r.list| - 1 - r.index
      && (forall p: nat :: p < r.index ==> !Visited(run.trace, p))
    decreases |r.list| - r.index
  {
    var it := Iterate(cfg, r, nodes, world(r.attempt));
    StillUnhealthy(cfg, r, nodes, world);
    if it.Next? {
      UnhealthyTooEarly(cfg, it.request, it.nodes, world);
      var rest := RunFrom(cfg, it.request, it.nodes, world).trace;
      forall p: nat | p < r.index ensures !Visited([it.event] + rest, p) {
        assert !Visited(rest, p);
        assert forall k :: 0 < k <= |rest| ==> ([it.event] + rest)[k] == rest[k - 1];
      }
    }
  }

  /** Where a run gave up, it could use the node, and it had an attempt left for it. */
  lemma {:induction false} GaveUpPermitted(cfg: Config, r: Request, nodes: NodeMap, world: nat -> World)
    requires ValidRequest(r) && ValidWorld(world, nodes) && r.list != []
    ensures var run := RunFrom(cfg, r, nodes, world);
      run.outcome.AllUnhealthy? ==>
        && r.attempt + |run.trace| <= cfg.maxAttempts && run.outcome.position < |r.list|
        && (cfg.allowed == {} || r.list[run.outcome.position] in cfg.allowed)
    decreases if r.attempt <= cfg.maxAttempts then cfg.maxAttempts + 1 - r.attempt else 0
  {
    var it := Iterate(cfg, r, nodes, world(r.attempt));
    if it.Next? { GaveUpPermitted(cfg, it.request, it.nodes, world); }
  }

  /** The run ends with "All nodes are unhealthy" although it never worked on some other position. */
  ghost predicate GivesUpTooEarly(cfg: Config, r: Request, nodes: NodeMap, world: nat -> World)
    requires ValidRequest(r)
  {
    && ValidWorld(world, nodes)
    && var run := RunFrom(cfg, r, nodes, world);
       run.outcome.AllUnhealthy? && exists p: nat :: p < |r.list| - 1 && !Visited(run.trace, p)
  }

  lemma TooEarlyNotFromHead(cfg: Config, r: Request, nodes: NodeMap, world: nat -> World)
    requires ValidRequest(r) && r.list != [] && GivesUpTooEarly(cfg, r, nodes, world)
    ensures r.index > 0 && CanReachEnd(cfg, r)
  {
    var trace := RunFrom(cfg, r, nodes, world).trace;
    Positions(cfg, r, nodes, world);
    GaveUpPermitted(cfg, r, nodes, world);
    UnhealthyCoversIff(cfg, r, nodes, world);
    BelowTwice(r.index + |trace|, |r.list|);
  }

  /** A world whose one node stays out. */
  lemma DeadWorld(cfg: Config) returns (nodes: NodeMap, world: nat -> World)
    ensures NothingHealthy(cfg, nodes, world)
  {
    var now := if cfg.requestTimeout.Some? then cfg.startTime + cfg.requestTimeout.value - 1.0 else 0.0;
    nodes := map[0 := NewNode(now + 1.0)];
    world := (i: nat) => World(now, None, 0, now, Response(StatusOk, Finished, 0), now);
  }

  /**
    Whether a run can give up before it has looked at every other position is decided by where it
    starts: exactly when that is not the head of the list, and the end of the list is within its
    attempts and permitted to it.
   */
  lemma UnhealthyTooEarlyIff(cfg: Config, r: Request)
    requires ValidRequest(r) && r.list != []
    ensures (exists nodes, world :: GivesUpTooEarly(cfg, r, nodes, world)) <==> r.index > 0 && CanReachEnd(cfg, r)
  {
    forall nodes, world | GivesUpTooEarly(cfg, r, nodes, world) ensures r.index > 0 && CanReachEnd(cfg, r) {
      TooEarlyNotFromHead(cfg, r, nodes, world);
    }
    if r.index > 0 && CanReachEnd(cfg, r) {
      var nodes, world := DeadWorld(cfg);
      UnhealthyTooEarly(cfg, r, nodes, world);
      assert !Visited(RunFrom(cfg, r, nodes, world).trace, 0);
      assert GivesUpTooEarly(cfg, r, nodes, world);
    }
  }

  // ---- back-off ----

  predicate AllBounded(nodes: NodeMap) { forall i :: i in nodes ==> Bounded(nodes[i]) }

  predicate FailedRetryably(e: Event) { e.Sent? && e.reply.TransportFailure? && Retryable(e.reply.error) }

  /** No send is earlier than the readmit time its node has in the given states. */
  predicate SendsAfter(trace: seq<Event>, nodes: NodeMap) {
    forall k :: 0 <= k < |trace| && trace[k].Sent? ==>
      trace[k].node in nodes && trace[k].time >= nodes[trace[k].node].readmitTime
  }

  /** After a retryable failure no later send goes to that node before its back-off has passed. */
  predicate Rests(trace: seq<Event>) {
    forall j, k :: 0 <= j < k < |trace| && FailedRetryably(trace[j]) && trace[k].Sent?
                   && trace[k].node == trace[j].node ==>
      trace[k].time >= trace[j].done + trace[j].backoff
  }

  lemma IterationNodes(cfg: Config, r: Request, nodes: NodeMap, w: World)
    requires ValidRequest(r) && w.node in nodes && AllBounded(nodes) && w.gate <= w.done
    ensures var it := Iterate(cfg, r, nodes, w);
      && AllBounded(it.nodes)
      && (forall id :: id in nodes ==> it.nodes[id].readmitTime >= nodes[id].readmitTime)
      && (it.Next? ==> SendsAfter([it.event], nodes))
      && (it.Over? ==> SendsAfter(it.events, nodes) && |it.events| <= 1)
      && (it.Next? && FailedRetryably(it.event) ==>
            it.nodes[it.event.node].readmitTime == it.event.done + it.event.backoff)
  {
    assert Bounded(nodes[w.node]);
  }

  lemma SendsCons(e: Event, rest: seq<Event>, nodes: NodeMap, after: NodeMap)
    requires SendsAfter([e], nodes) && SendsAfter(rest, after) && nodes.Keys == after.Keys
    requires forall id :: id in nodes ==> after[id].readmitTime >= nodes[id].readmitTime
    ensures SendsAfter([e] + rest, nodes)
  {
    assert [e][0] == e;
  }

  lemma RestsCons(e: Event, rest: seq<Event>, after: NodeMap)
    requires Rests(rest) && SendsAfter(rest, after)
    requires FailedRetryably(e) ==> e.node in after && after[e.node].readmitTime == e.done + e.backoff
    ensures Rests([e] + rest)
  {
  }

  /**
    In a run that has its nodes to itself, every send respects the readmit times, and a node that
    failed retryably rests for its new back-off before it is sent to again.
   */
  lemma {:induction false} FailedNodesRest(cfg: Config, r: Request, nodes: NodeMap, world: nat -> World)
    requires ValidRequest(r) && ValidWorld(world, nodes) && AllBounded(nodes)
    ensures SendsAfter(RunFrom(cfg, r, nodes, world).trace, nodes) && Rests(RunFrom(cfg, r, nodes, world).trace)
    decreases if r.attempt <= cfg.maxAttempts then cfg.maxAttempts + 1 - r.attempt else 0
  {
    var w := world(r.attempt);
    var it := Iterate(cfg, r, nodes, w);
    IterationNodes(cfg, r, nodes, w);
    if it.Next? {
      FailedNodesRest(cfg, it.request, it.nodes, world);
      var rest := RunFrom(cfg, it.request, it.nodes, world).trace;
      SendsCons(it.event, rest, nodes, it.nodes);
      RestsCons(it.event, rest, it.nodes);
    }
  }

  // ---- a run does to its nodes what its trace says ----

  function EventOn(e: Event, id: NodeId): seq<NodeEvent> {
    if !e.Sent? || e.node != id then []
    else if e.reply.Response? then [Success]
    else if Retryable(e.reply.error) then [Failure(e.done)]
    else []
  }

  function EventsOn(trace: seq<Event>, id: NodeId): seq<NodeEvent> {
    if trace == [] then [] else EventOn(trace[0], id) + EventsOn(trace[1..], id)
  }

  /** A node but for its use count, which no decision depends on. */
  function Health(n: NodeState): NodeState { n.(useCount := 0) }

  lemma {:induction false} AfterAllCons(n: NodeState, e: NodeEvent, es: seq<NodeEvent>)
    ensures AfterAll(n, [e] + es) == AfterAll(After(n, e), es)
  {
    var t := [e] + es;
    if es == [] {
      assert t == [e] && [e][..0] == [];
      assert AfterAll(n, []) == n;
    } else {
      assert t[..|t| - 1] == [e] + es[..|es| - 1];
      AfterAllCons(n, e, es[..|es| - 1]);
    }
  }

  lemma {:induction false} AfterAllHealth(n: NodeState, m: NodeState, es: seq<NodeEvent>)
    requires Health(n) == Health(m)
    ensures Health(AfterAll(n, es)) == Health(AfterAll(m, es))
  {
    if es != [] { AfterAllHealth(n, m, es[..|es| - 1]); }
  }

  /** Health after at most one event. */
  function HealthAfter(n: NodeState, es: seq<NodeEvent>): NodeState {
    if |es| == 1 then Health(After(n, es[0])) else Health(n)
  }

  lemma IterationHealth(cfg: Config, r: Request, nodes: NodeMap, w: World, id: NodeId)
    requires ValidRequest(r) && w.node in nodes && id in nodes
    ensures var it := Iterate(cfg, r, nodes, w); var e := if it.Next? then [it.event] else it.events;
      && |e| <= 1
      && Health(it.nodes[id]) == HealthAfter(nodes[id], if |e| == 1 then EventOn(e[0], id) else [])
  {
  }

  /** Every node ends a run in the state that the failures and successes on the trace lead to. */
  lemma {:induction false} TraceExplainsNodes(cfg: Config, r: Request, nodes: NodeMap, world: nat -> World, id: NodeId)
    requires ValidRequest(r) && ValidWorld(world, nodes) && id in nodes
    ensures var run := RunFrom(cfg, r, nodes, world);
      id in run.nodes && Health(run.nodes[id]) == Health(AfterAll(nodes[id], EventsOn(run.trace, id)))
    decreases if r.attempt <= cfg.maxAttempts then cfg.maxAttempts + 1 - r.attempt else 0
  {
    var w := world(r.attempt);
    var it := Iterate(cfg, r, nodes, w);
    IterationHealth(cfg, r, nodes, w, id);
    if it.Next? {
      TraceExplainsNodes(cfg, it.request, it.nodes, world, id);
      var rest := RunFrom(cfg, it.request, it.nodes, world);
      assert ([it.event] + rest.trace)[1..] == rest.trace;
      HeadEvent(nodes[id], it.nodes[id], EventOn(it.event, id), EventsOn(rest.trace, id));
    } else if it.events != [] {
      assert it.events[1..] == [];
      assert EventsOn(it.events, id) == EventOn(it.events[0], id) + [];
      HeadEvent(nodes[id], it.nodes[id], EventOn(it.events[0], id), []);
    }
  }

  lemma HeadEvent(n: NodeState, m: NodeState, e: seq<NodeEvent>, es: seq<NodeEvent>)
    requires |e| <= 1 && Health(m) == HealthAfter(n, e)
    ensures Health(AfterAll(m, es)) == Health(AfterAll(n, e + es))
  {
    if |e| == 1 {
      assert e + es == [e[0]] + es;
      AfterAllCons(n, e[0], es);
      AfterAllHealth(m, After(n, e[0]), es);
    } else {
      assert e + es == es;
      AfterAllHealth(m, n, es);
    }
  }

  /** The back-off a retryable failure gives a node in this state. */
  function NextBackoff(n: NodeState): real { Min(n.currentBackoff * 2.0, n.maxBackoff) }

  /** The node an event concerns, in the state the earlier events on it lead to (but for its use count). */
  ghost function NodeThen(trace: seq<Event>, nodes: NodeMap, j: nat): NodeState
    requires j < |trace| && !trace[j].NotAllowed? && trace[j].node in nodes
  {
    AfterAll(nodes[trace[j].node], EventsOn(trace[..j], trace[j].node))
  }

  /**
    A node was passed over exactly because it was not healthy then, sent to exactly because it was, and
    a failure is recorded with its back-off of then, doubled and cut.
   */
  ghost predicate ExplainedAt(trace: seq<Event>, nodes: NodeMap, j: nat)
    requires j < |trace| && !trace[j].NotAllowed?
  {
    var e := trace[j];
    && e.node in nodes
    && (e.Sent? <==> e.time >= NodeThen(trace, nodes, j).readmitTime)
    && (FailedRetryably(e) ==> e.backoff == NextBackoff(NodeThen(trace, nodes, j)))
  }

  ghost predicate Explained(trace: seq<Event>, nodes: NodeMap) {
    forall j :: 0 <= j < |trace| && !trace[j].NotAllowed? ==> ExplainedAt(trace, nodes, j)
  }

  lemma ExplainedCons(e: Event, rest: seq<Event>, nodes: NodeMap, after: NodeMap)
    requires Explained(rest, after) && nodes.Keys == after.Keys && Explained([e], nodes)
    requires forall id :: id in nodes ==> Health(after[id]) == HealthAfter(nodes[id], EventOn(e, id))
    ensures Explained([e] + rest, nodes)
  {
    var t := [e] + rest;
    forall j | 0 <= j < |t| && !t[j].NotAllowed? ensures ExplainedAt(t, nodes, j) {
      if j == 0 {
        assert t[..0] == [e][..0] && [e][0] == t[0];
        assert ExplainedAt([e], nodes, 0);
      } else {
        assert t[j] == rest[j - 1] && ExplainedAt(rest, after, j - 1);
        var id := t[j].node;
        assert t[..j][1..] == rest[..j - 1];
        HeadEvent(nodes[id], after[id], EventOn(e, id), EventsOn(rest[..j - 1], id));
      }
    }
  }

  lemma IterationExplained(cfg: Config, r: Request, nodes: NodeMap, w: World)
    requires ValidRequest(r) && w.node in nodes
    ensures var it := Iterate(cfg, r, nodes, w);
      && (it.Over? ==> |it.events| <= 1 && Explained(it.events, nodes))
      && (it.Next? ==> Explained([it.event], nodes))
  {
    assert EventsOn([], w.node) == [];
    assert AfterAll(nodes[w.node], []) == nodes[w.node];
  }

  /** Every event of a run is what the state of its node at that moment calls for. */
  lemma {:induction false} GateExplained(cfg: Config, r: Request, nodes: NodeMap, world: nat -> World)
    requires ValidRequest(r) && ValidWorld(world, nodes)
    ensures Explained(RunFrom(cfg, r, nodes, world).trace, nodes)
    decreases if r.attempt <= cfg.maxAttempts then cfg.maxAttempts + 1 - r.attempt else 0
  {
    var w := world(r.attempt);
    var it := Iterate(cfg, r, nodes, w);
    IterationExplained(cfg, r, nodes, w);
    if it.Next? {
      GateExplained(cfg, it.request, it.nodes, world);
      forall id | id in nodes ensures Health(it.nodes[id]) == HealthAfter(nodes[id], EventOn(it.event, id)) {
        IterationHealth(cfg, r, nodes, w, id);
      }
      ExplainedCons(it.event, RunFrom(cfg, it.request, it.nodes, world).trace, nodes, it.nodes);
    }
  }

  /** Event j is a retryable failure and event k a later send to the same node. */
  predicate SentAgain(t: seq<Event>, j: nat, k: nat) {
    j < k < |t| && FailedRetryably(t[j]) && t[k].Sent? && t[k].node == t[j].node
  }

  /** Event k is no earlier than t + min(2b, maxBackoff), t the time of failure j and b the node's back-off then. */
  ghost predicate WaitedFor(t: seq<Event>, nodes: NodeMap, j: nat, k: nat)
    requires SentAgain(t, j, k)
  {
    t[j].node in nodes && t[k].time >= t[j].done + NextBackoff(NodeThen(t, nodes, j))
  }

  lemma RestsAfterFailure(t: seq<Event>, nodes: NodeMap, j: nat, k: nat)
    requires Rests(t) && Explained(t, nodes) && SentAgain(t, j, k)
    ensures WaitedFor(t, nodes, j, k)
  {
    assert ExplainedAt(t, nodes, j);
  }

  /**
    After a retryable failure at time t on a node with back-off b, the next send of the run to that
    node is no earlier than t + min(2b, maxBackoff).
   */
  lemma FailureKeepsNodeOut(cfg: Config, r: Request, nodes: NodeMap, world: nat -> World, j: nat, k: nat)
    requires ValidRequest(r) && ValidWorld(world, nodes) && AllBounded(nodes)
    requires SentAgain(RunFrom(cfg, r, nodes, world).trace, j, k)
    ensures WaitedFor(RunFrom(cfg, r, nodes, world).trace, nodes, j, k)
  {
    FailedNodesRest(cfg, r, nodes, world);
    GateExplained(cfg, r, nodes, world);
    RestsAfterFailure(RunFrom(cfg, r, nodes, world).trace, nodes, j, k);
  }

  /** After k retryable failures and no answer from a node, its back-off is b doubled k times, cut at the maximum. */
  lemma BackoffAfterRun(cfg: Config, r: Request, nodes: NodeMap, world: nat -> World, id: NodeId)
    requires ValidRequest(r) && ValidWorld(world, nodes) && id in nodes && Bounded(nodes[id])
    requires var t := RunFrom(cfg, r, nodes, world).trace;
      forall k :: 0 <= k < |t| && t[k].Sent? && t[k].node == id ==> t[k].reply.TransportFailure?
    ensures var run := RunFrom(cfg, r, nodes, world);
      id in run.nodes && run.nodes[id].currentBackoff
        == DoubledUpTo(nodes[id].currentBackoff, Failures(EventsOn(run.trace, id)), nodes[id].maxBackoff)
  {
    var t := RunFrom(cfg, r, nodes, world).trace;
    TraceExplainsNodes(cfg, r, nodes, world, id);
    OnlyFailures(t, id);
    BackoffAfterFailures(nodes[id], EventsOn(t, id));
  }

  lemma {:induction false} OnlyFailures(t: seq<Event>, id: NodeId)
    requires forall k :: 0 <= k < |t| && t[k].Sent? && t[k].node == id ==> t[k].reply.TransportFailure?
    ensures forall i :: 0 <= i < |EventsOn(t, id)| ==> EventsOn(t, id)[i].Failure?
  {
    if t != [] { OnlyFailures(t[1..], id); }
  }
}

/** A consensus node's back-off: when it may be used again and how long it stays out after a failure. */
module Nodes {
  import opened Arith

  /** JavaScript numbers as reals: halving need not give a whole number of milliseconds. */
  datatype NodeState = NodeState(minBackoff: real, maxBackoff: real, currentBackoff: real, readmitTime: real,
                                 lastUsed: real, useCount: nat)

  function Min(x: real, y: real): real { if x <= y then x else y }

  function Max(x: real, y: real): real { if x >= y then x else y }

  function NewNode(now: real): NodeState { NodeState(8000.0, 3600000.0, 8000.0, now, now, 0) }

  /** A clone takes its maximum from the original's minimum. */
  function CloneNode(n: NodeState): NodeState { n.(maxBackoff := n.minBackoff) }

  function WithMin(n: NodeState, minBackoff: real): NodeState {
    n.(currentBackoff := if n.currentBackoff <= minBackoff then minBackoff else n.currentBackoff,
       minBackoff := minBackoff)
  }

  function WithMax(n: NodeState, maxBackoff: real): NodeState {
    n.(currentBackoff := if n.currentBackoff <= maxBackoff then maxBackoff else n.currentBackoff,
       maxBackoff := maxBackoff)
  }

  function Used(n: NodeState): NodeState { n.(useCount := n.useCount + 1) }

  predicate Healthy(n: NodeState, now: real) { n.readmitTime <= now }

  function Increased(n: NodeState, now: real): NodeState {
    var b := Min(n.currentBackoff * 2.0, n.maxBackoff);
    n.(currentBackoff := b, readmitTime := now + b)
  }

  function Decreased(n: NodeState): NodeState {
    n.(currentBackoff := Max(n.currentBackoff / 2.0, n.minBackoff))
  }

  // ---- bounds ----

  predicate Bounded(n: NodeState) { 0.0 <= n.minBackoff <= n.currentBackoff <= n.maxBackoff }

  /** What a node goes through. */
  datatype NodeEvent = Failure(at: real) | Success | SetMin(minBackoff: real) | Use

  function After(n: NodeState, e: NodeEvent): NodeState {
    match e
    case Failure(at) => Increased(n, at)
    case Success => Decreased(n)
    case SetMin(m) => WithMin(n, m)
    case Use => Used(n)
  }

  function AfterAll(n: NodeState, es: seq<NodeEvent>): NodeState {
    if es == [] then n else After(AfterAll(n, es[..|es| - 1]), es[|es| - 1])
  }

  /** A new minimum keeps the bounds exactly when it is not above the maximum (nor negative). */
  lemma SetMinBoundedIff(n: NodeState, m: real)
    requires Bounded(n)
    ensures Bounded(WithMin(n, m)) <==> 0.0 <= m <= n.maxBackoff
  {
  }

  /** A new maximum keeps them exactly when the current back-off is not above it. */
  lemma SetMaxBoundedIff(n: NodeState, m: real)
    requires Bounded(n)
    ensures Bounded(WithMax(n, m)) <==> n.currentBackoff <= m
  {
  }

  /** A clone has consistent bounds exactly when the original's back-off was at its minimum. */
  lemma CloneBoundedIff(n: NodeState)
    requires Bounded(n)
    ensures Bounded(CloneNode(n)) <==> n.currentBackoff == n.minBackoff
  {
  }

  lemma EventBounded(n: NodeState, e: NodeEvent)
    requires Bounded(n) && (e.SetMin? ==> 0.0 <= e.minBackoff <= n.maxBackoff)
    ensures Bounded(After(n, e)) && After(n, e).maxBackoff == n.maxBackoff
  {
  }

  /** Any history of failures, successes, uses and admissible new minima keeps the bounds. */
  lemma {:induction false} HistoryBounded(n: NodeState, es: seq<NodeEvent>)
    requires Bounded(n)
    requires forall i :: 0 <= i < |es| && es[i].SetMin? ==> 0.0 <= es[i].minBackoff <= n.maxBackoff
    ensures Bounded(AfterAll(n, es)) && AfterAll(n, es).maxBackoff == n.maxBackoff
  {
    if es != [] {
      HistoryBounded(n, es[..|es| - 1]);
      EventBounded(AfterAll(n, es[..|es| - 1]), es[|es| - 1]);
    }
  }

  /** The number of failures in a history. */
  function Failures(es: seq<NodeEvent>): nat {
    if es == [] then 0 else Failures(es[..|es| - 1]) + if es[|es| - 1].Failure? then 1 else 0
  }

  /** b doubled k times, one failure after another. */
  function Doubled(b: real, k: nat): real {
    if k == 0 then b else 2.0 * Doubled(b, k - 1)
  }

  /** The same in closed form, as `Math.pow` gives it. */
  function TimesPower2(b: real, k: nat): real { b * Pow(2, k) as real }

  lemma {:induction false} DoubledIsPower(b: real, k: nat)
    ensures Doubled(b, k) == TimesPower2(b, k)
  {
    if k == 0 {
      assert Pow(2, 0) == 1;
    } else {
      DoubledIsPower(b, k - 1);
      assert Pow(2, k) as real == 2.0 * Pow(2, k - 1) as real;
    }
  }

  lemma {:induction false} DoubledGrows(b: real, k: nat)
    requires b >= 0.0
    ensures 0.0 <= b <= Doubled(b, k) <= Doubled(b, k + 1)
  {
    if k > 0 { DoubledGrows(b, k - 1); }
  }

  /** b doubled k times, cut at the maximum m. */
  function DoubledUpTo(b: real, k: nat, m: real): real { Min(Doubled(b, k), m) }

  lemma DoubledNext(b: real, k: nat, m: real)
    requires b >= 0.0 && m >= 0.0
    ensures Min(DoubledUpTo(b, k, m) * 2.0, m) == DoubledUpTo(b, k + 1, m)
  {
    DoubledGrows(b, k);
  }

  /** After k failures and no success the back-off is b doubled k times, cut at the maximum. */
  lemma {:induction false} BackoffAfterFailures(n: NodeState, es: seq<NodeEvent>)
    requires Bounded(n)
    requires forall i :: 0 <= i < |es| ==> es[i].Failure? || es[i].Use?
    ensures AfterAll(n, es).currentBackoff == DoubledUpTo(n.currentBackoff, Failures(es), n.maxBackoff)
    ensures AfterAll(n, es).maxBackoff == n.maxBackoff
    ensures |es| > 0 && es[|es| - 1].Failure? ==>
      AfterAll(n, es).readmitTime == es[|es| - 1].at + AfterAll(n, es).currentBackoff
  {
    if es != [] {
      var init := es[..|es| - 1];
      BackoffAfterFailures(n, init);
      DoubledNext(n.currentBackoff, Failures(init), n.maxBackoff);
    }
  }

  /** b halved k times, but never below the minimum m. */
  function HalvedDownTo(b: real, k: nat, m: real): real {
    PowPositive(2, k);
    Max(b / Pow(2, k) as real, m)
  }

  lemma HalvedNext(b: real, p: real, m: real)
    requires p > 0.0 && m >= 0.0
    ensures Max(Max(b / p, m) / 2.0, m) == Max(b / (2.0 * p), m)
  {
    assert b / (2.0 * p) == b / p / 2.0;
  }

  lemma HalvedStep(b: real, k: nat, m: real)
    requires m >= 0.0
    ensures Max(HalvedDownTo(b, k, m) / 2.0, m) == HalvedDownTo(b, k + 1, m)
  {
    PowPositive(2, k);
    HalvedNext(b, Pow(2, k) as real, m);
    assert Pow(2, k + 1) as real == 2.0 * Pow(2, k) as real;
  }

  /** After k successes and no failure the back-off is b / 2^k, but not below the minimum; the node is out no longer. */
  lemma {:induction false} BackoffAfterSuccesses(n: NodeState, k: nat)
    requires Bounded(n)
    ensures var es := seq(k, i => Success);
      AfterAll(n, es) == n.(currentBackoff := HalvedDownTo(n.currentBackoff, k, n.minBackoff))
  {
    if k == 0 {
      assert Pow(2, 0) as real == 1.0;
      assert n.currentBackoff / 1.0 == n.currentBackoff;
    } else {
      assert seq(k, i => Success)[..k - 1] == seq(k - 1, i => Success);
      BackoffAfterSuccesses(n, k - 1);
      HalvedStep(n.currentBackoff, k - 1, n.minBackoff);
    }
  }

  /** A node just built: out of use for 16 s after its first failure, for an hour from the ninth on. */
  lemma NewNodeBackoff(now: real, es: seq<NodeEvent>)
    requires forall i :: 0 <= i < |es| ==> es[i].Failure? || es[i].Use?
    ensures AfterAll(NewNode(now), es).currentBackoff == Min(8000.0 * Pow(2, Failures(es)) as real, 3600000.0)
  {
    BackoffAfterFailures(NewNode(now), es);
    DoubledIsPower(8000.0, Failures(es));
  }

  /** A new minimum becomes the back-off of a node that had not backed off further, and leaves others alone. */
  lemma NewMinimum(n: NodeState, m: real)
    ensures WithMin(n, m) == NodeState(m, n.maxBackoff, Max(n.currentBackoff, m), n.readmitTime, n.lastUsed, n.useCount)
  {
  }

  /** A new maximum not below the back-off becomes the back-off, and a lower one leaves the back-off above it. */
  lemma NewMaximum(n: NodeState, m: real)
    ensures WithMax(n, m) == NodeState(n.minBackoff, m, Max(n.currentBackoff, m), n.readmitTime, n.lastUsed, n.useCount)
  {
  }

  /** A success right after a failure undoes the doubling exactly when it was not cut, or at the minimum. */
  lemma SuccessUndoesFailureIff(n: NodeState, now: real)
    requires Bounded(n)
    ensures Decreased(Increased(n, now)).currentBackoff == n.currentBackoff <==>
      (2.0 * n.currentBackoff <= n.maxBackoff || n.currentBackoff == n.minBackoff)
  {
  }

  class ManagedNode {
    var minBackoff: real
    var maxBackoff: real
    var currentBackoff: real
    var readmitTime: real
    var lastUsed: real
    var useCount: nat

    function State(): NodeState
      reads this
    {
      NodeState(minBackoff, maxBackoff, currentBackoff, readmitTime, lastUsed, useCount)
    }

    constructor (now: real)
      ensures State() == NewNode(now) && Bounded(State())
    {
      minBackoff, maxBackoff, currentBackoff := 8000.0, 3600000.0, 8000.0;
      readmitTime, lastUsed, useCount := now, now, 0;
    }

    constructor Clone(node: ManagedNode)
      ensures State() == CloneNode(node.State())
    {
      minBackoff, maxBackoff, currentBackoff := node.minBackoff, node.minBackoff, node.currentBackoff;
      readmitTime, lastUsed, useCount := node.readmitTime, node.lastUsed, node.useCount;
    }

    method SetMinBackoff(minBackoff: real)
      modifies this
      ensures State() == WithMin(old(State()), minBackoff)
      ensures Bounded(old(State())) && 0.0 <= minBackoff <= old(maxBackoff) ==> Bounded(State())
    {
      if currentBackoff <= minBackoff {
        currentBackoff := minBackoff;
      }
      this.minBackoff := minBackoff;
    }

    method SetMaxBackoff(maxBackoff: real)
      modifies this
      ensures State() == WithMax(old(State()), maxBackoff)
    {
      if currentBackoff <= maxBackoff {
        currentBackoff := maxBackoff;
      }
      this.maxBackoff := maxBackoff;
    }

    /** The channel itself is not part of this model. */
    method GetChannel()
      modifies this`useCount
      ensures State() == Used(old(State()))
    {
      useCount := useCount + 1;
    }

    method IsHealthy(now: real) returns (healthy: bool)
      ensures healthy == Healthy(State(), now)
    {
      healthy := readmitTime <= now;
    }

    method IncreaseBackoff(now: real)
      modifies this
      ensures State() == Increased(old(State()), now)
      ensures Bounded(old(State())) ==> Bounded(State()) && !(currentBackoff < old(currentBackoff))
    {
      currentBackoff := Min(currentBackoff * 2.0, maxBackoff);
      readmitTime := now + currentBackoff;
    }

    method DecreaseBackoff()
      modifies this
      ensures State() == Decreased(old(State()))
      ensures Bounded(old(State())) ==> Bounded(State()) && currentBackoff <= old(currentBackoff)
    {
      currentBackoff := Max(currentBackoff / 2.0, minBackoff);
    }
  }
}

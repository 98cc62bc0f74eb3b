/** Timestamps in seconds and nanoseconds: arithmetic, text, and the generator that never repeats one. */
module Timestamps {
  import opened Wrappers
  import opened Arith
  import opened Text

  const MAX_NS: int := 1_000_000_000

  datatype Timestamp = Timestamp(seconds: int, nanos: int) {
    predicate Longs() { IsLong(seconds) && IsLong(nanos) }

    predicate Normalised() { 0 <= nanos < MAX_NS }

    function Total(): int { seconds * MAX_NS + nanos }
  }

  /** `Long.div` and `Long.mod` truncate toward zero. */
  function TruncDiv(x: int, y: int): int
    requires y > 0
  {
    if x < 0 then -(-x / y) else x / y
  }

  function TruncMod(x: int, y: int): int
    requires y > 0
  {
    if x < 0 then -(-x % y) else x % y
  }

  function PlusNanos(t: Timestamp, nanos: int): Timestamp {
    var ns := Wrap64(t.nanos + nanos);
    Timestamp(Wrap64(t.seconds + TruncDiv(ns, MAX_NS)), TruncMod(ns, MAX_NS))
  }

  function CompareLong(x: int, y: int): int { if x < y then -1 else if x > y then 1 else 0 }

  function Compare(a: Timestamp, b: Timestamp): int {
    var c := CompareLong(a.seconds, b.seconds);
    if c != 0 then c else CompareLong(a.nanos, b.nanos)
  }

  function LongText(x: int): string { if x < 0 then "-" + DecString(-x) else DecString(x) }

  function ToString(t: Timestamp): string { LongText(t.seconds) + ("." + PadStart(LongText(t.nanos), 9)) }

  // ---- arithmetic ----

  /** Neither of the two 64-bit additions wraps. */
  predicate NoOverflow(t: Timestamp, nanos: int) {
    IsLong(t.nanos + nanos) && IsLong(t.seconds + TruncDiv(t.nanos + nanos, MAX_NS))
  }

  /** The exact total is kept exactly when no addition wraps. */
  lemma PlusNanosTotalIff(t: Timestamp, nanos: int)
    requires t.Longs() && IsLong(nanos)
    ensures PlusNanos(t, nanos).Total() == t.Total() + nanos <==> NoOverflow(t, nanos)
  {
    var sum := t.nanos + nanos;
    var ns := Wrap64(sum);
    WrapFits(sum);
    assert ns == sum || ns == sum - TWO64 || ns == sum + TWO64;
    var q := TruncDiv(ns, MAX_NS);
    assert ns == q * MAX_NS + TruncMod(ns, MAX_NS);
    WrapFits(t.seconds + q);
    var s := Wrap64(t.seconds + q);
    assert s == t.seconds + q || s == t.seconds + q - TWO64 || s == t.seconds + q + TWO64;
  }

  /** The result is normalised exactly when the (wrapped) nanosecond sum is not negative. */
  lemma PlusNanosNormalisedIff(t: Timestamp, nanos: int)
    ensures PlusNanos(t, nanos).Normalised() <==> Wrap64(t.nanos + nanos) >= 0 || Wrap64(t.nanos + nanos) % MAX_NS == 0
  {
    var ns := Wrap64(t.nanos + nanos);
    if ns < 0 { SameMod(ns, -(-ns % MAX_NS), MAX_NS); }
  }

  /** A normalised timestamp is determined by its total. */
  lemma TotalInjective(a: Timestamp, b: Timestamp)
    requires a.Normalised() && b.Normalised()
    ensures a.Total() == b.Total() <==> a == b
  {
    DivModUnique(a.Total(), MAX_NS, a.seconds, a.nanos);
    DivModUnique(b.Total(), MAX_NS, b.seconds, b.nanos);
  }

  /** Adding in two steps or in one is the same, forwards in time and within 64 bits. */
  lemma PlusNanosAdditive(t: Timestamp, a: nat, b: nat)
    requires t.Longs() && t.Normalised() && NoOverflow(t, a + b)
    ensures PlusNanos(PlusNanos(t, a), b) == PlusNanos(t, a + b)
  {
    var u := PlusNanos(t, a);
    StepWithin(t, a, b);
    PlusNanosTotalIff(t, a);
    PlusNanosTotalIff(u, b);
    PlusNanosTotalIff(t, a + b);
    WrapFits(t.nanos + a);
    WrapFits(u.nanos + b);
    WrapFits(t.nanos + (a + b));
    PlusNanosNormalisedIff(u, b);
    PlusNanosNormalisedIff(t, a + b);
    TotalInjective(PlusNanos(u, b), PlusNanos(t, a + b));
  }

  lemma StepWithin(t: Timestamp, a: nat, b: nat)
    requires t.Longs() && t.Normalised() && NoOverflow(t, a + b)
    ensures NoOverflow(t, a) && IsLong(a) && IsLong(b) && IsLong(a + b)
    ensures PlusNanos(t, a).Longs() && PlusNanos(t, a).Normalised() && NoOverflow(PlusNanos(t, a), b)
  {
    var x, y := t.nanos + a, t.nanos + a + b;
    assert 0 <= x / MAX_NS <= y / MAX_NS;
    WrapFits(x);
    WrapFits(t.seconds + x / MAX_NS);
    var r := x % MAX_NS;
    assert y == (x / MAX_NS) * MAX_NS + (r + b);
    DivModUnique(y, MAX_NS, x / MAX_NS + (r + b) / MAX_NS, (r + b) % MAX_NS);
  }

  /** On normalised timestamps the field-by-field comparison is the comparison of totals. */
  lemma CompareIsByTotal(a: Timestamp, b: Timestamp)
    requires a.Normalised() && b.Normalised()
    ensures Compare(a, b) == if a.Total() < b.Total() then -1 else if a.Total() > b.Total() then 1 else 0
  {
  }

  // ---- text ----

  predicate NotDot(c: char) { c != '.' }

  lemma SplitAtDot(s: string, t: string, u: string, v: string)
    requires All(NotDot, s) && All(NotDot, t) && s + ("." + u) == t + ("." + v)
    ensures s == t && u == v
  {
    RunStops(NotDot, s, "." + u);
    RunStops(NotDot, t, "." + v);
    assert ("." + u)[1..] == u && ("." + v)[1..] == v;
  }

  lemma LongTextShape(x: int)
    ensures LongText(x) != "" && All(NotDot, LongText(x)) && (LongText(x)[0] == '-' <==> x < 0)
    ensures x < 0 ==> LongText(x)[1..] == DecString(-x) && AllDigits(DecString(-x)) && DecValue(DecString(-x)) == -x
    ensures x >= 0 ==> AllDigits(DecString(x)) && DecValue(LongText(x)) == x
  {
    DecStringValue(if x < 0 then -x else x);
  }

  lemma LongTextInjective(x: int, y: int)
    requires LongText(x) == LongText(y)
    ensures x == y
  {
    LongTextShape(x);
    LongTextShape(y);
  }

  lemma TextParts(t: Timestamp, u: Timestamp)
    requires ToString(t) == ToString(u)
    ensures LongText(t.seconds) == LongText(u.seconds)
    ensures PadStart(LongText(t.nanos), 9) == PadStart(LongText(u.nanos), 9)
  {
    NoDotInLong(t.seconds);
    NoDotInLong(u.seconds);
    SplitAtDot(LongText(t.seconds), LongText(u.seconds),
               PadStart(LongText(t.nanos), 9), PadStart(LongText(u.nanos), 9));
  }

  lemma NoDotInLong(x: int)
    ensures All(NotDot, LongText(x))
  {
    LongTextShape(x);
  }

  /** A normalised timestamp prints its seconds, a dot, and exactly nine digits of nanoseconds. */
  lemma TextFormat(t: Timestamp)
    requires t.Normalised() && t.seconds >= 0
    ensures var n := |ToString(t)| - 10;
      && n > 0 && ToString(t)[n] == '.' && AllDigits(ToString(t)[..n]) && DecValue(ToString(t)[..n]) == t.seconds
      && AllDigits(ToString(t)[n + 1..]) && DecValue(ToString(t)[n + 1..]) == t.nanos
  {
    var x, y := LongText(t.seconds), PadStart(LongText(t.nanos), 9);
    LongTextShape(t.seconds);
    assert Pow(10, 9) == MAX_NS;
    PadStartValue(t.nanos, 9);
    assert ToString(t)[..|x|] == x && ToString(t)[|x| + 1..] == y;
  }

  /** Different timestamps have different texts. */
  lemma ToStringInjective(a: Timestamp, b: Timestamp)
    requires a.nanos >= 0 && b.nanos >= 0
    ensures ToString(a) == ToString(b) <==> a == b
  {
    if ToString(a) == ToString(b) {
      TextParts(a, b);
      LongTextInjective(a.seconds, b.seconds);
      PadStartValue(a.nanos, 9);
      PadStartValue(b.nanos, 9);
    }
  }

  // ---- dates and protobuf: 32-bit traps ----

  /** `Long.toInt` keeps the low 32 bits, as a signed number. */
  function ToInt(x: int): int { (x + 0x8000_0000) % 0x1_0000_0000 - 0x8000_0000 }

  predicate IsInt32(x: int) { -0x8000_0000 <= x < 0x8000_0000 }

  /** `_fromProtobuf` of `_toProtobuf`. */
  function ThroughProtobuf(t: Timestamp): Timestamp { Timestamp(ToInt(t.seconds), ToInt(t.nanos)) }

  /** The signed 32-bit number that agrees with x modulo 2^32. */
  lemma ToIntIs(x: int)
    ensures IsInt32(ToInt(x)) && (x - ToInt(x)) % 0x1_0000_0000 == 0
  {
  }

  /** Seconds survive the protobuf round trip exactly until 2038. */
  lemma ProtobufRoundTripIff(t: Timestamp)
    requires t.Normalised()
    ensures ThroughProtobuf(t) == t <==> IsInt32(t.seconds)
  {
  }

  function FromDate(millis: int): Timestamp { PlusNanos(Timestamp(0, 0), Wrap64(millis * 1_000_000)) }

  function ToDate(t: Timestamp): int { ToInt(t.seconds) * 1000 + ToInt(t.nanos) / 1_000_000 }

  /** A date is that many milliseconds, in nanoseconds; and a date is read off as whole milliseconds, rounded down. */
  lemma DateTotals(millis: int, t: Timestamp)
    requires IsLong(millis * 1_000_000)
    ensures FromDate(millis).Total() == millis * 1_000_000
    ensures IsInt32(t.seconds) && IsInt32(t.nanos) ==>
      ToDate(t) * 1_000_000 <= t.Total() < (ToDate(t) + 1) * 1_000_000
  {
    var ns := millis * 1_000_000;
    WrapFits(ns);
    WrapFits(0 + ns);
    WrapFits(0 + TruncDiv(ns, MAX_NS));
    PlusNanosTotalIff(Timestamp(0, 0), ns);
  }

  /** Whole seconds and the milliseconds left over, both towards zero. */
  lemma FromDateIs(millis: int) returns (s: int, m: int)
    requires IsLong(millis * 1_000_000)
    ensures s == TruncDiv(millis, 1000) && -1000 < m < 1000 && millis == s * 1000 + m
    ensures FromDate(millis) == Timestamp(s, m * 1_000_000)
  {
    var ns := millis * 1_000_000;
    WrapFits(ns);
    var a := if millis < 0 then -millis else millis;
    var q, r := a / 1000, a % 1000;
    assert a * 1_000_000 == MAX_NS * q + r * 1_000_000;
    DivModUnique(a * 1_000_000, MAX_NS, q, r * 1_000_000);
    s, m := if millis < 0 then -q else q, if millis < 0 then -r else r;
    assert TruncDiv(ns, MAX_NS) == s;
    WrapFits(s);
  }

  /** A date within 64-bit nanoseconds comes back exactly when its seconds fit in 32 bits. */
  lemma DateRoundTripIff(millis: int)
    requires IsLong(millis * 1_000_000)
    ensures ToDate(FromDate(millis)) == millis <==> IsInt32(TruncDiv(millis, 1000))
  {
    var s, m := FromDateIs(millis);
    assert ToInt(m * 1_000_000) == m * 1_000_000;
    DivModUnique(m * 1_000_000, 1_000_000, m, 0);
  }

  // ---- generation ----

  /** One reading of the clock (milliseconds, after 1970) and of the two random numbers. */
  datatype Draw = Draw(clock: int, jitter: int, nanos: int)

  predicate IsDraw(d: Draw) { d.clock >= 8000 && 3000 <= d.jitter < 8000 && 0 <= d.nanos < 1_000_000 }

  function Candidate(d: Draw, hasJitter: bool, timeDrift: int): (t: Timestamp)
    requires IsDraw(d)
    ensures t.Normalised()
  {
    var now := d.clock - if hasJitter then d.jitter else 0;
    Timestamp(now / 1000 + timeDrift, now % 1000 * 1_000_000 + d.nanos)
  }

  predicate AreDraws(draws: seq<Draw>) { forall i :: 0 <= i < |draws| ==> IsDraw(draws[i]) }

  /** The timestamps a call tries: after a clash it calls itself without arguments, so with jitter. */
  function Candidates(hasJitter: bool, draws: seq<Draw>, timeDrift: int): (ts: seq<Timestamp>)
    requires AreDraws(draws)
    ensures |ts| == |draws| && forall i :: 0 <= i < |ts| ==> ts[i].Normalised()
  {
    seq(|draws|, i requires 0 <= i < |draws| => Candidate(draws[i], hasJitter || i > 0, timeDrift))
  }

  lemma CandidatesTail(hasJitter: bool, draws: seq<Draw>, timeDrift: int)
    requires AreDraws(draws) && draws != []
    ensures Candidates(hasJitter, draws, timeDrift)[1..] == Candidates(true, draws[1..], timeDrift)
  {
  }

  /** The first candidate that was not issued before. */
  function FirstNew(ts: seq<Timestamp>, issued: set<Timestamp>): (r: Option<Timestamp>)
    ensures r.Some? ==> r.value in ts && r.value !in issued
    ensures r.None? <==> forall i :: 0 <= i < |ts| ==> ts[i] in issued
  {
    if ts == [] then None
    else if ts[0] !in issued then Some(ts[0])
    else
      var r := FirstNew(ts[1..], issued);
      assert ts == [ts[0]] + ts[1..];
      r
  }

  /**
    The timestamp of draw i, in all its nanoseconds: the clock less the jitter, and the random
    nanoseconds, and the drift in seconds. A call without jitter has it from the second draw on.
   */
  predicate IsDrawn(t: Timestamp, draws: seq<Draw>, i: nat, hasJitter: bool, timeDrift: int) {
    && t.Normalised() && i < |draws|
    && t.Total() == (draws[i].clock - if hasJitter || i > 0 then draws[i].jitter else 0) * 1_000_000
                    + draws[i].nanos + timeDrift * 1_000_000_000
  }

  lemma CandidateIsDrawn(draws: seq<Draw>, i: nat, hasJitter: bool, timeDrift: int)
    requires AreDraws(draws) && i < |draws|
    ensures IsDrawn(Candidates(hasJitter, draws, timeDrift)[i], draws, i, hasJitter, timeDrift)
  {
    var now := draws[i].clock - if hasJitter || i > 0 then draws[i].jitter else 0;
    assert now == 1000 * (now / 1000) + now % 1000;
  }

  /** A returned timestamp is that of some draw, all earlier ones of which had been issued before. */
  lemma FirstNewIsDrawn(draws: seq<Draw>, hasJitter: bool, timeDrift: int, issued: set<Timestamp>, t: Timestamp)
    returns (i: nat)
    requires AreDraws(draws) && FirstNew(Candidates(hasJitter, draws, timeDrift), issued) == Some(t)
    ensures IsDrawn(t, draws, i, hasJitter, timeDrift) && t !in issued
    ensures forall j, u :: 0 <= j < i && IsDrawn(u, draws, j, hasJitter, timeDrift) ==> u in issued
  {
    var ts := Candidates(hasJitter, draws, timeDrift);
    i := FirstNewAt(ts, issued);
    CandidateIsDrawn(draws, i, hasJitter, timeDrift);
    forall j, u | 0 <= j < i && IsDrawn(u, draws, j, hasJitter, timeDrift) ensures u in issued {
      CandidateIsDrawn(draws, j, hasJitter, timeDrift);
      TotalInjective(u, ts[j]);
    }
  }

  lemma {:induction false} FirstNewAt(ts: seq<Timestamp>, issued: set<Timestamp>) returns (i: nat)
    requires FirstNew(ts, issued).Some?
    ensures i < |ts| && FirstNew(ts, issued) == Some(ts[i]) && ts[i] !in issued
    ensures forall j :: 0 <= j < i ==> ts[j] in issued
  {
    if ts[0] !in issued {
      i := 0;
    } else {
      var k := FirstNewAt(ts[1..], issued);
      i := k + 1;
      assert forall j :: 0 < j < i ==> ts[j] == ts[1..][j - 1];
    }
  }

  class Generator {
    var generatedIds: set<string>
    ghost var issued: set<Timestamp>

    /** The set of texts is the set of the issued timestamps' texts. */
    ghost predicate Valid()
      reads this
    {
      && (forall t :: t in issued ==> t.Normalised())
      && generatedIds == set t | t in issued :: ToString(t)
    }

    constructor ()
      ensures Valid() && issued == {}
    {
      generatedIds, issued := {}, {};
    }

    /**
      The drift is the client cache's at the time of the call. None stands for a call that is still
      drawing when the given readings are used up.
     */
    method Generate(hasJitter: bool, draws: seq<Draw>, timeDrift: int) returns (r: Option<Timestamp>)
      requires Valid() && AreDraws(draws)
      modifies this
      ensures Valid()
      ensures r == FirstNew(Candidates(hasJitter, draws, timeDrift), old(issued))
      ensures issued == if r.Some? then old(issued) + {r.value} else old(issued)
      ensures r.Some? ==> exists i: nat :: IsDrawn(r.value, draws, i, hasJitter, timeDrift)
      decreases |draws|
    {
      if draws == [] {
        return None;
      }
      var timestamp := Candidate(draws[0], hasJitter, timeDrift);
      CandidatesTail(hasJitter, draws, timeDrift);
      KnownIff(issued, timestamp);
      ghost var before := issued;
      if ToString(timestamp) in generatedIds {
        r := Generate(true, draws[1..], timeDrift);
      } else {
        generatedIds := generatedIds + {ToString(timestamp)};
        issued := issued + {timestamp};
        r := Some(timestamp);
      }
      if r.Some? { ghost var i := FirstNewIsDrawn(draws, hasJitter, timeDrift, before, r.value); }
    }
  }

  /** The set lookup by text recognises exactly the timestamps issued before. */
  lemma KnownIff(issued: set<Timestamp>, t: Timestamp)
    requires t.Normalised() && forall u :: u in issued ==> u.Normalised()
    ensures ToString(t) in (set u | u in issued :: ToString(u)) <==> t in issued
  {
    forall u | u in issued ensures ToString(u) == ToString(t) <==> u == t {
      ToStringInjective(u, t);
    }
  }

  /** A call, with the time drift set when it is made. */
  datatype Call = Call(hasJitter: bool, draws: seq<Draw>, timeDrift: int)

  predicate AreCalls(calls: seq<Call>) { forall i :: 0 <= i < |calls| ==> AreDraws(calls[i].draws) }

  /** What a sequence of calls returns. */
  function Run(calls: seq<Call>, issued: set<Timestamp>): seq<Timestamp>
    requires AreCalls(calls)
  {
    if calls == [] then []
    else
      match FirstNew(Candidates(calls[0].hasJitter, calls[0].draws, calls[0].timeDrift), issued)
      case None => Run(calls[1..], issued)
      case Some(t) => [t] + Run(calls[1..], issued + {t})
  }

  predicate NewTo(ts: seq<Timestamp>, issued: set<Timestamp>) {
    forall i :: 0 <= i < |ts| ==> ts[i].Normalised() && ts[i] !in issued
  }

  predicate Distinct(ts: seq<Timestamp>) { forall i, j :: 0 <= i < j < |ts| ==> ts[i] != ts[j] }

  lemma ConsNew(t: Timestamp, rest: seq<Timestamp>, issued: set<Timestamp>)
    requires t.Normalised() && t !in issued && NewTo(rest, issued + {t}) && Distinct(rest)
    ensures NewTo([t] + rest, issued) && Distinct([t] + rest)
  {
    forall i | 0 <= i < |rest| ensures rest[i] !in issued && rest[i] != t {
      assert rest[i] !in issued + {t};
    }
  }

  lemma {:induction false} RunIsNew(calls: seq<Call>, issued: set<Timestamp>)
    requires AreCalls(calls)
    ensures NewTo(Run(calls, issued), issued) && Distinct(Run(calls, issued))
  {
    if calls != [] {
      match FirstNew(Candidates(calls[0].hasJitter, calls[0].draws, calls[0].timeDrift), issued)
      case None => RunIsNew(calls[1..], issued);
      case Some(t) =>
        RunIsNew(calls[1..], issued + {t});
        ConsNew(t, Run(calls[1..], issued + {t}), issued);
    }
  }

  /** Over any sequence of calls, no timestamp and no text is returned twice. */
  lemma NeverRepeats(calls: seq<Call>, issued: set<Timestamp>, i: nat, j: nat)
    requires AreCalls(calls) && i < j < |Run(calls, issued)|
    ensures var ts := Run(calls, issued);
      ts[i] != ts[j] && ToString(ts[i]) != ToString(ts[j]) && ts[i] !in issued && ts[j] !in issued
  {
    var ts := Run(calls, issued);
    RunIsNew(calls, issued);
    ToStringInjective(ts[i], ts[j]);
  }
}

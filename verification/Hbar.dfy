/** Amounts of hbar: units, decimal text, and the constructor that admits whole tinybars only. */
module HbarAmounts {
  import opened Wrappers
  import opened Arith
  import opened Text

  // ---- decimals, as bignumber.js keeps them ----

  /** The number coef / 10^scale. */
  datatype Decimal = Decimal(coef: int, scale: nat)

  ghost predicate SameValue(a: Decimal, b: Decimal) {
    a.coef * Pow(10, b.scale) == b.coef * Pow(10, a.scale)
  }

  function Abs(x: int): nat { if x < 0 then -x else x }

  const DECIMAL_PLACES: nat := 20

  function RoundHalfUp(n: int, den: int): int
    requires den > 0
  {
    (2 * n + den) / (2 * den)
  }

  /** `dividedBy` a power of ten, rounded half up in magnitude at 20 decimal places. */
  function DividedBy(v: int, exp: nat): Decimal {
    PowPositive(10, exp);
    var magnitude := RoundHalfUp(Abs(v) * Pow(10, DECIMAL_PLACES), Pow(10, exp));
    Decimal(if v < 0 then -magnitude else magnitude, DECIMAL_PLACES)
  }

  /** `toString` switches to exponent notation below 10^-6 and from 10^21 on. */
  predicate ExponentForm(d: Decimal) {
    d.coef != 0 && (Abs(d.coef) * Pow(10, 6) < Pow(10, d.scale) || Abs(d.coef) >= Pow(10, d.scale + 21))
  }

  function StripZeros(s: string): (t: string)
    ensures |t| <= |s|
  {
    if s != "" && s[|s| - 1] == '0' then StripZeros(s[..|s| - 1]) else s
  }

  function SignText(v: int): string { if v < 0 then "-" else "" }

  /** Whole part and remainder of a / 10^scale. */
  function WholePart(a: nat, scale: nat): nat {
    PowPositive(10, scale);
    a / Pow(10, scale)
  }

  function Remainder(a: nat, scale: nat): nat {
    PowPositive(10, scale);
    a % Pow(10, scale)
  }

  lemma WholeAndRemainder(a: nat, scale: nat)
    ensures a == Pow(10, scale) * WholePart(a, scale) + Remainder(a, scale)
  {
    PowPositive(10, scale);
  }

  /** The digits after the point, without trailing zeros. */
  function Fraction(a: nat, scale: nat): Option<string> {
    var r := Remainder(a, scale);
    if r == 0 then None else Some(StripZeros(PadStart(DecString(r), scale)))
  }

  function OrEmpty(s: Option<string>): string { if s.Some? then s.value else "" }

  function PlainText(d: Decimal): string {
    var a := Abs(d.coef);
    var fraction := Fraction(a, d.scale);
    SignText(d.coef) + (DecString(WholePart(a, d.scale)) + if fraction.Some? then "." + fraction.value else "")
  }

  function ExponentText(d: Decimal): string {
    var digits := StripZeros(DecString(Abs(d.coef)));
    var e := |DecString(Abs(d.coef))| - 1 - d.scale;
    SignText(d.coef) + (if |digits| > 1 then digits[..1] + "." + digits[1..] else digits)
    + "e" + (if e < 0 then "-" else "+") + DecString(Abs(e))
  }

  function DecimalText(d: Decimal): string { if ExponentForm(d) then ExponentText(d) else PlainText(d) }

  // ---- units ----

  datatype Unit = Tinybar | Microbar | Millibar | HbarUnit | Kilobar | Megabar | Gigabar

  /** The unit is 10^Exponent tinybars. */
  function Exponent(u: Unit): (e: nat)
    ensures e <= 17
  {
    match u
    case Tinybar => 0
    case Microbar => 2
    case Millibar => 5
    case HbarUnit => 8
    case Kilobar => 11
    case Megabar => 14
    case Gigabar => 17
  }

  function UnitSymbol(u: Unit): string {
    match u
    case Tinybar => "t\U{210F}"
    case Microbar => "\U{03BC}\U{210F}"
    case Millibar => "m\U{210F}"
    case HbarUnit => "\U{210F}"
    case Kilobar => "k\U{210F}"
    case Megabar => "M\U{210F}"
    case Gigabar => "G\U{210F}"
  }

  function UnitFromSymbol(symbol: string): Option<Unit> {
    if symbol == UnitSymbol(HbarUnit) then Some(HbarUnit)
    else if symbol == UnitSymbol(Tinybar) then Some(Tinybar)
    else if symbol == UnitSymbol(Microbar) then Some(Microbar)
    else if symbol == UnitSymbol(Millibar) then Some(Millibar)
    else if symbol == UnitSymbol(Kilobar) then Some(Kilobar)
    else if symbol == UnitSymbol(Megabar) then Some(Megabar)
    else if symbol == UnitSymbol(Gigabar) then Some(Gigabar)
    else None
  }

  lemma SymbolIff(symbol: string, u: Unit)
    ensures UnitFromSymbol(symbol) == Some(u) <==> symbol == UnitSymbol(u)
  {
    assert |UnitSymbol(HbarUnit)| == 1;
    assert UnitSymbol(Tinybar)[0] == 't' && UnitSymbol(Microbar)[0] == '\U{03BC}' && UnitSymbol(Millibar)[0] == 'm';
    assert UnitSymbol(Kilobar)[0] == 'k' && UnitSymbol(Megabar)[0] == 'M' && UnitSymbol(Gigabar)[0] == 'G';
  }

  // ---- amounts ----

  datatype Hbar = Hbar(tinybars: int)

  datatype HbarError = ContainsDecimals | InvalidArgument

  function New(amount: Decimal, unit: Unit): Result<Hbar, HbarError> {
    PowPositive(10, amount.scale);
    var n, den := amount.coef * Pow(10, Exponent(unit)), Pow(10, amount.scale);
    if n % den == 0 then Ok(Hbar(n / den)) else Err(ContainsDecimals)
  }

  function To(h: Hbar, unit: Unit): Decimal { DividedBy(h.tinybars, Exponent(unit)) }

  function Negated(h: Hbar): Result<Hbar, HbarError> { New(Decimal(-h.tinybars, 0), Tinybar) }

  function ToFixed(v: int): string { SignText(v) + DecString(Abs(v)) }

  function ToTinybars(h: Hbar): Result<int, LongError> { LongFromString(ToFixed(h.tinybars)) }

  function ToString(h: Hbar, unit: Option<Unit>): string {
    if unit.Some? then DecimalText(To(h, unit.value)) + " " + UnitSymbol(unit.value)
    else if -10000 < h.tinybars < 10000 then ToFixed(h.tinybars) + " " + UnitSymbol(Tinybar)
    else DecimalText(To(h, HbarUnit)) + " " + UnitSymbol(HbarUnit)
  }

  // ---- the pattern ^((?:\+|-)?\d+(?:\.\d+)?)(?: (symbol))?$ ----

  datatype Groups = Groups(sign: string, whole: string, fraction: Option<string>, unit: Option<Unit>)

  predicate WellFormed(g: Groups) {
    && (g.sign == "" || g.sign == "+" || g.sign == "-")
    && g.whole != "" && AllDigits(g.whole)
    && (g.fraction.Some? ==> g.fraction.value != "" && AllDigits(g.fraction.value))
  }

  function UnitText(unit: Option<Unit>): string { if unit.Some? then " " + UnitSymbol(unit.value) else "" }

  function TailText(fraction: Option<string>, unit: Option<Unit>): string {
    if fraction.Some? then "." + (fraction.value + UnitText(unit)) else UnitText(unit)
  }

  function Render(g: Groups): string { g.sign + (g.whole + TailText(g.fraction, g.unit)) }

  function MatchUnit(s: string): Option<Option<Unit>> {
    if s == "" then Some(None)
    else if s[0] == ' ' && UnitFromSymbol(s[1..]).Some? then Some(UnitFromSymbol(s[1..]))
    else None
  }

  function MatchTail(s: string): Option<(Option<string>, Option<Unit>)> {
    if s != "" && s[0] == '.' then
      var m := Run(IsDigit, s[1..]);
      var unit := MatchUnit(s[1..][m..]);
      if m == 0 || unit.None? then None else Some((Some(s[1..][..m]), unit.value))
    else
      var unit := MatchUnit(s);
      if unit.None? then None else Some((None, unit.value))
  }

  function MatchUnsigned(sign: string, s: string): Option<Groups> {
    var n := Run(IsDigit, s);
    var tail := MatchTail(s[n..]);
    if n == 0 || tail.None? then None else Some(Groups(sign, s[..n], tail.value.0, tail.value.1))
  }

  function Match(s: string): Option<Groups> {
    if s != "" && (s[0] == '+' || s[0] == '-') then MatchUnsigned(s[..1], s[1..]) else MatchUnsigned("", s)
  }

  /** What `new BigNumber` makes of the amount. */
  function AmountOf(g: Groups): Decimal
    requires WellFormed(g)
  {
    var fraction := OrEmpty(g.fraction);
    DecValueConcat(g.whole, fraction);
    var magnitude := DecValue(g.whole + fraction);
    Decimal(if g.sign == "-" then 0 - magnitude else magnitude, |fraction|)
  }

  function FromString(s: string, unit: Unit): Result<Hbar, HbarError> {
    match Match(s)
    case None => Err(InvalidArgument)
    case Some(g) =>
      MatchSound(s);
      New(AmountOf(g), if g.unit.Some? then g.unit.value else unit)
  }

  // ---- the parser against the pattern ----

  lemma UnitMatches(unit: Option<Unit>)
    ensures MatchUnit(UnitText(unit)) == Some(unit)
  {
    if unit.Some? {
      SymbolIff(UnitSymbol(unit.value), unit.value);
      assert UnitText(unit)[1..] == UnitSymbol(unit.value);
    }
  }

  lemma UnitRead(s: string)
    requires MatchUnit(s).Some?
    ensures UnitText(MatchUnit(s).value) == s
  {
    if s != "" {
      SymbolIff(s[1..], UnitFromSymbol(s[1..]).value);
      assert s == " " + s[1..];
    }
  }

  lemma TailMatches(fraction: Option<string>, unit: Option<Unit>)
    requires fraction.Some? ==> fraction.value != "" && AllDigits(fraction.value)
    ensures MatchTail(TailText(fraction, unit)) == Some((fraction, unit))
  {
    UnitMatches(unit);
    if fraction.Some? {
      RunStops(IsDigit, fraction.value, UnitText(unit));
      assert TailText(fraction, unit)[1..] == fraction.value + UnitText(unit);
    }
  }

  lemma TailRead(s: string)
    requires MatchTail(s).Some?
    ensures var (fraction, unit) := MatchTail(s).value;
      && TailText(fraction, unit) == s
      && (fraction.Some? ==> fraction.value != "" && AllDigits(fraction.value))
  {
    if s != "" && s[0] == '.' {
      var t := s[1..];
      var m := Run(IsDigit, t);
      UnitRead(t[m..]);
      assert t == t[..m] + t[m..];
      assert s == "." + t;
    } else {
      UnitRead(s);
    }
  }

  lemma UnsignedSound(sign: string, s: string)
    requires (sign == "" || sign == "+" || sign == "-") && MatchUnsigned(sign, s).Some?
    ensures WellFormed(MatchUnsigned(sign, s).value) && Render(MatchUnsigned(sign, s).value) == sign + s
  {
    var n := Run(IsDigit, s);
    TailRead(s[n..]);
    assert s == s[..n] + s[n..];
  }

  lemma MatchSound(s: string)
    ensures Match(s).Some? ==> WellFormed(Match(s).value) && Render(Match(s).value) == s
  {
    if Match(s).Some? {
      if s[0] == '+' || s[0] == '-' {
        assert s == s[..1] + s[1..];
        UnsignedSound(s[..1], s[1..]);
      } else {
        UnsignedSound("", s);
        assert "" + s == s;
      }
    }
  }

  lemma MatchComplete(g: Groups)
    requires WellFormed(g)
    ensures Match(Render(g)) == Some(g)
  {
    var tail := TailText(g.fraction, g.unit);
    var s := g.whole + tail;
    TailMatches(g.fraction, g.unit);
    RunStops(IsDigit, g.whole, tail);
    assert MatchUnsigned(g.sign, s) == Some(g);
    if g.sign == "" {
      assert g.sign + s == s && IsDigit(s[0]);
    } else {
      assert (g.sign + s)[..1] == g.sign && (g.sign + s)[1..] == s;
    }
  }

  /** The matcher finds captures exactly for the texts of the pattern, and the only ones there are. */
  lemma MatchIff(s: string, g: Groups)
    ensures Match(s) == Some(g) <==> WellFormed(g) && Render(g) == s
  {
    MatchSound(s);
    if WellFormed(g) { MatchComplete(g); }
  }

  /** A text is turned down as such exactly when it is not of the pattern. */
  lemma InvalidIff(s: string, unit: Unit)
    ensures FromString(s, unit) == Err(InvalidArgument) <==> !exists g :: WellFormed(g) && Render(g) == s
  {
    MatchSound(s);
    if Match(s).None? {
      forall g | WellFormed(g) ensures Render(g) != s { MatchIff(s, g); }
    }
  }

  function SignOf(g: Groups): int { if g.sign == "-" then -1 else 1 }

  /**
    What a text means: its digits over a power of ten, negated by a minus sign, of the unit it names or
    else of the caller's unit. It is read as v tinybars exactly when that is what it means.
   */
  lemma FromStringIff(g: Groups, unit: Unit, v: int)
    requires WellFormed(g)
    ensures AllDigits(g.whole + OrEmpty(g.fraction))
    ensures var e := Exponent(if g.unit.Some? then g.unit.value else unit);
      FromString(Render(g), unit) == Ok(Hbar(v)) <==>
        SignOf(g) * DecValue(g.whole + OrEmpty(g.fraction)) * Pow(10, e) == v * Pow(10, |OrEmpty(g.fraction)|)
  {
    MatchComplete(g);
    var a, u := AmountOf(g), if g.unit.Some? then g.unit.value else unit;
    assert FromString(Render(g), unit) == New(a, u);
    NewIff(a, u, v);
  }

  // ---- division and multiplication undo each other ----

  lemma RoundedExact(den: nat, k: nat)
    requires den > 0
    ensures RoundHalfUp(den * k, den) == k
  {
    assert 2 * (den * k) + den == (2 * den) * k + den;
    DivModUnique((2 * den) * k + den, 2 * den, k, den);
  }

  lemma MagnitudeExact(v: int, den: nat, q: nat)
    requires den > 0
    ensures RoundHalfUp(Abs(v) * (den * q), den) == Abs(v) * q
    ensures (if v < 0 then -(Abs(v) * q) else Abs(v) * q) == v * q
  {
    assert Abs(v) * (den * q) == den * (Abs(v) * q);
    RoundedExact(den, Abs(v) * q);
  }

  lemma DivisionExact(v: int, exp: nat)
    requires exp <= DECIMAL_PLACES
    ensures DividedBy(v, exp) == Decimal(v * Pow(10, DECIMAL_PLACES - exp), DECIMAL_PLACES)
  {
    PowPositive(10, exp);
    PowPositive(10, DECIMAL_PLACES - exp);
    PowAdd(10, exp, DECIMAL_PLACES - exp);
    MagnitudeExact(v, Pow(10, exp), Pow(10, DECIMAL_PLACES - exp));
  }

  /** The constructor looks at the value of the amount only. */
  lemma NewByValue(a: Decimal, v: int, unit: Unit)
    requires SameValue(a, Decimal(v * Pow(10, DECIMAL_PLACES - Exponent(unit)), DECIMAL_PLACES))
    ensures New(a, unit) == Ok(Hbar(v))
  {
    var e := Exponent(unit);
    var p, q, d, n := Pow(10, e), Pow(10, DECIMAL_PLACES - e), Pow(10, a.scale), a.coef;
    PowAdd(10, e, DECIMAL_PLACES - e);
    PowPositive(10, DECIMAL_PLACES - e);
    PowPositive(10, a.scale);
    NewArithmetic(n, p, q, d, v);
  }

  lemma NewArithmetic(n: int, p: int, q: int, d: int, v: int)
    requires q > 0 && d > 0 && n * (p * q) == (v * q) * d
    ensures (n * p) % d == 0 && (n * p) / d == v
  {
    assert (n * p) * q == n * (p * q) && (v * q) * d == (v * d) * q;
    CancelFactor(n * p, v * d, q);
    assert v * d == d * v;
    MultipleMod(v, d);
  }

  lemma CancelFactor(x: int, y: int, q: int)
    requires q > 0 && x * q == y * q
    ensures x == y
  {
    assert (x - y) * q == 0;
  }

  /** Converting to any of the seven units and constructing from the result loses nothing. */
  lemma UnitRoundTrip(h: Hbar, unit: Unit)
    ensures New(To(h, unit), unit) == Ok(h)
  {
    DivisionExact(h.tinybars, Exponent(unit));
    NewByValue(To(h, unit), h.tinybars, unit);
  }

  /** The units, in tinybars. */
  lemma UnitValues()
    ensures New(Decimal(1, 0), Tinybar) == Ok(Hbar(1))
    ensures New(Decimal(1, 0), Microbar) == Ok(Hbar(100))
    ensures New(Decimal(1, 0), Millibar) == Ok(Hbar(100_000))
    ensures New(Decimal(1, 0), HbarUnit) == Ok(Hbar(100_000_000))
    ensures New(Decimal(1, 0), Kilobar) == Ok(Hbar(1_000 * 100_000_000))
    ensures New(Decimal(1, 0), Megabar) == Ok(Hbar(1_000_000 * 100_000_000))
    ensures New(Decimal(1, 0), Gigabar) == Ok(Hbar(1_000_000_000 * 100_000_000))
  {
    assert Pow(10, 0) == 1 && Pow(10, 5) == 100_000;
    PowAdd(10, 3, 5);
    PowAdd(10, 3, 8);
    PowAdd(10, 6, 8);
    PowAdd(10, 9, 8);
    PowAdd(10, 4, 5);
  }

  /** An amount is admitted exactly when it is a whole number of tinybars. */
  lemma NewIff(amount: Decimal, unit: Unit, v: int)
    ensures New(amount, unit) == Ok(Hbar(v)) <==> amount.coef * Pow(10, Exponent(unit)) == v * Pow(10, amount.scale)
    ensures New(amount, unit).Ok? <==>
      exists u: int :: amount.coef * Pow(10, Exponent(unit)) == u * Pow(10, amount.scale)
  {
    PowPositive(10, amount.scale);
    var n, den := amount.coef * Pow(10, Exponent(unit)), Pow(10, amount.scale);
    WholeIff(n, den, v);
    if n % den == 0 { assert n == (n / den) * den; }
    if u: int :| n == u * den { WholeIff(n, den, u); }
  }

  lemma WholeIff(n: int, den: int, v: int)
    requires den > 0
    ensures n % den == 0 && n / den == v <==> n == v * den
  {
    if n == v * den {
      assert v * den == den * v;
      MultipleMod(v, den);
    }
    assert n == den * (n / den) + n % den;
  }

  lemma NegatedTwice(h: Hbar)
    ensures Negated(h) == Ok(Hbar(-h.tinybars)) && Negated(Negated(h).value) == Ok(h)
  {
    assert Pow(10, 0) == 1;
  }

  /** `toTinybars` is exact exactly for amounts in signed 64 bits. */
  lemma ToTinybarsIff(h: Hbar)
    ensures ToTinybars(h) == Ok(h.tinybars) <==> IsLong(h.tinybars)
  {
    var a := Abs(h.tinybars);
    DecStringValue(a);
    LongFromDigits(DecString(a));
    LongFromNegatedDigits(DecString(a));
    WrapFits(h.tinybars);
    assert ToFixed(h.tinybars) == (if h.tinybars < 0 then "-" + DecString(a) else DecString(a));
  }

  // ---- printing and parsing ----

  lemma {:induction false} StripZerosValue(s: string)
    requires AllDigits(s)
    ensures AllDigits(StripZeros(s)) && DecValue(s) == DecValue(StripZeros(s)) * Pow(10, |s| - |StripZeros(s)|)
  {
    if s != "" && s[|s| - 1] == '0' {
      var t := s[..|s| - 1];
      StripZerosValue(t);
      var k := |t| - |StripZeros(t)|;
      assert 10 * (DecValue(StripZeros(t)) * Pow(10, k)) == DecValue(StripZeros(t)) * Pow(10, k + 1);
    } else {
      assert Pow(10, 0) == 1;
    }
  }

  /** The captures of a printed amount. */
  function PlainGroups(d: Decimal, unit: Option<Unit>): Groups {
    var a := Abs(d.coef);
    Groups(SignText(d.coef), DecString(WholePart(a, d.scale)), Fraction(a, d.scale), unit)
  }

  lemma FractionValue(r: nat, width: nat)
    requires 0 < r < Pow(10, width)
    ensures var f := StripZeros(PadStart(DecString(r), width));
      f != "" && AllDigits(f) && |f| <= width && DecValue(f) * Pow(10, width - |f|) == r
  {
    assert width > 0;
    PadStartValue(r, width);
    StripZerosValue(PadStart(DecString(r), width));
    assert DecValue("") == 0;
  }

  lemma FractionPart(a: nat, scale: nat)
    ensures Fraction(a, scale).Some? ==> Fraction(a, scale).value != ""
    ensures var f := OrEmpty(Fraction(a, scale));
      AllDigits(f) && |f| <= scale && DecValue(f) * Pow(10, scale - |f|) == Remainder(a, scale)
  {
    PowPositive(10, scale);
    if Remainder(a, scale) != 0 { FractionValue(Remainder(a, scale), scale); }
  }

  lemma PlainWellFormed(d: Decimal, unit: Option<Unit>)
    ensures WellFormed(PlainGroups(d, unit))
    ensures Render(PlainGroups(d, unit)) == PlainText(d) + UnitText(unit)
  {
    var g := PlainGroups(d, unit);
    DecStringValue(WholePart(Abs(d.coef), d.scale));
    FractionPart(Abs(d.coef), d.scale);
    RenderParts(g.sign, g.whole, g.fraction, unit);
  }

  lemma RenderParts(sign: string, whole: string, fraction: Option<string>, unit: Option<Unit>)
    ensures Render(Groups(sign, whole, fraction, unit))
         == sign + (whole + if fraction.Some? then "." + fraction.value else "") + UnitText(unit)
  {
    if fraction.Some? {
      FiveParts(sign, whole, ".", fraction.value, UnitText(unit));
    } else {
      assert sign + (whole + UnitText(unit)) == sign + (whole + "") + UnitText(unit);
    }
  }

  lemma FiveParts(a: string, b: string, c: string, d: string, e: string)
    ensures a + (b + (c + (d + e))) == a + (b + (c + d)) + e
  {
    assert c + (d + e) == (c + d) + e;
    assert b + ((c + d) + e) == (b + (c + d)) + e;
  }

  lemma JoinParts(a: nat, scale: nat, f: string, w: string)
    requires AllDigits(w) && AllDigits(f) && |f| <= scale && DecValue(w) == WholePart(a, scale)
    requires DecValue(f) * Pow(10, scale - |f|) == Remainder(a, scale)
    ensures AllDigits(w + f) && DecValue(w + f) * Pow(10, scale - |f|) == a
  {
    DecValueConcat(w, f);
    PowAdd(10, |f|, scale - |f|);
    WholeAndRemainder(a, scale);
    var q, r, y, z, t, p := WholePart(a, scale), Remainder(a, scale), Pow(10, |f|), DecValue(f), Pow(10, scale - |f|),
                            Pow(10, scale);
    assert DecValue(w + f) == q * y + z && p == y * t && z * t == r && a == p * q + r;
    Distribute(q, y, z, t, p, r);
  }

  lemma Distribute(q: int, y: int, z: int, t: int, p: int, r: int)
    requires p == y * t && z * t == r
    ensures (q * y + z) * t == p * q + r
  {
    assert (q * y) * t == (y * t) * q;
  }

  lemma PlainMagnitude(a: nat, scale: nat)
    ensures var w, f := DecString(WholePart(a, scale)), OrEmpty(Fraction(a, scale));
      |f| <= scale && AllDigits(w + f) && DecValue(w + f) * Pow(10, scale - |f|) == a
  {
    FractionPart(a, scale);
    DecStringValue(WholePart(a, scale));
    JoinParts(a, scale, OrEmpty(Fraction(a, scale)), DecString(WholePart(a, scale)));
  }

  /** Reading the digits back gives the number that was printed. */
  lemma PlainValue(d: Decimal, unit: Option<Unit>)
    ensures WellFormed(PlainGroups(d, unit)) && SameValue(AmountOf(PlainGroups(d, unit)), d)
  {
    PlainWellFormed(d, unit);
    PlainMagnitude(Abs(d.coef), d.scale);
    var g := PlainGroups(d, unit);
    var f := OrEmpty(g.fraction);
    PowAdd(10, |f|, d.scale - |f|);
    SignedValue(d.coef, AmountOf(g).coef, DecValue(g.whole + f), Pow(10, d.scale - |f|), Pow(10, |f|));
  }

  lemma SignedValue(coef: int, parsed: int, magnitude: nat, y: int, z: int)
    requires magnitude * y == Abs(coef) && parsed == if coef < 0 then 0 - magnitude else magnitude
    ensures parsed * (z * y) == coef * z
  {
    assert magnitude * (z * y) == (magnitude * y) * z;
  }

  /** A plain printed amount parses back to the amount, whatever the default unit. */
  lemma PlainParses(h: Hbar, unit: Unit, fallback: Unit)
    ensures FromString(PlainText(To(h, unit)) + " " + UnitSymbol(unit), fallback) == Ok(h)
  {
    var d := To(h, unit);
    var g := PlainGroups(d, Some(unit));
    DivisionExact(h.tinybars, Exponent(unit));
    PlainWellFormed(d, Some(unit));
    PlainValue(d, Some(unit));
    MatchComplete(g);
    assert PlainText(d) + UnitText(Some(unit)) == PlainText(d) + " " + UnitSymbol(unit);
    NewByValue(AmountOf(g), h.tinybars, unit);
  }

  lemma NoLetterE(g: Groups)
    requires WellFormed(g)
    ensures 'e' !in Render(g)
  {
    assert 'e' !in g.whole && 'e' !in g.sign && 'e' !in UnitText(g.unit);
    if g.fraction.Some? { assert 'e' !in g.fraction.value; }
  }

  /** Exponent notation is never accepted back. */
  lemma ExponentRejected(d: Decimal, rest: string, fallback: Unit)
    ensures FromString(ExponentText(d) + rest, fallback) == Err(InvalidArgument)
  {
    var s := ExponentText(d) + rest;
    assert 'e' in ExponentText(d);
    assert 'e' in s;
    MatchSound(s);
    if Match(s).Some? { NoLetterE(Match(s).value); }
  }

  lemma OrderScaled(x: int, y: int, q: int)
    requires q > 0
    ensures x * q < y * q <==> x < y
  {
    assert (y - x) * q == y * q - x * q;
    assert y > x ==> (y - x) * q > 0;
    assert y <= x ==> (y - x) * q <= 0;
  }

  lemma ScaledBounds(a: int, q: int, six: int, low: int, high: int)
    requires q > 0
    ensures (a * q) * six < low * q <==> a * six < low
    ensures a * q >= high * q <==> a >= high
  {
    OrderScaled(a * six, low, q);
    OrderScaled(a, high, q);
    assert (a * q) * six == (a * six) * q;
  }

  /** When a quotient is printed with an exponent, in terms of tinybars. */
  predicate OutOfRange(h: Hbar, unit: Unit) {
    && h.tinybars != 0
    && (Abs(h.tinybars) * Pow(10, 6) < Pow(10, Exponent(unit)) || Abs(h.tinybars) >= Pow(10, Exponent(unit) + 21))
  }

  lemma ExponentFormIff(h: Hbar, unit: Unit)
    ensures ExponentForm(To(h, unit)) <==> OutOfRange(h, unit)
  {
    DivisionExact(h.tinybars, Exponent(unit));
    ScaledForm(h.tinybars, Exponent(unit), DECIMAL_PLACES - Exponent(unit));
  }

  lemma ScaledForm(v: int, e: nat, k: nat)
    ensures ExponentForm(Decimal(v * Pow(10, k), e + k)) <==>
      (v != 0 && (Abs(v) * Pow(10, 6) < Pow(10, e) || Abs(v) >= Pow(10, e + 21)))
  {
    var q := Pow(10, k);
    PowPositive(10, k);
    PowAdd(10, e, k);
    PowAdd(10, e + 21, k);
    ScaledAbs(v, q);
    ScaledBounds(Abs(v), q, Pow(10, 6), Pow(10, e), Pow(10, e + 21));
  }

  lemma ScaledAbs(v: int, q: int)
    requires q > 0
    ensures Abs(v * q) == Abs(v) * q && (v * q == 0 <==> v == 0)
  {
    assert v > 0 ==> v * q > 0;
    assert v < 0 ==> v * q < 0;
  }

  /**
    Printing in a chosen unit and parsing gives the amount back exactly when the quotient lies
    between 10^-6 and 10^21, or is zero.
   */
  lemma UnitTextRoundTripIff(h: Hbar, unit: Unit, fallback: Unit)
    ensures FromString(ToString(h, Some(unit)), fallback) == Ok(h) <==> !OutOfRange(h, unit)
  {
    var d := To(h, unit);
    ExponentFormIff(h, unit);
    if ExponentForm(d) {
      ExponentRejected(d, " " + UnitSymbol(unit), fallback);
      assert ToString(h, Some(unit)) == ExponentText(d) + (" " + UnitSymbol(unit));
    } else {
      PlainParses(h, unit, fallback);
    }
  }

  /** An amount printed as a whole number of tinybars parses back. */
  lemma WholeTinybars(h: Hbar, fallback: Unit)
    ensures FromString(ToFixed(h.tinybars) + " " + UnitSymbol(Tinybar), fallback) == Ok(h)
  {
    var sign, whole := SignText(h.tinybars), DecString(Abs(h.tinybars));
    var g := Groups(sign, whole, None, Some(Tinybar));
    DecStringValue(Abs(h.tinybars));
    MatchComplete(g);
    assert sign + (whole + (" " + UnitSymbol(Tinybar))) == sign + whole + " " + UnitSymbol(Tinybar);
    WholeAmount(g, h.tinybars);
  }

  lemma WholeAmount(g: Groups, v: int)
    requires WellFormed(g) && g.fraction.None? && g.sign == SignText(v) && DecValue(g.whole) == Abs(v)
    ensures New(AmountOf(g), Tinybar) == Ok(Hbar(v))
  {
    assert g.whole + "" == g.whole && Pow(10, 0) == 1;
  }

  lemma DefaultRange(h: Hbar)
    requires !(-10000 < h.tinybars < 10000)
    ensures OutOfRange(h, HbarUnit) <==> Abs(h.tinybars) >= Pow(10, 29)
  {
    assert Pow(10, 8) == 100000000 && Pow(10, 6) == 1000000;
    assert Abs(h.tinybars) * 1000000 >= 100000000;
  }

  /** The default text gives the amount back exactly below 10^29 tinybars. */
  lemma TextRoundTripIff(h: Hbar, fallback: Unit)
    ensures FromString(ToString(h, None), fallback) == Ok(h) <==> Abs(h.tinybars) < Pow(10, 29)
  {
    if -10000 < h.tinybars < 10000 {
      assert Pow(10, 8) == 100000000;
      PowMonotone(10, 8, 29);
      WholeTinybars(h, fallback);
    } else {
      DefaultRange(h);
      UnitTextRoundTripIff(h, HbarUnit, fallback);
    }
  }

  // ---- the printed text ----

  /** A whole part without leading zeros, and a fraction without trailing ones. */
  lemma PlainCanonical(d: Decimal)
    ensures exists whole: string, fraction: Option<string> ::
      && PlainText(d)
         == (if d.coef < 0 then "-" else "") + (whole + if fraction.Some? then "." + fraction.value else "")
      && whole != "" && AllDigits(whole) && (whole[0] == '0' ==> whole == "0")
      && (fraction.Some? ==>
            && fraction.value != "" && AllDigits(fraction.value)
            && fraction.value[|fraction.value| - 1] != '0')
  {
    var a := Abs(d.coef);
    var whole, fraction := DecString(WholePart(a, d.scale)), Fraction(a, d.scale);
    DecStringValue(WholePart(a, d.scale));
    DecStringHead(WholePart(a, d.scale));
    FractionPart(a, d.scale);
    if fraction.Some? { StripZerosEnd(PadStart(DecString(Remainder(a, d.scale)), d.scale)); }
  }

  lemma {:induction false} StripZerosEnd(s: string)
    ensures StripZeros(s) != "" ==> StripZeros(s)[|StripZeros(s)| - 1] != '0'
  {
    if s != "" && s[|s| - 1] == '0' { StripZerosEnd(s[..|s| - 1]); }
  }

  lemma {:induction false} StripPadding(digits: string, z: nat)
    requires digits != "" && digits[|digits| - 1] != '0'
    ensures StripZeros(digits + Zeros(z)) == digits
  {
    if z == 0 {
      assert digits + Zeros(0) == digits;
    } else {
      assert (digits + Zeros(z))[..|digits| + z - 1] == digits + Zeros(z - 1);
      StripPadding(digits, z - 1);
    }
  }

  lemma {:induction false} PaddedText(n: nat, z: nat, m: nat)
    requires n > 0 && m == n * Pow(10, z)
    ensures DecString(m) == DecString(n) + Zeros(z)
  {
    if z == 0 {
      assert DecString(n) + Zeros(0) == DecString(n);
    } else {
      PowPositive(10, z - 1);
      var k := n * Pow(10, z - 1);
      TimesTen(n, Pow(10, z - 1));
      PaddedText(n, z - 1, k);
      AppendZero(k);
      assert DecString(n) + Zeros(z) == DecString(n) + Zeros(z - 1) + ['0'];
    }
  }

  lemma TimesTen(n: nat, p: nat)
    requires n > 0 && p > 0
    ensures n * (10 * p) == 10 * (n * p) && n * p > 0
  {
  }

  lemma AppendZero(k: nat)
    requires k > 0
    ensures DecString(10 * k) == DecString(k) + ['0']
  {
  }

  /**
    Scientific notation: of the number +-digits * 10^z / 10^scale, the digits with neither leading nor
    trailing zeros, a point after the first, and the exponent of the first, with its sign.
   */
  lemma ExponentTextIs(d: Decimal, digits: string, z: nat)
    requires digits != "" && AllDigits(digits) && digits[0] != '0' && digits[|digits| - 1] != '0'
    requires Abs(d.coef) == DecValue(digits) * Pow(10, z)
    ensures var e := |digits| - 1 + z - d.scale;
      ExponentText(d) == (if d.coef < 0 then "-" else "")
                         + (if |digits| > 1 then digits[..1] + "." + digits[1..] else digits)
                         + "e" + (if e < 0 then "-" else "+") + DecString(if e < 0 then -e else e)
  {
    OwnText(digits);
    PaddedText(DecValue(digits), z, Abs(d.coef));
    StripPadding(digits, z);
  }

  lemma WholeQuotient(v: int)
    ensures PlainText(Decimal(v * Pow(10, 20), 20)) == ToFixed(v)
  {
    PowPositive(10, 20);
    ScaledAbs(v, Pow(10, 20));
    var a := Abs(v) * Pow(10, 20);
    assert a == Pow(10, 20) * Abs(v);
    DivModUnique(a, Pow(10, 20), Abs(v), 0);
    assert DecString(Abs(v)) + "" == DecString(Abs(v));
    assert v * Pow(10, 20) < 0 <==> v < 0;
  }

  /** Without a unit, amounts of less than 10000 tinybars are printed in tinybars and others in hbar. */
  lemma DefaultUnit(h: Hbar)
    ensures ToString(h, None) == ToString(h, Some(if -10000 < h.tinybars < 10000 then Tinybar else HbarUnit))
  {
    if -10000 < h.tinybars < 10000 {
      DivisionExact(h.tinybars, 0);
      WholeQuotient(h.tinybars);
      ExponentFormIff(h, Tinybar);
      assert Pow(10, 0) == 1 && Pow(10, 6) == 1000000;
      PowMonotone(10, 6, 21);
    }
  }

  /** In particular for every amount of signed 64-bit tinybars. */
  lemma LongTextRoundTrip(h: Hbar, fallback: Unit)
    requires IsLong(h.tinybars)
    ensures FromString(ToString(h, None), fallback) == Ok(h)
  {
    TextRoundTripIff(h, fallback);
    PowAdd(10, 10, 19);
    PowAdd(10, 9, 10);
    assert Pow(10, 9) == 1000000000 && Pow(10, 10) == 10000000000;
  }
}

/**
  The five-letter checksum of an entity address (HIP-15, "Address Checksum"):
  what `_checksum` computes, when two texts share a checksum, and which typing
  errors it is therefore certain to catch.
 */
module Checksum {
  import opened Wrappers
  import opened Arith
  import opened Text

  const P3: int := 26 * 26 * 26
  const P5: int := 26 * 26 * 26 * 26 * 26
  const MULTIPLIER: int := 1000003
  const WEIGHT: int := 31

  // ---- symbols ----

  /** `parseInt` of one character, with 10 for a dot; None is NaN. */
  function Symbol(c: char): (v: Option<nat>)
    ensures v.Some? ==> v.value <= 10
  {
    if c == '.' then Some(10) else if IsDigit(c) then Some(DigitValue(c)) else None
  }

  predicate IsAddress(addr: string) { forall i :: 0 <= i < |addr| ==> Symbol(addr[i]).Some? }

  function Symbols(addr: string): (d: seq<nat>)
    requires IsAddress(addr)
    ensures |d| == |addr|
    ensures forall i :: 0 <= i < |d| ==> d[i] == Symbol(addr[i]).value
  {
    seq(|addr|, i requires 0 <= i < |addr| => Symbol(addr[i]).value)
  }

  lemma SymbolInjective(c: char, e: char)
    requires Symbol(c).Some? && Symbol(e).Some?
    ensures Symbol(c) == Symbol(e) <==> c == e
  {
  }

  // ---- the sums of HIP-15, as plain sums over positions ----

  /** Sum of d[i] * 31^(n-1-i). */
  function Weighted(d: seq<nat>): nat {
    if d == [] then 0
    else
      PowPositive(WEIGHT, |d| - 1);
      d[0] * Pow(WEIGHT, |d| - 1) + Weighted(d[1..])
  }

  /** Sum of the symbols whose position has the given parity. */
  function ParitySum(d: seq<nat>, parity: nat): nat {
    if d == [] then 0
    else ParitySum(d[..|d| - 1], parity) + if (|d| - 1) % 2 == parity then d[|d| - 1] else 0
  }

  /** What the checksum remembers of an address. */
  datatype Fingerprint = Fingerprint(length: nat, even: nat, odd: nat, weighted: nat)

  function FingerprintOf(addr: string): Fingerprint
    requires IsAddress(addr)
  {
    var d := Symbols(addr);
    Fingerprint(|d| % 5, ParitySum(d, 0) % 11, ParitySum(d, 1) % 11, Weighted(d) % P3)
  }

  function Pack(f: Fingerprint): nat {
    ((f.length * 11 + f.even) * 11 + f.odd) * P3 + f.weighted
  }

  function LedgerHash(ledgerId: seq<byte>): nat {
    Weighted(LedgerSymbols(ledgerId)) % P5
  }

  function LedgerSymbols(ledgerId: seq<byte>): (h: seq<nat>)
    ensures |h| == |ledgerId| + 6
    ensures forall i :: 0 <= i < |h| ==> h[i] == if i < |ledgerId| then ledgerId[i] else 0
  {
    seq(|ledgerId| + 6, i requires 0 <= i < |ledgerId| + 6 => if i < |ledgerId| then ledgerId[i] else 0)
  }

  /** Adds the ledger's hash to the packed fingerprint and permutes the result. */
  function Scramble(packed: nat, hash: nat): (c: nat)
    ensures c < P5
  {
    ((packed + hash) % P5) * MULTIPLIER % P5
  }

  function Code(ledgerId: seq<byte>, addr: string): (c: nat)
    requires IsAddress(addr)
    ensures c < P5
  {
    Scramble(Pack(FingerprintOf(addr)), LedgerHash(ledgerId))
  }

  function Letter(v: nat): char
    requires v < 26
  {
    ('a' as int + v) as char
  }

  /** The last n base-26 digits of c as letters, most significant first. */
  function Base26(n: nat, c: nat): (s: string)
    ensures |s| == n && forall i :: 0 <= i < n ==> 'a' <= s[i] <= 'z'
  {
    if n == 0 then "" else Base26(n - 1, c / 26) + [Letter(c % 26)]
  }

  const NULS: string := ['\0', '\0', '\0', '\0', '\0']

  /** The checksum. A character that is neither digit nor dot makes every sum NaN. */
  function ChecksumOf(ledgerId: seq<byte>, addr: string): (s: string)
    ensures |s| == 5
    ensures (forall i :: 0 <= i < 5 ==> 'a' <= s[i] <= 'z') <==> IsAddress(addr)
  {
    if IsAddress(addr) then Base26(5, Code(ledgerId, addr)) else assert NULS[0] < 'a'; NULS
  }

  // ---- the loops ----

  /** `(w * acc + x) % m` on JavaScript numbers, where NaN is contagious. */
  function Accumulate(w: nat, acc: Option<nat>, x: Option<nat>, m: nat): Option<nat>
    requires m > 0
  {
    if acc.Some? && x.Some? then Some((w * acc.value + x.value) % m) else None
  }

  lemma {:induction false} WeightedSnoc(d: seq<nat>, x: nat)
    ensures Weighted(d + [x]) == WEIGHT * Weighted(d) + x
  {
    if d == [] {
      assert (d + [x])[1..] == [];
      assert Pow(WEIGHT, 0) == 1;
    } else {
      assert (d + [x])[1..] == d[1..] + [x];
      WeightedSnoc(d[1..], x);
      assert d[0] * Pow(WEIGHT, |d|) == WEIGHT * (d[0] * Pow(WEIGHT, |d| - 1));
    }
  }

  lemma ParitySnoc(d: seq<nat>, x: nat, parity: nat)
    ensures ParitySum(d + [x], parity) == ParitySum(d, parity) + if |d| % 2 == parity then x else 0
  {
    assert (d + [x])[..|d|] == d;
  }

  lemma SymbolsSnoc(addr: string, i: nat)
    requires i < |addr|
    ensures IsAddress(addr[..i + 1]) <==> IsAddress(addr[..i]) && Symbol(addr[i]).Some?
    ensures IsAddress(addr[..i + 1]) ==> Symbols(addr[..i + 1]) == Symbols(addr[..i]) + [Symbol(addr[i]).value]
  {
    assert addr[..i + 1] == addr[..i] + [addr[i]];
    assert addr[..i + 1][i] == addr[i];
    assert forall k :: 0 <= k < i ==> addr[..i + 1][k] == addr[..i][k];
  }

  /** Reducing at every turn of the loop gives the same remainder as reducing once. */
  lemma HornerMod(w: nat, acc: nat, x: nat, m: nat)
    requires m > 0
    ensures (w * (acc % m) + x) % m == (w * acc + x) % m
  {
    var q := acc / m;
    assert (w * acc + x) - (w * (acc % m) + x) == m * (w * q) by {
      assert acc == m * q + acc % m;
      assert w * (m * q) == m * (w * q);
      assert w * acc == w * (m * q) + w * (acc % m);
    }
    MultipleMod(w * q, m);
    SameMod(w * acc + x, w * (acc % m) + x, m);
  }

  /** The three sums after the symbols of a prefix: NaN as soon as one symbol is. */
  predicate SumsAre(prefix: string, s: Option<nat>, s0: Option<nat>, s1: Option<nat>) {
    && (s.Some? <==> IsAddress(prefix))
    && (IsAddress(prefix) ==>
      && s == Some(Weighted(Symbols(prefix)) % P3)
      && s0 == Some(ParitySum(Symbols(prefix), 0) % 11)
      && s1 == Some(ParitySum(Symbols(prefix), 1) % 11))
  }

  lemma SumsStep(addr: string, i: nat, s: Option<nat>, s0: Option<nat>, s1: Option<nat>)
    requires i < |addr| && SumsAre(addr[..i], s, s0, s1)
    ensures var x := Symbol(addr[i]);
      SumsAre(addr[..i + 1], Accumulate(WEIGHT, s, x, P3),
              if i % 2 == 0 then Accumulate(1, s0, x, 11) else s0,
              if i % 2 == 0 then s1 else Accumulate(1, s1, x, 11))
  {
    SymbolsSnoc(addr, i);
    if IsAddress(addr[..i + 1]) {
      var e, x := Symbols(addr[..i]), Symbol(addr[i]).value;
      WeightedSnoc(e, x);
      HornerMod(WEIGHT, Weighted(e), x, P3);
      ParitySnoc(e, x, 0);
      ParitySnoc(e, x, 1);
      HornerMod(1, ParitySum(e, 0), x, 11);
      HornerMod(1, ParitySum(e, 1), x, 11);
    }
  }

  method AddressSums(addr: string) returns (s: Option<nat>, s0: Option<nat>, s1: Option<nat>)
    ensures SumsAre(addr, s, s0, s1)
  {
    var d: seq<Option<nat>> := [];
    for i := 0 to |addr|
      invariant |d| == i && forall k :: 0 <= k < i ==> d[k] == Symbol(addr[k])
    {
      d := d + [Symbol(addr[i])];
    }
    s, s0, s1 := Some(0), Some(0), Some(0);
    for i := 0 to |d|
      invariant SumsAre(addr[..i], s, s0, s1)
    {
      SumsStep(addr, i, s, s0, s1);
      s := Accumulate(WEIGHT, s, d[i], P3);
      if i % 2 == 0 {
        s0 := Accumulate(1, s0, d[i], 11);
      } else {
        s1 := Accumulate(1, s1, d[i], 11);
      }
    }
    assert addr[..|d|] == addr;
  }

  method HashLedger(ledgerId: seq<byte>) returns (sh: nat)
    ensures sh == LedgerHash(ledgerId)
  {
    var h: seq<nat> := LedgerSymbols(ledgerId);
    sh := 0;
    for i := 0 to |h|
      invariant sh == Weighted(h[..i]) % P5
    {
      assert h[..i + 1] == h[..i] + [h[i]];
      WeightedSnoc(h[..i], h[i]);
      HornerMod(WEIGHT, Weighted(h[..i]), h[i], P5);
      sh := (WEIGHT * sh + h[i]) % P5;
    }
    assert h[..|h|] == h;
  }

  /** `c % 26` on a number that need not be whole. */
  function RealMod26(c: real): real { c - 26.0 * (c / 26.0).Floor as real }

  lemma FloorIs(x: real, q: int, f: real)
    requires x == q as real + f && 0.0 <= f < 1.0
    ensures x.Floor == q
  {
  }

  /** Dividing a number by 26 without rounding keeps its whole part one base-26 digit shorter. */
  lemma DivideUnrounded(c: real, q: nat)
    requires c >= 0.0 && c.Floor == q
    ensures (c / 26.0).Floor == q / 26 && RealMod26(c).Floor == q % 26
  {
    var f := c - q as real;
    assert q as real == 26.0 * (q / 26) as real + (q % 26) as real;
    FloorIs(c / 26.0, q / 26, ((q % 26) as real + f) / 26.0);
    FloorIs(RealMod26(c), q % 26, f);
  }

  /** The print loop: `c` is divided by 26 but never rounded down. */
  method PrintLetters(code: Option<nat>) returns (answer: string)
    ensures answer == if code.Some? then Base26(5, code.value) else NULS
  {
    answer := "";
    var c: Option<real> := if code.Some? then Some(code.value as real) else None;
    ghost var q := if code.Some? then code.value else 0;
    for i := 0 to 5
      invariant c.Some? <==> code.Some?
      invariant c.Some? ==> c.value >= 0.0 && c.value.Floor == q && Base26(5, code.value) == Base26(5 - i, q) + answer
      invariant c.None? ==> answer == seq(i, _ => '\0')
    {
      if c.Some? {
        DivideUnrounded(c.value, q);
        answer := [Letter(RealMod26(c.value).Floor)] + answer;
        c := Some(c.value / 26.0);
        q := q / 26;
      } else {
        answer := ['\0'] + answer;
      }
    }
  }

  /** The checksum as a single number, or NaN. */
  method CodeNumber(ledgerId: seq<byte>, addr: string) returns (c: Option<nat>)
    ensures c == if IsAddress(addr) then Some(Code(ledgerId, addr)) else None
  {
    var s, s0, s1 := AddressSums(addr);
    var sh := HashLedger(ledgerId);
    c := None;
    if s.Some? && s0.Some? && s1.Some? {
      var packed := (((|addr| % 5) * 11 + s0.value) * 11 + s1.value) * P3 + s.value;
      assert packed == Pack(FingerprintOf(addr));
      c := Some(((packed + sh) % P5) * MULTIPLIER % P5);
    }
  }

  method Compute(ledgerId: seq<byte>, addr: string) returns (answer: string)
    ensures answer == ChecksumOf(ledgerId, addr)
  {
    var c := CodeNumber(ledgerId, addr);
    answer := PrintLetters(c);
  }

  // ---- the checksum is the fingerprint, no more and no less ----

  function ReadBase26(s: string): int {
    if s == "" then 0 else 26 * ReadBase26(s[..|s| - 1]) + (s[|s| - 1] as int - 'a' as int)
  }

  /** Reading the letters back gives the printed number. */
  lemma {:induction false} Base26RoundTrip(n: nat, c: nat)
    requires c < Pow(26, n)
    ensures ReadBase26(Base26(n, c)) == c
  {
    if n > 0 {
      Base26RoundTrip(n - 1, c / 26);
      assert Base26(n, c)[..n - 1] == Base26(n - 1, c / 26);
    }
  }

  lemma Base26Five(c: nat)
    requires c < P5
    ensures ReadBase26(Base26(5, c)) == c
  {
    assert Pow(26, 2) == 676 && Pow(26, 3) == 17576;
    assert Pow(26, 5) == P5;
    Base26RoundTrip(5, c);
  }

  /** 8610443 undoes the multiplication by 1000003 modulo 26^5. */
  const INVERSE: int := 8610443

  lemma MultiplierUndone(x: nat)
    requires x < P5
    ensures (x * MULTIPLIER % P5) * INVERSE % P5 == x
  {
    var q := x * MULTIPLIER / P5;
    assert x * MULTIPLIER == P5 * q + x * MULTIPLIER % P5;
    assert MULTIPLIER * INVERSE == P5 * 724703 + 1;
    assert (x * MULTIPLIER % P5) * INVERSE == P5 * (724703 * x - q * INVERSE) + x;
    DivModUnique((x * MULTIPLIER % P5) * INVERSE, P5, 724703 * x - q * INVERSE, x);
  }

  lemma PackParts(f: Fingerprint)
    requires f.length < 5 && f.even < 11 && f.odd < 11 && f.weighted < P3
    ensures Pack(f) < P5 && Pack(f) % P3 == f.weighted
    ensures var a := Pack(f) / P3; a % 11 == f.odd && (a / 11) % 11 == f.even && a / 11 / 11 == f.length
  {
    var b := f.length * 11 + f.even;
    var a := b * 11 + f.odd;
    assert a < 605;
    DivModUnique(Pack(f), P3, a, f.weighted);
    DivModUnique(a, 11, b, f.odd);
    DivModUnique(b, 11, f.length, f.even);
  }

  lemma PackInjective(f: Fingerprint, g: Fingerprint)
    requires f.length < 5 && f.even < 11 && f.odd < 11 && f.weighted < P3
    requires g.length < 5 && g.even < 11 && g.odd < 11 && g.weighted < P3
    ensures Pack(f) < P5 && Pack(g) < P5 && (Pack(f) == Pack(g) <==> f == g)
  {
    PackParts(f);
    PackParts(g);
  }

  /** Adding the hash, multiplying and printing lose nothing modulo 26^5. */
  lemma ScrambleInjective(p: nat, h: nat, q: nat, k: nat)
    ensures Base26(5, Scramble(p, h)) == Base26(5, Scramble(q, k)) <==> (p + h) % P5 == (q + k) % P5
  {
    Base26Five(Scramble(p, h));
    Base26Five(Scramble(q, k));
    MultiplierUndone((p + h) % P5);
    MultiplierUndone((q + k) % P5);
  }

  lemma ShiftMod(p: nat, q: nat, h: nat)
    requires p < P5 && q < P5
    ensures (p + h) % P5 == (q + h) % P5 <==> p == q
    ensures (h + p) % P5 == (h + q) % P5 <==> p == q
  {
    SameMod(p + h, q + h, P5);
    SameMod(p, q, P5);
  }

  /** Two addresses share a checksum on a ledger exactly when their fingerprints agree. */
  lemma SameChecksumIff(ledgerId: seq<byte>, a: string, b: string)
    requires IsAddress(a) && IsAddress(b)
    ensures ChecksumOf(ledgerId, a) == ChecksumOf(ledgerId, b) <==> FingerprintOf(a) == FingerprintOf(b)
  {
    var f, g, h := FingerprintOf(a), FingerprintOf(b), LedgerHash(ledgerId);
    PackInjective(f, g);
    ScrambleInjective(Pack(f), h, Pack(g), h);
    ShiftMod(Pack(f), Pack(g), h);
  }

  lemma CodeArithmetic(length: nat, even: nat, odd: nat, weighted: nat, ledger: nat)
    requires length < 5 && even < 11 && odd < 11 && weighted < P3
    ensures (Pack(Fingerprint(length, even, odd, weighted)) + ledger % P5) % P5
         == (((length * 11 + even) * 11 + odd) * P3 + weighted + ledger) % P5
  {
    var p := ((length * 11 + even) * 11 + odd) * P3 + weighted;
    assert (p + ledger) - (p + ledger % P5) == P5 * (ledger / P5);
    MultipleMod(ledger / P5, P5);
    SameMod(p + ledger, p + ledger % P5, P5);
  }

  /**
    What the five letters stand for: read in base 26 and with the multiplication undone, they are the
    length modulo 5, the sums over the even and over the odd positions modulo 11 and the base-31 sum
    modulo 26^3, packed, plus the base-31 sum of the ledger ID with six zeros, all modulo 26^5.
   */
  lemma LettersDecoded(ledgerId: seq<byte>, addr: string)
    requires IsAddress(addr)
    ensures ReadBase26(ChecksumOf(ledgerId, addr)) * INVERSE % P5
         == (((|addr| % 5 * 11 + ParitySum(Symbols(addr), 0) % 11) * 11 + ParitySum(Symbols(addr), 1) % 11) * P3
             + Weighted(Symbols(addr)) % P3 + Weighted(LedgerSymbols(ledgerId))) % P5
  {
    var d := Symbols(addr);
    var f := FingerprintOf(addr);
    Base26Five(Code(ledgerId, addr));
    MultiplierUndone((Pack(f) + LedgerHash(ledgerId)) % P5);
    CodeArithmetic(|d| % 5, ParitySum(d, 0) % 11, ParitySum(d, 1) % 11, Weighted(d) % P3,
                   Weighted(LedgerSymbols(ledgerId)));
  }

  /** A text with any other character has the same checksum on every ledger, five NULs. */
  lemma NotAnAddressIff(ledgerId: seq<byte>, text: string)
    ensures ChecksumOf(ledgerId, text) == ['\0', '\0', '\0', '\0', '\0'] <==> !IsAddress(text)
  {
    assert NULS[0] < 'a';
  }

  // ---- edits within one parity class ----

  lemma {:induction false} ParitySumLoneEdit(d: seq<nat>, e: seq<nat>, i: nat)
    requires |d| == |e| && i < |d|
    requires forall j :: 0 <= j < |d| && j % 2 == i % 2 && j != i ==> d[j] == e[j]
    ensures ParitySum(e, i % 2) + d[i] == ParitySum(d, i % 2) + e[i]
  {
    var n := |d| - 1;
    if i == n {
      ParitySumAgree(d[..n], e[..n], i % 2);
    } else {
      ParitySumLoneEdit(d[..n], e[..n], i);
    }
  }

  lemma {:induction false} ParitySumAgree(d: seq<nat>, e: seq<nat>, parity: nat)
    requires |d| == |e|
    requires forall j :: 0 <= j < |d| && j % 2 == parity ==> d[j] == e[j]
    ensures ParitySum(d, parity) == ParitySum(e, parity)
  {
    if d != [] { ParitySumAgree(d[..|d| - 1], e[..|e| - 1], parity); }
  }

  lemma DifferentMod11(p: nat, x: nat, q: nat, y: nat)
    requires p + x == q + y && x <= 10 && y <= 10 && x != y
    ensures p % 11 != q % 11
  {
  }

  /** b has the length of a and differs from it at position i, and at no other position of i's parity. */
  predicate LoneEdit(a: string, b: string, i: nat) {
    && |a| == |b| && i < |a| && a[i] != b[i]
    && forall j :: 0 <= j < |a| && j % 2 == i % 2 && j != i ==> a[j] == b[j]
  }

  /**
    Changing a single symbol among the even positions, or a single one among the odd positions,
    changes the checksum, whatever happens to the symbols of the other parity. A substitution,
    two substitutions of opposite parity and a swap at odd distance are all of this kind.
   */
  lemma LoneEditDetected(ledgerId: seq<byte>, a: string, b: string, i: nat)
    requires IsAddress(a) && IsAddress(b) && LoneEdit(a, b, i)
    ensures ChecksumOf(ledgerId, a) != ChecksumOf(ledgerId, b)
  {
    SameChecksumIff(ledgerId, a, b);
    var d, e := Symbols(a), Symbols(b);
    SymbolInjective(a[i], b[i]);
    ParitySumLoneEdit(d, e, i);
    DifferentMod11(ParitySum(e, i % 2), d[i], ParitySum(d, i % 2), e[i]);
    assert i % 2 == 0 || i % 2 == 1;
  }

  /** Dropping or adding symbols is caught unless their number is a multiple of five. */
  lemma LengthChangeDetected(ledgerId: seq<byte>, a: string, b: string)
    requires IsAddress(a) && IsAddress(b) && |a| % 5 != |b| % 5
    ensures ChecksumOf(ledgerId, a) != ChecksumOf(ledgerId, b)
  {
    SameChecksumIff(ledgerId, a, b);
  }

  // ---- swaps ----

  lemma {:induction false} WeightedUpdate(d: seq<nat>, i: nat, x: nat)
    requires i < |d|
    ensures Weighted(d[i := x]) == Weighted(d) + (x - d[i]) * Pow(WEIGHT, |d| - 1 - i)
  {
    if i == 0 {
      assert d[0 := x][1..] == d[1..];
    } else {
      assert d[i := x][1..] == d[1..][i - 1 := x];
      WeightedUpdate(d[1..], i - 1, x);
    }
  }

  lemma ParityUpdate(d: seq<nat>, i: nat, x: nat, parity: nat)
    requires i < |d| && parity < 2
    ensures ParitySum(d[i := x], parity) == ParitySum(d, parity) + if i % 2 == parity then x - d[i] else 0
  {
    if i % 2 == parity {
      ParitySumLoneEdit(d, d[i := x], i);
    } else {
      ParitySumAgree(d, d[i := x], parity);
    }
  }

  /** A factor that is invertible modulo m can be cancelled from a multiple of m. */
  lemma CancelUnit(u: int, inverse: int, z: int, m: int)
    requires m > 0 && (u * inverse - 1) % m == 0 && (u * z) % m == 0
    ensures z % m == 0
  {
    ModMultiple(u * z, inverse, m);
    ModMultiple(u * inverse - 1, z, m);
    assert inverse * (u * z) - z * (u * inverse - 1) == z;
    ModSum(inverse * (u * z), z * (u * inverse - 1), m);
  }

  lemma {:induction false} CancelWeight(k: nat, inverse: int, z: int, m: int)
    requires m > 0 && (WEIGHT * inverse - 1) % m == 0 && (Pow(WEIGHT, k) * z) % m == 0
    ensures z % m == 0
  {
    if k > 0 {
      assert Pow(WEIGHT, k) * z == WEIGHT * (Pow(WEIGHT, k - 1) * z);
      CancelUnit(WEIGHT, inverse, Pow(WEIGHT, k - 1) * z, m);
      CancelWeight(k - 1, inverse, z, m);
    }
  }

  /** If g is 1+e modulo m and e squared vanishes, then g^t is 1+et modulo m. */
  lemma {:induction false} Lift(g: int, e: int, m: int, t: nat)
    requires m > 0 && (g - 1 - e) % m == 0 && (e * e) % m == 0
    ensures (Pow(g, t) - 1 - e * t) % m == 0
  {
    if t == 0 {
      assert Pow(g, 0) - 1 - e * 0 == 0;
    } else {
      var p := Pow(g, t - 1);
      var q := g * p;
      Lift(g, e, m, t - 1);
      LiftStep(g, e, m, p, q, t);
      assert Pow(g, t) == q;
    }
  }

  lemma LiftStep(g: int, e: int, m: int, p: int, q: int, t: int)
    requires q == g * p && m > 0 && (g - 1 - e) % m == 0 && (e * e) % m == 0 && (p - 1 - e * (t - 1)) % m == 0
    ensures (q - 1 - e * t) % m == 0
  {
    var x, y, z := p - 1 - e * (t - 1), g - 1 - e, e * e;
    var f := 1 + e * (t - 1);
    ModMultiple(x, g, m);
    ModMultiple(y, f, m);
    ModMultiple(z, t - 1, m);
    ModSum(g * x, f * y, m);
    ModSum(g * x + f * y, (t - 1) * z, m);
    LiftAlgebra(g, e, p, t);
  }

  lemma LiftAlgebra(g: int, e: int, p: int, t: int)
    ensures g * p - 1 - e * t
         == g * (p - 1 - e * (t - 1)) + (1 + e * (t - 1)) * (g - 1 - e) + (t - 1) * (e * e)
  {
  }

  lemma Times31Mod13(x: int)
    ensures (WEIGHT * x) % 13 == (5 * (x % 13)) % 13
  {
    assert WEIGHT * x - 5 * (x % 13) == 13 * (2 * x + 5 * (x / 13));
    MultipleMod(2 * x + 5 * (x / 13), 13);
    SameMod(WEIGHT * x, 5 * (x % 13), 13);
  }

  lemma {:induction false} PowersMod13(d: nat)
    ensures Pow(WEIGHT, d) % 13 == [1, 5, 12, 8][d % 4]
  {
    if d > 0 {
      PowersMod13(d - 1);
      Times31Mod13(Pow(WEIGHT, d - 1));
    }
  }

  lemma {:induction false} EvenPowersMod8(d: nat)
    ensures (Pow(WEIGHT, 2 * d) - 1) % 8 == 0
  {
    if d > 0 {
      var x := Pow(WEIGHT, 2 * (d - 1));
      EvenPowersMod8(d - 1);
      assert Pow(WEIGHT, 2 * d) == WEIGHT * (WEIGHT * x);
      MultipleMod(120 * x, 8);
      ModSum(8 * (120 * x), x - 1, 8);
    }
  }

  lemma FourthPowers(t: nat)
    ensures (Pow(WEIGHT, 4 * t) - 1 - 104 * t) % 169 == 0
  {
    assert Pow(WEIGHT, 4) == 923521;
    PowMul(WEIGHT, 4, t);
    Lift(923521, 104, 169, t);
  }

  const POWER52: int := 355474194989290415985029973003960310543947190232327861184450343437277893144961

  lemma PowerFiftyTwo()
    ensures Pow(WEIGHT, 52) == POWER52
  {
    PowMul(WEIGHT, 4, 13);
    assert Pow(WEIGHT, 4) == 923521;
    PowAdd(923521, 4, 4);
    PowAdd(923521, 8, 5);
  }

  lemma FiftySecondPowers(s: nat)
    ensures (Pow(WEIGHT, 52 * s) - 1 - 1352 * s) % 2197 == 0
  {
    PowerFiftyTwo();
    PowMul(WEIGHT, 52, s);
    Lift(POWER52, 1352, 2197, s);
  }

  lemma EightMod13(t: int)
    ensures (8 * t) % 13 == 0 <==> t % 13 == 0
  {
    if (8 * t) % 13 == 0 { CancelUnit(8, 5, t, 13); }
    if t % 13 == 0 { ModMultiple(t, 8, 13); }
  }

  lemma LiftedThirteen(x: int, t: int)
    requires (x - 1 - 104 * t) % 169 == 0
    ensures (x - 1) % 169 == 0 <==> t % 13 == 0
  {
    SameMod(x - 1, 104 * t, 169);
    ScaledMod(13, 13, 8 * t);
    EightMod13(t);
  }

  lemma LiftedThirteenAgain(x: int, s: int)
    requires (x - 1 - 1352 * s) % 2197 == 0
    ensures (x - 1) % 2197 == 0 <==> s % 13 == 0
  {
    SameMod(x - 1, 1352 * s, 2197);
    ScaledMod(169, 13, 8 * s);
    EightMod13(s);
  }

  lemma ThirteenTower(y: int)
    ensures y % 2197 == 0 ==> y % 169 == 0
    ensures y % 169 == 0 ==> y % 13 == 0
  {
  }

  lemma FactorTower(d: nat)
    ensures d % 4 == 0 ==> ((d / 4) % 13 == 0 <==> d % 52 == 0)
    ensures d % 52 == 0 ==> d % 4 == 0 && ((d / 52) % 13 == 0 <==> d % 676 == 0)
    ensures d % 676 == 0 ==> d % 52 == 0
  {
    ScaledMod(4, 13, d / 4);
    ScaledMod(52, 13, d / 52);
    if d % 676 == 0 { MultipleMod(13 * (d / 676), 52); }
    if d % 52 == 0 { MultipleMod(13 * (d / 52), 4); }
  }

  /** The order of 31 modulo 13^3 is 676. */
  lemma OrderOfWeight(d: nat)
    ensures (Pow(WEIGHT, d) - 1) % 2197 == 0 <==> d % 676 == 0
  {
    ThirteenTower(Pow(WEIGHT, d) - 1);
    FactorTower(d);
    PowersMod13(d);
    SameMod(Pow(WEIGHT, d), 1, 13);
    if d % 4 == 0 {
      FourthPowers(d / 4);
      LiftedThirteen(Pow(WEIGHT, d), d / 4);
      if d % 52 == 0 {
        FiftySecondPowers(d / 52);
        LiftedThirteenAgain(Pow(WEIGHT, d), d / 52);
      }
    }
  }

  lemma SplitP3(x: int)
    ensures x % P3 == 0 <==> x % 8 == 0 && x % 2197 == 0
  {
    var q := x / P3;
    if x % P3 == 0 {
      MultipleMod(2197 * q, 8);
      MultipleMod(8 * q, 2197);
    }
    if x % 8 == 0 && x % 2197 == 0 {
      assert x == P3 * (5 * (x / 8) - 1373 * (x / 2197));
      MultipleMod(5 * (x / 8) - 1373 * (x / 2197), P3);
    }
  }

  lemma EvenDistance(d: nat)
    requires d % 2 == 0
    ensures (Pow(WEIGHT, d) - 1) % P3 == 0 <==> d % 676 == 0
  {
    OrderOfWeight(d);
    EvenPowersMod8(d / 2);
    assert 2 * (d / 2) == d;
    SplitP3(Pow(WEIGHT, d) - 1);
  }

  /** A non-zero difference of two symbols can be cancelled modulo 13^3. */
  lemma CancelDifference(c: int, z: int)
    requires -10 <= c <= 10 && c != 0 && (c * z) % 2197 == 0
    ensures z % 2197 == 0
  {
    var k := if c < 0 then -(2520 / -c) else 2520 / c;
    assert k * c == 2520 by {
      assert c == 1 || c == 2 || c == 3 || c == 4 || c == 5 || c == 6 || c == 7 || c == 8 || c == 9 || c == 10
          || c == -1 || c == -2 || c == -3 || c == -4 || c == -5
          || c == -6 || c == -7 || c == -8 || c == -9 || c == -10;
    }
    ModMultiple(c * z, k, 2197);
    assert k * (c * z) == 2520 * z;
    CancelUnit(2520, 721, z, 2197);
  }

  lemma SwapWeight(c: int, k: nat, d: nat)
    requires -10 <= c <= 10 && c != 0 && d % 2 == 0
    ensures (c * (Pow(WEIGHT, k) * (Pow(WEIGHT, d) - 1))) % P3 == 0 <==> d % 676 == 0
  {
    EvenDistance(d);
    OrderOfWeight(d);
    SwapCancel(c, k, Pow(WEIGHT, d) - 1);
  }

  lemma SwapCancel(c: int, k: nat, x: int)
    requires -10 <= c <= 10 && c != 0
    requires x % P3 == 0 <==> x % 2197 == 0
    ensures (c * (Pow(WEIGHT, k) * x)) % P3 == 0 <==> x % P3 == 0
  {
    var y := Pow(WEIGHT, k) * x;
    SplitP3(c * y);
    if x % P3 == 0 {
      ModMultiple(x, Pow(WEIGHT, k), P3);
      ModMultiple(y, c, P3);
    } else if (c * y) % P3 == 0 {
      CancelDifference(c, y);
      CancelWeight(k, 567, x, 2197);
    }
  }

  function Swap(a: string, i: nat, j: nat): string
    requires i < |a| && j < |a|
  {
    a[i := a[j]][j := a[i]]
  }

  lemma SwapAlgebra(x: int, y: int, p: int, q: int, w: int)
    ensures (w + (y - x) * (p * q)) + (x - y) * p == w + (y - x) * (p * (q - 1))
  {
  }

  function SwapSymbols(d: seq<nat>, i: nat, j: nat): seq<nat>
    requires i < |d| && j < |d|
  {
    d[i := d[j]][j := d[i]]
  }

  lemma SwapParity(d: seq<nat>, i: nat, j: nat, parity: nat)
    requires i < j < |d| && i % 2 == j % 2 && parity < 2
    ensures ParitySum(SwapSymbols(d, i, j), parity) == ParitySum(d, parity)
  {
    ParityUpdate(d, i, d[j], parity);
    ParityUpdate(d[i := d[j]], j, d[i], parity);
  }

  lemma SwapWeighted(d: seq<nat>, i: nat, j: nat, p: int, q: int)
    requires i < j < |d|
    requires p == Pow(WEIGHT, |d| - 1 - j) && q == Pow(WEIGHT, j - i)
    ensures Weighted(SwapSymbols(d, i, j)) == Weighted(d) + (d[j] as int - d[i] as int) * (p * (q - 1))
  {
    assert Pow(WEIGHT, |d| - 1 - i) == p * q by {
      assert |d| - 1 - i == (|d| - 1 - j) + (j - i);
      PowAdd(WEIGHT, |d| - 1 - j, j - i);
    }
    var m := d[i := d[j]];
    assert Weighted(m) == Weighted(d) + (d[j] as int - d[i] as int) * (p * q) by { WeightedUpdate(d, i, d[j]); }
    assert Weighted(SwapSymbols(d, i, j)) == Weighted(m) + (d[i] as int - d[j] as int) * p by {
      WeightedUpdate(m, j, d[i]);
    }
    SwapAlgebra(d[i], d[j], p, q, Weighted(d));
  }

  lemma SwapResidue(c: int, k: nat, d: nat, p: int, q: int, before: int, after: int)
    requires -10 <= c <= 10 && c != 0 && d % 2 == 0
    requires p == Pow(WEIGHT, k) && q == Pow(WEIGHT, d)
    requires after == before + c * (p * (q - 1))
    ensures after % P3 == before % P3 <==> d % 676 == 0
  {
    SwapWeight(c, k, d);
    SameMod(after, before, P3);
  }

  lemma SwapFingerprint(d: seq<nat>, i: nat, e: nat)
    requires i + e < |d| && e > 0 && e % 2 == 0 && d[i] != d[i + e] && d[i] <= 10 && d[i + e] <= 10
    ensures Weighted(SwapSymbols(d, i, i + e)) % P3 == Weighted(d) % P3 <==> e % 676 == 0
  {
    var k := |d| - 1 - (i + e);
    var p, q := Pow(WEIGHT, k), Pow(WEIGHT, e);
    SwapWeighted(d, i, i + e, p, q);
    SwapResidue(d[i + e] as int - d[i] as int, k, e, p, q, Weighted(d), Weighted(SwapSymbols(d, i, i + e)));
  }

  lemma SwapEven(ledgerId: seq<byte>, a: string, i: nat, e: nat)
    requires IsAddress(a) && i + e < |a| && e > 0 && e % 2 == 0 && a[i] != a[i + e]
    ensures IsAddress(Swap(a, i, i + e))
    ensures ChecksumOf(ledgerId, Swap(a, i, i + e)) == ChecksumOf(ledgerId, a) <==> e % 676 == 0
  {
    var b, d := Swap(a, i, i + e), Symbols(a);
    SymbolInjective(a[i], a[i + e]);
    assert Symbols(b) == SwapSymbols(d, i, i + e);
    SwapParity(d, i, i + e, 0);
    SwapParity(d, i, i + e, 1);
    SwapFingerprint(d, i, e);
    SameChecksumIff(ledgerId, b, a);
  }

  lemma SwapOdd(ledgerId: seq<byte>, a: string, i: nat, j: nat)
    requires IsAddress(a) && i < j < |a| && i % 2 != j % 2 && a[i] != a[j]
    ensures IsAddress(Swap(a, i, j))
    ensures ChecksumOf(ledgerId, Swap(a, i, j)) != ChecksumOf(ledgerId, a)
  {
    LoneEditDetected(ledgerId, a, Swap(a, i, j), i);
  }

  lemma DistanceParity(i: nat, e: nat)
    ensures i % 2 == (i + e) % 2 <==> e % 2 == 0
    ensures e % 676 == 0 ==> e % 2 == 0
  {
    if e % 676 == 0 { MultipleMod(338 * (e / 676), 2); }
  }

  /** Swapping two different symbols goes unnoticed exactly when they stand a multiple of 676 apart. */
  lemma SwapUndetectedIff(ledgerId: seq<byte>, a: string, i: nat, e: nat)
    requires IsAddress(a) && e > 0 && i + e < |a| && a[i] != a[i + e]
    ensures IsAddress(Swap(a, i, i + e))
    ensures ChecksumOf(ledgerId, Swap(a, i, i + e)) == ChecksumOf(ledgerId, a) <==> e % 676 == 0
  {
    DistanceParity(i, e);
    if e % 2 == 0 {
      SwapEven(ledgerId, a, i, e);
    } else {
      SwapOdd(ledgerId, a, i, i + e);
    }
  }

  // ---- ledgers ----

  /** Two ledger IDs give one address the same checksum exactly when their hashes agree. */
  lemma SameLedgerIff(l: seq<byte>, k: seq<byte>, addr: string)
    requires IsAddress(addr)
    ensures ChecksumOf(l, addr) == ChecksumOf(k, addr) <==> LedgerHash(l) == LedgerHash(k)
  {
    var p := Pack(FingerprintOf(addr));
    ScrambleInjective(p, LedgerHash(l), p, LedgerHash(k));
    ShiftMod(LedgerHash(l), LedgerHash(k), p);
  }

  /** Ledgers whose IDs differ in one byte never agree on a checksum. */
  lemma LedgerByteDetected(l: seq<byte>, i: nat, x: byte, addr: string)
    requires IsAddress(addr) && i < |l| && x != l[i]
    ensures ChecksumOf(l[i := x], addr) != ChecksumOf(l, addr)
  {
    var h := LedgerSymbols(l);
    assert LedgerSymbols(l[i := x]) == h[i := x];
    WeightedUpdate(h, i, x);
    var k := |h| - 1 - i;
    assert Pow(WEIGHT, k) * (x - l[i]) == (x - l[i]) * Pow(WEIGHT, k);
    SameMod(Weighted(h[i := x]), Weighted(h), P5);
    if LedgerHash(l[i := x]) == LedgerHash(l) {
      CancelWeight(k, 1916351, x - l[i], P5);
      assert false;
    }
    SameLedgerIff(l[i := x], l, addr);
  }

  // ---- the addresses of the project's own tests ----

  lemma SumsSnoc(d: seq<nat>, x: nat)
    ensures Weighted(d + [x]) == WEIGHT * Weighted(d) + x
    ensures ParitySum(d + [x], 0) == ParitySum(d, 0) + if |d| % 2 == 0 then x else 0
    ensures ParitySum(d + [x], 1) == ParitySum(d, 1) + if |d| % 2 == 1 then x else 0
  {
    WeightedSnoc(d, x);
    ParitySnoc(d, x, 0);
    ParitySnoc(d, x, 1);
  }

  /** Sums known for d, for one symbol more. */
  lemma Next(d: seq<nat>, e: seq<nat>, x: nat, w: nat, even: nat, odd: nat)
    requires e == d + [x] && Weighted(d) == w && ParitySum(d, 0) == even && ParitySum(d, 1) == odd
    ensures Weighted(e) == WEIGHT * w + x
    ensures ParitySum(e, 0) == even + (if |d| % 2 == 0 then x else 0)
    ensures ParitySum(e, 1) == odd + (if |d| % 2 == 1 then x else 0)
  {
    SumsSnoc(d, x);
  }

  lemma ExampleSums()
    ensures var d := [0, 10, 0, 10, 1, 2, 3];
      Weighted(d) == 286590446 && ParitySum(d, 0) == 4 && ParitySum(d, 1) == 22
  {
    Next([], [0], 0, 0, 0, 0);
    Next([0], [0, 10], 10, 0, 0, 0);
    Next([0, 10], [0, 10, 0], 0, 10, 0, 10);
    Next([0, 10, 0], [0, 10, 0, 10], 10, 310, 0, 10);
    Next([0, 10, 0, 10], [0, 10, 0, 10, 1], 1, 9620, 0, 20);
    Next([0, 10, 0, 10, 1], [0, 10, 0, 10, 1, 2], 2, 298221, 1, 20);
    Next([0, 10, 0, 10, 1, 2], [0, 10, 0, 10, 1, 2, 3], 3, 9244853, 1, 22);
  }

  lemma ExampleFingerprint()
    ensures IsAddress("0.0.123") && FingerprintOf("0.0.123") == Fingerprint(2, 4, 0, 13766)
  {
    var addr := "0.0.123";
    assert addr == ['0', '.', '0', '.', '1', '2', '3'];
    assert Symbols(addr) == [0, 10, 0, 10, 1, 2, 3];
    ExampleSums();
  }

  lemma {:induction false} WeightedZeros(d: seq<nat>)
    requires forall i :: 0 <= i < |d| ==> d[i] == 0
    ensures Weighted(d) == 0
  {
    if d != [] { WeightedZeros(d[1..]); }
  }

  lemma OneByteLedgerHash(x: byte)
    ensures LedgerHash([x]) == x * 887503681 % P5
  {
    WeightedZeros(LedgerSymbols([x])[1..]);
    assert Pow(WEIGHT, 3) == 29791;
    PowAdd(WEIGHT, 3, 3);
  }

  lemma Letters(c: nat, c1: nat, c2: nat, c3: nat, c4: nat)
    requires c1 == c / 26 && c2 == c1 / 26 && c3 == c2 / 26 && c4 == c3 / 26
    ensures Base26(5, c) == [Letter(c4 % 26), Letter(c3 % 26), Letter(c2 % 26), Letter(c1 % 26), Letter(c % 26)]
  {
    assert Base26(0, c4 / 26) == "";
    assert Base26(1, c4) == [Letter(c4 % 26)];
    assert Base26(2, c3) == [Letter(c4 % 26), Letter(c3 % 26)];
    assert Base26(3, c2) == [Letter(c4 % 26), Letter(c3 % 26), Letter(c2 % 26)];
  }

  lemma Example(x: byte, code: nat, c1: nat, c2: nat, c3: nat, c4: nat)
    requires code == Scramble(5040502, x * 887503681 % P5)
    requires c1 == code / 26 && c2 == c1 / 26 && c3 == c2 / 26 && c4 == c3 / 26
    ensures ChecksumOf([x], "0.0.123")
         == [Letter(c4 % 26), Letter(c3 % 26), Letter(c2 % 26), Letter(c1 % 26), Letter(code % 26)]
  {
    ExampleFingerprint();
    OneByteLedgerHash(x);
    assert Pack(Fingerprint(2, 4, 0, 13766)) == 5040502;
    Letters(code, c1, c2, c3, c4);
  }

  lemma MainnetExample()
    ensures ChecksumOf([0], "0.0.123") == "vfmkw"
  {
    Example(0, 9692770, 372798, 14338, 551, 21);
  }

  lemma TestnetExample()
    ensures ChecksumOf([1], "0.0.123") == "esxsf"
  {
    Example(1, 2160293, 83088, 3195, 122, 4);
  }

  lemma PreviewnetExample()
    ensures ChecksumOf([2], "0.0.123") == "ogizo"
  {
    Example(2, 6509192, 250353, 9628, 370, 14);
  }

  /** The checksums of 0.0.123 on mainnet, testnet and previewnet. */
  lemma DocumentedExamples()
    ensures ChecksumOf([0], "0.0.123") == "vfmkw"
    ensures ChecksumOf([1], "0.0.123") == "esxsf"
    ensures ChecksumOf([2], "0.0.123") == "ogizo"
  {
    MainnetExample();
    TestnetExample();
    PreviewnetExample();
  }
}

/**
  Mistyped IDs with leading zeros. The parser drops them, so the checksum is compared with that of a
  shorter text than the one that was typed.
 */
module MistypedIds {
  import opened Wrappers
  import opened Arith
  import opened Text
  import opened Checksum
  import opened EntityId

  // ---- texts that parse ----

  /** The text of an ID with zeros in front of its three numbers. */
  function PaddedText(id: Id, x: nat, y: nat, z: nat): string
    requires IsId(id)
  {
    Dotted(Zeros(x) + DecString(id.shard), Zeros(y) + DecString(id.realm), Zeros(z) + DecString(id.num))
  }

  /** Every text of three numbers within 63 bits is some ID's text with zeros in front of its numbers. */
  lemma EveryTextIsPadded(a: string, b: string, c: string) returns (id: Id, x: nat, y: nat, z: nat)
    requires a != "" && AllDigits(a) && b != "" && AllDigits(b) && c != "" && AllDigits(c)
    requires DecValue(a) < TWO63 && DecValue(b) < TWO63 && DecValue(c) < TWO63
    ensures id == Id(DecValue(a), DecValue(b), DecValue(c)) && Dotted(a, b, c) == PaddedText(id, x, y, z)
  {
    id := Id(DecValue(a), DecValue(b), DecValue(c));
    x := LeadingZeros(a);
    y := LeadingZeros(b);
    z := LeadingZeros(c);
  }

  lemma PaddedNumber(k: nat, n: nat)
    requires n < TWO63
    ensures AllDigits(Zeros(k) + DecString(n)) && Zeros(k) + DecString(n) != ""
    ensures LongFromString(Zeros(k) + DecString(n)) == Ok(n)
  {
    DecStringValue(n);
    DecValueZeros(k);
    DecValueConcat(Zeros(k), DecString(n));
    LongFromDigits(Zeros(k) + DecString(n));
    WrapFits(n);
  }

  /** It parses to that ID. */
  lemma ParsePadded(id: Id, x: nat, y: nat, z: nat, suffix: Option<string>)
    requires IsId(id) && (suffix.Some? ==> LowerFive(suffix.value))
    ensures FromString(PaddedText(id, x, y, z) + SuffixText(suffix)) == Ok((id, suffix))
  {
    PaddedNumber(x, id.shard);
    PaddedNumber(y, id.realm);
    PaddedNumber(z, id.num);
    DottedMatches(Zeros(x) + DecString(id.shard), Zeros(y) + DecString(id.realm), Zeros(z) + DecString(id.num), suffix);
  }

  lemma PaddedLength(id: Id, x: nat, y: nat, z: nat)
    requires IsId(id)
    ensures |PaddedText(id, x, y, z)| == |IdText(id)| + x + y + z
  {
  }

  // ---- the sum of all symbols, which zeros do not change ----

  function SymbolSum(s: string): nat
    requires IsAddress(s)
  {
    if s == "" then 0 else SymbolSum(s[..|s| - 1]) + Symbol(s[|s| - 1]).value
  }

  lemma {:induction false} SumOfParities(s: string)
    requires IsAddress(s)
    ensures SymbolSum(s) == ParitySum(Symbols(s), 0) + ParitySum(Symbols(s), 1)
  {
    if s != "" {
      var u := s[..|s| - 1];
      SumOfParities(u);
      assert Symbols(s)[..|s| - 1] == Symbols(u);
    }
  }

  lemma SumMod(e: nat, o: nat, f: nat, p: nat)
    requires e % 11 == f % 11 && o % 11 == p % 11
    ensures (e + o) % 11 == (f + p) % 11
  {
    SameMod(e, f, 11);
    SameMod(o, p, 11);
    ModSum(e - f, o - p, 11);
    SameMod(e + o, f + p, 11);
  }

  /** The checksum determines the sum of all symbols modulo 11. */
  lemma SymbolSumDetected(ledgerId: seq<byte>, a: string, b: string)
    requires IsAddress(a) && IsAddress(b) && SymbolSum(a) % 11 != SymbolSum(b) % 11
    ensures ChecksumOf(ledgerId, a) != ChecksumOf(ledgerId, b)
  {
    SumOfParities(a);
    SumOfParities(b);
    SameChecksumIff(ledgerId, a, b);
    var d, e := Symbols(a), Symbols(b);
    if ParitySum(d, 0) % 11 == ParitySum(e, 0) % 11 && ParitySum(d, 1) % 11 == ParitySum(e, 1) % 11 {
      SumMod(ParitySum(d, 0), ParitySum(d, 1), ParitySum(e, 0), ParitySum(e, 1));
    }
  }

  lemma {:induction false} SymbolSumConcat(s: string, t: string)
    requires IsAddress(s) && IsAddress(t)
    ensures IsAddress(s + t) && SymbolSum(s + t) == SymbolSum(s) + SymbolSum(t)
  {
    AddressConcat(s, t);
    if t == "" {
      assert s + t == s;
    } else {
      SymbolSumConcat(s, t[..|t| - 1]);
      assert (s + t)[..|s + t| - 1] == s + t[..|t| - 1];
    }
  }

  lemma {:induction false} SymbolSumZeros(k: nat)
    ensures IsAddress(Zeros(k)) && SymbolSum(Zeros(k)) == 0
  {
    if k > 0 {
      SymbolSumZeros(k - 1);
      assert Zeros(k)[..k - 1] == Zeros(k - 1);
    }
  }

  lemma SymbolSumDotted(a: string, b: string, c: string)
    requires AllDigits(a) && AllDigits(b) && AllDigits(c)
    ensures IsAddress(a) && IsAddress(b) && IsAddress(c) && IsAddress(Dotted(a, b, c))
    ensures SymbolSum(Dotted(a, b, c)) == SymbolSum(a) + SymbolSum(b) + SymbolSum(c) + 20
  {
    assert SymbolSum(".") == 10 by { assert "."[..0] == ""; }
    SymbolSumConcat(a, ".");
    SymbolSumConcat(a + ".", b);
    SymbolSumConcat(a + "." + b, ".");
    SymbolSumConcat(a + "." + b + ".", c);
  }

  lemma SymbolSumPaddedNumber(k: nat, n: nat)
    ensures AllDigits(Zeros(k) + DecString(n)) && AllDigits(DecString(n))
    ensures IsAddress(Zeros(k) + DecString(n)) && IsAddress(DecString(n))
    ensures SymbolSum(Zeros(k) + DecString(n)) == SymbolSum(DecString(n))
  {
    DecStringValue(n);
    SymbolSumZeros(k);
    SymbolSumConcat(Zeros(k), DecString(n));
  }

  lemma SymbolSumPadded(id: Id, x: nat, y: nat, z: nat)
    requires IsId(id)
    ensures IsAddress(PaddedText(id, x, y, z)) && IsAddress(IdText(id))
    ensures SymbolSum(PaddedText(id, x, y, z)) == SymbolSum(IdText(id))
  {
    var a, b, c := DecString(id.shard), DecString(id.realm), DecString(id.num);
    SymbolSumPaddedNumber(x, id.shard);
    SymbolSumPaddedNumber(y, id.realm);
    SymbolSumPaddedNumber(z, id.num);
    SymbolSumDotted(Zeros(x) + a, Zeros(y) + b, Zeros(z) + c);
    SymbolSumDotted(a, b, c);
  }

  // ---- which mistyped texts are rejected ----

  /** b is a with another symbol at position i. */
  predicate IsSubstitution(a: string, b: string, i: nat) {
    |a| == |b| && i < |a| && a[i] != b[i] && b == a[i := b[i]]
  }

  lemma {:induction false} SubstitutionSum(a: string, b: string, i: nat)
    requires IsAddress(a) && IsAddress(b) && IsSubstitution(a, b, i)
    ensures SymbolSum(b) + Symbol(a[i]).value == SymbolSum(a) + Symbol(b[i]).value
  {
    var n := |a| - 1;
    if i < n {
      assert a[n] == b[n] && b[..n] == a[..n][i := b[i]];
      SubstitutionSum(a[..n], b[..n], i);
    } else {
      assert a[..n] == b[..n];
    }
  }

  /**
    A text in which one symbol of an ID was replaced parses, if its numbers are within 63 bits, and with
    the checksum of the intended ID it is always rejected, leading zeros or not.
   */
  lemma SubstitutionRejected(intended: Id, typed: Id, x: nat, y: nat, z: nat, ledgerId: seq<byte>, i: nat)
    requires IsId(intended) && IsId(typed) && IsSubstitution(IdText(intended), PaddedText(typed, x, y, z), i)
    ensures RejectedAs(intended, typed, PaddedText(typed, x, y, z), ledgerId)
  {
    var a, b := IdText(intended), PaddedText(typed, x, y, z);
    IdTextShape(intended);
    SymbolSumPadded(typed, x, y, z);
    SubstitutionSum(a, b, i);
    SymbolInjective(a[i], b[i]);
    DifferentMod11(SymbolSum(b), Symbol(a[i]).value, SymbolSum(a), Symbol(b[i]).value);
    SymbolSumDetected(ledgerId, IdText(typed), a);
    Rejected(intended, typed, x, y, z, ledgerId);
  }

  /** The text with the checksum of the intended ID parses to the typed one and fails validation. */
  predicate RejectedAs(intended: Id, typed: Id, text: string, ledgerId: seq<byte>)
    requires IsId(intended) && IsId(typed)
  {
    var c := ChecksumOf(ledgerId, IdText(intended));
    && FromString(text + "-" + c) == Ok((typed, Some(c)))
    && ValidateChecksum(typed, Some(c), Client(Some(ledgerId)))
       == Err(BadEntityId(typed, c, ChecksumOf(ledgerId, IdText(typed))))
  }

  lemma Rejected(intended: Id, typed: Id, x: nat, y: nat, z: nat, ledgerId: seq<byte>)
    requires IsId(intended) && IsId(typed)
    requires ChecksumOf(ledgerId, IdText(typed)) != ChecksumOf(ledgerId, IdText(intended))
    ensures RejectedAs(intended, typed, PaddedText(typed, x, y, z), ledgerId)
  {
    var c := ChecksumOf(ledgerId, IdText(intended));
    IdTextShape(intended);
    ParsePadded(typed, x, y, z, Some(c));
    assert PaddedText(typed, x, y, z) + SuffixText(Some(c)) == PaddedText(typed, x, y, z) + "-" + c;
  }

  lemma NoZeros(id: Id)
    requires IsId(id)
    ensures PaddedText(id, 0, 0, 0) == IdText(id)
  {
    assert Zeros(0) == "";
  }

  lemma DroppedZerosDetected(intended: Id, typed: Id, dropped: nat, ledgerId: seq<byte>)
    requires IsId(intended) && IsId(typed) && dropped % 5 != 0 && |IdText(intended)| == |IdText(typed)| + dropped
    ensures ChecksumOf(ledgerId, IdText(typed)) != ChecksumOf(ledgerId, IdText(intended))
  {
    IdTextShape(intended);
    IdTextShape(typed);
    LengthMod(|IdText(typed)|, dropped);
    LengthChangeDetected(ledgerId, IdText(intended), IdText(typed));
  }

  lemma LengthMod(n: nat, k: nat)
    requires k % 5 != 0
    ensures n % 5 != (n + k) % 5
  {
  }

  /**
    So is every text with any of the other typing errors, unless it has five leading zeros, or ten, or
    any other multiple of five, in all.
   */
  lemma MistypedTextRejected(intended: Id, typed: Id, x: nat, y: nat, z: nat, ledgerId: seq<byte>)
    requires IsId(intended) && IsId(typed) && TypingError(IdText(intended), PaddedText(typed, x, y, z))
    requires x + y + z == 0 || (x + y + z) % 5 != 0
    ensures RejectedAs(intended, typed, PaddedText(typed, x, y, z), ledgerId)
  {
    PaddedLength(typed, x, y, z);
    if x + y + z == 0 {
      NoZeros(typed);
      MistypedIdRejected(intended, typed, ledgerId);
    } else {
      DroppedZerosDetected(intended, typed, x + y + z, ledgerId);
    }
    Rejected(intended, typed, x, y, z, ledgerId);
  }

  // ---- a swap that goes unnoticed ----

  lemma FiveZeros(d: seq<nat>)
    ensures Weighted(d + [0, 0, 0, 0, 0]) == 28629151 * Weighted(d)
    ensures ParitySum(d + [0, 0, 0, 0, 0], 0) == ParitySum(d, 0)
    ensures ParitySum(d + [0, 0, 0, 0, 0], 1) == ParitySum(d, 1)
  {
    var e1 := d + [0];
    var e2 := e1 + [0];
    var e3 := e2 + [0];
    var e4 := e3 + [0];
    SumsSnoc(d, 0);
    SumsSnoc(e1, 0);
    SumsSnoc(e2, 0);
    SumsSnoc(e3, 0);
    SumsSnoc(e4, 0);
    assert e4 + [0] == d + [0, 0, 0, 0, 0];
  }

  lemma ReadSums()
    ensures Weighted([6, 10, 2, 7, 10, 5]) == 181076740
  {
    Next([], [6], 6, 0, 0, 0);
    Next([6], [6, 10], 10, 6, 6, 0);
    Next([6, 10], [6, 10, 2], 2, 196, 6, 10);
    Next([6, 10, 2], [6, 10, 2, 7], 7, 6078, 8, 10);
    Next([6, 10, 2, 7], [6, 10, 2, 7, 10], 10, 188425, 8, 17);
    Next([6, 10, 2, 7, 10], [6, 10, 2, 7, 10, 5], 5, 5841185, 18, 17);
  }

  lemma ReadSymbols(a: string, b: string)
    requires a == "6.27.500000" && b == "6.27.5"
    ensures IsAddress(b) && Symbols(b) == [6, 10, 2, 7, 10, 5]
    ensures IsAddress(a) && Symbols(a) == Symbols(b) + [0, 0, 0, 0, 0]
  {
    assert a == b + "00000";
    assert Symbols(b) == [6, 10, 2, 7, 10, 5];
  }

  lemma SameWeighted(d: seq<nat>)
    requires Weighted(d) == 181076740
    ensures Weighted(d + [0, 0, 0, 0, 0]) % P3 == Weighted(d) % P3
  {
    FiveZeros(d);
    SameResidue(Weighted(d), Weighted(d + [0, 0, 0, 0, 0]));
  }

  lemma SameParities(d: seq<nat>)
    ensures ParitySum(d + [0, 0, 0, 0, 0], 0) == ParitySum(d, 0)
    ensures ParitySum(d + [0, 0, 0, 0, 0], 1) == ParitySum(d, 1)
  {
    FiveZeros(d);
  }

  lemma FiveMore(n: nat)
    ensures (n + 5) % 5 == n % 5
  {
  }

  lemma FingerprintParts(d: seq<nat>, e: seq<nat>, a: string, b: string)
    requires IsAddress(a) && IsAddress(b) && d == Symbols(a) && e == Symbols(b)
    requires |d| % 5 == |e| % 5 && Weighted(d) % P3 == Weighted(e) % P3
    requires ParitySum(d, 0) == ParitySum(e, 0) && ParitySum(d, 1) == ParitySum(e, 1)
    ensures FingerprintOf(a) == FingerprintOf(b)
  {
  }

  /** Five zeros more, and the fingerprint is the same. */
  lemma SameFingerprint(a: string, b: string)
    requires IsAddress(a) && IsAddress(b) && Symbols(a) == Symbols(b) + [0, 0, 0, 0, 0]
    requires Weighted(Symbols(a)) % P3 == Weighted(Symbols(b)) % P3
    ensures FingerprintOf(a) == FingerprintOf(b)
  {
    SameParities(Symbols(b));
    FiveMore(|Symbols(b)|);
    FingerprintParts(Symbols(a), Symbols(b), a, b);
  }

  lemma SameResidue(w: nat, v: nat)
    requires w == 181076740 && v == 28629151 * w
    ensures v % P3 == w % P3
  {
    assert v == P3 * 294951828177 + 8788;
  }

  lemma SwappedTexts()
    ensures IdText(Id(6, 27, 500000)) == "6.27.500000" && IdText(Id(6, 27, 5)) == "6.27.5"
    ensures PaddedText(Id(6, 27, 5), 0, 0, 5) == "6.27.000005"
    ensures IsSwap("6.27.500000", "6.27.000005", 5, 5)
  {
    LongNumber();
    assert DecString(27) == "27";
    assert Zeros(5) == "00000";
  }

  lemma LongNumber()
    ensures DecString(500000) == "500000"
  {
    assert DecString(500) == "500";
    assert DecString(50000) == "50000";
  }

  /** The text with the checksum of the intended ID parses to the typed one and passes validation. */
  predicate AcceptedAs(intended: Id, typed: Id, text: string, ledgerId: seq<byte>)
    requires IsId(intended) && IsId(typed)
  {
    var c := ChecksumOf(ledgerId, IdText(intended));
    && FromString(text + "-" + c) == Ok((typed, Some(c)))
    && ValidateChecksum(typed, Some(c), Client(Some(ledgerId))) == Ok(())
  }

  lemma Accepted(intended: Id, typed: Id, x: nat, y: nat, z: nat, ledgerId: seq<byte>)
    requires IsId(intended) && IsId(typed)
    requires ChecksumOf(ledgerId, IdText(typed)) == ChecksumOf(ledgerId, IdText(intended))
    ensures AcceptedAs(intended, typed, PaddedText(typed, x, y, z), ledgerId)
  {
    var c := ChecksumOf(ledgerId, IdText(intended));
    IdTextShape(intended);
    ParsePadded(typed, x, y, z, Some(c));
    assert PaddedText(typed, x, y, z) + SuffixText(Some(c)) == PaddedText(typed, x, y, z) + "-" + c;
  }

  /**
    With five leading zeros a swap can go unnoticed: exchange the first and the last digit of the number
    in 6.27.500000, and the text parses to 6.27.5, for which every ledger accepts the checksum.
   */
  lemma UnnoticedSwap(ledgerId: seq<byte>) returns (intended: Id, typed: Id, text: string)
    ensures intended == Id(6, 27, 500000) && typed == Id(6, 27, 5) && text == "6.27.000005"
    ensures IsSwap(IdText(intended), text, 5, 5) && AcceptedAs(intended, typed, text, ledgerId)
  {
    SwappedTexts();
    intended, typed, text := Id(6, 27, 500000), Id(6, 27, 5), "6.27.000005";
    ReadSymbols(IdText(intended), IdText(typed));
    ReadSums();
    SameWeighted(Symbols(IdText(typed)));
    SameFingerprint(IdText(intended), IdText(typed));
    SameChecksumIff(ledgerId, IdText(intended), IdText(typed));
    Accepted(intended, typed, 0, 0, 5, ledgerId);
  }

  // ---- the number of dropped zeros decides ----

  /** The text has one typing error, and x, y and z leading zeros. */
  ghost predicate IsMistyping(intended: Id, typed: Id, x: nat, y: nat, z: nat) {
    IsId(intended) && IsId(typed) && TypingError(IdText(intended), PaddedText(typed, x, y, z))
  }

  /** Every typing error that leaves leading zeros, r of them modulo five, is rejected on every ledger. */
  ghost predicate AlwaysCaught(r: nat) {
    forall intended, typed, x: nat, y: nat, z: nat, ledgerId: seq<byte> ::
      IsMistyping(intended, typed, x, y, z) && x + y + z > 0 && (x + y + z) % 5 == r ==>
        RejectedAs(intended, typed, PaddedText(typed, x, y, z), ledgerId)
  }

  /** That is so exactly when their number is not a multiple of five. */
  lemma AlwaysCaughtIff(r: nat)
    requires r < 5
    ensures AlwaysCaught(r) <==> r != 0
  {
    if r != 0 {
      forall intended, typed, x: nat, y: nat, z: nat, ledgerId: seq<byte> |
        IsMistyping(intended, typed, x, y, z) && x + y + z > 0 && (x + y + z) % 5 == r
        ensures RejectedAs(intended, typed, PaddedText(typed, x, y, z), ledgerId)
      {
        MistypedTextRejected(intended, typed, x, y, z, ledgerId);
      }
    } else {
      var intended, typed, text := UnnoticedSwap([]);
      SwappedTexts();
      assert IsMistyping(intended, typed, 0, 0, 5);
      assert !RejectedAs(intended, typed, PaddedText(typed, 0, 0, 5), []);
    }
  }
}

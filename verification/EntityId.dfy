/**
  The text form of an entity ID: the pattern behind `fromStringSplitter`, the parser, the printer
  with checksum and the check a client makes before it sends.
 */
module EntityId {
  import opened Wrappers
  import opened Arith
  import opened Text
  import opened Checksum

  // ---- the pattern ^(\d+)(?:\.(\d+)\.([a-fA-F0-9]+))?(?:-([a-z]{5}))?$ ----

  /** What the capture groups hold: group 1, groups 2 and 3 together, group 4. */
  datatype Groups = Groups(first: string, rest: Option<(string, string)>, suffix: Option<string>)

  predicate IsHex(c: char) { HexDigitValue(c).Some? }

  predicate LowerFive(s: string) { |s| == 5 && forall i :: 0 <= i < 5 ==> 'a' <= s[i] <= 'z' }

  /** The captures the pattern allows, and the text they stand for: the pattern as a relation. */
  predicate WellFormed(g: Groups) {
    && g.first != "" && AllDigits(g.first)
    && (g.rest.Some? ==> g.rest.value.0 != "" && AllDigits(g.rest.value.0))
    && (g.rest.Some? ==> g.rest.value.1 != "" && All(IsHex, g.rest.value.1))
    && (g.suffix.Some? ==> LowerFive(g.suffix.value))
  }

  function SuffixText(suffix: Option<string>): string {
    if suffix.Some? then "-" + suffix.value else ""
  }

  function TailText(rest: Option<(string, string)>, suffix: Option<string>): string {
    if rest.None? then SuffixText(suffix)
    else "." + (rest.value.0 + ("." + (rest.value.1 + SuffixText(suffix))))
  }

  function Render(g: Groups): string { g.first + TailText(g.rest, g.suffix) }

  function MatchSuffix(s: string): Option<Option<string>> {
    if s == "" then Some(None)
    else if |s| == 6 && s[0] == '-' && LowerFive(s[1..]) then Some(Some(s[1..]))
    else None
  }

  /** `\.([a-fA-F0-9]+)(?:-([a-z]{5}))?$` */
  function MatchThird(s: string): Option<(string, Option<string>)> {
    if s == "" || s[0] != '.' then None
    else
      var k := Run(IsHex, s[1..]);
      var suffix := MatchSuffix(s[1..][k..]);
      if k == 0 || suffix.None? then None else Some((s[1..][..k], suffix.value))
  }

  /** What follows group 1: the optional `.realm.num`, then the optional checksum. */
  function MatchTail(s: string): Option<(Option<(string, string)>, Option<string>)> {
    if s != "" && s[0] == '.' then
      var m := Run(IsDigit, s[1..]);
      var third := MatchThird(s[1..][m..]);
      if m == 0 || third.None? then None
      else Some((Some((s[1..][..m], third.value.0)), third.value.1))
    else
      var suffix := MatchSuffix(s);
      if suffix.None? then None else Some((None, suffix.value))
  }

  /** `ENTITY_ID_REGEX.exec`. */
  function Match(text: string): Option<Groups> {
    var n := Run(IsDigit, text);
    var tail := MatchTail(text[n..]);
    if n == 0 || tail.None? then None else Some(Groups(text[..n], tail.value.0, tail.value.1))
  }

  lemma SuffixMatches(suffix: Option<string>)
    requires suffix.Some? ==> LowerFive(suffix.value)
    ensures MatchSuffix(SuffixText(suffix)) == Some(suffix)
  {
    if suffix.Some? { assert SuffixText(suffix)[1..] == suffix.value; }
  }

  lemma SuffixRead(s: string)
    requires MatchSuffix(s).Some?
    ensures SuffixText(MatchSuffix(s).value) == s
    ensures MatchSuffix(s).value.Some? ==> LowerFive(MatchSuffix(s).value.value)
  {
    if s != "" { assert s == "-" + s[1..]; }
  }

  lemma ThirdMatches(third: string, suffix: Option<string>)
    requires third != "" && All(IsHex, third) && (suffix.Some? ==> LowerFive(suffix.value))
    ensures MatchThird("." + (third + SuffixText(suffix))) == Some((third, suffix))
  {
    var end := SuffixText(suffix);
    SuffixMatches(suffix);
    RunStops(IsHex, third, end);
    assert ("." + (third + end))[1..] == third + end;
  }

  lemma TailMatches(rest: Option<(string, string)>, suffix: Option<string>)
    requires WellFormed(Groups("0", rest, suffix))
    ensures MatchTail(TailText(rest, suffix)) == Some((rest, suffix))
  {
    if rest.Some? {
      var (second, third) := rest.value;
      var more := "." + (third + SuffixText(suffix));
      ThirdMatches(third, suffix);
      RunStops(IsDigit, second, more);
      assert ("." + (second + more))[1..] == second + more;
    } else {
      SuffixMatches(suffix);
    }
  }

  lemma MatchRender(g: Groups)
    requires WellFormed(g)
    ensures Match(Render(g)) == Some(g)
  {
    TailMatches(g.rest, g.suffix);
    RunStops(IsDigit, g.first, TailText(g.rest, g.suffix));
  }

  lemma ThirdRead(s: string)
    requires MatchThird(s).Some?
    ensures var (third, suffix) := MatchThird(s).value;
      && s == "." + (third + SuffixText(suffix))
      && third != "" && All(IsHex, third) && (suffix.Some? ==> LowerFive(suffix.value))
  {
    var k := Run(IsHex, s[1..]);
    SuffixRead(s[1..][k..]);
    assert s == "." + (s[1..][..k] + s[1..][k..]);
  }

  lemma Rejoined(s: string, m: nat)
    requires s != "" && s[0] == '.' && m < |s|
    ensures s == "." + (s[1..][..m] + s[1..][m..])
  {
    assert s[1..] == s[1..][..m] + s[1..][m..];
  }

  lemma TailRead(s: string)
    requires MatchTail(s).Some?
    ensures var (rest, suffix) := MatchTail(s).value;
      WellFormed(Groups("0", rest, suffix)) && TailText(rest, suffix) == s
  {
    if s != "" && s[0] == '.' {
      var m := Run(IsDigit, s[1..]);
      ThirdRead(s[1..][m..]);
      Rejoined(s, m);
    } else {
      SuffixRead(s);
    }
  }

  lemma RenderMatch(text: string)
    requires Match(text).Some?
    ensures WellFormed(Match(text).value) && Render(Match(text).value) == text
  {
    var n := Run(IsDigit, text);
    var head, tail := text[..n], text[n..];
    TailRead(tail);
    assert text == head + tail;
  }

  /** The matcher finds captures exactly for the texts of the pattern, and finds the only ones there are. */
  lemma MatchIff(text: string, g: Groups)
    ensures Match(text) == Some(g) <==> WellFormed(g) && Render(g) == text
  {
    if Match(text) == Some(g) { RenderMatch(text); }
    if WellFormed(g) && Render(g) == text { MatchRender(g); }
  }

  // ---- parsing, printing, validating ----

  datatype Parts = Parts(shard: string, realm: string, numOrHex: string, checksum: Option<string>)

  datatype Id = Id(shard: int, realm: int, num: int)

  datatype ParseError = NoMatch(text: string) | BadLong(cause: LongError)

  function FromStringSplitter(text: string): Result<Parts, ParseError> {
    match Match(text)
    case None => Err(NoMatch(text))
    case Some(g) =>
      if g.rest.None? then Ok(Parts("0", "0", g.first, g.suffix))
      else Ok(Parts(g.first, g.rest.value.0, g.rest.value.1, g.suffix))
  }

  function FromString(text: string): Result<(Id, Option<string>), ParseError> {
    match FromStringSplitter(text)
    case Err(e) => Err(e)
    case Ok(p) =>
      match (LongFromString(p.shard), LongFromString(p.realm), LongFromString(p.numOrHex))
      case (Ok(s), Ok(r), Ok(n)) => Ok((Id(s, r, n), p.checksum))
      case (Err(e), _, _) => Err(BadLong(e))
      case (_, Err(e), _) => Err(BadLong(e))
      case (_, _, Err(e)) => Err(BadLong(e))
  }

  /** IDs as the entity constructors admit them: no negative component. */
  predicate IsId(id: Id) { 0 <= id.shard < TWO63 && 0 <= id.realm < TWO63 && 0 <= id.num < TWO63 }

  function IdText(id: Id): string
    requires IsId(id)
  {
    Dotted(DecString(id.shard), DecString(id.realm), DecString(id.num))
  }

  function Dotted(a: string, b: string, c: string): string { a + "." + b + "." + c }

  lemma DottedRender(a: string, b: string, c: string, suffix: Option<string>)
    ensures Dotted(a, b, c) + SuffixText(suffix) == Render(Groups(a, Some((b, c)), suffix))
  {
    var e := SuffixText(suffix);
    assert a + "." + b + "." + c + e == a + ("." + (b + ("." + (c + e))));
  }

  lemma DottedMatches(a: string, b: string, c: string, suffix: Option<string>)
    requires WellFormed(Groups(a, Some((b, c)), suffix))
    ensures Match(Dotted(a, b, c) + SuffixText(suffix)) == Some(Groups(a, Some((b, c)), suffix))
  {
    DottedRender(a, b, c, suffix);
    MatchRender(Groups(a, Some((b, c)), suffix));
  }

  /** Three numbers are shard, realm and num, each wrapped to 64 bits. */
  lemma ParseNumbers(a: string, b: string, c: string, suffix: Option<string>)
    requires a != "" && AllDigits(a) && b != "" && AllDigits(b) && c != "" && AllDigits(c)
    requires suffix.Some? ==> LowerFive(suffix.value)
    ensures FromString(Dotted(a, b, c) + SuffixText(suffix))
         == Ok((Id(Wrap64(DecValue(a)), Wrap64(DecValue(b)), Wrap64(DecValue(c))), suffix))
  {
    DottedMatches(a, b, c, suffix);
    LongFromDigits(a);
    LongFromDigits(b);
    LongFromDigits(c);
  }

  /** A number alone is the num, with shard and realm zero. */
  lemma ParseBareNumber(n: string, suffix: Option<string>)
    requires n != "" && AllDigits(n) && (suffix.Some? ==> LowerFive(suffix.value))
    ensures FromString(n + SuffixText(suffix)) == Ok((Id(0, 0, Wrap64(DecValue(n))), suffix))
  {
    MatchRender(Groups(n, None, suffix));
    LongFromDigits(n);
    LongFromDecString(0);
    assert DecString(0) == "0";
  }

  /** A client knows the ledger it talks to, or not. */
  datatype Client = Client(ledgerId: Option<seq<byte>>)

  datatype ClientError = NullClient | NoLedgerId

  function ToStringWithChecksum(text: string, client: Option<Client>): Result<string, ClientError> {
    if client.None? then Err(NullClient)
    else if client.value.ledgerId.None? then Err(NoLedgerId)
    else Ok(text + "-" + ChecksumOf(client.value.ledgerId.value, text))
  }

  datatype BadEntityId = BadEntityId(id: Id, present: string, expected: string)

  function ValidateChecksum(id: Id, checksum: Option<string>, client: Client): Result<(), BadEntityId>
    requires IsId(id)
  {
    if client.ledgerId.None? || checksum.None? then Ok(())
    else
      var expected := ChecksumOf(client.ledgerId.value, IdText(id));
      if checksum.value != expected then Err(BadEntityId(id, checksum.value, expected)) else Ok(())
  }

  /** Only a checksum that is there, on a ledger that is known, can be wrong, and then it is if it differs. */
  lemma ValidIff(id: Id, checksum: Option<string>, client: Client)
    requires IsId(id)
    ensures ValidateChecksum(id, checksum, client).Err? <==>
      client.ledgerId.Some? && checksum.Some? && checksum.value != ChecksumOf(client.ledgerId.value, IdText(id))
  {
  }

  /** An ID is printed with its checksum on exactly the clients that know their ledger. */
  lemma PrintedIff(text: string, client: Option<Client>, printed: string)
    ensures ToStringWithChecksum(text, client) == Ok(printed) <==>
      client.Some? && client.value.ledgerId.Some?
      && printed == text + ("-" + ChecksumOf(client.value.ledgerId.value, text))
    ensures ToStringWithChecksum(text, client) == Err(NullClient) <==> client.None?
  {
    if client.Some? && client.value.ledgerId.Some? {
      var c := ChecksumOf(client.value.ledgerId.value, text);
      assert text + "-" + c == text + ("-" + c);
    }
  }

  lemma TwoTo63()
    ensures TWO63 < Pow(10, 19)
  {
    PowAdd(10, 9, 10);
    assert Pow(10, 5) == 100000;
    PowAdd(10, 4, 5);
    PowAdd(10, 5, 5);
  }

  lemma IdTextShape(id: Id)
    requires IsId(id)
    ensures IsAddress(IdText(id)) && |IdText(id)| <= 59
  {
    DecStringValue(id.shard);
    DecStringValue(id.realm);
    DecStringValue(id.num);
    TwoTo63();
    DecStringLength(id.shard, 19);
    DecStringLength(id.realm, 19);
    DecStringLength(id.num, 19);
  }

  /** Text with any five-letter suffix parses to the ID that was printed and to that suffix. */
  lemma ParseIdText(id: Id, suffix: Option<string>)
    requires IsId(id) && (suffix.Some? ==> LowerFive(suffix.value))
    ensures FromString(IdText(id) + SuffixText(suffix)) == Ok((id, suffix))
  {
    DecStringValue(id.shard);
    DecStringValue(id.realm);
    DecStringValue(id.num);
    DottedMatches(DecString(id.shard), DecString(id.realm), DecString(id.num), suffix);
    LongFromDecString(id.shard);
    LongFromDecString(id.realm);
    LongFromDecString(id.num);
  }

  /** Printing with checksum and parsing gives the ID back, with a checksum that ledger accepts. */
  lemma RoundTrip(id: Id, ledgerId: seq<byte>)
    requires IsId(id)
    ensures var client := Client(Some(ledgerId));
      var printed := ToStringWithChecksum(IdText(id), Some(client));
      && printed.Ok?
      && FromString(printed.value) == Ok((id, Some(ChecksumOf(ledgerId, IdText(id)))))
      && ValidateChecksum(id, Some(ChecksumOf(ledgerId, IdText(id))), client) == Ok(())
  {
    IdTextShape(id);
    var c := ChecksumOf(ledgerId, IdText(id));
    ParseIdText(id, Some(c));
    assert IdText(id) + SuffixText(Some(c)) == IdText(id) + "-" + c;
  }

  /** b is a with the different symbols at positions i and i+e exchanged. */
  predicate IsSwap(a: string, b: string, i: nat, e: nat) {
    e > 0 && i + e < |a| && a[i] != a[i + e] && b == Swap(a, i, i + e)
  }

  /** One symbol replaced, two symbols of opposite parity replaced, or any two symbols exchanged. */
  ghost predicate TypingError(a: string, b: string) {
    (exists i: nat :: LoneEdit(a, b, i)) || (exists i: nat, e: nat :: IsSwap(a, b, i, e))
  }

  lemma SwapDetected(ledgerId: seq<byte>, a: string, b: string, i: nat, e: nat)
    requires IsAddress(a) && |a| <= 676 && IsSwap(a, b, i, e)
    ensures ChecksumOf(ledgerId, b) != ChecksumOf(ledgerId, a)
  {
    DivModUnique(e, 676, 0, e);
    SwapUndetectedIff(ledgerId, a, i, e);
  }

  lemma TypingErrorDetected(ledgerId: seq<byte>, a: string, b: string)
    requires IsAddress(a) && IsAddress(b) && |a| <= 676 && TypingError(a, b)
    ensures ChecksumOf(ledgerId, b) != ChecksumOf(ledgerId, a)
  {
    if i: nat :| LoneEdit(a, b, i) {
      LoneEditDetected(ledgerId, a, b, i);
    } else {
      var i: nat, e: nat :| IsSwap(a, b, i, e);
      SwapDetected(ledgerId, a, b, i, e);
    }
  }

  /**
    An ID mistyped by one such error but carrying the checksum of the intended one still parses,
    and is always rejected by a client of that ledger.
   */
  lemma MistypedIdRejected(intended: Id, typed: Id, ledgerId: seq<byte>)
    requires IsId(intended) && IsId(typed) && TypingError(IdText(intended), IdText(typed))
    ensures var c := ChecksumOf(ledgerId, IdText(intended));
      && FromString(IdText(typed) + "-" + c) == Ok((typed, Some(c)))
      && ValidateChecksum(typed, Some(c), Client(Some(ledgerId)))
         == Err(BadEntityId(typed, c, ChecksumOf(ledgerId, IdText(typed))))
  {
    IdTextShape(intended);
    IdTextShape(typed);
    var c := ChecksumOf(ledgerId, IdText(intended));
    ParseIdText(typed, Some(c));
    assert IdText(typed) + SuffixText(Some(c)) == IdText(typed) + "-" + c;
    TypingErrorDetected(ledgerId, IdText(intended), IdText(typed));
  }

  /** Two ledgers whose IDs differ in one byte never accept each other's addresses. */
  lemma WrongLedgerRejected(id: Id, ledgerId: seq<byte>, i: nat, x: byte)
    requires IsId(id) && i < |ledgerId| && x != ledgerId[i]
    ensures ValidateChecksum(id, Some(ChecksumOf(ledgerId, IdText(id))), Client(Some(ledgerId[i := x]))).Err?
  {
    IdTextShape(id);
    LedgerByteDetected(ledgerId, i, x, IdText(id));
  }

  lemma AddressConcat(a: string, b: string)
    ensures IsAddress(a + b) <==> IsAddress(a) && IsAddress(b)
  {
    assert forall i :: 0 <= i < |a| ==> (a + b)[i] == a[i];
    assert forall i :: 0 <= i < |b| ==> (a + b)[|a| + i] == b[i];
    if IsAddress(a) && IsAddress(b) {
      forall i | 0 <= i < |a + b| ensures Symbol((a + b)[i]).Some? {
        if i >= |a| { assert (a + b)[i] == b[i - |a|]; }
      }
    }
  }

  lemma NulSuffixUnmatched(text: string)
    ensures Match(text + "-" + NULS).None?
  {
    var full := text + "-" + NULS;
    if Match(full).Some? {
      RenderMatch(full);
      TailEnd(Match(full).value);
    }
  }

  lemma TailEnd(g: Groups)
    requires WellFormed(g)
    ensures Render(g) != "" && Render(g)[|Render(g)| - 1] != '\0'
  {
    var end := SuffixText(g.suffix);
    if g.suffix.Some? {
      assert Render(g)[|Render(g)| - 1] == g.suffix.value[4];
    } else if g.rest.Some? {
      assert Render(g)[|Render(g)| - 1] == g.rest.value.1[|g.rest.value.1| - 1];
    } else {
      assert Render(g) == g.first;
    }
  }

  lemma HexAddress(hex: string)
    requires All(IsHex, hex)
    ensures IsAddress(hex) <==> AllDigits(hex)
  {
    assert forall i :: 0 <= i < |hex| ==> IsHex(hex[i]) && hex[i] != '.';
  }

  lemma DottedAddress(a: string, b: string, hex: string)
    requires AllDigits(a) && AllDigits(b) && All(IsHex, hex)
    ensures IsAddress(Dotted(a, b, hex)) <==> AllDigits(hex)
  {
    AddressConcat(a, ".");
    AddressConcat(a + ".", b);
    AddressConcat(a + "." + b, ".");
    AddressConcat(a + "." + b + ".", hex);
    HexAddress(hex);
  }

  /**
    An account ID with an EVM address prints as shard.realm.hex. The text printed with its checksum
    parses exactly when the hex form holds no letter: otherwise every sum is NaN and the checksum
    is five NULs, on every ledger.
   */
  lemma EvmAddressChecksum(shard: nat, realm: nat, hex: string, ledgerId: seq<byte>)
    requires hex != "" && All(IsHex, hex)
    ensures var text := Dotted(DecString(shard), DecString(realm), hex);
      Match(text + "-" + ChecksumOf(ledgerId, text)).Some? <==> AllDigits(hex)
  {
    var a, b := DecString(shard), DecString(realm);
    DecStringValue(shard);
    DecStringValue(realm);
    EvmText(a, b, hex, ledgerId);
  }

  lemma EvmText(a: string, b: string, hex: string, ledgerId: seq<byte>)
    requires a != "" && AllDigits(a) && b != "" && AllDigits(b) && hex != "" && All(IsHex, hex)
    ensures Match(Dotted(a, b, hex) + "-" + ChecksumOf(ledgerId, Dotted(a, b, hex))).Some? <==> AllDigits(hex)
  {
    var text := Dotted(a, b, hex);
    var c := ChecksumOf(ledgerId, text);
    DottedAddress(a, b, hex);
    assert text + "-" + c == text + SuffixText(Some(c));
    if AllDigits(hex) {
      DottedMatches(a, b, hex, Some(c));
    } else {
      NotAnAddressIff(ledgerId, text);
      NulSuffixUnmatched(text);
    }
  }
}

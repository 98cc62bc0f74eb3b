/** Recursive Length Prefix, as in Appendix B of the Ethereum Yellow Paper: printer, parser, round trip. */
module Rlp {
  import opened Wrappers
  import opened Arith
  import opened Text

  datatype Item = Bytes(data: seq<byte>) | List(items: seq<Item>)

  // ---- lengths ----

  /** Number of bytes of a length's big-endian form. */
  function LengthSize(n: nat): nat { if n == 0 then 0 else 1 + LengthSize(n / 256) }

  function BigEndian(n: nat): (b: seq<byte>)
    ensures |b| == LengthSize(n)
  {
    if n == 0 then [] else BigEndian(n / 256) + [n % 256]
  }

  function FromBigEndian(b: seq<byte>): nat {
    if b == [] then 0 else 256 * FromBigEndian(b[..|b| - 1]) + b[|b| - 1]
  }

  function HeaderSize(n: nat): nat { if n < 56 then 1 else 1 + LengthSize(n) }

  /** Length of the encoding of a byte string. */
  function BytesLen(data: seq<byte>): nat {
    if |data| == 1 && data[0] < 0x80 then 1 else HeaderSize(|data|) + |data|
  }

  function Len(x: Item): (n: nat)
    ensures n > 0
    decreases x, 1
  {
    match x
    case Bytes(data) => BytesLen(data)
    case List(items) => HeaderSize(LenAll(items)) + LenAll(items)
  }

  function LenAll(items: seq<Item>): nat
    decreases items, 0
  {
    if items == [] then 0 else Len(items[0]) + LenAll(items[1..])
  }

  // ---- printer ----

  /** The prefix of a payload of n bytes; `base` is 0x80 for a string and 0xc0 for a list. */
  function Header(base: nat, n: nat): (h: seq<byte>)
    requires n < TWO64 && (base == 0x80 || base == 0xc0)
    ensures |h| == HeaderSize(n)
  {
    if n < 56 then [base + n] else
      SizeBound(n, 8);
      [base + 55 + LengthSize(n)] + BigEndian(n)
  }

  lemma {:induction false} SizeBound(n: nat, k: nat)
    requires n < Pow(256, k)
    ensures LengthSize(n) <= k
  {
    if n > 0 { SizeBound(n / 256, k - 1); }
  }

  function Encode(x: Item): (b: seq<byte>)
    requires Len(x) < TWO64
    ensures |b| == Len(x)
    decreases x, 1
  {
    match x
    case Bytes(data) => if |data| == 1 && data[0] < 0x80 then data else Header(0x80, |data|) + data
    case List(items) => Header(0xc0, LenAll(items)) + EncodeAll(items)
  }

  function EncodeAll(items: seq<Item>): (b: seq<byte>)
    requires LenAll(items) < TWO64
    ensures |b| == LenAll(items)
    decreases items, 0
  {
    if items == [] then [] else Encode(items[0]) + EncodeAll(items[1..])
  }

  // ---- parser ----

  /** Splits off one string or list payload: whether it is a list, its payload, and what follows. */
  datatype Split = Split(isList: bool, payload: seq<byte>, rest: seq<byte>)

  function TakePayload(isList: bool, b: seq<byte>, n: nat): (r: Option<Split>)
    ensures r.Some? ==> |r.value.payload| + |r.value.rest| == |b|
  {
    if n > |b| then None else Some(Split(isList, b[..n], b[n..]))
  }

  function TakeLong(isList: bool, b: seq<byte>, size: nat): (r: Option<Split>)
    ensures r.Some? ==> |r.value.payload| + |r.value.rest| <= |b|
  {
    if size > |b| then None else TakePayload(isList, b[size..], FromBigEndian(b[..size]))
  }

  function SplitItem(b: seq<byte>): (r: Option<Split>)
    requires b != []
    ensures r.Some? ==> |r.value.payload| + |r.value.rest| <= |b| && |r.value.rest| < |b|
    ensures r.Some? && r.value.isList ==> |r.value.payload| < |b|
  {
    var h := b[0];
    if h < 0x80 then Some(Split(false, b[..1], b[1..]))
    else if h < 0xb8 then TakePayload(false, b[1..], h - 0x80)
    else if h < 0xc0 then TakeLong(false, b[1..], h - 0xb7)
    else if h < 0xf8 then TakePayload(true, b[1..], h - 0xc0)
    else TakeLong(true, b[1..], h - 0xf7)
  }

  /** Reads items until the bytes are used up. */
  function DecodeAll(b: seq<byte>): Option<seq<Item>>
    decreases |b|
  {
    if b == [] then Some([])
    else
      match SplitItem(b)
      case None => None
      case Some(s) =>
        var first := if !s.isList then Some(Bytes(s.payload))
                     else match DecodeAll(s.payload) { case None => None case Some(xs) => Some(List(xs)) };
        var others := DecodeAll(s.rest);
        if first.None? || others.None? then None else Some([first.value] + others.value)
  }

  /** One item and nothing after it. */
  function Decode(b: seq<byte>): Option<Item> {
    match DecodeAll(b)
    case None => None
    case Some(xs) => if |xs| == 1 then Some(xs[0]) else None
  }

  // ---- the encoding, as the Yellow Paper has it ----

  lemma {:induction false} BigEndianHead(n: nat)
    requires n > 0
    ensures BigEndian(n) != [] && BigEndian(n)[0] != 0
  {
    if n >= 256 { BigEndianHead(n / 256); } else { assert BigEndian(n / 256) == []; }
  }

  /** A long payload's length, big endian in as few bytes as it takes, behind a byte that says how many. */
  lemma LongHeaderIs(base: nat, n: nat) returns (length: seq<byte>)
    requires 56 <= n < TWO64 && (base == 0x80 || base == 0xc0)
    ensures Header(base, n) == [base + 55 + |length|] + length
    ensures 1 <= |length| <= 8 && length[0] != 0 && FromBigEndian(length) == n
  {
    length := BigEndian(n);
    SizeBound(n, 8);
    BigEndianHead(n);
    LengthRoundTrip(n);
  }

  predicate IsSmallByte(data: seq<byte>) { |data| == 1 && data[0] < 0x80 }

  /** Strings: a small byte is itself, others follow 0x80 plus their length, or 0xb7 plus its size and it. */
  lemma BytesForm(data: seq<byte>) returns (length: seq<byte>)
    requires BytesLen(data) < TWO64
    ensures IsSmallByte(data) ==> Encode(Bytes(data)) == data
    ensures !IsSmallByte(data) && |data| <= 55 ==> Encode(Bytes(data)) == [0x80 + |data|] + data
    ensures |data| > 55 ==> Encode(Bytes(data)) == [0xb7 + |length|] + length + data
    ensures |data| > 55 ==> 1 <= |length| <= 8 && length[0] != 0 && FromBigEndian(length) == |data|
  {
    if |data| > 55 { length := LongHeaderIs(0x80, |data|); } else { length := []; }
  }

  /** Lists: their items' encodings in order, behind 0xc0 plus their length, or 0xf7 plus its size and it. */
  lemma ListForm(items: seq<Item>) returns (length: seq<byte>)
    requires Len(List(items)) < TWO64
    ensures var payload := EncodeAll(items);
      && (|payload| <= 55 ==> Encode(List(items)) == [0xc0 + |payload|] + payload)
      && (|payload| > 55 ==> Encode(List(items)) == [0xf7 + |length|] + length + payload)
      && (|payload| > 55 ==> 1 <= |length| <= 8 && length[0] != 0 && FromBigEndian(length) == |payload|)
  {
    if LenAll(items) > 55 { length := LongHeaderIs(0xc0, LenAll(items)); } else { length := []; }
  }

  lemma {:induction false} EncodeAllConcat(a: seq<Item>, b: seq<Item>)
    requires LenAll(a + b) < TWO64
    ensures LenAll(a) < TWO64 && LenAll(b) < TWO64 && EncodeAll(a + b) == EncodeAll(a) + EncodeAll(b)
  {
    LenAllConcat(a, b);
    if a == [] {
      assert a + b == b;
    } else {
      assert (a + b)[1..] == a[1..] + b;
      EncodeAllConcat(a[1..], b);
    }
  }

  // ---- round trip ----

  lemma {:induction false} LengthRoundTrip(n: nat)
    ensures FromBigEndian(BigEndian(n)) == n
  {
    if n > 0 {
      LengthRoundTrip(n / 256);
      assert BigEndian(n)[..|BigEndian(n)| - 1] == BigEndian(n / 256);
    }
  }

  lemma SplitHeader(base: nat, payload: seq<byte>, rest: seq<byte>)
    requires |payload| < TWO64 && (base == 0x80 || base == 0xc0)
    ensures SplitItem(Header(base, |payload|) + payload + rest) == Some(Split(base == 0xc0, payload, rest))
  {
    var n := |payload|;
    var b := Header(base, n) + payload + rest;
    if n < 56 {
      assert b[1..] == payload + rest;
    } else {
      var be := BigEndian(n);
      SizeBound(n, 8);
      assert LengthSize(n) > 0;
      assert b[1..] == be + (payload + rest);
      LengthRoundTrip(n);
      assert (be + (payload + rest))[..|be|] == be;
      assert (be + (payload + rest))[|be|..] == payload + rest;
    }
  }

  lemma SplitBytes(data: seq<byte>, rest: seq<byte>)
    requires BytesLen(data) < TWO64
    ensures SplitItem(Encode(Bytes(data)) + rest) == Some(Split(false, data, rest))
  {
    if |data| == 1 && data[0] < 0x80 {
      assert (data + rest)[..1] == data && (data + rest)[1..] == rest;
    } else {
      SplitHeader(0x80, data, rest);
    }
  }

  lemma {:induction false} DecodeEncoded(x: Item, rest: seq<byte>)
    requires Len(x) < TWO64
    ensures DecodeAll(Encode(x) + rest) ==
      match DecodeAll(rest) { case None => None case Some(xs) => Some([x] + xs) }
    decreases x, 1
  {
    match x
    case Bytes(data) =>
      SplitBytes(data, rest);
    case List(items) =>
      SplitHeader(0xc0, EncodeAll(items), rest);
      DecodeEncodedAll(items);
  }

  lemma {:induction false} DecodeEncodedAll(items: seq<Item>)
    requires LenAll(items) < TWO64
    ensures DecodeAll(EncodeAll(items)) == Some(items)
    decreases items, 0
  {
    if items != [] {
      DecodeEncodedAll(items[1..]);
      DecodeEncoded(items[0], EncodeAll(items[1..]));
      assert items == [items[0]] + items[1..];
    }
  }

  /** Every item that can be encoded at all decodes to itself. */
  lemma RoundTrip(x: Item)
    requires Len(x) < TWO64
    ensures Decode(Encode(x)) == Some(x)
  {
    DecodeEncoded(x, []);
    assert Encode(x) + [] == Encode(x);
  }

  /** The first byte tells lists from strings. */
  lemma FirstByte(x: Item)
    requires Len(x) < TWO64
    ensures x.List? <==> Encode(x)[0] >= 0xc0
  {
    match x
    case Bytes(data) => if |data| >= 56 { SizeBound(|data|, 8); }
    case List(items) => if LenAll(items) >= 56 { SizeBound(LenAll(items), 8); }
  }

  lemma {:induction false} LenAllConcat(a: seq<Item>, b: seq<Item>)
    ensures LenAll(a + b) == LenAll(a) + LenAll(b)
  {
    if a == [] {
      assert a + b == b;
    } else {
      assert (a + b)[1..] == a[1..] + b;
      LenAllConcat(a[1..], b);
    }
  }
}

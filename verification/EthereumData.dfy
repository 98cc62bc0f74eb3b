/** Ethereum transaction data: three codecs behind one dispatcher on the first byte. */
module EthereumData {
  import opened Wrappers
  import opened Text
  import opened Rlp

  datatype TxData =
    | Legacy(nonce: seq<byte>, gasPrice: seq<byte>, gasLimit: seq<byte>, to: seq<byte>, value: seq<byte>,
             callData: seq<byte>, v: seq<byte>, r: seq<byte>, s: seq<byte>)
    | Eip2930(chainId: seq<byte>, nonce: seq<byte>, gasPrice: seq<byte>, gasLimit: seq<byte>, to: seq<byte>,
              value: seq<byte>, callData: seq<byte>, accessList: seq<seq<byte>>, recId: seq<byte>,
              r: seq<byte>, s: seq<byte>)
    | Eip1559(chainId: seq<byte>, nonce: seq<byte>, maxPriorityGas: seq<byte>, maxGas: seq<byte>,
              gasLimit: seq<byte>, to: seq<byte>, value: seq<byte>, callData: seq<byte>,
              accessList: seq<seq<byte>>, recId: seq<byte>, r: seq<byte>, s: seq<byte>)

  datatype DecodeError = EmptyBytes | BadRlp | NotAList | WrongFieldCount | NotAString

  // ---- encoding ----

  function AccessItem(accessList: seq<seq<byte>>): Item {
    List(seq(|accessList|, i requires 0 <= i < |accessList| => Bytes(accessList[i])))
  }

  function FieldsBefore(tx: TxData): seq<Item> {
    match tx
    case Legacy(n, p, l, t, w, _, _, _, _) => [Bytes(n), Bytes(p), Bytes(l), Bytes(t), Bytes(w)]
    case Eip2930(c, n, p, l, t, w, _, _, _, _, _) => [Bytes(c), Bytes(n), Bytes(p), Bytes(l), Bytes(t), Bytes(w)]
    case Eip1559(c, n, q, m, l, t, w, _, _, _, _, _) =>
      [Bytes(c), Bytes(n), Bytes(q), Bytes(m), Bytes(l), Bytes(t), Bytes(w)]
  }

  function FieldsAfter(tx: TxData): seq<Item> {
    match tx
    case Legacy(_, _, _, _, _, _, v, r, s) => [Bytes(v), Bytes(r), Bytes(s)]
    case Eip2930(_, _, _, _, _, _, _, a, i, r, s) => [AccessItem(a), Bytes(i), Bytes(r), Bytes(s)]
    case Eip1559(_, _, _, _, _, _, _, _, a, i, r, s) => [AccessItem(a), Bytes(i), Bytes(r), Bytes(s)]
  }

  /** The list each `toBytes` hands to `rlp.encode`. */
  function Fields(tx: TxData): seq<Item> { FieldsBefore(tx) + [Bytes(tx.callData)] + FieldsAfter(tx) }

  predicate Encodable(tx: TxData) { Len(List(Fields(tx))) < TWO64 }

  /** `rlp.encode` yields hex text. */
  function EncodeText(x: Item): string
    requires Len(x) < TWO64
  {
    "0x" + HexEncode(Encode(x))
  }

  function ToBytes(tx: TxData): seq<byte>
    requires Encodable(tx)
  {
    var encoded := EncodeText(List(Fields(tx)));
    if tx.Legacy? then HexDecode(encoded) else TypedBytes(if tx.Eip2930? then "01" else "02", encoded)
  }

  /** `hex.decode(type + encoded.substring(2))` */
  function TypedBytes(typeText: string, encoded: string): seq<byte>
    requires |encoded| >= 2
  {
    HexDecode(typeText + encoded[2..])
  }

  function TypePrefix(tx: TxData): seq<byte> {
    if tx.Legacy? then [] else if tx.Eip2930? then [1] else [2]
  }

  // ---- decoding ----

  /** `hex.decode` of a decoded string; a nested list has no `startsWith` and throws. */
  function FieldBytes(x: Item): (b: seq<byte>)
    requires x.Bytes?
    ensures b == x.data
  {
    HexRoundTrip(x.data);
    HexDecode("0x" + HexEncode(x.data))
  }

  predicate AllBytes(items: seq<Item>) { forall i :: 0 <= i < |items| ==> items[i].Bytes? }

  predicate Flat(x: Item) { x.List? && AllBytes(x.items) }

  function AccessBytes(x: Item): seq<seq<byte>>
    requires Flat(x)
  {
    seq(|x.items|, i requires 0 <= i < |x.items| => FieldBytes(x.items[i]))
  }

  predicate LegacyShape(d: seq<Item>) { |d| == 9 && AllBytes(d) }

  function LegacyOf(d: seq<Item>): TxData
    requires LegacyShape(d)
  {
    Legacy(FieldBytes(d[0]), FieldBytes(d[1]), FieldBytes(d[2]), FieldBytes(d[3]), FieldBytes(d[4]),
           FieldBytes(d[5]), FieldBytes(d[6]), FieldBytes(d[7]), FieldBytes(d[8]))
  }

  function FromBytesLegacy(bytes: seq<byte>): Result<TxData, DecodeError> {
    if bytes == [] then Err(EmptyBytes)
    else
      match Decode(bytes)
      case None => Err(BadRlp)
      case Some(Bytes(_)) => Err(WrongFieldCount)
      case Some(List(d)) =>
        if |d| != 9 then Err(WrongFieldCount) else if !LegacyShape(d) then Err(NotAString) else Ok(LegacyOf(d))
  }

  /** n strings, an access list and three strings. */
  predicate TypedShape(d: seq<Item>, n: nat) {
    |d| == n + 4 && Flat(d[n]) && forall i :: 0 <= i < |d| && i != n ==> d[i].Bytes?
  }

  function Eip2930Of(d: seq<Item>): TxData
    requires TypedShape(d, 7)
  {
    Eip2930(FieldBytes(d[0]), FieldBytes(d[1]), FieldBytes(d[2]), FieldBytes(d[3]), FieldBytes(d[4]),
            FieldBytes(d[5]), FieldBytes(d[6]), AccessBytes(d[7]), FieldBytes(d[8]), FieldBytes(d[9]),
            FieldBytes(d[10]))
  }

  function FromBytesEip2930(bytes: seq<byte>): Result<TxData, DecodeError> {
    if bytes == [] then Err(EmptyBytes)
    else
      match Decode(bytes[1..])
      case None => Err(BadRlp)
      case Some(Bytes(_)) => Err(NotAList)
      case Some(List(d)) =>
        if |d| != 11 then Err(WrongFieldCount) else if !TypedShape(d, 7) then Err(NotAString) else Ok(Eip2930Of(d))
  }

  function Eip1559Of(d: seq<Item>): TxData
    requires TypedShape(d, 8)
  {
    Eip1559(FieldBytes(d[0]), FieldBytes(d[1]), FieldBytes(d[2]), FieldBytes(d[3]), FieldBytes(d[4]),
            FieldBytes(d[5]), FieldBytes(d[6]), FieldBytes(d[7]), AccessBytes(d[8]), FieldBytes(d[9]),
            FieldBytes(d[10]), FieldBytes(d[11]))
  }

  function FromBytesEip1559(bytes: seq<byte>): Result<TxData, DecodeError> {
    if bytes == [] then Err(EmptyBytes)
    else
      match Decode(bytes[1..])
      case None => Err(BadRlp)
      case Some(Bytes(_)) => Err(NotAList)
      case Some(List(d)) =>
        if |d| != 12 then Err(WrongFieldCount) else if !TypedShape(d, 8) then Err(NotAString) else Ok(Eip1559Of(d))
  }

  /** The dispatcher. */
  function FromBytes(bytes: seq<byte>): Result<TxData, DecodeError> {
    if bytes == [] then Err(EmptyBytes)
    else if bytes[0] == 1 then FromBytesEip2930(bytes)
    else if bytes[0] == 2 then FromBytesEip1559(bytes)
    else FromBytesLegacy(bytes)
  }

  // ---- properties ----

  lemma PrefixedHex(k: byte, prefix: string, e: seq<byte>)
    requires prefix == [HexDigit(k / 16), HexDigit(k % 16)]
    ensures HexDecode(prefix + HexEncode(e)) == [k] + e
  {
    assert ([k] + e)[0] == k && ([k] + e)[1..] == e;
    assert HexEncode([k] + e) == prefix + HexEncode(e);
    HexRoundTrip([k] + e);
  }

  lemma TypedBytesIs(k: byte, prefix: string, x: Item)
    requires Len(x) < TWO64 && prefix == [HexDigit(k / 16), HexDigit(k % 16)]
    ensures TypedBytes(prefix, EncodeText(x)) == [k] + Encode(x)
  {
    assert EncodeText(x)[2..] == HexEncode(Encode(x));
    PrefixedHex(k, prefix, Encode(x));
  }

  /** The detour through hex text only puts the type byte in front of the RLP list. */
  lemma ToBytesIs(tx: TxData)
    requires Encodable(tx)
    ensures ToBytes(tx) == TypePrefix(tx) + Encode(List(Fields(tx)))
  {
    var x := List(Fields(tx));
    if tx.Legacy? {
      HexRoundTrip(Encode(x));
      assert [] + Encode(x) == Encode(x);
    } else if tx.Eip2930? {
      TypedBytesIs(1, "01", x);
    } else {
      TypedBytesIs(2, "02", x);
    }
  }

  lemma AccessRoundTrip(a: seq<seq<byte>>)
    ensures Flat(AccessItem(a)) && AccessBytes(AccessItem(a)) == a
  {
  }

  /** A legacy encoding starts with a list header, so it is never taken for a typed one. */
  lemma LegacyNeverTyped(tx: TxData)
    requires tx.Legacy? && Encodable(tx)
    ensures ToBytes(tx) != [] && ToBytes(tx)[0] >= 0xc0
  {
    ToBytesIs(tx);
    FirstByte(List(Fields(tx)));
  }

  lemma LegacyFields(tx: TxData)
    requires tx.Legacy?
    ensures LegacyShape(Fields(tx)) && LegacyOf(Fields(tx)) == tx
  {
    FieldOrder(tx);
  }

  lemma Eip2930Fields(tx: TxData)
    requires tx.Eip2930?
    ensures TypedShape(Fields(tx), 7) && Eip2930Of(Fields(tx)) == tx
  {
    FieldOrder(tx);
    AccessRoundTrip(tx.accessList);
  }

  lemma Eip1559Fields(tx: TxData)
    requires tx.Eip1559?
    ensures TypedShape(Fields(tx), 8) && Eip1559Of(Fields(tx)) == tx
  {
    FieldOrder(tx);
    AccessRoundTrip(tx.accessList);
  }

  lemma DecodedPayload(tx: TxData)
    requires Encodable(tx)
    ensures ToBytes(tx) != []
    ensures tx.Legacy? ==> ToBytes(tx)[0] >= 0xc0 && Decode(ToBytes(tx)) == Some(List(Fields(tx)))
    ensures !tx.Legacy? ==> ToBytes(tx)[0] == (if tx.Eip2930? then 1 else 2)
    ensures !tx.Legacy? ==> Decode(ToBytes(tx)[1..]) == Some(List(Fields(tx)))
  {
    var e := Encode(List(Fields(tx)));
    ToBytesIs(tx);
    Rlp.RoundTrip(List(Fields(tx)));
    FirstByte(List(Fields(tx)));
    if tx.Legacy? {
      assert ToBytes(tx) == e;
    } else {
      assert ToBytes(tx)[1..] == e;
    }
  }

  /** The bytes hold the fields in the order of the Ethereum proposals, after the type byte if there is one. */
  lemma WireOrder(tx: TxData)
    requires Encodable(tx)
    ensures tx.Legacy? ==> Decode(ToBytes(tx)) == Some(List([Bytes(tx.nonce), Bytes(tx.gasPrice), Bytes(tx.gasLimit),
      Bytes(tx.to), Bytes(tx.value), Bytes(tx.callData), Bytes(tx.v), Bytes(tx.r), Bytes(tx.s)]))
    ensures tx.Eip2930? ==> ToBytes(tx) != [] && ToBytes(tx)[0] == 1 && Decode(ToBytes(tx)[1..]) == Some(List([
      Bytes(tx.chainId), Bytes(tx.nonce), Bytes(tx.gasPrice), Bytes(tx.gasLimit), Bytes(tx.to), Bytes(tx.value),
      Bytes(tx.callData), AccessItem(tx.accessList), Bytes(tx.recId), Bytes(tx.r), Bytes(tx.s)]))
    ensures tx.Eip1559? ==> ToBytes(tx) != [] && ToBytes(tx)[0] == 2 && Decode(ToBytes(tx)[1..]) == Some(List([
      Bytes(tx.chainId), Bytes(tx.nonce), Bytes(tx.maxPriorityGas), Bytes(tx.maxGas), Bytes(tx.gasLimit), Bytes(tx.to),
      Bytes(tx.value), Bytes(tx.callData), AccessItem(tx.accessList), Bytes(tx.recId), Bytes(tx.r), Bytes(tx.s)]))
  {
    DecodedPayload(tx);
    FieldOrder(tx);
  }

  lemma FieldOrder(tx: TxData)
    ensures tx.Legacy? ==> Fields(tx) == [Bytes(tx.nonce), Bytes(tx.gasPrice), Bytes(tx.gasLimit),
      Bytes(tx.to), Bytes(tx.value), Bytes(tx.callData), Bytes(tx.v), Bytes(tx.r), Bytes(tx.s)]
    ensures tx.Eip2930? ==> Fields(tx) == [
      Bytes(tx.chainId), Bytes(tx.nonce), Bytes(tx.gasPrice), Bytes(tx.gasLimit), Bytes(tx.to), Bytes(tx.value),
      Bytes(tx.callData), AccessItem(tx.accessList), Bytes(tx.recId), Bytes(tx.r), Bytes(tx.s)]
    ensures tx.Eip1559? ==> Fields(tx) == [
      Bytes(tx.chainId), Bytes(tx.nonce), Bytes(tx.maxPriorityGas), Bytes(tx.maxGas), Bytes(tx.gasLimit), Bytes(tx.to),
      Bytes(tx.value), Bytes(tx.callData), AccessItem(tx.accessList), Bytes(tx.recId), Bytes(tx.r), Bytes(tx.s)]
  {
  }

  lemma LegacyRoundTrip(tx: TxData)
    requires Encodable(tx) && tx.Legacy?
    ensures FromBytes(ToBytes(tx)) == Ok(tx)
  {
    DecodedPayload(tx);
    LegacyFields(tx);
  }

  lemma Eip2930RoundTrip(tx: TxData)
    requires Encodable(tx) && tx.Eip2930?
    ensures FromBytes(ToBytes(tx)) == Ok(tx)
  {
    DecodedPayload(tx);
    Eip2930Fields(tx);
  }

  lemma Eip1559RoundTrip(tx: TxData)
    requires Encodable(tx) && tx.Eip1559?
    ensures FromBytes(ToBytes(tx)) == Ok(tx)
  {
    DecodedPayload(tx);
    Eip1559Fields(tx);
  }

  /** Every transaction that fits RLP decodes to the same kind with the same fields. */
  lemma RoundTrip(tx: TxData)
    requires Encodable(tx)
    ensures FromBytes(ToBytes(tx)) == Ok(tx)
  {
    if tx.Legacy? {
      LegacyRoundTrip(tx);
    } else if tx.Eip2930? {
      Eip2930RoundTrip(tx);
    } else {
      Eip1559RoundTrip(tx);
    }
  }

  lemma Eip2930FieldsOf(d: seq<Item>)
    requires TypedShape(d, 7)
    ensures Fields(Eip2930Of(d)) == d
  {
    FieldOrder(Eip2930Of(d));
    SameAccess(d[7]);
  }

  lemma Eip1559FieldsOf(d: seq<Item>)
    requires TypedShape(d, 8)
    ensures Fields(Eip1559Of(d)) == d
  {
    FieldOrder(Eip1559Of(d));
    SameAccess(d[8]);
  }

  lemma SameAccess(x: Item)
    requires Flat(x)
    ensures AccessItem(AccessBytes(x)) == x
  {
    var a := AccessBytes(x);
    assert AccessItem(a).items == x.items;
  }

  lemma LegacyFieldsOf(d: seq<Item>)
    requires LegacyShape(d)
    ensures Fields(LegacyOf(d)) == d
  {
    FieldOrder(LegacyOf(d));
  }

  /** What the bytes say about the kind: the first byte, 1 or 2 for the typed ones. */
  predicate KindByte(tx: TxData, first: byte) {
    if tx.Eip2930? then first == 1 else if tx.Eip1559? then first == 2 else first != 1 && first != 2
  }

  /** Bytes are read as a transaction exactly when behind the type byte they are RLP of its fields in order. */
  lemma FromBytesIff(bytes: seq<byte>, tx: TxData)
    ensures FromBytes(bytes) == Ok(tx) <==>
      bytes != [] && KindByte(tx, bytes[0])
      && Decode(if tx.Legacy? then bytes else bytes[1..]) == Some(List(Fields(tx)))
  {
    if bytes != [] {
      if FromBytes(bytes) == Ok(tx) { ReadFields(bytes, tx); }
      if tx.Legacy? {
        LegacyFields(tx);
      } else if tx.Eip2930? {
        Eip2930Fields(tx);
      } else {
        Eip1559Fields(tx);
      }
    }
  }

  lemma ReadFields(bytes: seq<byte>, tx: TxData)
    requires bytes != [] && FromBytes(bytes) == Ok(tx)
    ensures KindByte(tx, bytes[0])
    ensures Decode(if tx.Legacy? then bytes else bytes[1..]) == Some(List(Fields(tx)))
  {
    var x := Decode(if bytes[0] == 1 || bytes[0] == 2 then bytes[1..] else bytes);
    if bytes[0] == 1 {
      Eip2930FieldsOf(x.value.items);
    } else if bytes[0] == 2 {
      Eip1559FieldsOf(x.value.items);
    } else {
      LegacyFieldsOf(x.value.items);
    }
  }

  /** The field lists a decoder accepts under a type byte (None for a legacy transaction). */
  predicate Acceptable(kind: Option<byte>, d: seq<Item>) {
    if kind.None? then LegacyShape(d) else TypedShape(d, if kind.value == 1 then 7 else 8)
  }

  /**
    Which well-formed RLP lists are accepted: the field count of the type, strings everywhere, and an
    access list of plain strings. A real access list, whose entries are lists, is always rejected.
   */
  lemma AcceptedIff(kind: Option<byte>, d: seq<Item>)
    requires Len(List(d)) < TWO64 && (kind.Some? ==> kind.value == 1 || kind.value == 2)
    ensures FromBytes((if kind.Some? then [kind.value] else []) + Encode(List(d))).Ok? <==> Acceptable(kind, d)
  {
    var e := Encode(List(d));
    Rlp.RoundTrip(List(d));
    FirstByte(List(d));
    if kind.Some? {
      assert ([kind.value] + e)[1..] == e;
    } else {
      assert [] + e == e;
    }
  }
}

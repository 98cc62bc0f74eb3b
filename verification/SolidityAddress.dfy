/** The 20-byte Solidity form of an entity ID: 4 bytes shard, 8 bytes realm, 8 bytes num, big endian. */
module SolidityAddress {
  import opened Wrappers
  import opened Arith
  import opened Text

  datatype Triple = Triple(shard: int, realm: int, num: int)

  const TWO32: int := 0x1_0000_0000
  const TWO53: int := 0x20_0000_0000_0000

  /** The nearest multiple of an even unit small enough for a 53-bit significand, ties to even. */
  function RoundToDouble(n: nat, unit: nat): nat
    requires unit > 0
    decreases if n < TWO53 * unit then 0 else n - unit
  {
    if n < TWO53 * unit then
      var q, r := n / unit, n % unit;
      if 2 * r > unit || (2 * r == unit && q % 2 == 1) then (q + 1) * unit else q * unit
    else RoundToDouble(n, 2 * unit)
  }

  /** `convertToNumber` of a Long: `parseInt` of its decimal text yields the nearest double. */
  function ToNumber(n: int): int {
    if n < 0 then 0 - RoundToDouble(-n, 1) else RoundToDouble(n, 1)
  }

  /** `ToUint32`, which `DataView.setUint32` applies to its argument. */
  function ToUint32(n: int): (u: nat)
    ensures u < TWO32
  {
    n % TWO32
  }

  /** What `setUint32` stores of a component. */
  function Word(n: int): (u: nat)
    ensures u < TWO32
  {
    ToUint32(ToNumber(n))
  }

  function BigEndian32(u: nat): (b: seq<byte>)
    requires u < TWO32
    ensures |b| == 4
  {
    [u / 256 / 256 / 256, u / 256 / 256 % 256, u / 256 % 256, u % 256]
  }

  /** `Long.fromBytesBE` before it is read as a signed number. */
  function Unsigned(bytes: seq<byte>): nat {
    if bytes == [] then 0 else 256 * Unsigned(bytes[..|bytes| - 1]) + bytes[|bytes| - 1]
  }

  function ToSolidityBytes(t: Triple): (b: seq<byte>)
    ensures |b| == 20
  {
    BigEndian32(Word(t.shard)) + [0, 0, 0, 0] + BigEndian32(Word(t.realm)) + [0, 0, 0, 0] + BigEndian32(Word(t.num))
  }

  method SetUint32(view: array<byte>, offset: nat, n: int)
    requires offset + 4 <= view.Length
    modifies view
    ensures view[..] == old(view[..offset]) + BigEndian32(ToUint32(n)) + old(view[offset + 4..])
  {
    var b := BigEndian32(ToUint32(n));
    view[offset] := b[0];
    view[offset + 1] := b[1];
    view[offset + 2] := b[2];
    view[offset + 3] := b[3];
  }

  method ToSolidityAddress(t: Triple) returns (address: string)
    ensures address == HexEncode(ToSolidityBytes(t))
  {
    ghost var s, r, n := BigEndian32(Word(t.shard)), BigEndian32(Word(t.realm)), BigEndian32(Word(t.num));
    ghost var zero := [0, 0, 0, 0];
    var buffer := new byte[20](_ => 0);
    SetUint32(buffer, 0, ToNumber(t.shard));
    assert buffer[..8] == s + zero && buffer[12..16] == zero;
    SetUint32(buffer, 8, ToNumber(t.realm));
    assert buffer[..16] == s + zero + r + zero;
    SetUint32(buffer, 16, ToNumber(t.num));
    assert buffer[..] == s + zero + r + zero + n;
    address := HexEncode(buffer[..]);
  }

  /** The read direction, on the decoded bytes. */
  function FromSolidityBytes(addr: seq<byte>): Triple
    requires |addr| == 20
  {
    Triple(Wrap64(Unsigned([0, 0, 0, 0] + addr[..4])), Wrap64(Unsigned(addr[4..12])), Wrap64(Unsigned(addr[12..20])))
  }

  datatype AddressError = WrongLength(actual: nat)

  /** Both this function and `hex.decode` strip a `0x` prefix. */
  function FromSolidityAddress(address: string): Result<Triple, AddressError> {
    var addr := if StartsWith0x(address) then HexDecode(address[2..]) else HexDecode(address);
    if |addr| != 20 then Err(WrongLength(|address|)) else Ok(FromSolidityBytes(addr))
  }

  /** r is the nearest multiple of the unit, or the even one of two as near. */
  predicate IsNearest(r: int, n: int, unit: int)
    requires unit > 0
  {
    && r % unit == 0 && -unit <= 2 * (r - n) <= unit
    && (2 * (r - n) == -unit || 2 * (r - n) == unit ==> (r / unit) % 2 == 0)
  }

  lemma NearestMultiple(n: nat, unit: nat, q: nat, r: nat, k: nat)
    requires unit > 0 && (unit == 1 || unit % 2 == 0) && n == unit * q + r && r < unit
    requires k == if 2 * r > unit || (2 * r == unit && q % 2 == 1) then q + 1 else q
    ensures IsNearest(k * unit, n, unit)
  {
    assert k * unit == unit * q + if k == q then 0 else unit;
    MultipleMod(k, unit);
    assert unit * k == k * unit;
  }

  lemma Rounded(n: nat, unit: nat)
    requires unit > 0 && (unit == 1 || unit % 2 == 0) && n < TWO53 * unit
    ensures IsNearest(RoundToDouble(n, unit), n, unit)
  {
    var q, r := n / unit, n % unit;
    var k := if 2 * r > unit || (2 * r == unit && q % 2 == 1) then q + 1 else q;
    assert RoundToDouble(n, unit) == k * unit;
    QuotientAndRemainder(n, unit, q, r);
    NearestMultiple(n, unit, q, r, k);
  }

  lemma QuotientAndRemainder(n: nat, unit: nat, q: nat, r: nat)
    requires unit > 0 && q == n / unit && r == n % unit
    ensures n == unit * q + r && r < unit
  {
  }

  /** A whole number becomes the nearest multiple of the smallest power of two that leaves it 53 bits. */
  lemma {:induction false} NearestDouble(n: nat, k: nat, unit: nat) returns (e: nat, u: nat)
    requires unit == Pow(2, k) && unit > 0 && (k == 0 || n >= TWO53 / 2 * unit)
    ensures u == Pow(2, e) && u > 0 && n < TWO53 * u && (e == 0 || n >= TWO53 / 2 * u)
    ensures IsNearest(RoundToDouble(n, unit), n, u)
    decreases if n < TWO53 * unit then 0 else n - unit
  {
    if n < TWO53 * unit {
      e, u := k, unit;
      EvenPower(k);
      Rounded(n, unit);
    } else {
      e, u := NearestDouble(n, k + 1, 2 * unit);
    }
  }

  lemma EvenPower(k: nat)
    ensures Pow(2, k) == 1 || Pow(2, k) % 2 == 0
  {
    if k > 0 { assert Pow(2, k) == 2 * Pow(2, k - 1); }
  }

  /** What is stored of a component: below 2^53 in magnitude itself, and else its nearest double, modulo 2^32. */
  lemma StoredWord(n: int) returns (x: int, e: nat, u: nat)
    ensures Word(n) == x % 0x1_0000_0000 && (x < 0 ==> n < 0) && (n < 0 ==> x <= 0)
    ensures -TWO53 < n < TWO53 ==> x == n
    ensures u == Pow(2, e) && u > 0
    ensures var a, b := (if n < 0 then -n else n), (if x < 0 then -x else x);
      a < TWO53 * u && (e == 0 || a >= TWO53 / 2 * u) && IsNearest(b, a, u)
  {
    x := ToNumber(n);
    SmallNumber(n);
    e, u := NearestDouble(if n < 0 then -n else n, 0, 1);
  }

  lemma SmallNumber(n: int)
    ensures -TWO53 < n < TWO53 ==> ToNumber(n) == n
  {
  }

  lemma UnsignedSnoc(b: seq<byte>, x: byte)
    ensures Unsigned(b + [x]) == 256 * Unsigned(b) + x
  {
    assert (b + [x])[..|b|] == b;
  }

  lemma FourZeros()
    ensures Unsigned([0, 0, 0, 0]) == 0
  {
    UnsignedSnoc([], 0);
    UnsignedSnoc([0], 0);
    UnsignedSnoc([0, 0], 0);
    UnsignedSnoc([0, 0, 0], 0);
    assert [] + [0] == [0] && [0] + [0] == [0, 0] && [0, 0] + [0] == [0, 0, 0] && [0, 0, 0] + [0] == [0, 0, 0, 0];
  }

  function Horner(b0: nat, b1: nat, b2: nat, b3: nat): nat { ((b0 * 256 + b1) * 256 + b2) * 256 + b3 }

  /** Eight bytes of which the first four are zero denote what the last four denote. */
  lemma LowWord(b: seq<byte>)
    requires |b| == 4
    ensures Unsigned([0, 0, 0, 0] + b) == Horner(b[0], b[1], b[2], b[3])
  {
    var z := [0, 0, 0, 0];
    var z1 := z + [b[0]];
    var z2 := z1 + [b[1]];
    var z3 := z2 + [b[2]];
    FourZeros();
    UnsignedSnoc(z, b[0]);
    UnsignedSnoc(z1, b[1]);
    UnsignedSnoc(z2, b[2]);
    UnsignedSnoc(z3, b[3]);
    assert z + b == z3 + [b[3]];
  }

  lemma BigEndianValue(u: nat)
    requires u < TWO32
    ensures Unsigned([0, 0, 0, 0] + BigEndian32(u)) == u
  {
    LowWord(BigEndian32(u));
  }

  lemma BigEndianUnique(b: seq<byte>)
    requires |b| == 4
    ensures Unsigned([0, 0, 0, 0] + b) < TWO32 && BigEndian32(Unsigned([0, 0, 0, 0] + b)) == b
  {
    LowWord(b);
    var b0: nat, b1: nat, b2: nat, b3: nat := b[0], b[1], b[2], b[3];
    DivModUnique(Horner(b0, b1, b2, b3), 256, (b0 * 256 + b1) * 256 + b2, b3);
    DivModUnique((b0 * 256 + b1) * 256 + b2, 256, b0 * 256 + b1, b2);
    DivModUnique(b0 * 256 + b1, 256, b0, b1);
  }

  /** Four bytes shard, eight bytes realm, eight bytes num, each what is left of the component in 32 bits. */
  lemma Layout(t: Triple)
    ensures var b := ToSolidityBytes(t);
      Unsigned([0, 0, 0, 0] + b[..4]) == Word(t.shard) && Unsigned(b[4..12]) == Word(t.realm)
      && Unsigned(b[12..20]) == Word(t.num)
  {
    var b := ToSolidityBytes(t);
    BigEndianValue(Word(t.shard));
    BigEndianValue(Word(t.realm));
    BigEndianValue(Word(t.num));
    assert b[..4] == BigEndian32(Word(t.shard));
    assert b[4..12] == [0, 0, 0, 0] + BigEndian32(Word(t.realm));
    assert b[12..20] == [0, 0, 0, 0] + BigEndian32(Word(t.num));
  }

  lemma WriteThenReadBytes(t: Triple)
    ensures FromSolidityBytes(ToSolidityBytes(t)) == Triple(Word(t.shard), Word(t.realm), Word(t.num))
  {
    Layout(t);
  }

  lemma WordIff(n: int)
    ensures Word(n) == n <==> 0 <= n < TWO32
  {
    SmallNumber(n);
  }

  lemma DecodedAddress(b: seq<byte>)
    requires |b| == 20
    ensures FromSolidityAddress(HexEncode(b)) == Ok(FromSolidityBytes(b))
    ensures FromSolidityAddress("0x" + HexEncode(b)) == Ok(FromSolidityBytes(b))
  {
    HexRoundTrip(b);
    HexPairsRoundTrip(b);
    assert ("0x" + HexEncode(b))[2..] == HexEncode(b);
  }

  /** Addresses of any other length are turned down. */
  lemma OtherLength(b: seq<byte>)
    requires |b| != 20
    ensures FromSolidityAddress(HexEncode(b)) == Err(WrongLength(2 * |b|))
  {
    HexRoundTrip(b);
    HexLength(b);
    HexPairsRoundTrip(b);
  }

  /** An ID survives the trip through its Solidity address exactly when each component fits in 32 bits. */
  lemma TripleRoundTripIff(t: Triple)
    ensures FromSolidityAddress(HexEncode(ToSolidityBytes(t))) == Ok(t) <==>
      0 <= t.shard < TWO32 && 0 <= t.realm < TWO32 && 0 <= t.num < TWO32
  {
    DecodedAddress(ToSolidityBytes(t));
    WriteThenReadBytes(t);
    WordIff(t.shard);
    WordIff(t.realm);
    WordIff(t.num);
  }

  lemma WordRead(high: seq<byte>, low: seq<byte>)
    requires high == [0, 0, 0, 0] && |low| == 4
    ensures BigEndian32(Word(Wrap64(Unsigned(high + low)))) == low
  {
    BigEndianUnique(low);
    WordIff(Unsigned(high + low));
  }

  lemma ReadThenWriteBytes(addr: seq<byte>)
    requires |addr| == 20
    ensures ToSolidityBytes(FromSolidityBytes(addr)) == addr <==>
      addr[4..8] == [0, 0, 0, 0] && addr[12..16] == [0, 0, 0, 0]
  {
    var b := ToSolidityBytes(FromSolidityBytes(addr));
    assert b[4..8] == [0, 0, 0, 0] && b[12..16] == [0, 0, 0, 0];
    if addr[4..8] == [0, 0, 0, 0] && addr[12..16] == [0, 0, 0, 0] {
      assert addr[4..12] == addr[4..8] + addr[8..12];
      assert addr[12..20] == addr[12..16] + addr[16..20];
      WordRead([0, 0, 0, 0], addr[..4]);
      WordRead(addr[4..8], addr[8..12]);
      WordRead(addr[12..16], addr[16..20]);
      assert addr == addr[..4] + addr[4..8] + addr[8..12] + addr[12..16] + addr[16..20];
    }
  }

  /** Read and written again, 20 bytes come back exactly when bytes 4 to 7 and 12 to 15 are zero. */
  lemma AddressRoundTripIff(addr: seq<byte>)
    requires |addr| == 20
    ensures FromSolidityAddress(HexEncode(addr)).Ok?
    ensures HexEncode(ToSolidityBytes(FromSolidityAddress(HexEncode(addr)).value)) == HexEncode(addr) <==>
      addr[4..8] == [0, 0, 0, 0] && addr[12..16] == [0, 0, 0, 0]
  {
    DecodedAddress(addr);
    ReadThenWriteBytes(addr);
    HexRoundTrip(addr);
    HexRoundTrip(ToSolidityBytes(FromSolidityBytes(addr)));
  }
}

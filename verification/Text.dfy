/** Decimal and hexadecimal text, and the 64-bit integers of the `long` package. */
module Text {
  import opened Wrappers
  import opened Arith

  type byte = b: int | 0 <= b < 256

  predicate IsDigit(c: char) { '0' <= c <= '9' }

  predicate AllDigits(s: string) { forall i :: 0 <= i < |s| ==> IsDigit(s[i]) }

  function DigitValue(c: char): (v: nat)
    requires IsDigit(c)
    ensures v <= 9
  {
    c as int - '0' as int
  }

  function DigitChar(v: nat): (c: char)
    requires v <= 9
    ensures IsDigit(c) && DigitValue(c) == v
  {
    ('0' as int + v) as char
  }

  /** The number a run of decimal digits denotes. */
  function DecValue(s: string): nat
    requires AllDigits(s)
  {
    if s == "" then 0 else 10 * DecValue(s[..|s| - 1]) + DigitValue(s[|s| - 1])
  }

  /** The decimal text of a number, without leading zeros. */
  function DecString(n: nat): string {
    if n < 10 then [DigitChar(n)] else DecString(n / 10) + [DigitChar(n % 10)]
  }

  lemma {:induction false} DecStringValue(n: nat)
    ensures |DecString(n)| > 0 && AllDigits(DecString(n)) && DecValue(DecString(n)) == n
  {
    var s := DecString(n);
    if n < 10 {
      assert s[..0] == "";
    } else {
      DecStringValue(n / 10);
      assert s[..|s| - 1] == DecString(n / 10);
    }
  }

  lemma {:induction false} DecStringLength(n: nat, k: nat)
    requires k > 0 && n < Pow(10, k)
    ensures |DecString(n)| <= k
  {
    if n >= 10 {
      assert Pow(10, 1) == 10 * Pow(10, 0);
      DecStringLength(n / 10, k - 1);
    }
  }

  lemma {:induction false} DecValueConcat(s: string, t: string)
    requires AllDigits(s) && AllDigits(t)
    ensures AllDigits(s + t) && DecValue(s + t) == DecValue(s) * Pow(10, |t|) + DecValue(t)
  {
    if t == "" {
      assert s + t == s;
    } else {
      var u := t[..|t| - 1];
      DecValueConcat(s, u);
      assert (s + t)[..|s + t| - 1] == s + u;
      assert DecValue(s) * Pow(10, |t|) == 10 * (DecValue(s) * Pow(10, |u|));
    }
  }

  function Zeros(k: nat): (s: string)
    ensures |s| == k && forall i :: 0 <= i < k ==> s[i] == '0'
  {
    seq(k, i => '0')
  }

  lemma {:induction false} DecValueZeros(k: nat)
    ensures AllDigits(Zeros(k)) && DecValue(Zeros(k)) == 0
  {
    if k > 0 {
      DecValueZeros(k - 1);
      assert Zeros(k)[..k - 1] == Zeros(k - 1);
    }
  }

  lemma {:induction false} ZeroDigits(s: string)
    requires AllDigits(s) && DecValue(s) == 0
    ensures forall i :: 0 <= i < |s| ==> s[i] == '0'
  {
    if s != "" {
      var u, d := s[..|s| - 1], s[|s| - 1];
      assert 10 * DecValue(u) + DigitValue(d) == 0;
      ZeroDigits(u);
      assert forall i :: 0 <= i < |u| ==> s[i] == u[i];
    }
  }

  /** A run of digits is the text of its number with zeros in front. */
  lemma {:induction false} LeadingZeros(s: string) returns (k: nat)
    requires AllDigits(s) && s != ""
    ensures s == Zeros(k) + DecString(DecValue(s))
  {
    var u, d := s[..|s| - 1], s[|s| - 1];
    assert s == u + [d];
    if DecValue(u) == 0 {
      ZeroDigits(u);
      k := |u|;
      assert u == Zeros(k);
    } else {
      k := LeadingZeros(u);
      assert DecString(DecValue(s)) == DecString(DecValue(u)) + [d];
    }
  }

  /** Only zero prints with a leading zero. */
  lemma {:induction false} DecStringHead(n: nat)
    ensures |DecString(n)| > 0 && (DecString(n)[0] == '0' <==> n == 0)
  {
    if n >= 10 { DecStringHead(n / 10); }
  }

  lemma ZeroFirst(k: nat, s: string)
    requires k > 0
    ensures (Zeros(k) + s)[0] == '0'
  {
  }

  /** Digits without a leading zero are the text of their number. */
  lemma OwnText(s: string)
    requires AllDigits(s) && s != "" && s[0] != '0'
    ensures DecString(DecValue(s)) == s && DecValue(s) > 0
  {
    var k := LeadingZeros(s);
    if k > 0 { ZeroFirst(k, DecString(DecValue(s))); }
    DecStringHead(DecValue(s));
    assert Zeros(0) + DecString(DecValue(s)) == DecString(DecValue(s));
  }

  /** `padStart(width, "0")`. */
  function PadStart(s: string, width: nat): string {
    Zeros(if |s| < width then width - |s| else 0) + s
  }

  lemma PadStartValue(n: nat, width: nat)
    ensures AllDigits(PadStart(DecString(n), width)) && DecValue(PadStart(DecString(n), width)) == n
    ensures width > 0 && n < Pow(10, width) ==> |PadStart(DecString(n), width)| == width
  {
    var s := DecString(n);
    var z := Zeros(if |s| < width then width - |s| else 0);
    DecStringValue(n);
    DecValueZeros(|z|);
    DecValueConcat(z, s);
    if width > 0 && n < Pow(10, width) { DecStringLength(n, width); }
  }

  // ---- runs of one kind of character ----

  predicate All(p: char -> bool, s: string) { forall i :: 0 <= i < |s| ==> p(s[i]) }

  /** Length of the longest prefix made of characters of a class: what a greedy `+` takes. */
  function Run(p: char -> bool, s: string): (n: nat)
    ensures n <= |s| && All(p, s[..n]) && (n < |s| ==> !p(s[n]))
  {
    if s == "" || !p(s[0]) then 0
    else
      var n := Run(p, s[1..]);
      assert s[..n + 1] == [s[0]] + s[1..][..n];
      n + 1
  }

  lemma {:induction false} RunStops(p: char -> bool, a: string, b: string)
    requires All(p, a) && (b == "" || !p(b[0]))
    ensures Run(p, a + b) == |a| && (a + b)[..|a|] == a && (a + b)[|a|..] == b
  {
    if a == "" {
      assert a + b == b;
    } else {
      assert (a + b)[1..] == a[1..] + b;
      RunStops(p, a[1..], b);
    }
  }

  // ---- hexadecimal (src/encoding/hex.js) ----

  function HexDigit(v: nat): char
    requires v < 16
  {
    "0123456789abcdef"[v]
  }

  /** The value of a hexadecimal digit, in either case. */
  function HexDigitValue(c: char): (v: Option<nat>)
    ensures v.Some? ==> v.value < 16
  {
    if '0' <= c <= '9' then Some(c as int - '0' as int)
    else if 'a' <= c <= 'f' then Some(c as int - 'a' as int + 10)
    else if 'A' <= c <= 'F' then Some(c as int - 'A' as int + 10)
    else None
  }

  function HexEncode(data: seq<byte>): string {
    if data == [] then "" else [HexDigit(data[0] / 16), HexDigit(data[0] % 16)] + HexEncode(data[1..])
  }

  /** `Buffer.from(text, "hex")` reads pairs of digits and stops at the first pair that is not one. */
  function HexPairs(text: string): seq<byte> {
    if |text| >= 2 && HexDigitValue(text[0]).Some? && HexDigitValue(text[1]).Some? then
      [16 * HexDigitValue(text[0]).value + HexDigitValue(text[1]).value] + HexPairs(text[2..])
    else []
  }

  predicate StartsWith0x(text: string) { |text| >= 2 && text[0] == '0' && text[1] == 'x' }

  function HexDecode(text: string): seq<byte> {
    HexPairs(if StartsWith0x(text) then text[2..] else text)
  }

  /** The hexadecimal digits in either case, and nothing else. */
  lemma HexDigitIff(c: char, v: nat)
    ensures HexDigitValue(c) == Some(v) <==> v < 16 && (c == "0123456789abcdef"[v] || c == "0123456789ABCDEF"[v])
  {
  }

  lemma HexDigitRoundTrip(v: nat)
    requires v < 16
    ensures HexDigitValue(HexDigit(v)) == Some(v) && HexDigit(v) != 'x'
  {
  }

  lemma {:induction false} HexLength(data: seq<byte>)
    ensures |HexEncode(data)| == 2 * |data|
  {
    if data != [] { HexLength(data[1..]); }
  }

  /** Two lower-case digits for each byte, in order, the high half first. */
  lemma {:induction false} HexText(data: seq<byte>, i: nat)
    requires i < |data|
    ensures |HexEncode(data)| == 2 * |data|
    ensures HexEncode(data)[2 * i] == "0123456789abcdef"[data[i] / 16]
    ensures HexEncode(data)[2 * i + 1] == "0123456789abcdef"[data[i] % 16]
  {
    HexLength(data);
    HexLength(data[1..]);
    if i > 0 { HexText(data[1..], i - 1); }
  }

  lemma {:induction false} HexConcat(a: seq<byte>, b: seq<byte>)
    ensures HexEncode(a + b) == HexEncode(a) + HexEncode(b)
  {
    if a == [] {
      assert a + b == b;
    } else {
      assert (a + b)[1..] == a[1..] + b;
      HexConcat(a[1..], b);
    }
  }

  lemma {:induction false} HexPairsRoundTrip(data: seq<byte>)
    ensures HexPairs(HexEncode(data)) == data && !StartsWith0x(HexEncode(data))
  {
    if data != [] {
      HexPairsRoundTrip(data[1..]);
      HexDigitRoundTrip(data[0] / 16);
      HexDigitRoundTrip(data[0] % 16);
      assert HexEncode(data)[2..] == HexEncode(data[1..]);
    }
  }

  /** Decoding undoes encoding, with or without the `0x` prefix. */
  lemma HexRoundTrip(data: seq<byte>)
    ensures HexDecode(HexEncode(data)) == data && HexDecode("0x" + HexEncode(data)) == data
  {
    HexPairsRoundTrip(data);
    assert ("0x" + HexEncode(data))[2..] == HexEncode(data);
  }

  // ---- signed 64-bit integers of the `long` package ----

  const TWO63: int := 0x8000_0000_0000_0000
  const TWO64: int := 0x1_0000_0000_0000_0000

  predicate IsLong(x: int) { -TWO63 <= x < TWO63 }

  function Wrap64(x: int): (r: int)
    ensures IsLong(r)
  {
    (x + TWO63) % TWO64 - TWO63
  }

  lemma WrapFits(x: int)
    ensures Wrap64(x) == x <==> IsLong(x)
  {
  }

  lemma WrapShift(x: int, t: int)
    ensures Wrap64(x + TWO64 * t) == Wrap64(x)
  {
  }

  lemma WrapStep(a: int, k: int, v: int)
    ensures Wrap64(Wrap64(Wrap64(a) * k) + v) == Wrap64(a * k + v)
  {
    var t := (a + TWO63) / TWO64;
    assert Wrap64(a) == a - TWO64 * t;
    assert Wrap64(a) * k == a * k + TWO64 * (-t * k);
    WrapShift(a * k, -t * k);
    var u := (a * k + TWO63) / TWO64;
    assert Wrap64(a * k) == a * k - TWO64 * u;
    WrapShift(a * k + v, -u);
  }

  /** `parseInt(s, 10)` on text without sign or space; NaN becomes zero in `Long.fromNumber`. */
  function ParseIntOrZero(s: string): nat { DecValue(s[..Run(IsDigit, s)]) }

  /** `Long.fromString`'s loop: eight symbols at a time. */
  function LongFromChunks(acc: int, s: string): (r: int)
    decreases |s|
  {
    if s == "" then acc
    else
      var size := if |s| < 8 then |s| else 8;
      LongFromChunks(Wrap64(Wrap64(acc * Pow(10, size)) + ParseIntOrZero(s[..size])), s[size..])
  }

  datatype LongError = EmptyString | InteriorHyphen

  function LongFromString(s: string): Result<int, LongError>
    decreases |s|
  {
    if s == "" then Err(EmptyString)
    else if s[0] == '-' then
      match LongFromString(s[1..])
      case Ok(v) => Ok(Wrap64(-v))
      case Err(e) => Err(e)
    else if '-' in s then Err(InteriorHyphen)
    else Ok(LongFromChunks(0, s))
  }

  lemma ParseIntDigits(s: string)
    requires AllDigits(s)
    ensures ParseIntOrZero(s) == DecValue(s)
  {
    assert s[..|s|] == s;
  }

  lemma AppendStep(a: int, p: int, v: int, q: int, w: int)
    ensures (a * p + v) * q + w == a * (p * q) + (v * q + w)
  {
  }

  lemma JoinDigits(acc: int, head: string, tail: string)
    requires AllDigits(head) && AllDigits(tail)
    ensures AllDigits(head + tail)
    ensures (acc * Pow(10, |head|) + DecValue(head)) * Pow(10, |tail|) + DecValue(tail)
         == acc * Pow(10, |head + tail|) + DecValue(head + tail)
  {
    DecValueConcat(head, tail);
    PowAdd(10, |head|, |tail|);
    AppendStep(acc, Pow(10, |head|), DecValue(head), Pow(10, |tail|), DecValue(tail));
  }

  /** One turn of the loop appends a chunk of digits to the number read so far. */
  lemma ChunkTurn(acc: int, head: string, tail: string)
    requires AllDigits(head) && head != "" && (|head| == 8 || (|head| < 8 && tail == ""))
    ensures LongFromChunks(Wrap64(acc), head + tail)
         == LongFromChunks(Wrap64(acc * Pow(10, |head|) + DecValue(head)), tail)
  {
    var s := head + tail;
    assert s[..|head|] == head && s[|head|..] == tail;
    ParseIntDigits(head);
    WrapStep(acc, Pow(10, |head|), DecValue(head));
  }

  lemma FirstChunk(s: string) returns (head: string, tail: string)
    requires AllDigits(s) && s != ""
    ensures s == head + tail && AllDigits(head) && AllDigits(tail)
    ensures head != "" && (|head| == 8 || (|head| < 8 && tail == ""))
  {
    var size := if |s| < 8 then |s| else 8;
    head, tail := s[..size], s[size..];
  }

  lemma {:induction false} ChunksValue(acc: int, s: string)
    requires AllDigits(s)
    ensures LongFromChunks(Wrap64(acc), s) == Wrap64(acc * Pow(10, |s|) + DecValue(s))
    decreases |s|
  {
    if s == "" {
      assert acc * Pow(10, 0) == acc;
    } else {
      var head, tail := FirstChunk(s);
      var next := acc * Pow(10, |head|) + DecValue(head);
      ChunkTurn(acc, head, tail);
      ChunksValue(next, tail);
      JoinDigits(acc, head, tail);
    }
  }

  lemma WrapNegate(x: int)
    ensures Wrap64(-Wrap64(x)) == Wrap64(-x)
  {
    var t := (x + TWO63) / TWO64;
    assert Wrap64(x) == x - TWO64 * t;
    WrapShift(-x, t);
  }

  lemma ChunksFromZero(s: string)
    requires AllDigits(s)
    ensures LongFromChunks(0, s) == Wrap64(DecValue(s))
  {
    var p := Pow(10, |s|);
    ChunksValue(0, s);
    assert Wrap64(0) == 0 && 0 * p == 0;
  }

  /** The eight-at-a-time parser computes the decimal value, wrapped to 64 bits. */
  lemma LongFromDigits(s: string)
    requires AllDigits(s) && s != ""
    ensures LongFromString(s) == Ok(Wrap64(DecValue(s)))
  {
    ChunksFromZero(s);
    assert IsDigit(s[0]) && '-' !in s;
  }

  lemma LongFromNegatedDigits(s: string)
    requires AllDigits(s) && s != ""
    ensures LongFromString("-" + s) == Ok(Wrap64(0 - DecValue(s)))
  {
    LongFromDigits(s);
    assert ("-" + s)[1..] == s;
    WrapNegate(DecValue(s));
  }

  lemma LongFromDecString(n: nat)
    requires n < TWO63
    ensures LongFromString(DecString(n)) == Ok(n)
  {
    DecStringValue(n);
    LongFromDigits(DecString(n));
    WrapFits(n);
  }
}

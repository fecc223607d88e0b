/**
 The part of Go's `unicode/utf8` package that the classifier relies on:
 `DecodeRune`, which reads one rune from the front of a byte slice.

 `DecodeRune` is modelled the way Go writes it (a class for the leading
 byte, a range for the second byte, then continuation bytes) and is proved
 to agree with two independent definitions from RFC 3629: the encoding
 table of section 3 (`Encode`) and the ABNF of section 4 (`IsUtf8Char`).
 */
module Utf8 {

  /** A byte, as Go's `byte`. */
  type Byte = b: int | 0 <= b < 256

  /** `utf8.RuneError`, U+FFFD REPLACEMENT CHARACTER. */
  const RuneError := 0xFFFD

  /** The `(r rune, size int)` pair that `DecodeRune` returns. */
  datatype Decoded = Decoded(rune: int, size: nat)

  /** Go's answer for an invalid encoding: `(RuneError, 1)`. */
  predicate IsInvalid(d: Decoded) {
    d.rune == RuneError && d.size == 1
  }

  /** A Unicode scalar value: a code point that is not a surrogate. */
  predicate IsScalar(c: int) {
    0 <= c <= 0x10FFFF && !(0xD800 <= c <= 0xDFFF)
  }

  /** UTF8-tail of RFC 3629: a continuation byte. */
  predicate IsTail(b: Byte) {
    0x80 <= b <= 0xBF
  }

  // ---------------------------------------------------------------------
  // RFC 3629, section 4: the syntax of one UTF-8 character.
  // ---------------------------------------------------------------------

  /** The first two bytes of a UTF8-3: the ABNF's four alternatives. */
  predicate Starts3(b0: Byte, b1: Byte) {
    || (b0 == 0xE0 && 0xA0 <= b1 <= 0xBF)
    || (0xE1 <= b0 <= 0xEC && IsTail(b1))
    || (b0 == 0xED && 0x80 <= b1 <= 0x9F)
    || (0xEE <= b0 <= 0xEF && IsTail(b1))
  }

  /** The first two bytes of a UTF8-4: the ABNF's three alternatives. */
  predicate Starts4(b0: Byte, b1: Byte) {
    || (b0 == 0xF0 && 0x90 <= b1 <= 0xBF)
    || (0xF1 <= b0 <= 0xF3 && IsTail(b1))
    || (b0 == 0xF4 && 0x80 <= b1 <= 0x8F)
  }

  /** `s` is exactly one UTF8-char of the ABNF in section 4 of RFC 3629. */
  predicate IsUtf8Char(s: seq<Byte>) {
    || (|s| == 1 && s[0] <= 0x7F)
    || (|s| == 2 && 0xC2 <= s[0] <= 0xDF && IsTail(s[1]))
    || (|s| == 3 && Starts3(s[0], s[1]) && IsTail(s[2]))
    || (|s| == 4 && Starts4(s[0], s[1]) && IsTail(s[2]) && IsTail(s[3]))
  }

  // ---------------------------------------------------------------------
  // RFC 3629, section 3: the encoding table.
  // ---------------------------------------------------------------------

  /** The UTF-8 encoding of a scalar value: its bits spread over 1 to 4 bytes. */
  function Encode(c: int): (s: seq<Byte>)
    requires IsScalar(c)
    ensures IsUtf8Char(s)
    ensures c < 0x80 <==> |s| == 1
  {
    var b0, c1 := c % 64, c / 64;
    var b1, c2 := c1 % 64, c1 / 64;
    var b2, c3 := c2 % 64, c2 / 64;
    if c < 0x80 then [c]
    else if c < 0x800 then [0xC0 + c1, 0x80 + b0]
    else if c < 0x10000 then [0xE0 + c2, 0x80 + b1, 0x80 + b0]
    else [0xF0 + c3, 0x80 + b2, 0x80 + b1, 0x80 + b0]
  }

  // ---------------------------------------------------------------------
  // Go's DecodeRune.
  // ---------------------------------------------------------------------

  /**
   The class Go's `first` table gives a leading byte: ASCII, invalid, or
   the start of a `size`-byte sequence whose second byte must lie in
   `lo..hi` (Go's `acceptRanges`).
   */
  datatype Lead = OneByte | Bad | Multi(size: nat, lo: Byte, hi: Byte)

  function LeadClass(p0: Byte): Lead {
    if p0 < 0x80 then OneByte
    else if p0 < 0xC2 then Bad
    else if p0 < 0xE0 then Multi(2, 0x80, 0xBF)
    else if p0 == 0xE0 then Multi(3, 0xA0, 0xBF)
    else if p0 < 0xED then Multi(3, 0x80, 0xBF)
    else if p0 == 0xED then Multi(3, 0x80, 0x9F)
    else if p0 < 0xF0 then Multi(3, 0x80, 0xBF)
    else if p0 == 0xF0 then Multi(4, 0x90, 0xBF)
    else if p0 < 0xF4 then Multi(4, 0x80, 0xBF)
    else if p0 == 0xF4 then Multi(4, 0x80, 0x8F)
    else Bad
  }

  /**
   `utf8.DecodeRune(p)`: the first rune of `p` and the number of bytes it
   takes. An empty `p` gives `(RuneError, 0)`; a leading byte that does not
   start a well-formed sequence, a truncated sequence and a bad second or
   later byte all give `(RuneError, 1)`. The masks of Go's code
   (`p0 & mask2`, `b & maskx`, ...) are written as subtractions, which is
   what they compute on the byte ranges that reach them.
   */
  function DecodeRune(p: seq<Byte>): (d: Decoded)
    ensures |p| == 0 ==> d == Decoded(RuneError, 0)
    ensures |p| > 0 ==> 1 <= d.size <= 4 && d.size <= |p|
  {
    if |p| < 1 then Decoded(RuneError, 0)
    else match LeadClass(p[0])
      case OneByte => Decoded(p[0], 1)
      case Bad => Decoded(RuneError, 1)
      case Multi(sz, lo, hi) =>
        if |p| < sz then Decoded(RuneError, 1)
        else if p[1] < lo || hi < p[1] then Decoded(RuneError, 1)
        else if sz == 2 then Decoded(Value2(p[0], p[1]), 2)
        else if !IsTail(p[2]) then Decoded(RuneError, 1)
        else if sz == 3 then Decoded(Value3(p[0], p[1], p[2]), 3)
        else if !IsTail(p[3]) then Decoded(RuneError, 1)
        else Decoded(Value4(p[0], p[1], p[2], p[3]), 4)
  }

  /** `rune(p0&mask2)<<6 | rune(b1&maskx)` for a lead byte C2..DF. */
  function Value2(b0: Byte, b1: Byte): int {
    (b0 as int - 0xC0) * 64 + (b1 as int - 0x80)
  }

  /** The three-byte value, for a lead byte E0..EF. */
  function Value3(b0: Byte, b1: Byte, b2: Byte): int {
    (b0 as int - 0xE0) * 4096 + (b1 as int - 0x80) * 64 + (b2 as int - 0x80)
  }

  /** The four-byte value, for a lead byte F0..F4. */
  function Value4(b0: Byte, b1: Byte, b2: Byte, b3: Byte): int {
    (b0 as int - 0xF0) * 262144 + (b1 as int - 0x80) * 4096
      + (b2 as int - 0x80) * 64 + (b3 as int - 0x80)
  }

  // ---------------------------------------------------------------------
  // DecodeRune against RFC 3629.
  // ---------------------------------------------------------------------

  /** Decoding the encoding of any scalar value gives it back, whatever follows. */
  lemma DecodeEncode(c: int, rest: seq<Byte>)
    requires IsScalar(c)
    ensures DecodeRune(Encode(c) + rest) == Decoded(c, |Encode(c)|)
  {
    var s := Encode(c) + rest;
    assert s[..|Encode(c)|] == Encode(c);
  }

  lemma EncodeValue2(b0: Byte, b1: Byte)
    requires 0xC2 <= b0 <= 0xDF && IsTail(b1)
    ensures IsScalar(Value2(b0, b1)) && Encode(Value2(b0, b1)) == [b0, b1]
  {
  }

  /** Splitting off the low six bits of `q * 64 + r`. */
  lemma Split64(q: int, r: int)
    requires 0 <= r < 64
    ensures (q * 64 + r) % 64 == r && (q * 64 + r) / 64 == q
  {
  }

  lemma EncodeValue3(b0: Byte, b1: Byte, b2: Byte)
    requires Starts3(b0, b1) && IsTail(b2)
    ensures IsScalar(Value3(b0, b1, b2)) && Encode(Value3(b0, b1, b2)) == [b0, b1, b2]
  {
    var hi, mid, lo := b0 as int - 0xE0, b1 as int - 0x80, b2 as int - 0x80;
    var c := Value3(b0, b1, b2);
    assert c == (hi * 64 + mid) * 64 + lo;
    Split64(hi * 64 + mid, lo);
    Split64(hi, mid);
  }

  lemma EncodeValue4(b0: Byte, b1: Byte, b2: Byte, b3: Byte)
    requires Starts4(b0, b1) && IsTail(b2) && IsTail(b3)
    ensures IsScalar(Value4(b0, b1, b2, b3))
    ensures Encode(Value4(b0, b1, b2, b3)) == [b0, b1, b2, b3]
  {
    var hi, m1, m2, lo := b0 as int - 0xF0, b1 as int - 0x80, b2 as int - 0x80, b3 as int - 0x80;
    var c := Value4(b0, b1, b2, b3);
    assert c == ((hi * 64 + m1) * 64 + m2) * 64 + lo;
    Split64((hi * 64 + m1) * 64 + m2, lo);
    Split64(hi * 64 + m1, m2);
    Split64(hi, m1);
  }

  /**
   Whatever DecodeRune accepts is a scalar value whose encoding is exactly
   the bytes it consumed.
   */
  lemma EncodeDecode(p: seq<Byte>)
    requires |p| > 0 && !IsInvalid(DecodeRune(p))
    ensures IsScalar(DecodeRune(p).rune)
    ensures Encode(DecodeRune(p).rune) == p[..DecodeRune(p).size]
  {
    match LeadClass(p[0])
    case OneByte =>
    case Bad =>
    case Multi(sz, _, _) =>
      if sz == 2 {
        EncodeValue2(p[0], p[1]);
      } else if sz == 3 {
        EncodeValue3(p[0], p[1], p[2]);
      } else {
        EncodeValue4(p[0], p[1], p[2], p[3]);
      }
  }

  /** A UTF8-char at the front of `p` is decoded as one rune of its length. */
  lemma Utf8CharDecodes(p: seq<Byte>, n: nat)
    requires 1 <= n <= |p| && IsUtf8Char(p[..n])
    ensures !IsInvalid(DecodeRune(p)) && DecodeRune(p).size == n
  {
    assert forall i :: 0 <= i < n ==> p[..n][i] == p[i];
  }

  /**
   DecodeRune reports `(RuneError, 1)` exactly when no prefix of its input
   is a UTF8-char: a stray continuation byte, C0, C1, F5 to FF, a
   truncated, overlong or surrogate form each stand alone as one bad byte.
   */
  lemma InvalidIff(p: seq<Byte>)
    requires |p| > 0
    ensures IsInvalid(DecodeRune(p)) <==> forall n :: 1 <= n <= |p| ==> !IsUtf8Char(p[..n])
  {
    var d := DecodeRune(p);
    if !IsInvalid(d) {
      EncodeDecode(p);
      assert IsUtf8Char(p[..d.size]);
    } else {
      forall n | 1 <= n <= |p| ensures !IsUtf8Char(p[..n]) {
        if IsUtf8Char(p[..n]) {
          Utf8CharDecodes(p, n);
        }
      }
    }
  }

  /** Every rune of two or more bytes decodes to a code point of at least 0x80. */
  lemma MultibyteIsAtLeast80(p: seq<Byte>)
    requires DecodeRune(p).size >= 2
    ensures DecodeRune(p).rune >= 0x80
  {
  }
}

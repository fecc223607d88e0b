/**
 The text/binary classifier of cattree: `isText`, which judges a byte
 sample, and `isTextFile`, which takes that sample from the front of a file.

 `IsTextSpec` states the classification as a function of the sample: the
 sample is cut into the runes `DecodeRune` finds one after another
 (`Units`), and the sample is text when it is empty, or when it holds no
 NUL byte and fewer than a tenth of its runes are non-printable. The Go
 code compares `float64(nonPrintable)/float64(total) < 0.1`; here that is
 the exact integer test `10 * nonPrintable < total`.
 */
module Classifier {
  import opened Utf8

  /** `sniffLen`: how many bytes of a file are read to classify it. */
  const SniffLen := 8000

  /** Tab, line feed and carriage return: the controls that count as printable. */
  predicate IsAllowedControl(r: int) {
    r == 9 || r == 10 || r == 13
  }

  /**
   The counting rule of the decode loop: an invalid byte, or a control
   code point below 32 other than tab, LF and CR.
   */
  predicate IsNonPrintable(d: Decoded) {
    IsInvalid(d) || (d.rune < 32 && !IsAllowedControl(d.rune))
  }

  /** Total number of bytes a run of decoded units consumed. */
  function SumSizes(us: seq<Decoded>): nat {
    if |us| == 0 then 0 else us[0].size + SumSizes(us[1..])
  }

  /**
   The units the decode loop visits, in order: each is what `DecodeRune`
   returns for the bytes not yet consumed. They partition the input.
   */
  function Units(data: seq<Byte>): (us: seq<Decoded>)
    ensures SumSizes(us) == |data|
    ensures |us| <= |data|
    ensures |data| > 0 ==> |us| >= 1
    ensures forall i :: 0 <= i < |us| ==> 1 <= us[i].size <= 4
    decreases |data|
  {
    if |data| == 0 then []
    else
      var d := DecodeRune(data);
      [d] + Units(data[d.size..])
  }

  /** The number of non-printable units. */
  function CountNonPrintable(us: seq<Decoded>): (n: nat)
    ensures n <= |us|
  {
    if |us| == 0 then 0
    else (if IsNonPrintable(us[0]) then 1 else 0) + CountNonPrintable(us[1..])
  }

  /** What `isText` decides for `data`. */
  predicate IsTextSpec(data: seq<Byte>) {
    |data| == 0 || (0 !in data && 10 * CountNonPrintable(Units(data)) < |Units(data)|)
  }

  /**
   `isText`: the loop decodes one rune per step, counts the non-printable
   ones and reslices `data` past the bytes consumed.
   */
  method IsText(data: seq<Byte>) returns (text: bool)
    ensures text == IsTextSpec(data)
    ensures |data| == 0 ==> text
    ensures 0 in data ==> !text
  {
    if |data| == 0 {
      return true;
    }
    if 0 in data {
      return false;
    }
    var nonPrintable, total := 0, 0;
    var rest := data;
    while |rest| > 0
      invariant nonPrintable + CountNonPrintable(Units(rest)) == CountNonPrintable(Units(data))
      invariant total + |Units(rest)| == |Units(data)|
      decreases |rest|
    {
      var d := DecodeRune(rest);
      if d.rune == RuneError && d.size == 1 {
        nonPrintable := nonPrintable + 1;
      } else if d.rune < 32 && d.rune != 9 && d.rune != 10 && d.rune != 13 {
        nonPrintable := nonPrintable + 1;
      }
      total := total + 1;
      rest := rest[d.size..];
    }
    text := 10 * nonPrintable < total;
  }

  /** The sample `isTextFile` reads: the first `min(SniffLen, |contents|)` bytes. */
  function Sample(contents: seq<Byte>): (s: seq<Byte>)
    ensures s <= contents
    ensures |s| == if |contents| < SniffLen then |contents| else SniffLen
  {
    if |contents| < SniffLen then contents else contents[..SniffLen]
  }

  /**
   The outcome of one I/O call. `Fail` carries the error text; for a read,
   reaching the end of the file (`io.EOF`) is not a failure.
   */
  datatype Outcome = Ok | Fail(err: seq<Byte>)

  /** What `isTextFile` decides, given what opening and reading the file yield. */
  predicate IsTextFileSpec(contents: seq<Byte>, open: Outcome, read: Outcome) {
    open.Ok? && read.Ok? && IsTextSpec(Sample(contents))
  }

  /**
   `isTextFile`: a file that cannot be opened, or whose read fails with an
   error other than EOF, is not text; otherwise its first `SniffLen` bytes
   are classified.
   */
  method IsTextFile(contents: seq<Byte>, open: Outcome, read: Outcome) returns (text: bool)
    ensures text == IsTextFileSpec(contents, open, read)
    ensures text ==> open.Ok? && read.Ok?
  {
    if open.Fail? {
      return false;
    }
    var buf := Sample(contents);
    if read.Fail? {
      return false;
    }
    text := IsText(buf);
  }

  // ---------------------------------------------------------------------
  // Properties of the classification.
  // ---------------------------------------------------------------------

  /** The units of a non-empty input: the first rune, then the units of the rest. */
  lemma UnitsCons(data: seq<Byte>)
    requires |data| > 0
    ensures Units(data) == [DecodeRune(data)] + Units(data[DecodeRune(data).size..])
  {
  }

  /**
   The decode loop's counters on exit: at least one and at most `|data|`
   units for a non-empty input, and no more non-printable units than units.
   */
  lemma CounterBounds(data: seq<Byte>)
    requires |data| > 0
    ensures 1 <= |Units(data)| <= |data|
    ensures 0 <= CountNonPrintable(Units(data)) <= |Units(data)|
  {
  }

  /**
   A byte that does not begin a well-formed UTF-8 sequence is one unit of
   one byte, and that unit is non-printable.
   */
  lemma IllFormedIsOneNonPrintableUnit(data: seq<Byte>)
    requires |data| > 0
    requires forall n :: 1 <= n <= |data| ==> !IsUtf8Char(data[..n])
    ensures Units(data) == [Decoded(RuneError, 1)] + Units(data[1..])
    ensures IsNonPrintable(Units(data)[0])
  {
    InvalidIff(data);
  }

  /** A rune of two or more bytes is printable, even a well-formed U+FFFD. */
  lemma MultibyteIsPrintable(p: seq<Byte>)
    requires DecodeRune(p).size >= 2
    ensures !IsNonPrintable(DecodeRune(p))
  {
    MultibyteIsAtLeast80(p);
  }

  /** EF BF BD is U+FFFD spelt correctly: a three-byte printable unit, not an error. */
  lemma EncodedReplacementIsPrintable()
    ensures DecodeRune([0xEF, 0xBF, 0xBD]) == Decoded(RuneError, 3)
    ensures !IsNonPrintable(DecodeRune([0xEF, 0xBF, 0xBD]))
  {
    DecodeEncode(RuneError, []);
    assert Encode(RuneError) == [0xEF, 0xBF, 0xBD];
  }

  /** For a non-empty input, a NUL byte anywhere makes it binary. */
  lemma NulIsBinary(data: seq<Byte>, i: nat)
    requires i < |data| && data[i] == 0
    ensures !IsTextSpec(data)
  {
  }

  /** The number of ASCII control bytes other than tab, LF and CR. */
  function CountControls(data: seq<Byte>): nat {
    if |data| == 0 then 0
    else (if data[0] < 32 && !IsAllowedControl(data[0]) then 1 else 0) + CountControls(data[1..])
  }

  /** On ASCII input every byte is its own unit, and the controls are the non-printables. */
  lemma {:induction false} AsciiUnits(data: seq<Byte>)
    requires forall i :: 0 <= i < |data| ==> data[i] < 0x80
    ensures |Units(data)| == |data|
    ensures CountNonPrintable(Units(data)) == CountControls(data)
    decreases |data|
  {
    if |data| > 0 {
      UnitsCons(data);
      AsciiUnits(data[1..]);
    }
  }

  /**
   Input made only of printable ASCII (0x7F included) and tab, LF and CR is
   text.
   */
  lemma PrintableAsciiIsText(data: seq<Byte>)
    requires forall i :: 0 <= i < |data| ==> 32 <= data[i] < 0x80 || IsAllowedControl(data[i])
    ensures IsTextSpec(data)
  {
    AsciiUnits(data);
    NoControls(data);
  }

  lemma {:induction false} NoControls(data: seq<Byte>)
    requires forall i :: 0 <= i < |data| ==> 32 <= data[i] || IsAllowedControl(data[i])
    ensures CountControls(data) == 0
    decreases |data|
  {
    if |data| > 0 {
      NoControls(data[1..]);
    }
  }

  /** The encoding of a sequence of scalar values, one after another. */
  function EncodeAll(cs: seq<int>): seq<Byte>
    requires forall i :: 0 <= i < |cs| ==> IsScalar(cs[i])
  {
    if |cs| == 0 then [] else Encode(cs[0]) + EncodeAll(cs[1..])
  }

  /**
   Well-formed UTF-8 decodes to exactly the code points it encodes, one
   unit per code point.
   */
  lemma {:induction false} UnitsOfEncoding(cs: seq<int>)
    requires forall i :: 0 <= i < |cs| ==> IsScalar(cs[i])
    ensures |Units(EncodeAll(cs))| == |cs|
    ensures forall i :: 0 <= i < |cs| ==> Units(EncodeAll(cs))[i] == Decoded(cs[i], |Encode(cs[i])|)
  {
    if |cs| > 0 {
      var rest := EncodeAll(cs[1..]);
      DecodeEncode(cs[0], rest);
      assert EncodeAll(cs) == Encode(cs[0]) + rest;
      assert (Encode(cs[0]) + rest)[|Encode(cs[0])|..] == rest;
      UnitsCons(EncodeAll(cs));
      UnitsOfEncoding(cs[1..]);
    }
  }

  lemma {:induction false} NoneNonPrintable(us: seq<Decoded>)
    requires forall i :: 0 <= i < |us| ==> !IsNonPrintable(us[i])
    ensures CountNonPrintable(us) == 0
  {
    if |us| > 0 {
      NoneNonPrintable(us[1..]);
    }
  }

  /** No byte of the encoding of a non-zero scalar value is NUL. */
  lemma {:induction false} EncodingHasNoNul(cs: seq<int>)
    requires forall i :: 0 <= i < |cs| ==> IsScalar(cs[i]) && cs[i] != 0
    ensures 0 !in EncodeAll(cs)
  {
    if |cs| > 0 {
      EncodingHasNoNul(cs[1..]);
    }
  }

  /**
   Well-formed UTF-8 whose code points are all printable (at least 32, or
   tab, LF or CR) is text, whatever scripts it uses.
   */
  lemma PrintableUtf8IsText(cs: seq<int>)
    requires forall i :: 0 <= i < |cs| ==> IsScalar(cs[i]) && (cs[i] >= 32 || IsAllowedControl(cs[i]))
    ensures IsTextSpec(EncodeAll(cs))
  {
    var data := EncodeAll(cs);
    EncodingHasNoNul(cs);
    UnitsOfEncoding(cs);
    var us := Units(data);
    forall i | 0 <= i < |us| ensures !IsNonPrintable(us[i]) {
      if cs[i] == RuneError {
        assert |Encode(cs[i])| != 1;
      }
    }
    NoneNonPrintable(us);
  }

  /** On ASCII input without NUL, text means fewer than one control byte in ten. */
  lemma AsciiThreshold(data: seq<Byte>)
    requires |data| > 0
    requires forall i :: 0 <= i < |data| ==> 0 < data[i] < 0x80
    ensures IsTextSpec(data) <==> 10 * CountControls(data) < |data|
  {
    AsciiUnits(data);
  }

  /** One control byte in ten bytes is exactly 10% non-printable: binary. */
  lemma ExactlyTenPercentIsBinary()
    ensures !IsTextSpec([0x01] + seq(9, _ => 0x41))
  {
    var data: seq<Byte> := [0x01] + seq(9, _ => 0x41);
    NoControls(data[1..]);
    AsciiThreshold(data);
  }

  /** One control byte in eleven bytes is under 10%: text. */
  lemma UnderTenPercentIsText()
    ensures IsTextSpec([0x01] + seq(10, _ => 0x41))
  {
    var data: seq<Byte> := [0x01] + seq(10, _ => 0x41);
    NoControls(data[1..]);
    AsciiThreshold(data);
  }

  /** Bytes after the first `SniffLen` never change how a file is classified. */
  lemma OnlyPrefixMatters(contents: seq<Byte>, extra: seq<Byte>, open: Outcome, read: Outcome)
    requires |contents| >= SniffLen
    ensures IsTextFileSpec(contents + extra, open, read) == IsTextFileSpec(contents, open, read)
  {
    assert (contents + extra)[..SniffLen] == contents[..SniffLen];
  }
}

/** The header reader of Cubemap's PFM loader.  readWord splits the byte
    stream into words at Java whitespace.  readPPMHeader checks the magic
    "PF" and reads the width, height and maxval words of a header of the
    form "PF\n<width> <height>\n<maxval>\n". */
module PfmHeader {
  import opened JavaNum

  /** A Java `byte`. */
  newtype Byte = b: int | -128 <= b < 128

  /** How a read can fail: EOFException from DataInputStream.readByte, or
      NumberFormatException from Integer.parseInt / Float.parseFloat. */
  datatype Failure = EndOfFile | NumberFormat

  datatype Result<T> = Ok(value: T) | Threw(failure: Failure)

  /** `(char) b`: the byte is sign-extended first, so the bytes -128 .. -1
      become U+FF80 .. U+FFFF. */
  function ByteChar(b: Byte): char {
    if b < 0 then (b as int + 0x1_0000) as char else b as char
  }

  /** Character.isWhitespace: the Unicode space, line and paragraph
      separators other than the no-break spaces, and U+0009 .. U+000D and
      U+001C .. U+001F. */
  predicate IsWhitespace(c: char) {
    var n := c as int;
    (9 <= n <= 13) || (28 <= n <= 32) || n == 0x1680
    || (0x2000 <= n <= 0x2006) || (0x2008 <= n <= 0x200A)
    || n == 0x2028 || n == 0x2029 || n == 0x205F || n == 0x3000
  }

  /** Of the characters a byte can give, exactly the bytes 9 .. 13 and
      28 .. 32 are whitespace. */
  lemma ByteWhitespace(b: Byte)
    ensures IsWhitespace(ByteChar(b)) <==> (9 <= b <= 13 || 28 <= b <= 32)
  {
  }

  /** The characters of the bytes `bs[j..e]`, in order. */
  function CharsIn(bs: seq<Byte>, j: int, e: int): (s: string)
    requires 0 <= j <= e <= |bs|
    ensures |s| == e - j
    decreases e - j
  {
    if e == j then [] else CharsIn(bs, j, e - 1) + [ByteChar(bs[e - 1])]
  }

  /** The characters of all of `bs`. */
  function Chars(bs: seq<Byte>): string {
    CharsIn(bs, 0, |bs|)
  }

  lemma {:induction false} CharsInAt(bs: seq<Byte>, j: int, e: int, k: int)
    requires 0 <= j <= e <= |bs| && 0 <= k < e - j
    ensures CharsIn(bs, j, e)[k] == ByteChar(bs[j + k])
    decreases e - j
  {
    if k < e - j - 1 {
      CharsInAt(bs, j, e - 1, k);
    }
  }

  /** Equal runs of bytes give equal characters, wherever they lie. */
  lemma {:induction false} CharsShift(s: seq<Byte>, a: int, t: seq<Byte>, b: int, n: int)
    requires 0 <= a && 0 <= b && 0 <= n && a + n <= |s| && b + n <= |t|
    requires forall k :: a <= k < a + n ==> s[k] == t[b + (k - a)]
    ensures CharsIn(s, a, a + n) == CharsIn(t, b, b + n)
  {
    if 0 < n {
      CharsShift(s, a, t, b, n - 1);
      assert s[a + n - 1] == t[b + n - 1];
    }
  }

  /** The end of the run starting at `i` of bytes that are whitespace
      (`space`) or are not (`!space`): the first index from `i` on whose
      byte is not of that kind, or the length. */
  function Scan(bs: seq<Byte>, i: int, space: bool): (j: int)
    requires 0 <= i <= |bs|
    ensures i <= j <= |bs|
    decreases |bs| - i
  {
    if i == |bs| || IsWhitespace(ByteChar(bs[i])) != space then i else Scan(bs, i + 1, space)
  }

  /** Every byte of the run is of the kind, and the byte ending it is not. */
  lemma {:induction false} ScanRun(bs: seq<Byte>, i: int, space: bool)
    requires 0 <= i <= |bs|
    ensures forall k :: i <= k < Scan(bs, i, space) ==> IsWhitespace(ByteChar(bs[k])) == space
    ensures Scan(bs, i, space) < |bs| ==> IsWhitespace(ByteChar(bs[Scan(bs, i, space)])) != space
    decreases |bs| - i
  {
    if i < |bs| && IsWhitespace(ByteChar(bs[i])) == space {
      ScanRun(bs, i + 1, space);
    }
  }

  /** The run is determined by its two properties. */
  lemma {:induction false} ScanIs(bs: seq<Byte>, i: int, j: int, space: bool)
    requires 0 <= i <= j <= |bs|
    requires forall k :: i <= k < j ==> IsWhitespace(ByteChar(bs[k])) == space
    requires j < |bs| ==> IsWhitespace(ByteChar(bs[j])) != space
    ensures Scan(bs, i, space) == j
    decreases j - i
  {
    if i < j {
      ScanIs(bs, i + 1, j, space);
    }
  }

  /** The outcome of a read and the stream position after it. */
  datatype Read<T> = Read(result: Result<T>, next: int)

  /** What readWord reads from position `i`: the whitespace is skipped, the
      word is the following maximal run of non-whitespace bytes, and the one
      whitespace byte after it is consumed too.  Running out of bytes before
      that byte throws EOFException, with the whole stream consumed. */
  function WordAt(bs: seq<Byte>, i: int): (r: Read<string>)
    requires 0 <= i <= |bs|
    ensures i <= r.next <= |bs|
    ensures r.result.Threw? ==> r.result.failure == EndOfFile && r.next == |bs|
    ensures r.result.Ok? ==> i < r.next && |r.result.value| < r.next - i
    ensures r.result.Ok? ==> 1 <= |r.result.value|
  {
    var j := Scan(bs, i, true);
    if j == |bs| then Read(Threw(EndOfFile), |bs|)
    else
      var e := Scan(bs, j + 1, false);
      if e == |bs| then Read(Threw(EndOfFile), |bs|)
      else Read(Ok(CharsIn(bs, j, e)), e + 1)
  }

  /** A word read is a non-empty run of non-whitespace characters, and the
      byte consumed after it is whitespace. */
  lemma {:induction false} WordShape(bs: seq<Byte>, i: int)
    requires 0 <= i <= |bs|
    ensures var r := WordAt(bs, i);
            r.result.Ok? ==> IsWhitespace(ByteChar(bs[r.next - 1]))
                             && forall k :: 0 <= k < |r.result.value| ==> !IsWhitespace(r.result.value[k])
  {
    var r := WordAt(bs, i);
    if r.result.Ok? {
      var j := Scan(bs, i, true);
      var e := Scan(bs, j + 1, false);
      ScanRun(bs, i, true);
      ScanRun(bs, j + 1, false);
      forall k | 0 <= k < |r.result.value|
        ensures !IsWhitespace(r.result.value[k])
      {
        CharsInAt(bs, j, e, k);
      }
    }
  }

  /** A run of whitespace from `i` to `j`, then one of non-whitespace up to
      the whitespace byte at `e`, is read as the word `bs[j..e]`. */
  lemma {:induction false} WordAtRun(bs: seq<Byte>, i: int, j: int, e: int)
    requires 0 <= i <= j < e < |bs|
    requires forall k :: i <= k < j ==> IsWhitespace(ByteChar(bs[k]))
    requires WordIn(bs, j, e)
    requires IsWhitespace(ByteChar(bs[e]))
    ensures WordAt(bs, i) == Read(Ok(CharsIn(bs, j, e)), e + 1)
  {
    ScanIs(bs, i, j, true);
    ScanIs(bs, j + 1, e, false);
  }

  /** The stream a bit of writing produces is read back word for word:
      after any whitespace `pre`, the non-empty word `w` and one whitespace
      byte `t`, readWord returns `w` and stops right after `t`. */
  lemma {:induction false} WordAtOfWritten(head: seq<Byte>, pre: seq<Byte>, w: seq<Byte>, t: Byte, rest: seq<Byte>)
    requires forall k :: 0 <= k < |pre| ==> IsWhitespace(ByteChar(pre[k]))
    requires 1 <= |w| && forall k :: 0 <= k < |w| ==> !IsWhitespace(ByteChar(w[k]))
    requires IsWhitespace(ByteChar(t))
    ensures WordAt(head + pre + w + [t] + rest, |head|) == Read(Ok(Chars(w)), |head| + |pre| + |w| + 1)
  {
    var bs := head + pre + w + [t] + rest;
    var j := |head| + |pre|;
    var e := j + |w|;
    Pieces(bs, head, pre, w, t, rest, j, e);
    forall k | |head| <= k < j
      ensures IsWhitespace(ByteChar(bs[k]))
    {
      assert bs[k] == pre[k - |head|];
    }
    forall k | j <= k < e
      ensures !IsWhitespace(ByteChar(bs[k]))
    {
      assert bs[k] == w[k - j];
    }
    assert WordIn(bs, j, e);
    WordAtRun(bs, |head|, j, e);
    CharsShift(bs, j, w, 0, |w|);
  }

  lemma Pieces<T>(bs: seq<T>, head: seq<T>, pre: seq<T>, w: seq<T>, t: T, rest: seq<T>, j: int, e: int)
    requires bs == head + pre + w + [t] + rest && j == |head| + |pre| && e == j + |w|
    ensures e < |bs| && bs[e] == t
    ensures forall k :: |head| <= k < j ==> bs[k] == pre[k - |head|]
    ensures forall k :: j <= k < e ==> bs[k] == w[k - j]
  {
  }

  /** java.io.DataInputStream over the bytes of a file: the bytes and the
      position of the next one. */
  class DataInput {
    var bytes: seq<Byte>
    var pos: int

    ghost predicate Valid()
      reads this
    {
      0 <= pos <= |bytes|
    }

    constructor (bs: seq<Byte>)
      ensures Valid() && bytes == bs && pos == 0
    {
      bytes := bs;
      pos := 0;
    }

    /** DataInputStream.readByte: the next byte, or EOFException at the end
        of the stream. */
    method ReadByte() returns (r: Result<Byte>)
      requires Valid()
      modifies this
      ensures Valid() && bytes == old(bytes)
      ensures old(pos) < |bytes| ==> r == Ok(bytes[old(pos)]) && pos == old(pos) + 1
      ensures old(pos) == |bytes| ==> r == Threw(EndOfFile) && pos == old(pos)
    {
      if pos == |bytes| {
        r := Threw(EndOfFile);
      } else {
        r := Ok(bytes[pos]);
        pos := pos + 1;
      }
    }
  }

  /** Cubemap.readWord: one loop reads past the whitespace, the next
      collects the word up to and including the whitespace byte after it. */
  method ReadWord(input: DataInput) returns (r: Result<string>)
    requires input.Valid()
    modifies input
    ensures input.Valid() && input.bytes == old(input.bytes)
    ensures Read(r, input.pos) == WordAt(old(input.bytes), old(input.pos))
  {
    ghost var bs, i := input.bytes, input.pos;
    var first := SkipSpace(input);
    if first.Threw? {
      return Threw(first.failure);
    }
    ScanRun(bs, i, true);
    r := CollectWord(input, first.value);
  }

  /** readWord's first loop: bytes are read until one is not whitespace;
      that byte's character is the first of the word. */
  method SkipSpace(input: DataInput) returns (r: Result<char>)
    requires input.Valid()
    modifies input
    ensures input.Valid() && input.bytes == old(input.bytes)
    ensures var j := Scan(old(input.bytes), old(input.pos), true);
            if j == |input.bytes| then r == Threw(EndOfFile) && input.pos == j
            else r == Ok(ByteChar(input.bytes[j])) && input.pos == j + 1
  {
    ghost var bs, i := input.bytes, input.pos;
    var b := input.ReadByte();
    if b.Threw? {
      return Threw(b.failure);
    }
    var c := ByteChar(b.value);
    while IsWhitespace(c)
      invariant input.Valid() && input.bytes == bs
      invariant i < input.pos && c == ByteChar(bs[input.pos - 1])
      invariant Scan(bs, i, true) == Scan(bs, input.pos - 1, true)
      decreases |bs| - input.pos
    {
      b := input.ReadByte();
      if b.Threw? {
        return Threw(b.failure);
      }
      c := ByteChar(b.value);
    }
    r := Ok(c);
  }

  /** readWord's second loop: `c`, the character of the byte before the
      current position, starts the word; bytes are appended until a
      whitespace byte has been read. */
  method CollectWord(input: DataInput, c: char) returns (r: Result<string>)
    requires input.Valid() && 0 < input.pos
    requires c == ByteChar(input.bytes[input.pos - 1]) && !IsWhitespace(c)
    modifies input
    ensures input.Valid() && input.bytes == old(input.bytes)
    ensures var e := Scan(old(input.bytes), old(input.pos), false);
            if e == |input.bytes| then r == Threw(EndOfFile) && input.pos == e
            else r == Ok(CharsIn(input.bytes, old(input.pos) - 1, e)) && input.pos == e + 1
  {
    ghost var bs, j := input.bytes, input.pos - 1;
    var s := [c];
    var b := input.ReadByte();
    if b.Threw? {
      return Threw(b.failure);
    }
    var d := ByteChar(b.value);
    while !IsWhitespace(d)
      invariant input.Valid() && input.bytes == bs
      invariant j + 1 < input.pos && d == ByteChar(bs[input.pos - 1])
      invariant s == CharsIn(bs, j, input.pos - 1)
      invariant Scan(bs, j + 1, false) == Scan(bs, input.pos - 1, false)
      decreases |bs| - input.pos
    {
      s := s + [d];
      b := input.ReadByte();
      if b.Threw? {
        return Threw(b.failure);
      }
      d := ByteChar(b.value);
    }
    r := Ok(s);
  }

  predicate IsDigit(c: char) {
    '0' <= c <= '9'
  }

  /** Whether the characters `s[a..e]` are all decimal digits. */
  predicate AllDigitsIn(s: string, a: int, e: int)
    requires 0 <= a <= e <= |s|
    decreases e - a
  {
    e == a || (AllDigitsIn(s, a, e - 1) && IsDigit(s[e - 1]))
  }

  lemma {:induction false} AllDigitsInEach(s: string, a: int, e: int)
    requires 0 <= a <= e <= |s|
    ensures AllDigitsIn(s, a, e) <==> forall k :: a <= k < e ==> IsDigit(s[k])
    decreases e - a
  {
    if a < e {
      AllDigitsInEach(s, a, e - 1);
    }
  }

  /** The number the characters `s[a..e]` stand for when read as decimal
      digits, most significant first. */
  function ValueIn(s: string, a: int, e: int): int
    requires 0 <= a <= e <= |s|
    decreases e - a
  {
    if e == a then 0 else 10 * ValueIn(s, a, e - 1) + (s[e - 1] as int - '0' as int)
  }

  /** Integer.parseInt(s): an optional sign and at least one decimal digit,
      whose value must lie in the `int` range; anything else throws
      NumberFormatException. */
  function ParseInt(s: string): (r: Result<int>)
    ensures r.Ok? ==> IsInt32(r.value)
    ensures r.Threw? ==> r.failure == NumberFormat
  {
    if |s| == 0 then Threw(NumberFormat)
    else
      var start := if s[0] == '-' || s[0] == '+' then 1 else 0;
      if start == |s| || !AllDigitsIn(s, start, |s|) then Threw(NumberFormat)
      else
        var v := if s[0] == '-' then -ValueIn(s, start, |s|) else ValueIn(s, start, |s|);
        if IsInt32(v) then Ok(v) else Threw(NumberFormat)
  }

  function DigitChar(d: int): char
    requires 0 <= d < 10
  {
    ('0' as int + d) as char
  }

  /** The decimal digits of `n`, without leading zeros. */
  function Decimal(n: nat): (s: string)
    ensures 1 <= |s| && forall k :: 0 <= k < |s| ==> IsDigit(s[k])
  {
    if n < 10 then [DigitChar(n)] else Decimal(n / 10) + [DigitChar(n % 10)]
  }

  /** Equal runs of characters have equal values, wherever they lie. */
  lemma {:induction false} ValueShift(s: string, a: int, t: string, b: int, n: int)
    requires 0 <= a && 0 <= b && 0 <= n && a + n <= |s| && b + n <= |t|
    requires forall k :: a <= k < a + n ==> s[k] == t[b + (k - a)]
    ensures ValueIn(s, a, a + n) == ValueIn(t, b, b + n)
  {
    if 0 < n {
      ValueShift(s, a, t, b, n - 1);
      assert s[a + n - 1] == t[b + n - 1];
    }
  }

  /** The digits of a number read back as that number. */
  lemma {:induction false} DigitsOfDecimal(n: nat)
    ensures ValueIn(Decimal(n), 0, |Decimal(n)|) == n
  {
    if 10 <= n {
      var s, p := Decimal(n), Decimal(n / 10);
      DigitsOfDecimal(n / 10);
      ValueShift(s, 0, p, 0, |p|);
    }
  }

  /** parseInt reads back every `int` written in decimal, with a minus sign
      for negative numbers. */
  lemma ParseIntOfDecimal(n: int)
    requires IsInt32(n)
    ensures n < 0 ==> ParseInt("-" + Decimal(-n)) == Ok(n)
    ensures 0 <= n ==> ParseInt(Decimal(n)) == Ok(n)
  {
    if n < 0 {
      ParseIntOfNegative(n);
    } else {
      var s := Decimal(n);
      DigitsOfDecimal(n);
      AllDigitsInEach(s, 0, |s|);
      assert s[0] != '-' && s[0] != '+';
    }
  }

  lemma ParseIntOfNegative(n: int)
    requires IntMin <= n < 0
    ensures ParseInt("-" + Decimal(-n)) == Ok(n)
  {
    var d := Decimal(-n);
    var s := "-" + d;
    forall k | 1 <= k < |s|
      ensures s[k] == d[k - 1] && IsDigit(s[k])
    {
    }
    ValueShift(s, 1, d, 0, |d|);
    AllDigitsInEach(s, 1, |s|);
    DigitsOfDecimal(-n);
  }

  /** Cubemap.PNMHeaderInfo. */
  class PNMHeaderInfo {
    var width: int
    var height: int
    var bands: int
    var maxval: real

    constructor ()
      ensures width == 0 && height == 0 && bands == 0 && maxval == 0.0
    {
      width, height, bands, maxval := 0, 0, 0, 0.0;
    }
  }

  /** The fields readPPMHeader stores in its PNMHeaderInfo. */
  datatype Header = Header(width: int, height: int, bands: int, maxval: real)

  /** The outcome of readPPMHeader from position `i`, the header it stores
      when it gets that far, and the stream position after it.
      Float.parseFloat is the parameter `parseFloat`, which gives None where
      it throws NumberFormatException. */
  datatype HeaderRead = HeaderRead(result: Result<int>, header: Option<Header>, next: int)

  /** `width * height * 3` in Java `int` arithmetic. */
  function ImageSize(width: int, height: int): int {
    Wrap32(Wrap32(width * height) * 3)
  }

  /** `Integer.parseInt(readWord(in))` from position `i`. */
  function IntWordAt(bs: seq<Byte>, i: int): (r: Read<int>)
    requires 0 <= i <= |bs|
    ensures i <= r.next <= |bs|
    ensures r.result.Threw? && r.result.failure == EndOfFile ==> r.next == |bs|
    ensures r.result.Ok? ==> IsInt32(r.result.value)
  {
    var w := WordAt(bs, i);
    if w.result.Threw? then Read(Threw(w.result.failure), w.next)
    else Read(ParseInt(w.result.value), w.next)
  }

  /** `Float.parseFloat(readWord(in))` from position `i`. */
  function FloatWordAt(bs: seq<Byte>, i: int, parseFloat: string -> Option<real>): (r: Read<real>)
    requires 0 <= i <= |bs|
    ensures i <= r.next <= |bs|
    ensures r.result.Threw? && r.result.failure == EndOfFile ==> r.next == |bs|
  {
    var w := WordAt(bs, i);
    if w.result.Threw? then Read(Threw(w.result.failure), w.next)
    else if parseFloat(w.result.value).None? then Read(Threw(NumberFormat), w.next)
    else Read(Ok(parseFloat(w.result.value).value), w.next)
  }

  /** What readPPMHeader does after the magic "PF": the width, the height
      and the maxval words, read from position `i`. */
  function FieldsAt(bs: seq<Byte>, i: int, parseFloat: string -> Option<real>): (r: HeaderRead)
    requires 0 <= i <= |bs|
    ensures i <= r.next <= |bs|
    ensures r.header.Some? <==> r.result.Ok?
    ensures r.header.Some? ==> r.header.value.bands == 3
                               && r.result == Ok(ImageSize(r.header.value.width, r.header.value.height))
  {
    var width := IntWordAt(bs, i);
    if width.result.Threw? then HeaderRead(Threw(width.result.failure), None, width.next)
    else
      var height := IntWordAt(bs, width.next);
      if height.result.Threw? then HeaderRead(Threw(height.result.failure), None, height.next)
      else
        var maxval := FloatWordAt(bs, height.next, parseFloat);
        if maxval.result.Threw? then HeaderRead(Threw(maxval.result.failure), None, maxval.next)
        else
          var size := ImageSize(width.result.value, height.result.value);
          HeaderRead(Ok(size), Some(Header(width.result.value, height.result.value, 3, maxval.result.value)), maxval.next)
  }

  /** The outcome of readPPMHeader from position `i`: -1 unless the first two
      bytes are "PF", and then the fields that follow. */
  function HeaderAt(bs: seq<Byte>, i: int, parseFloat: string -> Option<real>): (r: HeaderRead)
    requires 0 <= i <= |bs|
    ensures i <= r.next <= |bs|
    ensures r.result.Threw? && r.result.failure == EndOfFile ==> r.next == |bs|
  {
    if i == |bs| then HeaderRead(Threw(EndOfFile), None, |bs|)
    else if bs[i] != 'P' as int as Byte then HeaderRead(Ok(-1), None, i + 1)
    else if i + 1 == |bs| then HeaderRead(Threw(EndOfFile), None, |bs|)
    else if bs[i + 1] != 'F' as int as Byte then HeaderRead(Ok(-1), None, i + 2)
    else FieldsAt(bs, i + 2, parseFloat)
  }

  /** A header is stored exactly when the stream starts with "PF" and the
      read succeeds; it always has three bands and the result is its
      `width * height * 3` in `int` arithmetic. */
  lemma {:induction false} HeaderStored(bs: seq<Byte>, i: int, parseFloat: string -> Option<real>)
    requires 0 <= i <= |bs|
    ensures var r := HeaderAt(bs, i, parseFloat);
            r.header.Some? <==> r.result.Ok? && i + 2 <= |bs| && bs[i..i + 2] == [80, 70]
    ensures var r := HeaderAt(bs, i, parseFloat);
            r.header.Some? ==> r.header.value.bands == 3
                               && r.result == Ok(ImageSize(r.header.value.width, r.header.value.height))
  {
    if i + 2 <= |bs| {
      assert bs[i..i + 2] == [bs[i], bs[i + 1]];
    }
  }

  /** The bytes of the decimal digits of `n`. */
  function DigitBytes(n: nat): (bs: seq<Byte>)
    ensures 1 <= |bs| && forall k :: 0 <= k < |bs| ==> 48 <= bs[k] <= 57
  {
    if n < 10 then [(48 + n) as Byte] else DigitBytes(n / 10) + [(48 + n % 10) as Byte]
  }

  lemma {:induction false} CharsOfDigitBytes(n: nat)
    ensures Chars(DigitBytes(n)) == Decimal(n)
  {
    if 10 <= n {
      var bs, p := DigitBytes(n), DigitBytes(n / 10);
      CharsOfDigitBytes(n / 10);
      CharsShift(bs, 0, p, 0, |p|);
    }
  }

  /** Bytes a..e of bs are the decimal digits of n. */
  predicate DecimalAt(bs: seq<Byte>, a: int, e: int, n: nat) {
    0 <= a <= e <= |bs| && e - a == |DigitBytes(n)| && forall k :: a <= k < e ==> bs[k] == DigitBytes(n)[k - a]
  }

  /** Bytes a..e of bs hold no whitespace. */
  predicate WordIn(bs: seq<Byte>, a: int, e: int) {
    0 <= a <= e <= |bs| && forall k :: a <= k < e ==> !IsWhitespace(ByteChar(bs[k]))
  }

  /** A non-negative `int` written in decimal at `bs[a..b]`, after a run of
      whitespace from `i` and before the whitespace byte at `b`, is read
      back by parseInt(readWord). */
  lemma {:induction false} IntWordRun(bs: seq<Byte>, i: int, a: int, b: int, n: int)
    requires 0 <= i <= a < b < |bs| && 0 <= n <= IntMax && DecimalAt(bs, a, b, n)
    requires forall k :: i <= k < a ==> IsWhitespace(ByteChar(bs[k]))
    requires IsWhitespace(ByteChar(bs[b]))
    ensures IntWordAt(bs, i) == Read(Ok(n), b + 1)
  {
    var d := DigitBytes(n);
    forall k | a <= k < b
      ensures !IsWhitespace(ByteChar(bs[k]))
    {
      assert bs[k] == d[k - a];
      ByteWhitespace(bs[k]);
    }
    assert WordIn(bs, a, b);
    WordAtRun(bs, i, a, b);
    CharsShift(bs, a, d, 0, |d|);
    CharsOfDigitBytes(n);
    ParseIntOfDecimal(n);
  }

  lemma {:induction false} FieldsOfWords(bs: seq<Byte>, i: int, a: int, b: int, c: int, width: int, height: int, x: real,
                      parseFloat: string -> Option<real>)
    requires 0 <= i <= a <= b <= c <= |bs|
    requires IntWordAt(bs, i) == Read(Ok(width), a) && IntWordAt(bs, a) == Read(Ok(height), b)
    requires FloatWordAt(bs, b, parseFloat) == Read(Ok(x), c)
    ensures FieldsAt(bs, i, parseFloat) == HeaderRead(Ok(ImageSize(width, height)), Some(Header(width, height, 3, x)), c)
  {
  }

  lemma HeaderPieces<T>(bs: seq<T>, head: seq<T>, magic: seq<T>, dw: seq<T>, s1: T, dh: seq<T>, s2: T,
                        m: seq<T>, s3: T, rest: seq<T>, a: int, b: int, c: int, d: int)
    requires bs == head + magic + dw + [s1] + dh + [s2] + m + [s3] + rest
    requires a == |head| + |magic| && b == a + |dw| && c == b + 1 + |dh| && d == c + 1 + |m|
    ensures d < |bs| && |bs| - |rest| == d + 1
    ensures forall k :: |head| <= k < a ==> bs[k] == magic[k - |head|]
    ensures forall k :: a <= k < b ==> bs[k] == dw[k - a]
    ensures forall k :: b + 1 <= k < c ==> bs[k] == dh[k - (b + 1)]
    ensures forall k :: c + 1 <= k < d ==> bs[k] == m[k - (c + 1)]
    ensures bs[b] == s1 && bs[c] == s2 && bs[d] == s3
  {
  }

  /** After the magic "PF" the header is what the fields make of it. */
  lemma MagicThenFields(bs: seq<Byte>, i: int, parseFloat: string -> Option<real>)
    requires 0 <= i && i + 1 < |bs| && bs[i] == 80 && bs[i + 1] == 70
    ensures HeaderAt(bs, i, parseFloat) == FieldsAt(bs, i + 2, parseFloat)
  {
  }

  /** The fields laid out from `i`: a newline, the decimal width up to the
      space at `b`, the decimal height up to the newline at `c`, and the
      maxval up to the newline at `d`. */
  lemma {:induction false} FieldsOfLayout(bs: seq<Byte>, i: int, b: int, c: int, d: int, width: nat, height: nat,
                                          x: real, parseFloat: string -> Option<real>)
    requires 0 <= i && i + 1 < b && b + 1 < c && c + 1 < d < |bs| && width <= IntMax && height <= IntMax
    requires bs[i] == 10 && bs[b] == 32 && bs[c] == 10 && bs[d] == 10
    requires DecimalAt(bs, i + 1, b, width)
    requires DecimalAt(bs, b + 1, c, height) && WordIn(bs, c + 1, d)
    requires parseFloat(CharsIn(bs, c + 1, d)) == Some(x)
    ensures FieldsAt(bs, i, parseFloat) == HeaderRead(Ok(ImageSize(width, height)), Some(Header(width, height, 3, x)), d + 1)
  {
    WidthOfLayout(bs, i, b, width);
    MaxvalOfLayout(bs, b, c, d, height, x, parseFloat);
    FieldsOfWords(bs, i, b + 1, c + 1, d + 1, width, height, x, parseFloat);
  }

  /** The width word laid out from the newline at `i`: the decimal width
      up to the space at `b`. */
  lemma {:induction false} WidthOfLayout(bs: seq<Byte>, i: int, b: int, width: nat)
    requires 0 <= i && i + 1 < b < |bs| && width <= IntMax
    requires bs[i] == 10 && bs[b] == 32
    requires DecimalAt(bs, i + 1, b, width)
    ensures IntWordAt(bs, i) == Read(Ok(width), b + 1)
  {
    IntWordRun(bs, i, i + 1, b, width);
  }

  /** The height and maxval words laid out from the space at `b`: the
      decimal height up to the newline at `c`, and the maxval up to the
      newline at `d`. */
  lemma {:induction false} MaxvalOfLayout(bs: seq<Byte>, b: int, c: int, d: int, height: nat,
                                          x: real, parseFloat: string -> Option<real>)
    requires 0 <= b && b + 1 < c && c + 1 < d < |bs| && height <= IntMax
    requires bs[b] == 32 && bs[c] == 10 && bs[d] == 10
    requires DecimalAt(bs, b + 1, c, height) && WordIn(bs, c + 1, d)
    requires parseFloat(CharsIn(bs, c + 1, d)) == Some(x)
    ensures IntWordAt(bs, b + 1) == Read(Ok(height), c + 1)
    ensures FloatWordAt(bs, c + 1, parseFloat) == Read(Ok(x), d + 1)
  {
    IntWordRun(bs, b + 1, b + 1, c, height);
    WordAtRun(bs, c + 1, c + 1, d);
  }

  /** A header written as "PF\n<width> <height>\n<maxval>\n" with
      non-negative decimal width and height is read back: three bands, the
      width, the height and the maxval, and `width * height * 3` in `int`
      arithmetic. */
  lemma {:induction false} HeaderOfWritten(head: seq<Byte>, width: nat, height: nat, m: seq<Byte>, x: real,
                                           rest: seq<Byte>, parseFloat: string -> Option<real>)
    requires width <= IntMax && height <= IntMax
    requires 1 <= |m| && forall k :: 0 <= k < |m| ==> !IsWhitespace(ByteChar(m[k]))
    requires parseFloat(Chars(m)) == Some(x)
    ensures var bs := head + [80, 70, 10] + DigitBytes(width) + [32] + DigitBytes(height) + [10] + m + [10] + rest;
            HeaderAt(bs, |head|, parseFloat)
            == HeaderRead(Ok(ImageSize(width, height)), Some(Header(width, height, 3, x)), |bs| - |rest|)
  {
    var dw, dh := DigitBytes(width), DigitBytes(height);
    var bs := head + [80, 70, 10] + dw + [32] + dh + [10] + m + [10] + rest;
    var a := |head| + 3;
    var b := a + |dw|;
    var c := b + 1 + |dh|;
    var d := c + 1 + |m|;
    HeaderPieces(bs, head, [80, 70, 10], dw, 32, dh, 10, m, 10, rest, a, b, c, d);
    assert bs[|head|] == 80 && bs[|head| + 1] == 70 && bs[|head| + 2] == 10;
    forall k | c + 1 <= k < d
      ensures !IsWhitespace(ByteChar(bs[k]))
    {
      assert bs[k] == m[k - (c + 1)];
    }
    assert WordIn(bs, c + 1, d);
    assert DecimalAt(bs, a, b, width) && DecimalAt(bs, b + 1, c, height);
    CharsShift(bs, c + 1, m, 0, |m|);
    MagicThenFields(bs, |head|, parseFloat);
    FieldsOfLayout(bs, |head| + 2, b, c, d, width, height, x, parseFloat);
  }

  /** The result -1 does not single out streams that are not PFM files: a
      well-formed header of a 5 x 286331153 image also gives -1, because
      `5 * 286331153 * 3` is 2^32 - 1, which wraps to -1. */
  lemma MinusOneIsAmbiguous(head: seq<Byte>, m: seq<Byte>, x: real, rest: seq<Byte>, parseFloat: string -> Option<real>)
    requires 1 <= |m| && forall k :: 0 <= k < |m| ==> !IsWhitespace(ByteChar(m[k]))
    requires parseFloat(Chars(m)) == Some(x)
    ensures var bs := head + [80, 70, 10] + DigitBytes(5) + [32] + DigitBytes(286331153) + [10] + m + [10] + rest;
            var r := HeaderAt(bs, |head|, parseFloat);
            r.result == Ok(-1) && r.header.Some?
  {
    HeaderOfWritten(head, 5, 286331153, m, x, rest, parseFloat);
    assert Wrap32(5 * 286331153) == 1431655765;
    assert Wrap32(1431655765 * 3) == Wrap32(4294967295 - Modulus);
  }

  /** `Integer.parseInt(readWord(in))`. */
  method ReadIntWord(input: DataInput) returns (r: Result<int>)
    requires input.Valid()
    modifies input
    ensures input.Valid() && input.bytes == old(input.bytes)
    ensures Read(r, input.pos) == IntWordAt(old(input.bytes), old(input.pos))
  {
    var w := ReadWord(input);
    if w.Threw? {
      return Threw(w.failure);
    }
    r := ParseInt(w.value);
  }

  /** `Float.parseFloat(readWord(in))`. */
  method ReadFloatWord(input: DataInput, parseFloat: string -> Option<real>) returns (r: Result<real>)
    requires input.Valid()
    modifies input
    ensures input.Valid() && input.bytes == old(input.bytes)
    ensures Read(r, input.pos) == FloatWordAt(old(input.bytes), old(input.pos), parseFloat)
  {
    var w := ReadWord(input);
    if w.Threw? {
      return Threw(w.failure);
    }
    var f := parseFloat(w.value);
    if f.None? {
      return Threw(NumberFormat);
    }
    r := Ok(f.value);
  }

  /** Cubemap.readPPMHeader. */
  method ReadPPMHeader(input: DataInput, info: PNMHeaderInfo?, parseFloat: string -> Option<real>)
    returns (r: Result<int>)
    requires input.Valid()
    modifies input, info
    ensures input.Valid() && input.bytes == old(input.bytes)
    ensures HeaderRead(r, HeaderAt(old(input.bytes), old(input.pos), parseFloat).header, input.pos)
            == HeaderAt(old(input.bytes), old(input.pos), parseFloat)
    ensures info != null && HeaderAt(old(input.bytes), old(input.pos), parseFloat).header.Some? ==>
              var hd := HeaderAt(old(input.bytes), old(input.pos), parseFloat).header.value;
              info.width == hd.width && info.height == hd.height && info.bands == hd.bands
              && info.maxval == hd.maxval
    ensures info != null && HeaderAt(old(input.bytes), old(input.pos), parseFloat).header.None? ==>
              info.width == old(info.width) && info.height == old(info.height)
              && info.bands == old(info.bands) && info.maxval == old(info.maxval)
  {
    var first := input.ReadByte();
    if first.Threw? {
      return Threw(first.failure);
    }
    if first.value != 'P' as int as Byte {
      return Ok(-1);
    }
    var magic := input.ReadByte();
    if magic.Threw? {
      return Threw(magic.failure);
    }
    var bands;
    if magic.value == 'F' as int as Byte {
      bands := 3;
    } else {
      return Ok(-1);
    }
    r := ReadFields(input, info, parseFloat);
  }

  /** readPPMHeader after the magic "PF": the width, the height and the
      maxval words, then the fields of `info` when it is not null. */
  method ReadFields(input: DataInput, info: PNMHeaderInfo?, parseFloat: string -> Option<real>)
    returns (r: Result<int>)
    requires input.Valid()
    modifies input, info
    ensures input.Valid() && input.bytes == old(input.bytes)
    ensures HeaderRead(r, FieldsAt(old(input.bytes), old(input.pos), parseFloat).header, input.pos)
            == FieldsAt(old(input.bytes), old(input.pos), parseFloat)
    ensures info != null && FieldsAt(old(input.bytes), old(input.pos), parseFloat).header.Some? ==>
              var hd := FieldsAt(old(input.bytes), old(input.pos), parseFloat).header.value;
              info.width == hd.width && info.height == hd.height && info.bands == hd.bands
              && info.maxval == hd.maxval
    ensures info != null && FieldsAt(old(input.bytes), old(input.pos), parseFloat).header.None? ==>
              info.width == old(info.width) && info.height == old(info.height)
              && info.bands == old(info.bands) && info.maxval == old(info.maxval)
  {
    var bands := 3;
    var width := ReadIntWord(input);
    if width.Threw? {
      return Threw(width.failure);
    }
    var height := ReadIntWord(input);
    if height.Threw? {
      return Threw(height.failure);
    }
    var imageSize := Wrap32(Wrap32(width.value * height.value) * bands);
    var maxval := ReadFloatWord(input, parseFloat);
    if maxval.Threw? {
      return Threw(maxval.failure);
    }
    if info != null {
      info.width := width.value;
      info.height := height.value;
      info.bands := bands;
      info.maxval := maxval.value;
    }
    r := Ok(imageSize);
  }
}

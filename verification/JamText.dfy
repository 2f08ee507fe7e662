/** Text as the Jam player reads it: C strings in a statement buffer, and the program read
    character by character. */
module JamText {
  import opened Bits
  import opened CStrings
  import opened JamStub

  const SEMICOLON: Byte := 59
  const COMMENT: Byte := 39
  const EOF: Byte := 0xFF // what is left of EOF, and of a byte 0xFF, in a signed char

  /** `jam_isspace` */
  predicate IsSpace(ch: Byte) { 9 <= ch <= 13 || ch == 32 }

  predicate EndsLine(ch: Byte) { ch == 10 || ch == 13 }

  /** The characters that these names stand for. */
  lemma Characters(ch: Byte)
    ensures IsSpace(ch) <==> ch in [' ' as int, '\t' as int, '\n' as int, 11, 12, '\r' as int]
    ensures EndsLine(ch) <==> ch in ['\n' as int, '\r' as int]
    ensures SEMICOLON == ';' as int && COMMENT == '\'' as int && EOF == 255
  {}

  function CharAt(text: seq<Byte>, k: nat): Byte { if k < |text| then text[k] else NUL }

  // ----- the program stream -----

  /** The input from its first character outside spaces and comments on. */
  function Real(text: seq<Byte>, comment: bool): (rest: seq<Byte>)
    ensures |rest| <= |text|
    decreases |text|
  {
    if text == [] || text[0] == EOF then text
    else if comment then Real(text[1..], !EndsLine(text[0]))
    else if text[0] == COMMENT then Real(text[1..], true)
    else if IsSpace(text[0]) then Real(text[1..], false)
    else text
  }

  /** All real characters, up to the end of the input. */
  function RealChars(text: seq<Byte>): seq<Byte>
    decreases |text|
  {
    var a := Real(text, false);
    if a == [] || a[0] == EOF then [] else [a[0]] + RealChars(a[1..])
  }

  /** White space is passed over, and anything but a comment or the end is taken. */
  lemma RealNext(ch: Byte, rest: seq<Byte>)
    ensures IsSpace(ch) ==> RealChars([ch] + rest) == RealChars(rest)
    ensures ch == EOF ==> RealChars([ch] + rest) == []
    ensures !IsSpace(ch) && ch != EOF && ch != '\'' as int ==> RealChars([ch] + rest) == [ch] + RealChars(rest)
    ensures RealChars([]) == []
  {
    assert ([ch] + rest)[1..] == rest;
    assert Real([ch] + rest, false) == if IsSpace(ch) then Real(rest, false) else Real([ch] + rest, false);
  }

  lemma {:induction false} CommentEnds(words: seq<Byte>, end: seq<Byte>)
    requires forall i :: 0 <= i < |words| ==> !EndsLine(words[i]) && words[i] != EOF
    ensures Real(words + end, true) == Real(end, true)
  {
    if words == [] {
      assert words + end == end;
    } else {
      assert (words + end)[1..] == words[1..] + end;
      CommentEnds(words[1..], end);
    }
  }

  /** A comment runs from an apostrophe to the end of its line, or of the program. */
  lemma CommentSkipped(words: seq<Byte>, end: Byte, rest: seq<Byte>)
    requires forall i :: 0 <= i < |words| ==> !EndsLine(words[i]) && words[i] != EOF
    requires end in ['\n' as int, '\r' as int]
    ensures RealChars(['\'' as int] + (words + ([end] + rest))) == RealChars(rest)
    ensures RealChars(['\'' as int] + words) == []
  {
    hide Real, RealChars, EndsLine;
    CommentBegins(words + ([end] + rest));
    CommentEnds(words, [end] + rest);
    LineEnds(end, rest);
    SameReal(['\'' as int] + (words + ([end] + rest)), rest);
    OpenComment(words);
  }

  lemma OpenComment(words: seq<Byte>)
    requires forall i :: 0 <= i < |words| ==> !EndsLine(words[i]) && words[i] != EOF
    ensures RealChars(['\'' as int] + words) == []
  {
    hide Real, RealChars, EndsLine;
    CommentBegins(words);
    assert words + [] == words;
    CommentEnds(words, []);
    NothingReal();
    SameReal(['\'' as int] + words, []);
  }

  lemma NothingReal()
    ensures Real([], true) == Real([], false) == []
    ensures RealChars([]) == []
  {}

  lemma CommentBegins(rest: seq<Byte>)
    ensures Real(['\'' as int] + rest, false) == Real(rest, true)
  {
    assert (['\'' as int] + rest)[1..] == rest;
  }

  lemma LineEnds(end: Byte, rest: seq<Byte>)
    requires end in ['\n' as int, '\r' as int]
    ensures Real([end] + rest, true) == Real(rest, false)
  {
    assert ([end] + rest)[1..] == rest;
  }

  lemma SameReal(a: seq<Byte>, b: seq<Byte>)
    requires Real(a, false) == Real(b, false)
    ensures RealChars(a) == RealChars(b)
  {
    hide Real;
  }

  /** `jam_get_real_char` */
  method GetRealChar(input: Reader<Byte>) returns (ch: Byte)
    requires input.eof == EOF
    modifies input
    ensures ch == Head(RealChars(old(input.Rest())), EOF)
    ensures ch != EOF ==> RealChars(input.Rest()) == Tail(RealChars(old(input.Rest())))
  {
    ghost var before := input.Rest();
    var comment, found := false, false;
    ghost var from := before;
    ch := NUL;
    var running := true;
    while running && !found
      invariant running && !found ==> Real(before, false) == Real(input.Rest(), comment)
      invariant !(running && !found) ==> var a := Real(before, false); ch == Head(a, EOF) && input.Rest() == Tail(a)
      decreases running && !found, |input.Rest()|
    {
      from := input.Rest();
      ch := input.Getc();
      if !comment && ch == COMMENT {
        comment := true;
      }
      if !comment {
        if !IsSpace(ch) {
          found := true;
        }
      }
      if ch == EOF {
        running := false;
      }
      if comment && EndsLine(ch) {
        comment := false;
      }
    }
  }

  // ----- the statement buffer -----

  function NoSpaces(text: seq<Byte>): (r: seq<Byte>)
    ensures |r| <= |text|
  {
    if text == [] then []
    else if IsSpace(text[0]) then NoSpaces(text[1..])
    else [text[0]] + NoSpaces(text[1..])
  }

  lemma {:induction false} NoSpacesSnoc(text: seq<Byte>, ch: Byte)
    ensures NoSpaces(text + [ch]) == if IsSpace(ch) then NoSpaces(text) else NoSpaces(text) + [ch]
  {
    if text == [] {
      assert [ch][1..] == [];
    } else {
      assert (text + [ch])[1..] == text[1..] + [ch];
      NoSpacesSnoc(text[1..], ch);
    }
  }

  /** "remove all white space": the string is shifted down within its buffer. */
  method StripSpaces(buffer: array<Byte>)
    requires NUL in buffer[..]
    modifies buffer
    ensures var text := NoSpaces(old(CString(buffer[..])));
            |text| < buffer.Length && buffer[..|text|] == text && buffer[|text|] == NUL
  {
    hide CString;
    ghost var text := CString(buffer[..]);
    TextEnds(buffer[..]);
    var index, index2 := 0, 0;
    while buffer[index] != NUL
      invariant index2 <= index <= |text| < buffer.Length
      invariant forall k :: index <= k < buffer.Length ==> buffer[k] == old(buffer[k])
      invariant buffer[..index2] == NoSpaces(text[..index])
      decreases |text| - index
    {
      assert text[..index + 1] == text[..index] + [buffer[index]];
      NoSpacesSnoc(text[..index], buffer[index]);
      if !IsSpace(buffer[index]) {
        buffer[index2] := buffer[index];
        index2 := index2 + 1;
      }
      index := index + 1;
    }
    assert text[..index] == text;
    buffer[index2] := NUL;
  }

  /** Text without white space, comments and ends of its own reaches either decoder unchanged. */
  predicate Plain(text: seq<Byte>) {
    forall i :: 0 <= i < |text| ==> !IsSpace(text[i]) && text[i] != EOF && text[i] != COMMENT && text[i] != NUL
  }

  lemma {:induction false} PlainUnchanged(text: seq<Byte>, more: seq<Byte>)
    requires Plain(text)
    ensures NoSpaces(text) == text && RealChars(text + more) == text + RealChars(more)
    decreases |text|
  {
    if text == [] {
      assert text + more == more && NoSpaces(text) == text;
    } else {
      var ch, rest := text[0], text[1..];
      PlainUnchanged(rest, more);
      PlainStart(ch, rest + more);
      PlainStart(ch, rest);
      hide NoSpaces, RealChars;
      assert text + more == [ch] + (rest + more) && text == [ch] + rest;
    }
  }

  lemma PlainStart(ch: Byte, rest: seq<Byte>)
    requires !IsSpace(ch) && ch != EOF && ch != COMMENT
    ensures NoSpaces([ch] + rest) == [ch] + NoSpaces(rest)
    ensures RealChars([ch] + rest) == [ch] + RealChars(rest)
  {
    assert ([ch] + rest)[1..] == rest;
    assert Real([ch] + rest, false) == [ch] + rest;
  }

  // ----- six bits to a character -----

  /** `jam_6bit_char` */
  function SixBit(ch: Byte): (v: int)
    ensures -1 <= v < 64
  {
    if 48 <= ch <= 57 then ch - 48
    else if 65 <= ch <= 90 then ch + 10 - 65
    else if 97 <= ch <= 122 then ch + 36 - 97
    else if ch == 95 then 62
    else if ch == 64 then 63
    else -1
  }

  /** The sixty-four characters, in order; there are no others. */
  lemma SixBitLetters(ch: Byte)
    ensures '0' as int <= ch <= '9' as int ==> SixBit(ch) == ch - '0' as int
    ensures 'A' as int <= ch <= 'Z' as int ==> SixBit(ch) == 10 + ch - 'A' as int
    ensures 'a' as int <= ch <= 'z' as int ==> SixBit(ch) == 36 + ch - 'a' as int
    ensures SixBit('_' as int) == 62 && SixBit('@' as int) == 63
    ensures SixBit(ch) == -1 <==>
              !('0' as int <= ch <= '9' as int || 'A' as int <= ch <= 'Z' as int || 'a' as int <= ch <= 'z' as int
                || ch == '_' as int || ch == '@' as int)
  {}

  predicate IsSix(ch: Byte) { SixBit(ch) != -1 }

  predicate AllSix(text: seq<Byte>) {
    forall i :: 0 <= i < |text| ==> IsSix(text[i])
  }

  function SixBitChar(v: int): (ch: Byte)
    requires 0 <= v < 64
    ensures SixBit(ch) == v && !IsSpace(ch) && ch != EOF && ch != COMMENT && ch != NUL && ch != SEMICOLON
  {
    if v < 10 then 48 + v else if v < 36 then 55 + v else if v < 62 then 61 + v else if v == 62 then 95 else 64
  }

  /** The bits of a text, six from each character, least significant first. */
  function SixBits(text: seq<Byte>): (bits: seq<bool>)
    requires AllSix(text)
    ensures |bits| == 6 * |text|
    ensures forall i {:trigger bits[i]} :: 0 <= i < |bits| ==> bits[i] == Bit(SixBit(text[i / 6]), i % 6)
  {
    seq(6 * |text|, i requires 0 <= i < 6 * |text| => Bit(SixBit(text[i / 6]), i % 6))
  }

  /** Which bit of which character that is. */
  lemma SixBitsAt(text: seq<Byte>, i: nat, b: nat)
    requires AllSix(text) && i < |text| && b < 6
    ensures SixBits(text)[6 * i + b] <==> SixBit(text[i]) / Pow2(b) % 2 == 1
  {
    hide SixBit, Bit, Pow2;
    assert (6 * i + b) / 6 == i && (6 * i + b) % 6 == b;
    BitMeans(SixBit(text[i]), b);
  }

  /** The characters for some bits, the last padded with zeros. */
  function SixBitText(bits: seq<bool>): (text: seq<Byte>)
    ensures |text| == (|bits| + 5) / 6 && AllSix(text)
    ensures forall i :: 0 <= i < |text| ==> !IsSpace(text[i]) && text[i] != EOF && text[i] != COMMENT && text[i] != NUL
  {
    seq((|bits| + 5) / 6, i requires 0 <= i < (|bits| + 5) / 6 => SixBitChar(SixBitValue(bits, i)))
  }

  function SixBitValue(bits: seq<bool>, i: nat): (v: int)
    requires 6 * i <= |bits|
    ensures 0 <= v < 64
  {
    var chunk := if 6 * i + 6 <= |bits| then bits[6 * i..6 * i + 6] else bits[6 * i..];
    ValueBound(chunk);
    Pow2Monotone(|chunk|, 6);
    assert Pow2(6) == 64 by { SixtyFour(); }
    Value(chunk)
  }

  lemma SixtyFour()
    ensures Pow2(6) == 64
  {
    assert Pow2(3) == 8;
    Pow2Sum(3, 3);
  }

  /** Packing and unpacking: the bits come back, followed by the padding. */
  lemma SixBitsOfText(bits: seq<bool>, k: nat)
    requires k < 6 * ((|bits| + 5) / 6)
    ensures SixBits(SixBitText(bits))[k] == (k < |bits| && bits[k])
  {
    var i := k / 6;
    var chunk := if 6 * i + 6 <= |bits| then bits[6 * i..6 * i + 6] else bits[6 * i..];
    assert SixBit(SixBitText(bits)[i]) == SixBitValue(bits, i) == Value(chunk);
    BitOfValue(chunk, k % 6);
  }
}

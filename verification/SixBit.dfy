/** ACA data as text: six bits to a character, unpacked in place in the statement buffer or
    read from the program stream into a workspace, then uncompressed. */
module SixBit {
  import opened Bits
  import opened CStrings
  import opened JamStub
  import opened JamText
  import Aca

  /** The text before the first semicolon. */
  function Statement(text: seq<Byte>): (line: seq<Byte>)
    ensures |line| <= |text| && line == text[..|line|] && SEMICOLON !in line
    ensures |line| < |text| ==> text[|line|] == SEMICOLON
  {
    if text == [] || text[0] == SEMICOLON then [] else [text[0]] + Statement(text[1..])
  }

  // ----- in place -----

  /** A buffer whose first `n` characters have been unpacked: their bits, then zeros to the end of
      the last character, then the characters still to be read. */
  ghost predicate Unpacked(buffer: seq<Byte>, text: seq<Byte>, n: nat) {
    && n <= |text| <= |buffer| && AllSix(text[..n])
    && (forall j {:trigger Bits8(buffer)[j]} :: 0 <= j < 6 * n ==> Bits8(buffer)[j] == SixBits(text[..n])[j])
    && (forall j {:trigger Bits8(buffer)[j]} :: 6 * n <= j < 8 * n ==> !Bits8(buffer)[j])
    && forall k :: n <= k < |text| ==> buffer[k] == text[k]
  }

  /** The bits of one character, written over its own byte and the ones before it. */
  method PutSixBits(buffer: array<Byte>, index: nat, value: nat)
    requires index < buffer.Length && value < 64
    modifies buffer
    ensures forall k :: index < k < buffer.Length ==> buffer[k] == old(buffer[k])
    ensures forall j {:trigger Bits8(buffer[..])[j]} :: 0 <= j < 8 * buffer.Length ==>
              Bits8(buffer[..])[j] == if 6 * index <= j < 6 * index + 6 then Bit(value, j - 6 * index)
                                      else old(Bits8(buffer[..]))[j] && j / 8 != index
  {
    hide Bits8, Bit;
    ghost var before := Bits8(buffer[..]);
    buffer[index] := 0;
    ghost var cleared := Bits8(buffer[..]);
    assert forall j {:trigger cleared[j]} :: 0 <= j < |cleared| ==> cleared[j] == (before[j] && j / 8 != index) by {
      forall j | 0 <= j < |cleared|
        ensures cleared[j] == (before[j] && j / 8 != index)
      {
        BitBeyond(0, 0, j % 8);
      }
    }
    for bit := 0 to 6
      invariant forall k :: index < k < buffer.Length ==> buffer[k] == old(buffer[k])
      invariant forall j {:trigger Bits8(buffer[..])[j]} :: 0 <= j < 8 * buffer.Length ==>
                  Bits8(buffer[..])[j] ==
                  if 6 * index <= j < 6 * index + bit then Bit(value, j - 6 * index) else cleared[j]
    {
      PutBit8(buffer, 6 * index + bit, Bit(value, bit));
    }
  }

  lemma NothingUnpacked(buffer: seq<Byte>, text: seq<Byte>)
    requires |text| <= |buffer| && buffer[..|text|] == text
    ensures Unpacked(buffer, text, 0)
  {
    forall k | 0 <= k < |text|
      ensures buffer[k] == text[k]
    {
      assert buffer[..|text|][k] == text[k];
    }
  }

  /** A further character unpacked destroys no character still to be read and no bit already written. */
  lemma UnpackedNext(before: seq<Byte>, after: seq<Byte>, text: seq<Byte>, n: nat)
    requires Unpacked(before, text, n) && n < |text| && |after| == |before| && IsSix(text[n])
    requires forall k :: n < k < |before| ==> after[k] == before[k]
    requires forall j {:trigger Bits8(after)[j]} :: 0 <= j < 8 * |before| ==>
               Bits8(after)[j] == if 6 * n <= j < 6 * n + 6 then Bit(SixBit(text[n]), j - 6 * n)
                                  else Bits8(before)[j] && j / 8 != n
    ensures Unpacked(after, text, n + 1)
  {
    hide Bits8, Bit, SixBit;
    var old6, new6 := SixBits(text[..n]), SixBits(text[..n + 1]);
    forall j | 0 <= j < 6 * n + 6
      ensures Bits8(after)[j] == new6[j]
    {
      if j < 6 * n {
        assert Bits8(before)[j] == old6[j] && text[..n + 1][j / 6] == text[..n][j / 6];
      } else {
        assert j / 6 == n && j % 6 == j - 6 * n;
      }
    }
    forall j | 6 * n + 6 <= j < 8 * n + 8
      ensures !Bits8(after)[j]
    {
      if j < 8 * n {
        assert !Bits8(before)[j];
      } else {
        assert j / 8 == n;
      }
    }
  }

  lemma CharIsBefore(buffer: seq<Byte>, text: seq<Byte>, n: nat)
    requires Unpacked(buffer, text, n)
    ensures n < |text| ==> buffer[n] == text[n]
    ensures 6 * n <= 8 * |buffer|
  {}

  /** The unpacking loop of `jam_extract_bool_compressed`, on a stripped buffer. */
  method UnpackStatement(buffer: array<Byte>, ghost text: seq<Byte>) returns (ok: bool, address: nat)
    requires |text| < buffer.Length && buffer[..|text|] == text && buffer[|text|] == NUL && NUL !in text
    modifies buffer
    ensures ok == (AllSix(Statement(text)) && |Statement(text)| < |text|)
    ensures ok ==> address == 6 * |Statement(text)| && Unpacked(buffer[..], text, |Statement(text)|)
  {
    hide Unpacked, Bits8, Statement;
    ghost var line := Statement(text);
    NothingUnpacked(buffer[..], text);
    var index := 0;
    ok, address := true, 0;
    while ok && buffer[index] != NUL && buffer[index] != SEMICOLON
      invariant index <= |line| && buffer[|text|] == NUL
      invariant !ok ==> !AllSix(line)
      invariant ok ==> address == 6 * index && Unpacked(buffer[..], text, index)
      decreases ok, |text| - index
    {
      CharIsBefore(buffer[..], text, index);
      assert index < |text| ==> buffer[index] == text[index];
      LineGoesOn(text, index);
      ghost var before := buffer[..];
      var value := SixBit(buffer[index]);
      if value == -1 {
        buffer[index] := 0;
        ok := false;
      } else {
        PutSixBits(buffer, index, value);
        UnpackedNext(before, buffer[..], text, index);
        address := address + 6;
        index := index + 1;
      }
    }
    if ok {
      CharIsBefore(buffer[..], text, index);
      LineEnds(text, index, buffer[index]);
      UnpackedSix(buffer[..], text, index);
      if buffer[index] != SEMICOLON {
        ok := false;
      }
    }
  }

  lemma UnpackedSix(buffer: seq<Byte>, text: seq<Byte>, n: nat)
    requires Unpacked(buffer, text, n)
    ensures AllSix(text[..n])
  {}

  lemma LineGoesOn(text: seq<Byte>, index: nat)
    requires index <= |Statement(text)|
    ensures index < |text| && text[index] != SEMICOLON ==>
              index < |Statement(text)| && Statement(text)[index] == text[index]
  {}

  lemma LineEnds(text: seq<Byte>, index: nat, ch: Byte)
    requires index <= |Statement(text)| && NUL !in text
    requires ch == NUL || ch == SEMICOLON
    requires if index < |text| then ch == text[index] else ch == NUL
    ensures index == |Statement(text)| && (ch == SEMICOLON <==> index < |text|)
    ensures text[..index] == Statement(text)
  {
    LineGoesOn(text, index);
    assert index < |text| ==> text[index] in text;
  }

  /** The unpacking loop of `jam_convert_literal_aca`, whose text runs to the end of the string. */
  method UnpackLiteral(buffer: array<Byte>, ghost text: seq<Byte>) returns (ok: bool, address: nat)
    requires |text| < buffer.Length && buffer[..|text|] == text && buffer[|text|] == NUL && NUL !in text
    modifies buffer
    ensures ok == AllSix(text)
    ensures ok ==> address == 6 * |text| && Unpacked(buffer[..], text, |text|)
  {
    hide Unpacked, Bits8;
    NothingUnpacked(buffer[..], text);
    var index := 0;
    address := 0;
    while IsSix(buffer[index])
      invariant index <= |text| && buffer[|text|] == NUL
      invariant address == 6 * index && Unpacked(buffer[..], text, index)
      decreases |text| - index
    {
      CharIsBefore(buffer[..], text, index);
      ghost var before := buffer[..];
      PutSixBits(buffer, index, SixBit(buffer[index]));
      UnpackedNext(before, buffer[..], text, index);
      address := address + 6;
      index := index + 1;
    }
    CharIsBefore(buffer[..], text, index);
    UnpackedSix(buffer[..], text, index);
    ok := buffer[index] == NUL;
    if index < |text| {
      assert text[index] in text;
    } else {
      assert text[..index] == text;
    }
  }

  method StoreSixBits(workspace: array<Byte>, address: nat, value: nat)
    requires address + 6 <= 8 * workspace.Length
    modifies workspace
    ensures Bits8(workspace[..])[..address + 6] == old(Bits8(workspace[..]))[..address] + ToSix(value)
  {
    hide Bits8, Bit;
    ghost var before := Bits8(workspace[..]);
    for bit := 0 to 6
      invariant Bits8(workspace[..])[..address + bit] == before[..address] + ToSix(value)[..bit]
    {
      PutBit8(workspace, address + bit, Bit(value, bit));
      assert ToSix(value)[..bit + 1] == ToSix(value)[..bit] + [Bit(value, bit)];
    }
  }

  /** The six-bit characters that a text begins with. */
  function SixRun(text: seq<Byte>): (run: seq<Byte>)
    ensures |run| <= |text| && run == text[..|run|] && AllSix(run)
    ensures |run| < |text| ==> !IsSix(text[|run|])
  {
    if text == [] || !IsSix(text[0]) then [] else [text[0]] + SixRun(text[1..])
  }

  /** A legal statement is the run before its semicolon. */
  lemma {:induction false} RunIsStatement(text: seq<Byte>)
    ensures AllSix(Statement(text)) ==> SixRun(text) == Statement(text)
    ensures |SixRun(text)| < |text| && text[|SixRun(text)|] == SEMICOLON <==>
              AllSix(Statement(text)) && |Statement(text)| < |text|
  {
    if text != [] && text[0] != SEMICOLON {
      var line := Statement(text);
      assert line[0] == text[0] && line[1..] == Statement(text[1..]);
      RunIsStatement(text[1..]);
      if IsSix(text[0]) {
        assert AllSix(line) <==> AllSix(line[1..]) by { AllSixTail(line); }
      }
    }
  }

  lemma AllSixTail(line: seq<Byte>)
    requires line != [] && IsSix(line[0])
    ensures AllSix(line) <==> AllSix(line[1..])
  {
    forall i | 0 <= i < |line| && AllSix(line[1..])
      ensures IsSix(line[i])
    {
      assert i > 0 ==> line[i] == line[1..][i - 1];
    }
  }

  /** The unpacking loop of `jam_read_bool_compressed`: from the program into a workspace. Nothing
      there tests for the end of the workspace; `overran` is the first write beyond it. */
  method ReadSixBits(input: Reader<Byte>, workspace: array<Byte>) returns (ok: bool, address: nat, overran: bool)
    requires input.eof == EOF && (input as object) != workspace
    modifies input, workspace
    ensures overran == (6 * |SixRun(RealChars(old(input.Rest())))| > 8 * workspace.Length)
    ensures ok ==> !overran
    ensures var text := RealChars(old(input.Rest()));
            var line := Statement(text);
            && (!overran ==> ok == (AllSix(line) && |line| < |text|))
            && (ok ==> address == 6 * |line| <= 8 * workspace.Length
                       && Bits8(workspace[..])[..address] == SixBits(line))
  {
    hide Bits8, Statement, SixRun, RealChars, Reader.Rest, SixBits, Bit, AllSix, Head, Tail, ToSix;
    ghost var text := RealChars(input.Rest());
    ghost var run := SixRun(text);
    ghost var index := 0;
    ok, address, overran := true, 0, false;
    var done := false;
    assert text[..0] == [] && text[0..] == text;
    NoSixBits();
    while ok && !done
      invariant index <= |run| && 6 * index <= 8 * workspace.Length
      invariant overran ==> !ok && 6 * |run| > 8 * workspace.Length
      invariant !ok && !overran ==> index == |run| && !(|run| < |text| && text[|run|] == SEMICOLON)
      invariant ok && !done ==> RealChars(input.Rest()) == text[index..]
      invariant ok && done ==> index == |run| < |text| && text[|run|] == SEMICOLON
      invariant ok ==> address == 6 * index && AllSix(text[..index])
      invariant ok ==> Bits8(workspace[..])[..address] == SixBits(text[..index])
      decreases ok && !done, |text| - index
    {
      RunGoesOn(text, index);
      var ch := GetRealChar(input);
      if ch == SEMICOLON {
        done := true;
      } else {
        var value := SixBit(ch);
        if value == -1 {
          ok := false;
        } else if address + 6 > 8 * workspace.Length {
          ok, overran := false, true;
        } else {
          StoreSixBits(workspace, address, value);
          SixBitsNext(text, index);
          address := address + 6;
          index := index + 1;
        }
      }
    }
    RunIsStatement(text);
    RunTaken(text);
  }

  function ToSix(value: nat): (bits: seq<bool>)
    ensures |bits| == 6 && forall i :: 0 <= i < 6 ==> bits[i] == Bit(value, i)
  {
    seq(6, i requires 0 <= i < 6 => Bit(value, i))
  }

  lemma NoSixBits()
    ensures AllSix([]) && SixBits([]) == []
  {}

  lemma LineTaken(text: seq<Byte>)
    ensures text[..|Statement(text)|] == Statement(text)
  {}

  lemma RunTaken(text: seq<Byte>)
    ensures text[..|SixRun(text)|] == SixRun(text)
  {}

  lemma RunGoesOn(text: seq<Byte>, index: nat)
    requires index <= |SixRun(text)|
    ensures index <= |text|
    ensures var ch, run := Head(text[index..], EOF), SixRun(text);
            && (SixBit(ch) != -1 ==> index < |run| && index < |text| && ch == text[index])
            && (SixBit(ch) == -1 ==> index == |run|)
            && (ch == SEMICOLON <==> index == |run| < |text| && text[|run|] == SEMICOLON)
    ensures index < |text| ==> Tail(text[index..]) == text[index + 1..]
  {
    var run := SixRun(text);
    if index < |run| {
      assert run[index] == text[index] && IsSix(run[index]);
    }
  }

  lemma SixBitsNext(text: seq<Byte>, n: nat)
    requires n < |text| && AllSix(text[..n]) && IsSix(text[n])
    ensures AllSix(text[..n + 1])
    ensures SixBits(text[..n + 1]) == SixBits(text[..n]) + ToSix(SixBit(text[n]))
  {
    hide Bit;
    assert text[..n + 1] == text[..n] + [text[n]];
    var a, b := SixBits(text[..n + 1]), SixBits(text[..n]) + ToSix(SixBit(text[n]));
    forall j | 0 <= j < 6 * n + 6
      ensures a[j] == b[j]
    {
      if j < 6 * n {
        assert text[..n + 1][j / 6] == text[..n][j / 6];
      } else {
        assert j / 6 == n && j % 6 == j - 6 * n;
      }
    }
  }

  // ----- the whole decoders -----

  /** The bytes that hold so many bits. */
  function Octets(bits: nat): (n: nat)
    ensures bits <= 8 * n < bits + 8
  {
    bits / 8 + if bits % 8 != 0 then 1 else 0
  }

  /** The bits between the end of a packed text and the end of its last byte. */
  function PadBits(line: seq<Byte>): (n: nat)
    ensures 6 * |line| + n == 8 * Octets(6 * |line|) && n < 8
  {
    8 * Octets(6 * |line|) - 6 * |line|
  }

  lemma PackedStream(buffer: seq<Byte>, line: seq<Byte>)
    requires AllSix(line) && 6 * |line| <= 8 * |buffer| && Bits8(buffer)[..6 * |line|] == SixBits(line)
    ensures var n := Octets(6 * |line|);
            n <= |buffer| && Bits8(buffer[..n]) == SixBits(line) + Bits8(buffer)[6 * |line|..8 * n]
  {
    var n, bits := Octets(6 * |line|), SixBits(line);
    forall k | 0 <= k < 8 * n
      ensures Bits8(buffer[..n])[k] == (bits + Bits8(buffer)[6 * |line|..8 * n])[k]
    {
      assert Bits8(buffer[..n])[k] == Bits8(buffer)[k];
      assert k < 6 * |line| ==> Bits8(buffer)[..6 * |line|][k] == Bits8(buffer)[k];
    }
  }

  /** What comes of a packed stream: the fault, or whether there is a text as long as the array. */
  ghost predicate Came(stream: seq<bool>, version: int, ok: bool, fault: Aca.Fault, out: seq<Byte>) {
    var r := Aca.Uncompressed(stream, |out|, Aca.Window(version));
    && fault == Aca.FaultOf(r)
    && ok == (r.Text? && r.length == |out|)
    && (ok ==> out == r.text)
  }

  function Zeros(n: nat): seq<bool> { seq(n, _ => false) }

  lemma UnpackedPrefix(buffer: seq<Byte>, text: seq<Byte>, n: nat)
    requires Unpacked(buffer, text, n)
    ensures Bits8(buffer)[..6 * n] == SixBits(text[..n]) && 6 * n <= 8 * |buffer|
    ensures var m := Octets(6 * n); m <= |buffer| && Bits8(buffer)[6 * n..8 * m] == Zeros(8 * m - 6 * n)
  {
    hide Bits8;
    forall j | 0 <= j < 6 * n
      ensures Bits8(buffer)[..6 * n][j] == SixBits(text[..n])[j]
    {
      assert Bits8(buffer)[j] == SixBits(text[..n])[j];
    }
    var m := Octets(6 * n);
    assert m <= n <= |buffer|;
    var pad := Bits8(buffer)[6 * n..8 * m];
    forall j | 0 <= j < |pad|
      ensures pad[j] == Zeros(|pad|)[j]
    {
      assert !Bits8(buffer)[6 * n + j];
    }
  }

  /** `jam_extract_bool_compressed`, up to the rearrangement of bytes into words: what the decoder makes of
      the bits of the statement, zeros behind them. */
  method ExtractCompressed(buffer: array<Byte>, out: array<Byte>, dimension: nat, version: int)
    returns (ok: bool, fault: Aca.Fault)
    requires NUL in buffer[..] && buffer != out && Octets(dimension) <= out.Length
    modifies buffer, out
    ensures var text := NoSpaces(CString(old(buffer[..])));
            var line := Statement(text);
            if AllSix(line) && |line| < |text|
            then Came(SixBits(line) + Zeros(PadBits(line)), version, ok, fault, out[..Octets(dimension)])
            else !ok && fault == Aca.NoFault
  {
    hide Bits8, SixBits, CString, NoSpaces, Statement, Aca.Uncompressed, Unpacked, AllSix;
    ghost var text := NoSpaces(CString(buffer[..]));
    ghost var line := Statement(text);
    StrippedHasNoNul(CString(buffer[..]));
    StripSpaces(buffer);
    var address;
    ok, address := UnpackStatement(buffer, text);
    fault := Aca.NoFault;
    if ok {
      UnpackedPrefix(buffer[..], text, |line|);
      LineTaken(text);
      PackedStream(buffer[..], line);
      var length;
      length, fault := Aca.Uncompress(buffer, Octets(address), out, Octets(dimension), version);
      ok := length == Octets(dimension) && fault.NoFault?;
    }
  }

  lemma {:induction false} StrippedHasNoNul(text: seq<Byte>)
    requires NUL !in text
    ensures NUL !in NoSpaces(text)
  {
    if text != [] {
      assert NUL !in text[1..] && text[0] != NUL;
      StrippedHasNoNul(text[1..]);
    }
  }

  /** The bytes that `jam_read_bool_compressed` asks for to unpack its text into. */
  function WorkspaceSize(dimension: nat): nat {
    Octets(dimension) + Octets(dimension) / 10 + 100
  }

  /** `jam_read_bool_compressed`, likewise, the program having been positioned at the data: it runs
      over its workspace if and only if the text begins with more six-bit characters than that holds.
      Otherwise the bits behind the statement are those that were in the workspace. */
  method ReadCompressed(input: Reader<Byte>, out: array<Byte>, dimension: nat, version: int)
    returns (ok: bool, overran: bool, fault: Aca.Fault)
    requires input.eof == EOF && (input as object) != out && Octets(dimension) <= out.Length
    modifies input, out
    ensures var bytes := Octets(dimension) + Octets(dimension) / 10 + 100;
            overran == (6 * |SixRun(RealChars(old(input.Rest())))| > 8 * bytes)
    ensures var text := RealChars(old(input.Rest()));
            var line := Statement(text);
            if !overran && AllSix(line) && |line| < |text|
            then exists pad :: |pad| == PadBits(line) &&
                               Came(SixBits(line) + pad, version, ok, fault, out[..Octets(dimension)])
            else !ok && fault == Aca.NoFault
  {
    hide Bits8, SixBits, RealChars, Statement, SixRun, Aca.Uncompressed, Reader.Rest, AllSix;
    ghost var line := Statement(RealChars(input.Rest()));
    var workspace := new Byte[WorkspaceSize(dimension)];
    var address;
    ok, address, overran := ReadSixBits(input, workspace);
    fault := Aca.NoFault;
    if ok {
      PackedStream(workspace[..], line);
      ghost var pad := Bits8(workspace[..])[6 * |line|..8 * Octets(6 * |line|)];
      var length;
      length, fault := Aca.Uncompress(workspace, Octets(address), out, Octets(dimension), version);
      ok := length == Octets(dimension) && fault.NoFault?;
      assert Came(SixBits(line) + pad, version, ok, fault, out[..Octets(dimension)]);
    }
  }

  /** The text of an ACA initialiser. */
  ghost function AcaText(ts: seq<Aca.Token>, total: nat, version: int): (text: seq<Byte>)
    requires Aca.LegalAll([], ts, total, Aca.Window(version))
  {
    SixBitText(Aca.Encode(ts, total, Aca.Window(version))) + [SEMICOLON]
  }

  /** The text of any tokens is such as both decoders take: it survives white space and comments
      being removed, and its bits begin with the encoding. */
  lemma AcaTextCarries(ts: seq<Aca.Token>, total: nat, version: int, program: seq<Byte>)
    requires Aca.LegalAll([], ts, total, Aca.Window(version))
    ensures var text := AcaText(ts, total, version);
            var line := Statement(text);
            && NoSpaces(text) == text && RealChars(text + program) == text + RealChars(program)
            && Statement(text + RealChars(program)) == line && AllSix(line)
            && Aca.Encode(ts, total, Aca.Window(version)) <= SixBits(line)
            && |line| == |text| - 1 == (|Aca.Encode(ts, total, Aca.Window(version))| + 5) / 6
  {
    hide Aca.Encode, Aca.LegalAll, SixBits, SixBitText, NoSpaces, RealChars, Statement;
    var code := Aca.Encode(ts, total, Aca.Window(version));
    var line := SixBitText(code);
    var text := AcaText(ts, total, version);
    NotSemicolon(code);
    assert Plain(text);
    PlainUnchanged(text, program);
    StatementIs(line, []);
    StatementIs(line, RealChars(program));
    assert text == line + ([SEMICOLON] + []);
    assert text + RealChars(program) == line + ([SEMICOLON] + RealChars(program));
    forall k | 0 <= k < |code|
      ensures SixBits(line)[k] == code[k]
    {
      SixBitsOfText(code, k);
    }
  }

  lemma NotSemicolon(bits: seq<bool>)
    ensures SEMICOLON !in SixBitText(bits)
  {
    forall k | 0 <= k < |SixBitText(bits)|
      ensures SixBitText(bits)[k] != SEMICOLON
    {
      assert IsSix(SixBitText(bits)[k]) && !IsSix(SEMICOLON);
    }
  }

  lemma {:induction false} StatementIs(line: seq<Byte>, more: seq<Byte>)
    requires SEMICOLON !in line
    ensures Statement(line + ([SEMICOLON] + more)) == line
  {
    var text := line + ([SEMICOLON] + more);
    if line != [] {
      assert text[1..] == line[1..] + ([SEMICOLON] + more);
      StatementIs(line[1..], more);
    }
  }

  // ----- which initialisers fit the workspace -----

  /** The initialiser of some tokens fits the workspace for an array. */
  ghost predicate Fits(ts: seq<Aca.Token>, total: nat, version: int, dimension: nat)
    requires Aca.LegalAll([], ts, total, Aca.Window(version))
  {
    6 * |Statement(AcaText(ts, total, version))| <= 8 * WorkspaceSize(dimension)
  }

  /** It does if and only if the bits of length and tokens, rounded up to a multiple of six, do. */
  lemma FitsExactly(ts: seq<Aca.Token>, total: nat, version: int, dimension: nat)
    requires Aca.LegalAll([], ts, total, Aca.Window(version))
    ensures Fits(ts, total, version, dimension) <==>
              (32 + Aca.Size(0, ts, total, Aca.Window(version)) + 5) / 6 * 6 <= 8 * WorkspaceSize(dimension)
  {
    hide Aca.LegalAll, Aca.Size, Aca.EncodeAll, Statement, NoSpaces, RealChars, AcaText, WorkspaceSize;
    AcaTextCarries(ts, total, version, []);
    Aca.EncodedSize([], ts, total, Aca.Window(version));
  }

  /** Tokens without matches always fit. */
  lemma LiteralsFit(text: seq<Byte>, version: int, dimension: nat)
    requires |text| == Octets(dimension)
    ensures Aca.TokensOf(Aca.Literals(text, 0), text, version)
    ensures Fits(Aca.Literals(text, 0), |text|, version, dimension)
  {
    hide Aca.LegalAll, Aca.ExpandAll, Aca.Literals, Aca.Size, Fits, Octets;
    var window := Aca.Window(version);
    assert text[..0] == [];
    Aca.LiteralsExpand(text, 0, window);
    Aca.LiteralsSize(text, 0, window);
    FitsExactly(Aca.Literals(text, 0), |text|, version, dimension);
  }

  /** Every legal initialiser of a text fits if and only if the text is empty. */
  lemma EveryInitialiserFits(text: seq<Byte>, version: int, dimension: nat)
    requires |text| == Octets(dimension)
    ensures (forall ts :: Aca.TokensOf(ts, text, version) ==> Fits(ts, |text|, version, dimension)) <==> text == []
  {
    hide Aca.LegalAll, Aca.ExpandAll, Aca.Literals, Aca.Size, Fits, Octets;
    if text == [] {
      forall ts | Aca.TokensOf(ts, text, version)
        ensures Fits(ts, |text|, version, dimension)
      {
        EmptyTokens(ts, version);
        FitsExactly(ts, 0, version, dimension);
      }
    } else {
      var ts := Aca.LongTokens(text, version, 8 * WorkspaceSize(dimension));
      FitsExactly(ts, |text|, version, dimension);
    }
  }

  lemma EmptyTokens(ts: seq<Aca.Token>, version: int)
    requires Aca.TokensOf(ts, [], version)
    ensures ts == [] && Aca.Size(0, ts, 0, Aca.Window(version)) == 0
  {}

  /** What either decoder makes of the text of legal tokens, whatever is behind it in the last byte. */
  lemma InitialiserDecodes(ts: seq<Aca.Token>, bytes: seq<Byte>, version: int, pad: seq<bool>)
    requires Aca.TokensOf(ts, bytes, version) && |bytes| < 0x8000_0000
    ensures var line := Statement(AcaText(ts, |bytes|, version));
            AllSix(line) &&
            Aca.Uncompressed(SixBits(line) + pad, |bytes|, Aca.Window(version)) == Aca.Text(|bytes|, bytes)
  {
    hide Aca.LegalAll, Aca.ExpandAll, Aca.Encode, Aca.Uncompressed, Statement, SixBits, AcaText, NoSpaces, RealChars;
    hide AllSix;
    AcaTextCarries(ts, |bytes|, version, []);
    var bits := SixBits(Statement(AcaText(ts, |bytes|, version)));
    assert bits <= bits + pad;
    Aca.CodesComplete(ts, bytes, bits + pad, |bytes|, Aca.Window(version));
  }

  /** Every array of bytes has an initialiser that either decoder turns back into it, the stream
      decoder within its workspace. */
  lemma EveryArrayHasAnInitialiser(bytes: seq<Byte>, version: int, program: seq<Byte>, dimension: nat)
    requires |bytes| == Octets(dimension) < 0x8000_0000
    ensures exists text ::
              && NoSpaces(text) == text && RealChars(text + program) == text + RealChars(program)
              && Restores(text, bytes, version)
              && Statement(text + RealChars(program)) == Statement(text) && |Statement(text)| < |text|
              && 6 * |Statement(text)| <= 8 * WorkspaceSize(dimension)
  {
    hide Aca.LegalAll, Aca.ExpandAll, Aca.Encode, Aca.Uncompressed, Statement, SixBits, AcaText, NoSpaces, RealChars;
    hide AllSix, WorkspaceSize, Octets;
    var ts := Aca.Literals(bytes, 0);
    LiteralsFit(bytes, version, dimension);
    AcaTextCarries(ts, |bytes|, version, program);
    var text := AcaText(ts, |bytes|, version);
    InitialiserDecodes(ts, bytes, version, []);
    forall pad
      ensures Aca.Uncompressed(SixBits(Statement(text)) + pad, |bytes|, Aca.Window(version)) == Aca.Text(|bytes|, bytes)
    {
      InitialiserDecodes(ts, bytes, version, pad);
    }
    assert Restores(text, bytes, version);
  }

  /** The statement of a text decodes to some bytes. */
  ghost predicate Restores(text: seq<Byte>, bytes: seq<Byte>, version: int) {
    var line := Statement(text);
    AllSix(line) &&
    forall pad :: Aca.Uncompressed(SixBits(line) + pad, |bytes|, Aca.Window(version)) == Aca.Text(|bytes|, bytes)
  }
}

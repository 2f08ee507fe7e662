/** The CRC by the words of RFC 1662, and the programs it protects by their statements, comments and
    strings: what the scanner makes of them. */
module CrcProgram {
  import opened Crc

  // ----- the 16-bit FCS of RFC 1662, Appendix C.2 -----

  /** What a bit of a byte adds to its entry in the table. */
  function Entry(c: bv16, bit: bv16, entry: bv16): bv16 { if c & bit != 0 then entry else 0 }

  /** The table: the entries of the bytes with one bit set, added up for the bits of any other. */
  function FcsTab(c: bv16): bv16 {
    Xor(Entry(c, 0x01, 0x1189), Xor(Entry(c, 0x02, 0x2312), Xor(Entry(c, 0x04, 0x4624), Xor(Entry(c, 0x08, 0x8C48),
    Xor(Entry(c, 0x10, 0x1081), Xor(Entry(c, 0x20, 0x2102), Xor(Entry(c, 0x40, 0x4204), Entry(c, 0x80, 0x8408))))))))
  }

  /** `(fcs >> 8) ^ fcstab[(fcs ^ c) & 0xff]` */
  function FcsStep(fcs: bv16, c: bv8): bv16 { Xor(HighByte(fcs), FcsTab(LowByte(Xor(fcs, Wide(c))))) }

  /** From 0xFFFF, a table step a byte. */
  function FcsRegister(text: seq<bv8>): bv16 {
    if text == [] then 0xFFFF else FcsStep(FcsRegister(text[..|text| - 1]), text[|text| - 1])
  }

  /** Complemented, as it is transmitted. */
  function Fcs(text: seq<bv8>): bv16 { FcsRegister(text) ^ 0xFFFF }

  function OneBit(c: bv16, bit: bv16): bv16 { c & bit }

  lemma BitsApart(c: bv16)
    requires c < 0x100
    ensures c == Xor(OneBit(c, 0x01), Xor(OneBit(c, 0x02), Xor(OneBit(c, 0x04), Xor(OneBit(c, 0x08),
                 Xor(OneBit(c, 0x10), Xor(OneBit(c, 0x20), Xor(OneBit(c, 0x40), OneBit(c, 0x80))))))))
  {}

  lemma OneBitIs(c: bv16)
    ensures OneBit(c, 0x01) in [0, 0x01] && OneBit(c, 0x02) in [0, 0x02]
    ensures OneBit(c, 0x04) in [0, 0x04] && OneBit(c, 0x08) in [0, 0x08]
    ensures OneBit(c, 0x10) in [0, 0x10] && OneBit(c, 0x20) in [0, 0x20]
    ensures OneBit(c, 0x40) in [0, 0x40] && OneBit(c, 0x80) in [0, 0x80]
  {}

  lemma ZeroEntry()
    ensures FcsTable(0) == 0
  {
    EightSteps(0);
  }

  lemma EntryIs(c: bv16, bit: bv16, entry: bv16)
    requires OneBit(c, bit) in [0, bit] && bit != 0 && FcsTable(bit) == entry
    ensures FcsTable(OneBit(c, bit)) == Entry(c, bit, entry)
  {
    hide FcsTable;
    ZeroEntry();
  }

  lemma TableSum(a: bv16, b: bv16)
    ensures FcsTable(Xor(a, b)) == Xor(FcsTable(a), FcsTable(b))
  {
    hide Xor;
    StepsLinear(a, b, 8);
  }

  /** The table is what eight turns of the register make of each byte. */
  lemma TabIsTurned(c: bv16)
    requires c < 0x100
    ensures FcsTab(c) == FcsTable(c)
  {
    hide FcsTable, Xor, Entry, OneBit;
    BitsApart(c);
    OneBitIs(c);
    FcsTableEntries();
    EntryIs(c, 0x01, 0x1189);
    EntryIs(c, 0x02, 0x2312);
    EntryIs(c, 0x04, 0x4624);
    EntryIs(c, 0x08, 0x8C48);
    EntryIs(c, 0x10, 0x1081);
    EntryIs(c, 0x20, 0x2102);
    EntryIs(c, 0x40, 0x4204);
    EntryIs(c, 0x80, 0x8408);
    var x7 := OneBit(c, 0x80);
    var x6 := Xor(OneBit(c, 0x40), x7);
    var x5 := Xor(OneBit(c, 0x20), x6);
    var x4 := Xor(OneBit(c, 0x10), x5);
    var x3 := Xor(OneBit(c, 0x08), x4);
    var x2 := Xor(OneBit(c, 0x04), x3);
    var x1 := Xor(OneBit(c, 0x02), x2);
    TableSum(OneBit(c, 0x40), x7);
    TableSum(OneBit(c, 0x20), x6);
    TableSum(OneBit(c, 0x10), x5);
    TableSum(OneBit(c, 0x08), x4);
    TableSum(OneBit(c, 0x04), x3);
    TableSum(OneBit(c, 0x02), x2);
    TableSum(OneBit(c, 0x01), x1);
  }

  lemma LowByteSmall(r: bv16)
    ensures LowByte(r) < 0x100
  {}

  lemma {:induction false} RegisterIsFcs(text: seq<bv8>)
    ensures Register(text) == FcsRegister(text)
  {
    if text == [] {
      EmptyRegister();
    } else {
      hide Update, FcsTable, FcsTab, Xor, HighByte, LowByte, Wide;
      var n := |text| - 1;
      var fcs := FcsRegister(text[..n]);
      RegisterIsFcs(text[..n]);
      UpdateIsFcs16(fcs, text[n]);
      LowByteSmall(Xor(fcs, Wide(text[n])));
      TabIsTurned(LowByte(Xor(fcs, Wide(text[n]))));
    }
  }

  /** The CRC of a text is its whole FCS. */
  lemma CrcIsFcs(text: seq<bv8>)
    ensures CrcValue(text) == Fcs(text)
  {
    hide Register, FcsRegister;
    RegisterIsFcs(text);
    Complemented(FcsRegister(text));
  }

  lemma Complemented(r: bv16)
    ensures !r == r ^ 0xFFFF
  {}

  const NINE_DIGITS: seq<bv8> := [49, 50, 51, 52, 53, 54, 55, 56, 57]

  lemma NineSteps()
    ensures FcsStep(0xFFFF, 49) == 0x2F8D && FcsStep(0x2F8D, 50) == 0x4D53 && FcsStep(0x4D53, 51) == 0x634B
    ensures FcsStep(0x634B, 52) == 0x8B13 && FcsStep(0x8B13, 53) == 0x44BF && FcsStep(0x44BF, 54) == 0x198D
    ensures FcsStep(0x198D, 55) == 0x1AC8 && FcsStep(0x1AC8, 56) == 0xF795 && FcsStep(0xF795, 57) == 0x6F91
  {}

  lemma RegisterNext(text: seq<bv8>, k: nat)
    requires k < |text|
    ensures FcsRegister(text[..k + 1]) == FcsStep(FcsRegister(text[..k]), text[k])
  {
    hide FcsStep;
    assert text[..k + 1][..k] == text[..k];
  }

  /** The check value of this CRC: that of "123456789". */
  lemma CheckValue()
    ensures CrcValue(NINE_DIGITS) == 0x906E
  {
    hide FcsStep, Fcs, Register;
    NineSteps();
    assert NINE_DIGITS[..0] == [] && NINE_DIGITS[..9] == NINE_DIGITS;
    assert FcsRegister([]) == 0xFFFF;
    hide FcsRegister;
    RegisterNext(NINE_DIGITS, 0);
    RegisterNext(NINE_DIGITS, 1);
    RegisterNext(NINE_DIGITS, 2);
    RegisterNext(NINE_DIGITS, 3);
    RegisterNext(NINE_DIGITS, 4);
    RegisterNext(NINE_DIGITS, 5);
    RegisterNext(NINE_DIGITS, 6);
    RegisterNext(NINE_DIGITS, 7);
    RegisterNext(NINE_DIGITS, 8);
    RegisterIsFcs(NINE_DIGITS);
    Complemented(0x6F91);
  }

  // ----- programs by their statements -----

  /** Letters, digits and the underscore. */
  predicate InName(ch: bv8) { 65 <= ch <= 90 || 97 <= ch <= 122 || 48 <= ch <= 57 || ch == 95 }

  /** Neither the end of the program nor a carriage return. */
  predicate Visible(ch: bv8) { ch != 255 && ch != 13 }

  /** Part of a statement: a character that is no quote, apostrophe or semicolon; a quoted string; or a
      comment, from an apostrophe to the end of its line. */
  datatype Piece = Character(ch: bv8) | Quoted(words: seq<bv8>) | Note(words: seq<bv8>) {
    predicate Valid() {
      match this
      case Character(ch) => Visible(ch) && ch != 34 && ch != 39 && ch != 59
      case Quoted(words) => forall k :: 0 <= k < |words| ==> Visible(words[k]) && words[k] != 34
      case Note(words) => forall k :: 0 <= k < |words| ==> Visible(words[k]) && words[k] != 10
    }

    function Text(): seq<bv8> {
      match this
      case Character(ch) => [ch]
      case Quoted(words) => [34] + words + [34]
      case Note(words) => [39] + words + [10]
    }
  }

  /** Part of a program: a character between statements, a comment there, or a statement: its name, what
      follows the name, and a semicolon. */
  datatype Item = Blank(ch: bv8) | Remark(words: seq<bv8>) | Statement(name: seq<bv8>, body: seq<Piece>) {
    predicate Valid() {
      match this
      case Blank(ch) => Visible(ch) && ch != 34 && ch != 39 && !InName(ch)
      case Remark(words) => Note(words).Valid()
      case Statement(name, body) =>
        && name != [] && (forall k :: 0 <= k < |name| ==> InName(name[k]))
        && (forall k :: 0 <= k < |body| ==> body[k].Valid())
        && (body != [] ==> body[0].Character? && !InName(body[0].ch))
    }

    predicate IsCrc() { Statement? && name == [67, 82, 67] }

    function Text(): seq<bv8> {
      match this
      case Blank(ch) => [ch]
      case Remark(words) => Note(words).Text()
      case Statement(name, body) => name + Body(body) + [59]
    }
  }

  function Body(body: seq<Piece>): seq<bv8> {
    if body == [] then [] else body[0].Text() + Body(body[1..])
  }

  function Program(items: seq<Item>): seq<bv8> {
    if items == [] then [] else items[0].Text() + Program(items[1..])
  }

  // ----- the scanner on such a program -----

  const NAMING := Scan(false, false, true, true)
  const BODY := Scan(false, false, true, false)

  lemma {:induction false} ScanConcat(t: seq<bv8>, s: Scan, a: seq<bv8>, b: seq<bv8>)
    ensures ScanAll(s, a + b) == ScanAll(ScanAll(s, a), b)
    ensures Quiet(t, s, a + b) <==> Quiet(t, s, a) && Quiet(t + a, ScanAll(s, a), b)
    decreases |a|
  {
    hide Next, Hit;
    if a == [] {
      assert a + b == b && t + a == t;
    } else {
      assert (a + b)[1..] == a[1..] + b && t + [a[0]] + a[1..] == t + a;
      ScanConcat(t + [a[0]], Next(s, a[0]), a[1..], b);
    }
  }

  lemma ScanOne(t: seq<bv8>, s: Scan, ch: bv8)
    ensures ScanAll(s, [ch]) == Next(s, ch)
    ensures Quiet(t, s, [ch]) <==> !Hit(t, s, ch)
  {
    hide Next, Hit;
    assert [ch][1..] == [];
  }

  /** A state that some characters keep, without a CRC statement among them. */
  ghost predicate Kept(s: Scan, ch: bv8) {
    Next(s, ch) == s && forall t :: !Hit(t, s, ch)
  }

  lemma {:induction false} KeptAll(t: seq<bv8>, s: Scan, text: seq<bv8>)
    requires forall k :: 0 <= k < |text| ==> Kept(s, text[k])
    ensures ScanAll(s, text) == s && Quiet(t, s, text)
    decreases |text|
  {
    hide Next, Hit;
    if text != [] {
      assert Kept(s, text[0]);
      forall k | 0 <= k < |text[1..]|
        ensures Kept(s, text[1..][k])
      {
        assert text[1..][k] == text[k + 1];
      }
      KeptAll(t + [text[0]], s, text[1..]);
    }
  }

  /** What a scanner does within comments, strings and names, and at their ends. */
  lemma CommentKept(s: Scan, ch: bv8)
    requires s.comment && !s.quoted && ch != 10
    ensures Kept(s, ch)
  {}

  lemma QuotedKept(s: Scan, ch: bv8)
    requires s.quoted && !s.comment && ch != 34
    ensures Kept(s, ch)
  {}

  lemma NameKept(ch: bv8)
    requires InName(ch)
    ensures Kept(NAMING, ch)
  {}

  lemma BodyKept(ch: bv8)
    requires ch != 34 && ch != 39 && ch != 59
    ensures Kept(BODY, ch)
  {}

  lemma BlankKept(ch: bv8)
    requires ch != 34 && ch != 39 && !InName(ch)
    ensures Kept(START, ch)
  {}

  /** The characters that open and close. */
  lemma Turns(t: seq<bv8>, s: Scan)
    requires s in [START, BODY]
    ensures Next(s, 39) == s.(comment := true) && !Hit(t, s, 39)
    ensures Next(s.(comment := true), 10) == s && !Hit(t, s.(comment := true), 10)
    ensures Next(s, 34) == s.(quoted := true) && !Hit(t, s, 34)
    ensures Next(s.(quoted := true), 34) == s && !Hit(t, s.(quoted := true), 34)
  {}

  lemma NameTurns(t: seq<bv8>, ch: bv8)
    ensures InName(ch) ==> Next(START, ch) == NAMING && !Hit(t, START, ch)
    ensures !InName(ch) && ch != 34 && ch != 39 ==> Next(NAMING, ch) == if ch == 59 then START else BODY
    ensures Next(BODY, 59) == START && !Hit(t, BODY, 59)
    ensures Next(NAMING, 59) == START && !Hit(t, NAMING, 59)
  {}

  /** A comment. */
  lemma NoteScanned(t: seq<bv8>, s: Scan, words: seq<bv8>)
    requires s in [START, BODY] && Note(words).Valid()
    ensures ScanAll(s, Note(words).Text()) == s && Quiet(t, s, Note(words).Text())
  {
    hide Next, Hit, Kept;
    var c := s.(comment := true);
    assert Note(words).Text() == [39] + (words + [10]);
    ScanConcat(t, s, [39], words + [10]);
    ScanOne(t, s, 39);
    Turns(t, s);
    ScanConcat(t + [39], c, words, [10]);
    forall k | 0 <= k < |words|
      ensures Kept(c, words[k])
    {
      CommentKept(c, words[k]);
    }
    KeptAll(t + [39], c, words);
    ScanOne(t + [39] + words, c, 10);
    Turns(t + [39] + words, s);
  }

  lemma QuotedScanned(t: seq<bv8>, words: seq<bv8>)
    requires Quoted(words).Valid()
    ensures ScanAll(BODY, Quoted(words).Text()) == BODY && Quiet(t, BODY, Quoted(words).Text())
  {
    hide Next, Hit, Kept;
    var q := BODY.(quoted := true);
    assert Quoted(words).Text() == [34] + (words + [34]);
    ScanConcat(t, BODY, [34], words + [34]);
    ScanOne(t, BODY, 34);
    Turns(t, BODY);
    ScanConcat(t + [34], q, words, [34]);
    forall k | 0 <= k < |words|
      ensures Kept(q, words[k])
    {
      QuotedKept(q, words[k]);
    }
    KeptAll(t + [34], q, words);
    ScanOne(t + [34] + words, q, 34);
    Turns(t + [34] + words, BODY);
  }

  lemma PieceScanned(t: seq<bv8>, piece: Piece)
    requires piece.Valid()
    ensures ScanAll(BODY, piece.Text()) == BODY && Quiet(t, BODY, piece.Text())
  {
    hide Next, Hit, Kept;
    match piece
    case Character(ch) =>
      BodyKept(ch);
      KeptAll(t, BODY, [ch]);
    case Quoted(words) => QuotedScanned(t, words);
    case Note(words) => NoteScanned(t, BODY, words);
  }

  lemma {:induction false} BodyScanned(t: seq<bv8>, body: seq<Piece>)
    requires forall k :: 0 <= k < |body| ==> body[k].Valid()
    ensures ScanAll(BODY, Body(body)) == BODY && Quiet(t, BODY, Body(body))
    decreases |body|
  {
    hide Next, Hit, Piece.Valid, Piece.Text;
    if body != [] {
      ScanConcat(t, BODY, body[0].Text(), Body(body[1..]));
      PieceScanned(t, body[0]);
      BodyScanned(t + body[0].Text(), body[1..]);
    }
  }

  /** What stands before a name: nothing, or no character of a name. */
  predicate Apart(t: seq<bv8>) { t == [] || !InName(t[|t| - 1]) }

  /** White space after a name begins a CRC statement just if the name is CRC. */
  lemma OnlyCrcHits(t: seq<bv8>, name: seq<bv8>, ch: bv8)
    requires Apart(t) && name != [] && name != [67, 82, 67]
    requires forall k :: 0 <= k < |name| ==> InName(name[k])
    ensures !Hit(t + name, NAMING, ch)
  {
    hide IsSpace, InName;
    var all := t + name;
    if |all| >= 4 {
      LettersInName(all[|all| - 4]);
      if |name| == 3 {
        assert all[|all| - 3] == name[0] && all[|all| - 2] == name[1] && all[|all| - 1] == name[2];
      } else if |name| > 3 {
        assert all[|all| - 4] == name[|name| - 4];
      } else {
        assert all[|all| - 1 - |name|] == t[|t| - 1];
      }
    }
  }

  lemma LettersInName(ch: bv8)
    ensures InName(67) && InName(82) && (IsSpace(ch) ==> !InName(ch))
  {}

  lemma NameScanned(t: seq<bv8>, name: seq<bv8>)
    requires name != [] && forall k :: 0 <= k < |name| ==> InName(name[k])
    ensures ScanAll(START, name) == NAMING && Quiet(t, START, name)
  {
    hide Next, Hit, Kept, InName;
    assert name == [name[0]] + name[1..];
    ScanConcat(t, START, [name[0]], name[1..]);
    ScanOne(t, START, name[0]);
    NameTurns(t, name[0]);
    forall k | 0 <= k < |name[1..]|
      ensures Kept(NAMING, name[1..][k])
    {
      assert name[1..][k] == name[k + 1];
      NameKept(name[k + 1]);
    }
    KeptAll(t + [name[0]], NAMING, name[1..]);
  }

  /** From the end of a name to the semicolon. */
  lemma RestScanned(t: seq<bv8>, name: seq<bv8>, body: seq<Piece>)
    requires Statement(name, body).Valid() && Apart(t) && name != [67, 82, 67]
    ensures ScanAll(NAMING, Body(body) + [59]) == START && Quiet(t + name, NAMING, Body(body) + [59])
  {
    hide Next, Hit, InName;
    var u := t + name;
    if body == [] {
      assert Body(body) + [59] == [59];
      ScanOne(u, NAMING, 59);
      NameTurns(u, 59);
    } else {
      var ch, rest := body[0].ch, body[1..];
      assert Body(body) + [59] == [ch] + (Body(rest) + [59]);
      ScanConcat(u, NAMING, [ch], Body(rest) + [59]);
      ScanOne(u, NAMING, ch);
      NameTurns(u, ch);
      OnlyCrcHits(t, name, ch);
      EndScanned(u + [ch], rest);
    }
  }

  lemma EndScanned(t: seq<bv8>, body: seq<Piece>)
    requires forall k :: 0 <= k < |body| ==> body[k].Valid()
    ensures ScanAll(BODY, Body(body) + [59]) == START && Quiet(t, BODY, Body(body) + [59])
  {
    hide Next, Hit, Piece.Valid;
    ScanConcat(t, BODY, Body(body), [59]);
    BodyScanned(t, body);
    ScanOne(t + Body(body), BODY, 59);
    NameTurns(t + Body(body), 59);
  }

  lemma ItemScanned(t: seq<bv8>, item: Item)
    requires item.Valid() && Apart(t) && !item.IsCrc()
    ensures ScanAll(START, item.Text()) == START && Quiet(t, START, item.Text())
    ensures Apart(t + item.Text())
  {
    hide Next, Hit, Kept;
    match item
    case Blank(ch) =>
      BlankKept(ch);
      KeptAll(t, START, [ch]);
    case Remark(words) => NoteScanned(t, START, words);
    case Statement(name, body) =>
      assert name + Body(body) + [59] == name + (Body(body) + [59]);
      ScanConcat(t, START, name, Body(body) + [59]);
      NameScanned(t, name);
      RestScanned(t, name, body);
  }

  /** A program without a CRC statement ends outside statements, comments and strings, and nothing in it is
      taken for a CRC statement. */
  lemma {:induction false} ProgramScanned(t: seq<bv8>, items: seq<Item>)
    requires Apart(t) && forall k :: 0 <= k < |items| ==> items[k].Valid() && !items[k].IsCrc()
    ensures ScanAll(START, Program(items)) == START && Quiet(t, START, Program(items))
    decreases |items|
  {
    hide Next, Hit, Item.Valid, Item.Text, Item.IsCrc, Apart;
    if items != [] {
      ScanConcat(t, START, items[0].Text(), Program(items[1..]));
      ItemScanned(t, items[0]);
      ProgramScanned(t + items[0].Text(), items[1..]);
    }
  }

  // ----- what the check says of it -----

  function HexOf(ch: bv8): bv16 {
    if 48 <= ch <= 57 then (ch - 48) as bv16
    else if 65 <= ch <= 70 then (ch - 55) as bv16
    else (ch - 87) as bv16
  }

  /** The number that four hexadecimal digits write. */
  function Hex(d: seq<bv8>): bv16
    requires |d| == 4
  {
    HexOf(d[0]) * 0x1000 + HexOf(d[1]) * 0x100 + HexOf(d[2]) * 0x10 + HexOf(d[3])
  }

  predicate HexChar(ch: bv8) { 48 <= ch <= 57 || 65 <= ch <= 70 || 97 <= ch <= 102 }

  lemma HexValueIs(ch: bv8)
    ensures HexChar(ch) <==> IsHex(ch)
    ensures HexChar(ch) ==> HexValue(ch) == HexOf(ch) < 16
  {}

  lemma HexSum(a: bv16, b: bv16, c: bv16, d: bv16)
    requires a < 16 && b < 16 && c < 16 && d < 16
    ensures (a << 12) | (b << 8) | (c << 4) | d == a * 0x1000 + b * 0x100 + c * 0x10 + d
  {}

  lemma HexIs(d: seq<bv8>)
    requires |d| == 4 && HexChar(d[0]) && HexChar(d[1]) && HexChar(d[2]) && HexChar(d[3])
    ensures FourHex(d) && HexNumber(d[0], d[1], d[2], d[3]) == Hex(d)
  {
    hide HexValue, HexOf, IsHex, HexChar;
    HexValueIs(d[0]);
    HexValueIs(d[1]);
    HexValueIs(d[2]);
    HexValueIs(d[3]);
    HexSum(HexOf(d[0]), HexOf(d[1]), HexOf(d[2]), HexOf(d[3]));
  }

  /** For every program of comments and statements, none of them named CRC, however carriage returns are
      strewn in it: followed by a new line, `CRC`, four hexadecimal digits and a semicolon, it passes the
      check if and only if they are the FCS of the program and the new line; whatever comes after. */
  lemma ProgramPasses(items: seq<Item>, source: seq<bv8>, d: seq<bv8>, more: seq<bv8>)
    requires forall k :: 0 <= k < |items| ==> items[k].Valid() && !items[k].IsCrc()
    requires EOF !in source && Stripped(source) == Program(items)
    requires |d| == 4 && HexChar(d[0]) && HexChar(d[1]) && HexChar(d[2]) && HexChar(d[3])
    ensures var signed := source + [10] + [67, 82, 67, 32] + d + [59] + more;
            var fcs := Fcs(Program(items) + [10]);
            CheckProgram(signed) == if Hex(d) == fcs then Success(fcs, fcs) else CrcError(Hex(d), fcs)
  {
    hide Check, Quiet, ScanAll, CrcValue, Fcs, Program, Stripped, HexChar, Hex, FourHex, HexNumber;
    hide Item.Valid, Item.IsCrc;
    var t := Program(items);
    ProgramScanned([], items);
    CheckThrough([], START, source, [NEWLINE] + CrcStatement(d, more));
    assert [] + t == t;
    HexIs(d);
    AcceptableTrailer(t, START, d, more);
    CrcIsFcs(t + [10]);
    assert source + [10] + [67, 82, 67, 32] + d + [59] + more == source + ([NEWLINE] + CrcStatement(d, more));
  }

  /** For any text at all without a CRC statement in it: stated by its FCS, it passes if and only if it ends
      where a statement can start. */
  lemma SignedWithFcs(text: seq<bv8>)
    requires Unsigned(text)
    ensures Signature(text) == Fcs(Stripped(text) + [10])
    ensures CheckProgram(Stated(text, Fcs(Stripped(text) + [10]))).Success? <==> Acceptable(EndState(text))
  {
    hide Unsigned, EndState, Acceptable, CrcValue, Fcs, CheckProgram, Stated, Stripped;
    CrcIsFcs(Stripped(text) + [10]);
    SignedProgramChecks(text);
  }

  /** Without a CRC statement it does not. */
  lemma UnsignedFails(items: seq<Item>, source: seq<bv8>)
    requires forall k :: 0 <= k < |items| ==> items[k].Valid() && !items[k].IsCrc()
    requires EOF !in source && Stripped(source) == Program(items) && source != []
    ensures CheckProgram(source) == UnexpectedEnd(Fcs(Program(items)))
  {
    hide Quiet, ScanAll, CrcValue, Fcs, Program, Stripped, Item.Valid, Item.IsCrc;
    var t := Program(items);
    ProgramScanned([], items);
    CheckThrough([], START, source, []);
    assert [] + t == t && source + [] == source;
    CrcIsFcs(t);
  }
}

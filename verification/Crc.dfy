/** The CRC of Jam programs: the shift register, and the scanner that finds the CRC statement. */
module Crc {
  import opened JamStub

  // ----- the shift register -----

  const POLYNOMIAL: bv16 := 0x8408
  const INITIAL: bv16 := 0xFFFF

  predicate Odd(r: bv16) { r & 1 == 1 }

  function Half(r: bv16): bv16 { r >> 1 }

  function Xor(a: bv16, b: bv16): bv16 { a ^ b }

  /** One turn of the register, its low bit fed back. */
  function StepBit(r: bv16): bv16 {
    if Odd(r) then Xor(Half(r), POLYNOMIAL) else Half(r)
  }

  function Steps(r: bv16, n: nat): bv16
    decreases n
  {
    if n == 0 then r else Steps(StepBit(r), n - 1)
  }

  function Wide(ch: bv8): bv16 { ch as bv16 }

  function Update(r: bv16, ch: bv8): bv16 { Steps(Xor(r, Wide(ch)), 8) }

  lemma XorCommutes(a: bv16, b: bv16)
    ensures Xor(a, b) == Xor(b, a)
  {}

  lemma XorAssociates(a: bv16, b: bv16, p: bv16)
    ensures Xor(Xor(a, b), p) == Xor(a, Xor(b, p))
  {}

  lemma XorTwice(a: bv16, b: bv16)
    ensures Xor(Xor(a, b), b) == a
  {}

  lemma XorRearranged(a: bv16, b: bv16, p: bv16)
    ensures Xor(a, b) == Xor(b, a)
    ensures Xor(Xor(a, p), b) == Xor(Xor(a, b), p) == Xor(a, Xor(b, p))
    ensures Xor(Xor(a, p), Xor(b, p)) == Xor(a, b)
  {
    hide Xor;
    XorCommutes(a, b);
    XorCommutes(b, p);
    XorAssociates(a, b, p);
    XorAssociates(a, p, b);
    XorAssociates(Xor(a, p), b, p);
    XorTwice(Xor(a, b), p);
  }

  lemma OddXor(a: bv16, b: bv16)
    ensures Odd(Xor(a, b)) == (Odd(a) != Odd(b))
  {
    if Odd(a) == Odd(b) {
      if Odd(a) {} else {}
    } else {
      if Odd(a) {} else {}
    }
  }

  lemma HalfXor(a: bv16, b: bv16)
    ensures Half(Xor(a, b)) == Xor(Half(a), Half(b))
  {}

  lemma StepBitLinear(a: bv16, b: bv16)
    ensures StepBit(Xor(a, b)) == Xor(StepBit(a), StepBit(b))
  {
    hide Odd, Half, Xor;
    OddXor(a, b);
    HalfXor(a, b);
    XorRearranged(Half(a), Half(b), POLYNOMIAL);
    XorRearranged(Half(b), Half(a), POLYNOMIAL);
  }

  lemma {:induction false} StepsLinear(a: bv16, b: bv16, n: nat)
    ensures Steps(Xor(a, b), n) == Xor(Steps(a, n), Steps(b, n))
    decreases n
  {
    hide StepBit, Xor;
    if n > 0 {
      StepBitLinear(a, b);
      StepsLinear(StepBit(a), StepBit(b), n - 1);
    }
  }

  /** The data and the register shift together; only their difference is fed back. */
  lemma FeedbackStep(r: bv16, data: bv16)
    ensures StepBit(Xor(r, data)) ==
            Xor(if Odd(Xor(data, r)) then Xor(Half(r), POLYNOMIAL) else Half(r), Half(data))
  {
    hide Odd, Half, Xor;
    HalfXor(r, data);
    XorRearranged(r, data, 0);
    XorRearranged(Half(r), Half(data), POLYNOMIAL);
  }

  lemma ShiftedOut(ch: bv8)
    ensures Half(Half(Half(Half(Half(Half(Half(Half(Wide(ch))))))))) == 0
  {}

  function Halves(r: bv16, n: nat): bv16
    decreases n
  {
    if n == 0 then r else Half(Halves(r, n - 1))
  }

  lemma EightHalves(ch: bv8)
    ensures Halves(Wide(ch), 8) == 0
  {
    hide Half;
    var w := Wide(ch);
    assert Halves(w, 2) == Half(Half(w));
    assert Halves(w, 4) == Half(Half(Halves(w, 2)));
    assert Halves(w, 6) == Half(Half(Halves(w, 4)));
    assert Halves(w, 8) == Half(Half(Halves(w, 6)));
    ShiftedOut(ch);
  }

  lemma XorZero(r: bv16)
    ensures Xor(r, 0) == r
  {}

  /** `jam_crc_update` */
  method CrcUpdate(register: bv16, ch: bv8) returns (r: bv16)
    ensures r == Update(register, ch)
  {
    hide Odd, Half, Xor, StepBit, Wide;
    r := register;
    var data := Wide(ch);
    for bit := 0 to 8
      invariant Steps(Xor(r, data), 8 - bit) == Update(register, ch)
      invariant data == Halves(Wide(ch), bit)
    {
      FeedbackStep(r, data);
      var feedback := Odd(Xor(data, r));
      r := Half(r);
      if feedback {
        r := Xor(r, POLYNOMIAL);
      }
      data := Half(data);
    }
    EightHalves(ch);
    XorZero(r);
  }

  /** The register after a text. */
  function Register(text: seq<bv8>): bv16 {
    if text == [] then INITIAL else Update(Register(text[..|text| - 1]), text[|text| - 1])
  }

  /** `jam_get_crc_value`: the complement. */
  function CrcValue(text: seq<bv8>): bv16 { !Register(text) }

  // ----- it is the 16-bit FCS of RFC 1662, Appendix C.2 -----

  function HighByte(r: bv16): bv16 { r >> 8 }

  function LowByte(r: bv16): bv16 { r & 0xFF }

  /** The entries of the FCS table, by the loop of Appendix C.1. */
  function FcsTable(index: bv16): bv16 { Steps(index, 8) }

  /** The RFC's entries for single bits; the others are sums of these (`StepsLinear`). */
  lemma FcsTableEntries()
    ensures FcsTable(0x01) == 0x1189 && FcsTable(0x02) == 0x2312 && FcsTable(0x04) == 0x4624 && FcsTable(0x08) == 0x8C48
    ensures FcsTable(0x10) == 0x1081 && FcsTable(0x20) == 0x2102 && FcsTable(0x40) == 0x4204 && FcsTable(0x80) == 0x8408
  {
    EightSteps(0x01);
    EightSteps(0x02);
    EightSteps(0x04);
    EightSteps(0x08);
    EightSteps(0x10);
    EightSteps(0x20);
    EightSteps(0x40);
    EightSteps(0x80);
  }

  lemma EightSteps(r: bv16)
    ensures Steps(r, 8) == StepBit(StepBit(StepBit(StepBit(StepBit(StepBit(StepBit(StepBit(r))))))))
  {
    hide StepBit;
  }

  lemma HighByteShifts(r: bv16)
    ensures Steps(r & 0xFF00, 8) == HighByte(r)
  {
    EightSteps(r & 0xFF00);
  }

  lemma SplitBytes(fcs: bv16, ch: bv8)
    ensures var x := Xor(fcs, Wide(ch)); x == Xor(x & 0xFF00, LowByte(x)) && HighByte(x) == HighByte(fcs)
  {}

  /** One byte costs one look-up: `(fcs >> 8) ^ fcstab[(fcs ^ c) & 0xff]`. */
  lemma UpdateIsFcs16(fcs: bv16, ch: bv8)
    ensures Update(fcs, ch) == Xor(HighByte(fcs), FcsTable(LowByte(Xor(fcs, Wide(ch)))))
  {
    hide Xor, Wide, StepBit, HighByte, LowByte;
    var x := Xor(fcs, Wide(ch));
    SplitBytes(fcs, ch);
    StepsLinear(x & 0xFF00, LowByte(x), 8);
    HighByteShifts(x);
  }

  // ----- every one-byte change shows -----

  lemma StepBitKernel(r: bv16)
    requires r != 0
    ensures StepBit(r) != 0
  {
    if Odd(r) {
      assert (r >> 1) & 0x8000 == 0;
      assert ((r >> 1) ^ 0x8408) & 0x8000 == 0x8000;
    } else {
    }
  }

  lemma {:induction false} StepsKernel(r: bv16, n: nat)
    requires r != 0
    ensures Steps(r, n) != 0
    decreases n
  {
    hide StepBit;
    if n > 0 {
      StepBitKernel(r);
      StepsKernel(StepBit(r), n - 1);
    }
  }

  lemma XorDiffers(a: bv16, b: bv16)
    ensures Xor(a, b) != 0 <==> a != b
  {
    XorTwice(a, b);
    XorZeroLeft(b);
    XorSelf(b);
  }

  lemma XorZeroLeft(b: bv16)
    ensures Xor(0, b) == b
  {}

  lemma XorSelf(b: bv16)
    ensures Xor(b, b) == 0
  {}

  lemma WideInjective(a: bv8, b: bv8)
    ensures Wide(a) == Wide(b) ==> a == b
  {}

  lemma UpdateDiffers(r: bv16, r': bv16, ch: bv8, ch': bv8)
    requires (r == r') != (ch == ch')
    ensures Update(r, ch) != Update(r', ch')
  {
    hide Xor, Wide, StepBit;
    var x, y := Xor(r, Wide(ch)), Xor(r', Wide(ch'));
    WideInjective(ch, ch');
    XorDiffers(x, y);
    assert x != y by {
      XorCancels(r, r', Wide(ch), Wide(ch'));
    }
    StepsLinear(x, y, 8);
    StepsKernel(Xor(x, y), 8);
    XorDiffers(Steps(x, 8), Steps(y, 8));
  }

  lemma XorCancels(a: bv16, a': bv16, b: bv16, b': bv16)
    ensures (a == a') != (b == b') ==> Xor(a, b) != Xor(a', b')
  {
    hide Xor;
    XorTwice(a, b);
    XorTwice(a', b');
    XorCommutes(a, b);
    XorCommutes(a', b');
    XorTwice(b, a);
    XorTwice(b', a');
  }

  /** Texts of one length that differ in exactly one byte have different CRCs. */
  lemma {:induction false} OneByteDiffers(s: seq<bv8>, t: seq<bv8>, k: nat)
    requires |s| == |t| && k < |s| && s[k] != t[k]
    requires forall i :: 0 <= i < |s| && i != k ==> s[i] == t[i]
    ensures Register(s) != Register(t)
  {
    hide Update;
    var n := |s| - 1;
    if k == n {
      assert s[..n] == t[..n];
    } else {
      OneByteDiffers(s[..n], t[..n], k);
    }
    UpdateDiffers(Register(s[..n]), Register(t[..n]), s[n], t[n]);
  }

  // ----- characters -----

  // A byte 0xFF, read as a signed char, is indistinguishable from the end of the program.
  const EOF: bv8 := 0xFF
  const NEWLINE: bv8 := 10
  const RETURN: bv8 := 13
  const SPACE: bv8 := 32
  const QUOTE: bv8 := 34
  const COMMENT: bv8 := 39
  const SEMICOLON: bv8 := 59

  predicate IsSpace(ch: bv8) { 9 <= ch <= 13 || ch == SPACE }

  predicate IsName(ch: bv8) { 65 <= ch <= 90 || 97 <= ch <= 122 || 48 <= ch <= 57 || ch == 95 }

  predicate IsHex(ch: bv8) { 65 <= ch <= 70 || 97 <= ch <= 102 || 48 <= ch <= 57 }

  /** `jam_hexchar` */
  function HexValue(ch: bv8): bv16 {
    Wide(if ch <= 57 then ch - 48 else if ch >= 97 then ch - 87 else ch - 55)
  }

  function HexNumber(d3: bv8, d2: bv8, d1: bv8, d0: bv8): bv16 {
    (HexValue(d3) << 12) | (HexValue(d2) << 8) | (HexValue(d1) << 4) | HexValue(d0)
  }

  // ----- the scanner, as a function of the program text -----

  datatype Scan = Scan(comment: bool, quoted: bool, inStatement: bool, inInstruction: bool) {
    predicate Active() { !comment && !quoted }
  }

  const START := Scan(false, false, false, false)

  /** A comment or a quoted string begins. */
  function Opened(s: Scan, ch: bv8): Scan {
    if s.Active() then s.(comment := ch == COMMENT, quoted := ch == QUOTE) else s
  }

  /** The statement and instruction flags after a character. */
  function Named(o: Scan, ch: bv8): Scan {
    if !o.Active() then o else
    var started := o.inStatement || IsName(ch);
    o.(inStatement := started && ch != SEMICOLON,
       inInstruction := (o.inInstruction || (!o.inStatement && IsName(ch))) && (IsName(ch) || !started))
  }

  function Next(s: Scan, ch: bv8): Scan {
    var n := Named(Opened(s, ch), ch);
    n.(comment := n.comment && ch != NEWLINE, quoted := n.quoted && !(s.quoted && ch == QUOTE))
  }

  /** `t` has been scanned; is `ch` the white space that ends the name of a CRC statement? */
  predicate Hit(t: seq<bv8>, s: Scan, ch: bv8) {
    && Opened(s, ch).Active() && s.inStatement && s.inInstruction
    && |t| >= 4 && IsSpace(t[|t| - 4]) && t[|t| - 3] == 67 && t[|t| - 2] == 82 && t[|t| - 1] == 67
    && IsSpace(ch)
  }

  datatype Outcome =
    | SeekFailed(actual: bv16)
    | UnexpectedEnd(actual: bv16)
    | SyntaxError(actual: bv16)
    | CrcError(expected: bv16, actual: bv16)
    | Success(expected: bv16, actual: bv16)

  function Compared(expected: bv16, actual: bv16): Outcome {
    if expected == actual then Success(expected, actual) else CrcError(expected, actual)
  }

  function CharAt(text: seq<bv8>, k: nat): bv8 { if k < |text| then text[k] else EOF }

  function DropSpaces(text: seq<bv8>): seq<bv8> {
    if text != [] && IsSpace(text[0]) then DropSpaces(text[1..]) else text
  }

  function EndOr(ch: bv8, actual: bv16): Outcome {
    if ch == EOF then UnexpectedEnd(actual) else SyntaxError(actual)
  }

  /** What follows the name CRC: four digits and a semicolon. */
  function ReadStatement(rest: seq<bv8>, actual: bv16): Outcome {
    var a := DropSpaces(rest);
    if !IsHex(CharAt(a, 0)) then EndOr(CharAt(a, 0), actual)
    else if !IsHex(CharAt(a, 1)) || !IsHex(CharAt(a, 2)) || !IsHex(CharAt(a, 3)) then SyntaxError(actual)
    else
      var b := DropSpaces(a[4..]);
      if CharAt(b, 0) == SEMICOLON then Compared(HexNumber(a[0], a[1], a[2], a[3]), actual)
      else EndOr(CharAt(b, 0), actual)
  }

  /** The scan from the state `s` on, `t` being the text so far without its carriage returns. */
  function Check(t: seq<bv8>, s: Scan, rest: seq<bv8>): Outcome
    decreases |rest|
  {
    if CharAt(rest, 0) == EOF then UnexpectedEnd(CrcValue(t))
    else if rest[0] == RETURN then Check(t, s, rest[1..])
    else if Hit(t, s, rest[0]) then ReadStatement(rest[1..], CrcValue(t[..|t| - 3]))
    else Check(t + [rest[0]], Next(s, rest[0]), rest[1..])
  }

  function CheckProgram(program: seq<bv8>): Outcome {
    if program == [] then SeekFailed(CrcValue([])) else Check([], START, program)
  }

  // ----- the scanner, as the loop it is -----

  /** `do { ch = jam_getc(); } while (ch != EOF && jam_isspace(ch));` */
  method GetNonSpace(input: Reader<bv8>) returns (ch: bv8)
    requires input.eof == EOF
    modifies input
    ensures ch == CharAt(DropSpaces(old(input.Rest())), 0)
    ensures input.Rest() == Tail(DropSpaces(old(input.Rest())))
  {
    ghost var from := input.Rest();
    ch := input.Getc();
    while ch != EOF && IsSpace(ch)
      invariant DropSpaces(old(input.Rest())) == DropSpaces(from)
      invariant ch == CharAt(from, 0) && input.Rest() == Tail(from)
      decreases |from|
    {
      from := input.Rest();
      ch := input.Getc();
    }
    SpacesDropped(from);
  }

  /** The rest of a CRC statement. */
  method ReadCrc(input: Reader<bv8>, actual: bv16) returns (outcome: Outcome)
    requires input.eof == EOF
    modifies input
    ensures outcome == ReadStatement(old(input.Rest()), actual)
  {
    hide IsHex, DropSpaces, HexNumber;
    NonSpaces();
    var ch3 := GetNonSpace(input);
    ghost var a := DropSpaces(old(input.Rest()));
    outcome := EndOr(ch3, actual);
    if IsHex(ch3) {
      var ch2 := input.Getc();
      var ch1 := input.Getc();
      var ch0 := input.Getc();
      outcome := SyntaxError(actual);
      if IsHex(ch2) && IsHex(ch1) && IsHex(ch0) {
        var expected := HexNumber(ch3, ch2, ch1, ch0);
        assert input.Rest() == a[4..];
        var ch := GetNonSpace(input);
        outcome := if ch == SEMICOLON then Compared(expected, actual) else EndOr(ch, actual);
      }
    }
  }

  lemma SpacesDropped(text: seq<bv8>)
    requires !IsSpace(CharAt(text, 0))
    ensures DropSpaces(text) == text
  {}

  lemma NonSpaces()
    ensures !IsHex(EOF)
  {}

  method Pushed<T>(queue: array<T>, x: T)
    requires queue.Length == 4
    modifies queue
    ensures queue[..] == [x] + old(queue[..3])
  {
    queue[3] := queue[2];
    queue[2] := queue[1];
    queue[1] := queue[0];
    queue[0] := x;
  }

  /** The delay line: `backup[k]` is the register as it was `k` characters ago. */
  ghost predicate Delayed(t: seq<bv8>, queue: seq<bv8>, backup: seq<bv16>) {
    && |queue| == |backup| == 4
    && forall k :: 0 <= k < 4 ==>
         && queue[k] == (if k < |t| then t[|t| - 1 - k] else 0)
         && backup[k] == (if k < |t| then Register(t[..|t| - k]) else 0)
  }

  lemma DelayedPush(t: seq<bv8>, queue: seq<bv8>, backup: seq<bv16>, ch: bv8)
    requires Delayed(t, queue, backup)
    ensures Delayed(t + [ch], [ch] + queue[..3], [Register(t + [ch])] + backup[..3])
  {
    var t' := t + [ch];
    forall k | 0 <= k < 4 && k < |t'|
      ensures ([Register(t')] + backup[..3])[k] == Register(t'[..|t'| - k])
    {
      if k > 0 {
        assert t'[..|t'| - k] == t[..|t| - (k - 1)];
      } else {
        assert t'[..|t'|] == t';
      }
    }
  }

  method Remember(queue: array<bv8>, backup: array<bv16>, ghost t: seq<bv8>, ch: bv8, register: bv16)
    requires queue.Length == backup.Length == 4
    requires Delayed(t, queue[..], backup[..]) && register == Register(t + [ch])
    modifies queue, backup
    ensures Delayed(t + [ch], queue[..], backup[..])
  {
    hide Register, Delayed;
    DelayedPush(t, queue[..], backup[..], ch);
    Pushed(queue, ch);
    Pushed(backup, register);
    assert old(queue[..][..3]) == old(queue[..3]) && old(backup[..][..3]) == old(backup[..3]);
  }

  /** The scanner's flags. */
  class Flags {
    var comment: bool
    var quoted: bool
    var inStatement: bool
    var inInstruction: bool
    var position: int
    var leftQuote: int

    constructor ()
      ensures View() == START && leftQuote < position
    {
      comment, quoted, inStatement, inInstruction := false, false, false, false;
      position, leftQuote := 0, -1;
    }

    function View(): Scan
      reads this
    {
      Scan(comment, quoted, inStatement, inInstruction)
    }

    /** The left quote is where it was, or here if a quotation has just begun. */
    ghost predicate Placed(before: Scan)
      reads this
    {
      if quoted && !before.quoted then leftQuote == position else leftQuote < position
    }

    method Open(ch: bv8)
      requires leftQuote < position
      modifies this
      ensures View() == Opened(old(View()), ch) && Placed(old(View())) && position == old(position)
    {
      if !comment && !quoted {
        if ch == COMMENT {
          comment := true;
        } else if ch == QUOTE {
          quoted := true;
          leftQuote := position;
        }
      }
    }

    /** Is this the white space after the name CRC?  Then `backup[3]` stops before the name. */
    method Recognise(queue: seq<bv8>, ghost backup: seq<bv16>, ghost t: seq<bv8>, ghost s: Scan, ch: bv8)
      returns (hit: bool)
      requires Delayed(t, queue, backup) && View() == Opened(s, ch)
      ensures hit == Hit(t, s, ch)
      ensures hit ==> |t| >= 4 && backup[3] == Register(t[..|t| - 3])
    {
      hide IsSpace, Register, Opened;
      NotSpace();
      OpenedKeeps(s, ch);
      hit := !comment && !quoted && inStatement && inInstruction && IsSpace(queue[3])
             && queue[2] == 67 && queue[1] == 82 && queue[0] == 67 && IsSpace(ch);
    }

    method Close(ghost s: Scan, ch: bv8)
      requires View() == Opened(s, ch) && ch != RETURN
      requires Placed(s)
      modifies this
      ensures View() == Next(s, ch) && leftQuote <= position == old(position)
    {
      hide IsName;
      ghost var o := Opened(s, ch);
      SemicolonIsNoName();
      if !comment && !quoted && !inStatement && IsName(ch) {
        inStatement, inInstruction := true, true;
      }
      if !comment && !quoted && inStatement && inInstruction && !IsName(ch) {
        inInstruction := false;
      }
      if !comment && !quoted && inStatement && ch == SEMICOLON {
        inStatement := false;
      }
      if comment && (ch == NEWLINE || ch == RETURN) {
        comment := false;
      } else if quoted && ch == QUOTE && position > leftQuote {
        quoted := false;
      }
      assert comment == Next(s, ch).comment;
      assert quoted == Next(s, ch).quoted;
      assert inStatement == Next(s, ch).inStatement;
      assert inInstruction == Next(s, ch).inInstruction;
    }
  }

  lemma OpenedKeeps(s: Scan, ch: bv8)
    ensures Opened(s, ch).inStatement == s.inStatement && Opened(s, ch).inInstruction == s.inInstruction
  {}

  lemma SemicolonIsNoName()
    ensures !IsName(SEMICOLON)
  {}

  lemma CheckTurn(t: seq<bv8>, s: Scan, rest: seq<bv8>)
    ensures var ch := Head(rest, EOF);
            (ch != EOF ==> |Tail(rest)| < |rest|) && (Hit(t, s, ch) ==> |t| >= 4) &&
            Check(t, s, rest) ==
            if ch == EOF then UnexpectedEnd(CrcValue(t))
            else if ch == RETURN then Check(t, s, Tail(rest))
            else if Hit(t, s, ch) then ReadStatement(Tail(rest), CrcValue(t[..|t| - 3]))
            else Check(t + [ch], Next(s, ch), Tail(rest))
  {
    hide Next, ReadStatement, CrcValue;
  }

  /** A character of the text: it enters the register, the flags and the delay line, unless it
      completes a CRC statement; then the rest of the statement is read and nothing else matters. */
  method Turn(input: Reader<bv8>, flags: Flags, queue: array<bv8>, backup: array<bv16>, before: bv16, ch: bv8,
              ghost t: seq<bv8>, ghost s: Scan)
    returns (hit: bool, outcome: Outcome, register: bv16)
    requires input.eof == EOF && queue.Length == backup.Length == 4 && ch != RETURN
    requires before == Register(t) && Delayed(t, queue[..], backup[..])
    requires flags.View() == s && flags.leftQuote < flags.position
    modifies input, flags, queue, backup
    ensures hit == Hit(t, s, ch) && (hit ==> |t| >= 4)
    ensures hit ==> outcome == ReadStatement(old(input.Rest()), CrcValue(t[..|t| - 3]))
    ensures !hit ==> input.Rest() == old(input.Rest()) && register == Register(t + [ch])
    ensures !hit ==> flags.View() == Next(s, ch) && flags.leftQuote <= flags.position
    ensures !hit ==> Delayed(t + [ch], queue[..], backup[..])
  {
    hide Register, Next, Opened, ReadStatement, Update, Delayed, Hit, Reader.Rest, IsName, IsSpace, Flags.View;
    hide Flags.Placed;
    HitLong(t, s, ch);
    RegisterStep(t, ch);
    outcome := UnexpectedEnd(0);
    register := CrcUpdate(before, ch);
    flags.Open(ch);
    hit := flags.Recognise(queue[..], backup[..], t, s, ch);
    if hit {
      outcome := ReadCrc(input, !backup[3]);
    } else {
      flags.Close(s, ch);
      Remember(queue, backup, t, ch, register);
    }
  }

  /** `jam_check_crc` */
  method CheckCrc(program: seq<bv8>) returns (outcome: Outcome)
    ensures outcome == CheckProgram(program)
  {
    hide Register, Next, ReadStatement, Delayed, Hit, Check, Head, Tail, Reader.Rest;
    EmptyRegister();
    var register := INITIAL;
    if program == [] {
      return SeekFailed(!register);
    }
    var reader := new Reader(program, EOF);
    var flags := new Flags();
    var queue := new bv8[4](_ => 0);
    var backup := new bv16[4](_ => 0);
    ghost var t: seq<bv8> := [];
    assert queue[..] == [0, 0, 0, 0] && backup[..] == [0, 0, 0, 0];
    var running := true;
    outcome := UnexpectedEnd(0);
    while running
      invariant queue.Length == backup.Length == 4
      invariant running ==> register == Register(t) && flags.leftQuote < flags.position
      invariant running ==> Delayed(t, queue[..], backup[..])
      invariant CheckProgram(program) == if running then Check(t, flags.View(), reader.Rest()) else outcome
      decreases running, |reader.Rest()|
    {
      CheckTurn(t, flags.View(), reader.Rest());
      var ch := reader.Getc();
      if ch == EOF {
        outcome, running := UnexpectedEnd(!register), false;
      } else if ch != RETURN {
        var hit, found, next := Turn(reader, flags, queue, backup, register, ch, t, flags.View());
        if hit {
          outcome, running := found, false;
        } else {
          register, t := next, t + [ch];
        }
      }
      flags.position := flags.position + 1;
    }
  }

  lemma NotSpace()
    ensures !IsSpace(0)
  {}

  lemma EmptyRegister()
    ensures Register([]) == INITIAL
    ensures Delayed([], [0, 0, 0, 0], [0, 0, 0, 0])
  {}

  lemma RegisterStep(t: seq<bv8>, ch: bv8)
    ensures Register(t + [ch]) == Update(Register(t), ch)
  {
    assert (t + [ch])[..|t|] == t;
  }

  // ----- signing a program -----

  function Stripped(text: seq<bv8>): seq<bv8> {
    if text == [] then []
    else if text[0] == RETURN then Stripped(text[1..])
    else [text[0]] + Stripped(text[1..])
  }

  function ScanAll(s: Scan, text: seq<bv8>): Scan
    decreases |text|
  {
    if text == [] then s else ScanAll(Next(s, text[0]), text[1..])
  }

  /** No CRC statement is recognised within `text`. */
  predicate Quiet(t: seq<bv8>, s: Scan, text: seq<bv8>)
    decreases |text|
  {
    text == [] || (!Hit(t, s, text[0]) && Quiet(t + [text[0]], Next(s, text[0]), text[1..]))
  }

  function HexDigit(v: bv16): bv8
    requires v < 16
  {
    if v < 10 then 48 + v as bv8 else 55 + v as bv8
  }

  lemma NibbleBound(crc: bv16)
    ensures (crc >> 12) & 0xF < 16 && (crc >> 8) & 0xF < 16 && (crc >> 4) & 0xF < 16 && crc & 0xF < 16
  {}

  function Digits(crc: bv16): (d: seq<bv8>)
    ensures |d| == 4
  {
    NibbleBound(crc);
    [HexDigit((crc >> 12) & 0xF), HexDigit((crc >> 8) & 0xF), HexDigit((crc >> 4) & 0xF), HexDigit(crc & 0xF)]
  }

  const NAME: seq<bv8> := [67, 82, 67]

  /** A new line, and the CRC statement. */
  function Trailer(crc: bv16): seq<bv8> {
    [NEWLINE] + NAME + [SPACE] + Digits(crc) + [SEMICOLON]
  }

  lemma HexDigitRead(v: bv16)
    requires v < 16
    ensures var d := HexDigit(v); HexValue(d) == v && IsHex(d) && !IsSpace(d)
    ensures HexDigit(v) !in [EOF, RETURN, QUOTE, COMMENT, SEMICOLON]
  {}

  lemma NibblesJoined(crc: bv16)
    ensures (((crc >> 12) & 0xF) << 12) | (((crc >> 8) & 0xF) << 8) | (((crc >> 4) & 0xF) << 4) | (crc & 0xF) == crc
  {}

  lemma DigitsRead(crc: bv16)
    ensures var d := Digits(crc); HexNumber(d[0], d[1], d[2], d[3]) == crc
    ensures forall k :: 0 <= k < 4 ==> IsHex(Digits(crc)[k]) && !IsSpace(Digits(crc)[k])
    ensures forall k :: 0 <= k < 4 ==> Digits(crc)[k] !in [EOF, RETURN, QUOTE, COMMENT, SEMICOLON]
  {
    hide HexDigit, HexValue, IsHex, IsSpace;
    NibbleBound(crc);
    HexDigitRead((crc >> 12) & 0xF);
    HexDigitRead((crc >> 8) & 0xF);
    HexDigitRead((crc >> 4) & 0xF);
    HexDigitRead(crc & 0xF);
    NibblesJoined(crc);
  }

  lemma CheckOne(t: seq<bv8>, s: Scan, ch: bv8, rest: seq<bv8>)
    requires ch != EOF && ch != RETURN
    ensures Check(t, s, [ch] + rest) ==
            if Hit(t, s, ch) then ReadStatement(rest, CrcValue(t[..|t| - 3])) else Check(t + [ch], Next(s, ch), rest)
  {
    hide Hit, Next, ReadStatement, CrcValue;
    assert ([ch] + rest)[1..] == rest;
    assert Hit(t, s, ch) ==> |t| >= 4 by {
      HitLong(t, s, ch);
    }
  }

  lemma HitLong(t: seq<bv8>, s: Scan, ch: bv8)
    ensures Hit(t, s, ch) ==> |t| >= 4
  {}

  /** The scan goes through a quiet text as if its carriage returns were not there. */
  lemma {:induction false} CheckThrough(t: seq<bv8>, s: Scan, a: seq<bv8>, b: seq<bv8>)
    requires EOF !in a && Quiet(t, s, Stripped(a))
    ensures Check(t, s, a + b) == Check(t + Stripped(a), ScanAll(s, Stripped(a)), b)
    decreases |a|
  {
    hide Hit, Next, ReadStatement, CrcValue;
    if a == [] {
      assert a + b == b && t + Stripped(a) == t;
    } else {
      var ch := a[0];
      assert a + b == [ch] + (a[1..] + b);
      if ch == RETURN {
        assert (a + b)[1..] == a[1..] + b;
        CheckThrough(t, s, a[1..], b);
      } else {
        var rest := Stripped(a[1..]);
        assert Stripped(a) == [ch] + rest && Stripped(a)[1..] == rest;
        CheckOne(t, s, ch, a[1..] + b);
        CheckThrough(t + [ch], Next(s, ch), a[1..], b);
        assert t + [ch] + rest == t + Stripped(a);
      }
    }
  }

  /** The states of the scanner at the end of a text to which a CRC statement can be added. */
  predicate Acceptable(s: Scan) {
    !s.quoted && (!s.inStatement || (s.comment && s.inInstruction))
  }

  /** Four hexadecimal digits, of either case. */
  predicate FourHex(d: seq<bv8>) { |d| == 4 && IsHex(d[0]) && IsHex(d[1]) && IsHex(d[2]) && IsHex(d[3]) }

  lemma HexIsNoSpace(ch: bv8)
    ensures IsHex(ch) ==> !IsSpace(ch)
  {}

  lemma StatementRead(d: seq<bv8>, more: seq<bv8>, actual: bv16)
    requires FourHex(d)
    ensures ReadStatement(d + ([SEMICOLON] + more), actual) == Compared(HexNumber(d[0], d[1], d[2], d[3]), actual)
  {
    hide HexNumber, IsHex, IsSpace;
    HexIsNoSpace(d[0]);
    var rest := d + ([SEMICOLON] + more);
    assert rest[4..] == [SEMICOLON] + more;
    SemicolonIsNoSpace();
  }

  predicate White(spaces: seq<bv8>) { forall k :: 0 <= k < |spaces| ==> 9 <= spaces[k] <= 13 || spaces[k] == 32 }

  lemma {:induction false} WhitePassed(spaces: seq<bv8>, more: seq<bv8>)
    requires White(spaces) && (more == [] || !IsSpace(more[0]))
    ensures DropSpaces(spaces + more) == more
  {
    if spaces == [] {
      assert spaces + more == more;
    } else {
      assert (spaces + more)[1..] == spaces[1..] + more;
      WhitePassed(spaces[1..], more);
    }
  }

  /** What the reader makes of anything behind the name CRC: white space, up to four digits, and the rest. With
      fewer than four it is a syntax error, but for the end of the program where the first is due. */
  lemma TooFewDigits(spaces: seq<bv8>, d: seq<bv8>, rest: seq<bv8>, actual: bv16)
    requires White(spaces) && |d| < 4 && (forall k :: 0 <= k < |d| ==> IsHex(d[k]))
    requires rest != [] ==> !IsHex(rest[0]) && (d == [] ==> !IsSpace(rest[0]))
    ensures ReadStatement(spaces + (d + rest), actual) ==
            if d == [] && (rest == [] || rest[0] == 255) then UnexpectedEnd(actual) else SyntaxError(actual)
  {
    hide IsHex, IsSpace;
    if d != [] {
      HexIsNoSpace(d[0]);
    }
    WhitePassed(spaces, d + rest);
    EndIsNoDigit();
    assert !IsHex(CharAt(d + rest, |d|));
  }

  lemma EndIsNoDigit()
    ensures !IsHex(EOF) && !IsSpace(EOF)
  {}

  /** After four, more white space, and a semicolon or an error. */
  lemma FourDigits(spaces: seq<bv8>, d: seq<bv8>, more: seq<bv8>, rest: seq<bv8>, actual: bv16)
    requires White(spaces) && White(more) && FourHex(d) && (rest != [] ==> !IsSpace(rest[0]))
    ensures ReadStatement(spaces + (d + (more + rest)), actual) ==
            if rest == [] || rest[0] == 255 then UnexpectedEnd(actual)
            else if rest[0] == 59 then Compared(HexNumber(d[0], d[1], d[2], d[3]), actual)
            else SyntaxError(actual)
  {
    hide IsHex, IsSpace, HexNumber;
    HexIsNoSpace(d[0]);
    WhitePassed(spaces, d + (more + rest));
    WhitePassed(more, rest);
    assert (d + (more + rest))[4..] == more + rest;
  }

  lemma SemicolonIsNoSpace()
    ensures !IsSpace(SEMICOLON) && !IsSpace(67) && !IsHex(82)
  {}

  lemma NameStates(s: Scan)
    requires Acceptable(s)
    ensures var s3 := Next(Next(Next(Next(s, NEWLINE), 67), 82), 67);
            s3.Active() && s3.inStatement && s3.inInstruction
    ensures Next(s, NEWLINE).Active()
    ensures Next(Next(s, NEWLINE), 67).Active()
    ensures Next(Next(Next(s, NEWLINE), 67), 82).Active()
  {}

  lemma Quieted(t: seq<bv8>, s: Scan, ch: bv8)
    requires !IsSpace(ch) || !s.inStatement
    ensures !Hit(t, s, ch)
  {}

  lemma LettersAreNoSpaces()
    ensures !IsSpace(67) && !IsSpace(82) && IsSpace(NEWLINE) && IsSpace(SPACE)
  {}

  lemma QuietNewline(t: seq<bv8>, s: Scan)
    requires Acceptable(s)
    ensures !Hit(t, s, NEWLINE)
  {}

  /** What follows the text of a program and a new line: the name, a space, digits, a semicolon, and more. */
  function CrcStatement(d: seq<bv8>, more: seq<bv8>): seq<bv8> { NAME + [SPACE] + d + [SEMICOLON] + more }

  lemma AcceptableTrailer(t: seq<bv8>, s: Scan, d: seq<bv8>, more: seq<bv8>)
    requires Acceptable(s) && FourHex(d)
    ensures Check(t, s, [NEWLINE] + CrcStatement(d, more)) ==
            Compared(HexNumber(d[0], d[1], d[2], d[3]), CrcValue(t + [NEWLINE]))
  {
    hide Next, Hit, Check, ReadStatement, CrcValue, IsSpace, FourHex, HexNumber, Acceptable;
    var s0 := Next(s, NEWLINE);
    var s1 := Next(s0, 67);
    var s2 := Next(s1, 82);
    var s3 := Next(s2, 67);
    var end := d + ([SEMICOLON] + more);
    var t0 := t + [NEWLINE];
    var t3 := t0 + [67] + [82] + [67];
    assert [NEWLINE] + CrcStatement(d, more) == [NEWLINE] + ([67] + ([82] + ([67] + ([SPACE] + end))));
    LettersAreNoSpaces();
    QuietNewline(t, s);
    CheckOne(t, s, NEWLINE, [67] + ([82] + ([67] + ([SPACE] + end))));
    Quieted(t0, s0, 67);
    CheckOne(t0, s0, 67, [82] + ([67] + ([SPACE] + end)));
    Quieted(t0 + [67], s1, 82);
    CheckOne(t0 + [67], s1, 82, [67] + ([SPACE] + end));
    Quieted(t0 + [67] + [82], s2, 67);
    CheckOne(t0 + [67] + [82], s2, 67, [SPACE] + end);
    NameStates(s);
    HitAfterName(t0, s3);
    CheckOne(t3, s3, SPACE, end);
    assert t3[..|t3| - 3] == t0;
    StatementRead(d, more, CrcValue(t0));
  }

  lemma HitAfterName(t0: seq<bv8>, s: Scan)
    requires s.Active() && s.inStatement && s.inInstruction
    requires |t0| >= 1 && t0[|t0| - 1] == NEWLINE
    ensures Hit(t0 + [67] + [82] + [67], s, SPACE)
  {}

  predicate Plain(text: seq<bv8>) {
    forall k :: 0 <= k < |text| ==> text[k] !in [EOF, RETURN, QUOTE, COMMENT, SEMICOLON]
  }

  /** Nothing in a trailer closes a quoted string. */
  lemma {:induction false} QuotedToEnd(t: seq<bv8>, s: Scan, text: seq<bv8>)
    requires s.quoted && EOF !in text && RETURN !in text && QUOTE !in text
    ensures Check(t, s, text).UnexpectedEnd?
    decreases |text|
  {
    hide CrcValue, IsName;
    if text != [] {
      assert text == [text[0]] + text[1..];
      CheckOne(t, s, text[0], text[1..]);
      QuotedToEnd(t + [text[0]], Next(s, text[0]), text[1..]);
    }
  }

  /** The middle of a statement, past its instruction name. */
  predicate Stuck(s: Scan) { s.Active() && s.inStatement && !s.inInstruction }

  lemma StuckNext(t: seq<bv8>, s: Scan, ch: bv8)
    requires Stuck(s) && ch != QUOTE && ch != COMMENT
    ensures !Hit(t, s, ch) && (ch != SEMICOLON ==> Stuck(Next(s, ch)))
  {}

  lemma {:induction false} StuckToEnd(t: seq<bv8>, s: Scan, text: seq<bv8>)
    requires Stuck(s) && Plain(text)
    ensures Check(t, s, text + [SEMICOLON]).UnexpectedEnd?
    decreases |text|
  {
    hide CrcValue, Stuck, Hit, Next;
    if text == [] {
      StuckNext(t, s, SEMICOLON);
      assert text + [SEMICOLON] == [SEMICOLON] + [];
      CheckOne(t, s, SEMICOLON, []);
    } else {
      StuckNext(t, s, text[0]);
      assert text + [SEMICOLON] == [text[0]] + (text[1..] + [SEMICOLON]);
      CheckOne(t, s, text[0], text[1..] + [SEMICOLON]);
      StuckToEnd(t + [text[0]], Next(s, text[0]), text[1..]);
    }
  }

  lemma NewlineSticks(s: Scan)
    requires !Acceptable(s) && !s.quoted
    ensures Stuck(Next(s, NEWLINE))
  {}

  /** `CRC ...` where digits are due: C is one, R is not. */
  lemma NameIsNoNumber(rest: seq<bv8>, actual: bv16)
    requires |rest| >= 2 && rest[0] == 67 && rest[1] == 82
    ensures ReadStatement(rest, actual) == SyntaxError(actual)
  {
    SemicolonIsNoSpace();
  }

  lemma TrailerParts(crc: bv16)
    ensures var rest := NAME + [SPACE] + Digits(crc);
            Trailer(crc) == [NEWLINE] + (rest + [SEMICOLON]) && Plain(rest) && |rest| >= 2 && rest[..2] == [67, 82]
    ensures EOF !in Trailer(crc) && RETURN !in Trailer(crc) && QUOTE !in Trailer(crc)
  {
    hide Digits, HexNumber, IsHex, IsSpace;
    DigitsRead(crc);
    var rest := NAME + [SPACE] + Digits(crc);
    assert Trailer(crc) == [NEWLINE] + (rest + [SEMICOLON]);
    forall k | 0 <= k < |rest|
      ensures rest[k] !in [EOF, RETURN, QUOTE, COMMENT, SEMICOLON]
    {
      if k >= 4 {
        assert rest[k] == Digits(crc)[k - 4];
      }
    }
  }

  lemma UnacceptableTrailer(t: seq<bv8>, s: Scan, crc: bv16)
    requires !Acceptable(s)
    ensures Check(t, s, Trailer(crc)).UnexpectedEnd? || Check(t, s, Trailer(crc)).SyntaxError?
  {
    hide Next, Hit, Check, ReadStatement, CrcValue, Digits, Plain, Stuck, Trailer;
    TrailerParts(crc);
    if s.quoted {
      QuotedToEnd(t, s, Trailer(crc));
    } else {
      var rest := NAME + [SPACE] + Digits(crc);
      CheckOne(t, s, NEWLINE, rest + [SEMICOLON]);
      if Hit(t, s, NEWLINE) {
        assert rest[0] == rest[..2][0] && rest[1] == rest[..2][1];
        HitLong(t, s, NEWLINE);
        NameIsNoNumber(rest + [SEMICOLON], CrcValue(t[..|t| - 3]));
      } else {
        NewlineSticks(s);
        StuckToEnd(t + [NEWLINE], Next(s, NEWLINE), rest);
      }
    }
  }

  /** A text, a new line, and a statement of some CRC. */
  function Stated(text: seq<bv8>, crc: bv16): seq<bv8> { text + Trailer(crc) }

  /** The CRC that covers the text and the new line after it. */
  function Signature(text: seq<bv8>): bv16 { CrcValue(Stripped(text) + [NEWLINE]) }

  /** The scanner's state at the end of a text with no CRC statement in it. */
  predicate Unsigned(text: seq<bv8>) {
    EOF !in text && Quiet([], START, Stripped(text))
  }

  function EndState(text: seq<bv8>): Scan { ScanAll(START, Stripped(text)) }

  /** A stated CRC is compared with the signature exactly when the text ends outside quotes and statements. */
  lemma StatedIsCompared(text: seq<bv8>, crc: bv16)
    requires Unsigned(text)
    ensures if Acceptable(EndState(text)) then CheckProgram(Stated(text, crc)) == Compared(crc, Signature(text))
            else CheckProgram(Stated(text, crc)).UnexpectedEnd? || CheckProgram(Stated(text, crc)).SyntaxError?
  {
    hide Check, ReadStatement, CrcValue, Digits, Acceptable, Quiet, ScanAll;
    var t := Stripped(text);
    CheckThrough([], START, text, Trailer(crc));
    assert [] + t == t;
    if Acceptable(EndState(text)) {
      DigitsRead(crc);
      AcceptableTrailer(t, EndState(text), Digits(crc), []);
      assert Trailer(crc) == [NEWLINE] + CrcStatement(Digits(crc), []);
    } else {
      UnacceptableTrailer(t, EndState(text), crc);
    }
  }

  /** Signing makes the check succeed, if and only if the text ends where a statement can start. */
  lemma SignedProgramChecks(text: seq<bv8>)
    requires Unsigned(text)
    ensures CheckProgram(Stated(text, Signature(text))).Success? <==> Acceptable(EndState(text))
  {
    hide Unsigned, EndState, Acceptable, Signature, CheckProgram, Stated;
    StatedIsCompared(text, Signature(text));
  }

  lemma {:induction false} StrippedConcat(a: seq<bv8>, b: seq<bv8>)
    ensures Stripped(a + b) == Stripped(a) + Stripped(b)
  {
    if a == [] {
      assert a + b == b;
    } else {
      assert (a + b)[1..] == a[1..] + b;
      StrippedConcat(a[1..], b);
    }
  }

  lemma StrippedOne(a: seq<bv8>, ch: bv8, b: seq<bv8>)
    requires ch != RETURN
    ensures Stripped(a + [ch] + b) == Stripped(a) + [ch] + Stripped(b)
  {
    StrippedConcat(a + [ch], b);
    StrippedConcat(a, [ch]);
    assert [ch][1..] == [];
  }

  /** Changing one byte of a signed program, not from or to a carriage return, shows: the check never
      succeeds, whatever state the change leaves the scanner in, and it finds the two values if the
      scanner still finds the statement. */
  lemma OneByteChangeIsCaught(a: seq<bv8>, ch: bv8, ch': bv8, b: seq<bv8>)
    requires ch != ch' && ch != RETURN && ch' != RETURN && Unsigned(a + [ch'] + b)
    ensures var changed := a + [ch'] + b;
            var crc := Signature(a + [ch] + b);
            && !CheckProgram(Stated(changed, crc)).Success?
            && (Acceptable(EndState(changed)) ==>
                  CheckProgram(Stated(changed, crc)) == CrcError(crc, Signature(changed)))
  {
    hide Unsigned, EndState, Acceptable, Register, CheckProgram, Stated;
    var text, changed := a + [ch] + b, a + [ch'] + b;
    StatedIsCompared(changed, Signature(text));
    StrippedOne(a, ch, b);
    StrippedOne(a, ch', b);
    OneByteDiffers(Stripped(text) + [NEWLINE], Stripped(changed) + [NEWLINE], |Stripped(a)|);
    ComplementsDiffer(Register(Stripped(text) + [NEWLINE]), Register(Stripped(changed) + [NEWLINE]));
  }

  lemma ComplementsDiffer(a: bv16, b: bv16)
    requires a != b
    ensures !a != !b
  {}

  // ----- the rule of the comment -----

  /** The text as the comment on `jam_check_crc` has it: carriage returns before new lines are ignored. */
  function Unixed(text: seq<bv8>): seq<bv8> {
    if text == [] then []
    else if text[0] == RETURN && |text| > 1 && text[1] == NEWLINE then Unixed(text[1..])
    else [text[0]] + Unixed(text[1..])
  }

  /** Every carriage return is one of those. */
  predicate Paired(text: seq<bv8>) {
    forall k :: 0 <= k < |text| && text[k] == RETURN ==> k + 1 < |text| && text[k + 1] == NEWLINE
  }

  lemma PairedTail(text: seq<bv8>)
    requires text != []
    ensures Paired(text) <==>
              Paired(text[1..]) && (text[0] == RETURN ==> |text| > 1 && text[1] == NEWLINE)
  {
    if Paired(text[1..]) && (text[0] == RETURN ==> |text| > 1 && text[1] == NEWLINE) {
      forall k | 0 <= k < |text| && text[k] == RETURN
        ensures k + 1 < |text| && text[k + 1] == NEWLINE
      {
        assert k > 0 ==> text[k] == text[1..][k - 1];
      }
    } else if Paired(text) {
      forall k | 0 <= k < |text[1..]| && text[1..][k] == RETURN
        ensures k + 1 < |text[1..]| && text[1..][k + 1] == NEWLINE
      {
        assert text[k + 1] == RETURN;
      }
    }
  }

  lemma {:induction false} NoReturns(text: seq<bv8>)
    ensures RETURN !in Stripped(text)
    ensures RETURN in Unixed(text) <==> !Paired(text)
  {
    hide Paired;
    if text == [] {
      NothingPaired();
    } else {
      NoReturns(text[1..]);
      PairedTail(text);
    }
  }

  lemma NothingPaired()
    ensures Paired([])
  {}

  /** Scanner and comment agree on a text if and only if every carriage return in it stands before a
      new line. */
  lemma {:induction false} RuleHolds(text: seq<bv8>)
    ensures Stripped(text) == Unixed(text) <==> Paired(text)
  {
    hide Paired;
    NoReturns(text);
    if Paired(text) && text != [] {
      PairedTail(text);
      RuleHolds(text[1..]);
    }
  }

  /** What the comment promises to the tools that sign programs: a program signed by its rule is accepted
      if every carriage return stands before a new line. */
  lemma RuleSigns(text: seq<bv8>)
    requires Unsigned(text)
    ensures CheckProgram(Stated(text, CrcValue(Unixed(text + [NEWLINE])))).Success? <==>
              Acceptable(EndState(text)) && CrcValue(Unixed(text + [NEWLINE])) == Signature(text)
    ensures Paired(text + [NEWLINE]) ==> CrcValue(Unixed(text + [NEWLINE])) == Signature(text)
  {
    hide Unsigned, EndState, Acceptable, CrcValue, CheckProgram, Stated, Paired, Unixed;
    StatedIsCompared(text, CrcValue(Unixed(text + [NEWLINE])));
    RuleHolds(text + [NEWLINE]);
    StrippedOne(text, NEWLINE, []);
    assert text + [NEWLINE] + [] == text + [NEWLINE];
    assert Stripped(text) + [NEWLINE] + Stripped([]) == Stripped(text) + [NEWLINE];
  }

  /** It is not accepted otherwise: after two carriage returns the rule still counts one. */
  lemma RuleMayFail()
    ensures var text := [RETURN, RETURN];
            && Unsigned(text) && Acceptable(EndState(text)) && !Paired(text + [NEWLINE])
            && CheckProgram(Stated(text, CrcValue(Unixed(text + [NEWLINE])))).CrcError?
  {
    hide Register, CheckProgram, Stated, Update;
    var text := [RETURN, RETURN];
    assert text[0] == RETURN && text[1..] == [RETURN] && [RETURN][1..] == [];
    assert Stripped([RETURN]) == [];
    assert Stripped(text) == [];
    var covered := text + [NEWLINE];
    assert covered[1..] == [RETURN, NEWLINE] && covered[2..] == [NEWLINE] && [RETURN, NEWLINE][1..] == [NEWLINE];
    assert covered[0] == covered[1] == RETURN && [NEWLINE][1..] == [];
    assert Unixed([NEWLINE]) == [NEWLINE] && Unixed([RETURN, NEWLINE]) == [NEWLINE];
    assert Unixed(covered) == [RETURN, NEWLINE];
    assert [] + [NEWLINE] == [NEWLINE];
    LoneReturn();
    ComplementsDiffer(Register([RETURN, NEWLINE]), Register([NEWLINE]));
    StatedIsCompared(text, CrcValue([RETURN, NEWLINE]));
  }

  lemma LoneReturn()
    ensures Register([RETURN, NEWLINE]) != Register([NEWLINE])
  {
    hide Register, Update;
    EmptyRegister();
    RegisterStep([], RETURN);
    RegisterStep([], NEWLINE);
    RegisterStep([RETURN], NEWLINE);
    assert [] + [RETURN] == [RETURN] && [] + [NEWLINE] == [NEWLINE] && [RETURN] + [NEWLINE] == [RETURN, NEWLINE];
    ReturnMoves();
    UpdateDiffers(Update(INITIAL, RETURN), INITIAL, NEWLINE, NEWLINE);
  }

  lemma ReturnMoves()
    ensures Update(INITIAL, RETURN) != INITIAL
  {
    EightSteps(0xFFF2);
  }
}

/** Binary and hexadecimal Boolean array data of Jam 2.0: initialisers are decoded into the array
    and the array is reversed; literals are converted where they stand in the statement buffer.
    Both end as the numeral that was written, its last digit in the lowest bits. */
module Literals {
  import opened Bits
  import opened CStrings
  import opened JamText

  const MAX_LITERAL_ARRAYS: nat := 4

  // ----- numerals -----

  predicate IsBinary(ch: Byte) { ch == 48 || ch == 49 }

  predicate IsHex(ch: Byte) { 65 <= ch <= 70 || 97 <= ch <= 102 || 48 <= ch <= 57 }

  function HexDigit(ch: Byte): (d: nat)
    requires IsHex(ch)
    ensures d < 16
  {
    if ch >= 97 then ch + 10 - 97 else if ch >= 65 then ch + 10 - 65 else ch - 48
  }

  predicate AllBinary(text: seq<Byte>) { forall i :: 0 <= i < |text| ==> IsBinary(text[i]) }

  predicate AllHex(text: seq<Byte>) { forall i :: 0 <= i < |text| ==> IsHex(text[i]) }

  function Reversed<T>(s: seq<T>): (r: seq<T>)
    ensures |r| == |s|
    ensures forall i :: 0 <= i < |s| ==> r[i] == s[|s| - 1 - i]
  {
    seq(|s|, i requires 0 <= i < |s| => s[|s| - 1 - i])
  }

  /** The bits of a binary numeral in the order they are written. */
  function Digits2(text: seq<Byte>): (bits: seq<bool>)
    ensures |bits| == |text|
    ensures forall i :: 0 <= i < |text| ==> bits[i] == (text[i] == 49)
  {
    seq(|text|, i requires 0 <= i < |text| => text[i] == 49)
  }

  function Digits16(text: seq<Byte>): (digits: seq<nat>)
    requires AllHex(text)
    ensures |digits| == |text|
    ensures forall i :: 0 <= i < |text| ==> digits[i] == HexDigit(text[i]) < 16
  {
    seq<nat>(|text|, i requires 0 <= i < |text| => HexDigit(text[i]))
  }

  function Numeral2(text: seq<Byte>): nat {
    if text == [] then 0
    else 2 * Numeral2(text[..|text| - 1]) + if text[|text| - 1] == 49 then 1 else 0
  }

  function Numeral16(digits: seq<nat>): nat {
    if digits == [] then 0 else 16 * Numeral16(digits[..|digits| - 1]) + digits[|digits| - 1]
  }

  /** Which characters are digits, and what a further digit makes of a numeral. */
  lemma DigitCharacters(ch: Byte, text: seq<Byte>, digits: seq<nat>, d: nat)
    ensures IsBinary(ch) <==> ch in ['0' as int, '1' as int]
    ensures IsHex(ch) <==> '0' as int <= ch <= '9' as int || 'A' as int <= ch <= 'F' as int
                           || 'a' as int <= ch <= 'f' as int
    ensures '0' as int <= ch <= '9' as int ==> HexDigit(ch) == ch - '0' as int
    ensures 'A' as int <= ch <= 'F' as int ==> HexDigit(ch) == 10 + ch - 'A' as int
    ensures 'a' as int <= ch <= 'f' as int ==> HexDigit(ch) == 10 + ch - 'a' as int
    ensures Numeral2([]) == 0 && Numeral16([]) == 0
    ensures Numeral2(text + ['0' as int]) == 2 * Numeral2(text)
    ensures Numeral2(text + ['1' as int]) == 2 * Numeral2(text) + 1
    ensures Numeral16(digits + [d]) == 16 * Numeral16(digits) + d
  {
    assert (text + ['0' as int])[..|text|] == text == (text + ['1' as int])[..|text|];
    assert (digits + [d])[..|digits|] == digits;
  }

  predicate Nibbles(digits: seq<nat>) { forall i :: 0 <= i < |digits| ==> digits[i] < 16 }

  /** The bits of a hexadecimal numeral, least significant first. */
  function HexBits(digits: seq<nat>): (bits: seq<bool>)
    ensures |bits| == 4 * |digits|
    ensures forall i {:trigger bits[i]} :: 0 <= i < |bits| ==> bits[i] == Bit(digits[|digits| - 1 - i / 4], i % 4)
  {
    seq(4 * |digits|, i requires 0 <= i < 4 * |digits| => Bit(digits[|digits| - 1 - i / 4], i % 4))
  }

  /** Reversed, the digits of a binary numeral are its value, least significant bit first. */
  lemma {:induction false} Numeral2Value(text: seq<Byte>)
    ensures Value(Reversed(Digits2(text))) == Numeral2(text)
  {
    if text != [] {
      var init := text[..|text| - 1];
      assert Reversed(Digits2(text))[1..] == Reversed(Digits2(init));
      Numeral2Value(init);
    }
  }

  lemma {:induction false} Numeral16Value(digits: seq<nat>)
    requires Nibbles(digits)
    ensures Value(HexBits(digits)) == Numeral16(digits)
  {
    hide Bit;
    if digits != [] {
      var init, last := digits[..|digits| - 1], digits[|digits| - 1];
      forall i | 0 <= i < 4 * |digits|
        ensures HexBits(digits)[i] == (ToBits(last, 4) + HexBits(init))[i]
      {
        if i < 4 {
          ToBitsAt(last, 4, i);
        } else {
          assert (i - 4) / 4 == i / 4 - 1 && (i - 4) % 4 == i % 4;
        }
      }
      assert HexBits(digits) == ToBits(last, 4) + HexBits(init);
      ValueConcat(ToBits(last, 4), HexBits(init));
      Pow2Four();
      ValueOfToBits(last, 4);
      Numeral16Value(init);
    }
  }

  lemma Pow2Four()
    ensures Pow2(4) == 16
  {}

  /** A leading zero changes nothing. */
  lemma LeadingZero(digits: seq<nat>)
    ensures HexBits([0] + digits)[..4 * |digits|] == HexBits(digits)
  {}

  // ----- arithmetic of nibbles and words -----

  lemma {:induction false} BitJoin(low: nat, high: nat, w: nat, j: nat)
    requires low < Pow2(w)
    ensures Bit(low + Shl(high, w), j) == if j < w then Bit(low, j) else Bit(high, j - w)
  {
    var n := low + Shl(high, w);
    if w > 0 {
      assert Shl(high, w) == 2 * Shl(high, w - 1) by {
        MulAssociates(high, 2, Pow2(w - 1));
        MulAssociates(2, high, Pow2(w - 1));
      }
      assert n / 2 == low / 2 + Shl(high, w - 1) && n % 2 == low % 2;
      if j > 0 {
        BitJoin(low / 2, high, w - 1, j - 1);
      }
    } else {
      assert Shl(high, 0) == high;
    }
  }

  lemma NibblePair(high: nat, low: nat, j: nat)
    requires low < 16
    ensures Bit(16 * high + low, j) == if j < 4 then Bit(low, j) else Bit(high, j - 4)
  {
    Pow2Four();
    BitJoin(low, high, 4, j);
  }

  /** `(b3 << 24) | (b2 << 16) | (b1 << 8) | b0` */
  function Word4(b0: Byte, b1: Byte, b2: Byte, b3: Byte): Word {
    b0 + 0x100 * (b1 + 0x100 * (b2 + 0x100 * b3))
  }

  lemma Word4Bits(b0: Byte, b1: Byte, b2: Byte, b3: Byte, j: nat)
    requires j < 32
    ensures Bit(Word4(b0, b1, b2, b3), j) ==
            Bit(if j < 8 then b0 else if j < 16 then b1 else if j < 24 then b2 else b3, j % 8)
  {
    hide Bit, Pow2;
    Pow2Constants();
    BitJoin(b0, b1 + 0x100 * (b2 + 0x100 * b3), 8, j);
    if j >= 8 {
      BitJoin(b1, b2 + 0x100 * b3, 8, j - 8);
    }
    if j >= 16 {
      BitJoin(b2, b3, 8, j - 16);
    }
  }

  /** Bytes gathered into 32-bit words, least significant first. */
  method ToWords(bytes: array<Byte>, count: nat) returns (words: array<Word>)
    requires 4 * count <= bytes.Length
    ensures fresh(words) && words.Length == count
    ensures Bits32(words[..]) == Bits8(bytes[..4 * count])
  {
    hide Bit, Word4;
    words := new Word[count];
    for i := 0 to count
      invariant forall k :: 0 <= k < i ==>
                  words[k] == Word4(bytes[4 * k], bytes[4 * k + 1], bytes[4 * k + 2], bytes[4 * k + 3])
    {
      words[i] := Word4(bytes[4 * i], bytes[4 * i + 1], bytes[4 * i + 2], bytes[4 * i + 3]);
    }
    forall j | 0 <= j < 32 * count
      ensures Bits32(words[..])[j] == Bits8(bytes[..4 * count])[j]
    {
      var k := j / 32;
      Word4Bits(bytes[4 * k], bytes[4 * k + 1], bytes[4 * k + 2], bytes[4 * k + 3], j % 32);
      ByteOf(j);
    }
  }

  lemma ByteOf(j: nat)
    ensures j / 8 == 4 * (j / 32) + j % 32 / 8 && j % 32 % 8 == j % 8
  {}

  // ----- initialisers: decode, then reverse the whole array -----

  function After(text: seq<Byte>, index: nat): seq<Byte> { if index <= |text| then text[index..] else [] }

  method SkipSpaces(text: seq<Byte>, start: nat) returns (index: nat)
    ensures start <= index && NoSpaces(After(text, index)) == NoSpaces(After(text, start))
    ensures !IsSpace(CharAt(text, index))
  {
    index := start;
    while IsSpace(CharAt(text, index))
      invariant start <= index && NoSpaces(After(text, index)) == NoSpaces(After(text, start))
      decreases |text| - index
    {
      index := index + 1;
    }
  }

  lemma NextDigit(text: seq<Byte>, index: nat)
    requires NUL !in text && !IsSpace(CharAt(text, index))
    ensures CharAt(NoSpaces(After(text, index)), 0) == CharAt(text, index)
    ensures CharAt(text, index) != NUL ==>
              NoSpaces(After(text, index)) == [CharAt(text, index)] + NoSpaces(After(text, index + 1))
  {
    if index < |text| {
      assert text[index..][1..] == text[index + 1..];
      assert text[index] in text;
    }
  }

  /** Digits as required, then a semicolon. */
  predicate Stated2(digits: seq<Byte>, n: nat) {
    |digits| > n && AllBinary(digits[..n]) && digits[n] == SEMICOLON
  }

  predicate Stated16(digits: seq<Byte>, n: nat) {
    |digits| > n && AllHex(digits[..n]) && digits[n] == SEMICOLON
  }

  /** A statement: so many digits, and a semicolon right behind them. */
  lemma BinaryStatement(all: seq<Byte>, n: nat)
    ensures Stated2(all, n) <==>
            |all| > n && (forall i :: 0 <= i < n ==> all[i] in ['0' as int, '1' as int]) && all[n] == ';' as int
  {
    if |all| > n {
      assert forall i :: 0 <= i < n ==> all[..n][i] == all[i];
    }
  }

  lemma HexStatement(all: seq<Byte>, n: nat)
    ensures Stated16(all, n) <==> |all| > n && (forall i :: 0 <= i < n ==> IsHex(all[i])) && all[n] == ';' as int
  {
    hide IsHex;
    if |all| > n {
      assert forall i :: 0 <= i < n ==> all[..n][i] == all[i];
    }
  }

  /** `jam_extract_bool_binary` */
  method ExtractBinary(text: seq<Byte>, heap: array<Word>, dimension: nat) returns (ok: bool)
    requires NUL !in text && dimension <= 32 * heap.Length
    modifies heap
    ensures ok == Stated2(NoSpaces(text), dimension)
    ensures ok ==> Bits32(heap[..]) == Overwritten(old(Bits32(heap[..])), 0, Digits2(NoSpaces(text)[..dimension]))
  {
    hide Bits32, Overwritten, NoSpaces, IsSpace, After;
    ghost var all := NoSpaces(text);
    ghost var before := Bits32(heap[..]);
    var index, address := 0, 0;
    ok := true;
    OverwriteNothing(before, 0);
    AllAfter(text);
    while ok && address < dimension
      invariant address <= dimension && |before| == 32 * heap.Length
      invariant ok ==> address <= |all| && AllBinary(all[..address]) && NoSpaces(After(text, index)) == all[address..]
      invariant ok ==> Bits32(heap[..]) == Overwritten(before, 0, Digits2(all[..address]))
      invariant !ok ==> !Stated2(all, dimension)
      decreases ok, dimension - address
    {
      index := SkipSpaces(text, index);
      NextDigit(text, index);
      var ch := CharAt(text, index);
      if ch == 48 || ch == 49 {
        assert all[address] == ch && all[address + 1..] == all[address..][1..];
        assert Digits2(all[..address + 1]) == Digits2(all[..address]) + [ch == 49];
        OverwriteOne(before, 0, Digits2(all[..address]), ch == 49);
        PutBit32(heap, address, ch == 49);
      } else {
        assert address < |all| ==> all[address] == ch;
        BadDigit2(all, address, dimension);
        ok := false;
      }
      index := index + 1;
      address := address + 1;
    }
    if ok {
      index := SkipSpaces(text, index);
      NextDigit(text, index);
      if CharAt(text, index) != SEMICOLON {
        ok := false;
      }
    }
  }

  lemma BadDigit2(all: seq<Byte>, k: nat, n: nat)
    requires k < n && (k < |all| ==> !IsBinary(all[k]))
    ensures !Stated2(all, n)
  {
    assert n < |all| ==> all[..n][k] == all[k];
  }

  lemma AllAfter(text: seq<Byte>)
    ensures After(text, 0) == text
  {}

  /** `jam_reverse_boolean_array_bin` */
  method ReverseBinary(heap: array<Word>, dimension: nat)
    requires dimension <= 32 * heap.Length
    modifies heap
    ensures Bits32(heap[..]) == Overwritten(old(Bits32(heap[..])), 0, Reversed(old(Bits32(heap[..]))[..dimension]))
  {
    hide Bits32, Mirrored;
    ghost var before := Bits32(heap[..]);
    MirroredStart(before, dimension);
    for i := 0 to dimension / 2
      invariant |before| == 32 * heap.Length
      invariant Mirrored(before, Bits32(heap[..]), dimension, i)
    {
      var j := dimension - 1 - i;
      ghost var now := Bits32(heap[..]);
      var a := GetBit32(heap, i);
      var b := GetBit32(heap, j);
      PutBit32(heap, j, a);
      PutBit32(heap, i, b);
      MirroredNext(before, now, dimension, i);
    }
    MirroredEnd(before, Bits32(heap[..]), dimension);
  }

  /** The outer `i` bits on either side of the first `n` have changed places. */
  ghost predicate Mirrored(before: seq<bool>, after: seq<bool>, n: nat, i: nat) {
    && |after| == |before| && n <= |before| && 2 * i <= n
    && forall k {:trigger after[k]} :: 0 <= k < |before| ==>
         after[k] == if k < i || n - i <= k < n then before[n - 1 - k] else before[k]
  }

  lemma MirroredStart(before: seq<bool>, n: nat)
    requires n <= |before|
    ensures Mirrored(before, before, n, 0)
  {}

  lemma MirroredNext(before: seq<bool>, now: seq<bool>, n: nat, i: nat)
    requires Mirrored(before, now, n, i) && 2 * i + 2 <= n
    ensures Mirrored(before, now[n - 1 - i := now[i]][i := now[n - 1 - i]], n, i + 1)
  {
    assert now[i] == before[i] && now[n - 1 - i] == before[n - 1 - i];
  }

  lemma MirroredEnd(before: seq<bool>, after: seq<bool>, n: nat)
    requires Mirrored(before, after, n, n / 2)
    ensures after == Overwritten(before, 0, Reversed(before[..n]))
  {
    forall k | 0 <= k < |after|
      ensures after[k] == Overwritten(before, 0, Reversed(before[..n]))[k]
    {
      OverwrittenAt(before, 0, Reversed(before[..n]), k);
    }
  }

  /** `(a[i >> 5] & (1L << (i & 0x1f))) ? 1 : 0` */
  method GetBit32(a: array<Word>, i: nat) returns (v: bool)
    requires i < 32 * a.Length
    ensures v == Bits32(a[..])[i]
  {
    v := Bit(a[i / 32], i % 32);
  }

  /** BIN data of a Jam 2.0 initialiser ends as the numeral. */
  method InitialiseBinary(text: seq<Byte>, heap: array<Word>, dimension: nat) returns (ok: bool)
    requires NUL !in text && dimension <= 32 * heap.Length
    modifies heap
    ensures ok == Stated2(NoSpaces(text), dimension)
    ensures var all := NoSpaces(text);
            ok <==> && |all| > dimension && all[dimension] == ';' as int
                    && forall i :: 0 <= i < dimension ==> all[i] in ['0' as int, '1' as int]
    ensures ok ==> Bits32(heap[..])[..dimension] == Reversed(Digits2(NoSpaces(text)[..dimension]))
  {
    hide Bits32, Digits2, Reversed, NoSpaces, Stated2;
    ghost var before := Bits32(heap[..]);
    BinaryStatement(NoSpaces(text), dimension);
    ok := ExtractBinary(text, heap, dimension);
    if ok {
      OverwrittenPrefix(before, Digits2(NoSpaces(text)[..dimension]));
      ghost var decoded := Bits32(heap[..]);
      ReverseBinary(heap, dimension);
      OverwrittenPrefix(decoded, Reversed(decoded[..dimension]));
    }
  }

  // ----- hexadecimal -----

  /** `(a[i >> 3] >> ((i & 7) << 2)) & 0x0f` */
  method GetNibble32(a: array<Word>, i: nat) returns (d: nat)
    requires 4 * i + 4 <= 32 * a.Length
    ensures d < 16 && ToBits(d, 4) == Bits32(a[..])[4 * i..4 * i + 4]
  {
    hide Low, Shr, Bit, ToBits, Bits32;
    d := Low(Shr(a[i / 8], 4 * (i % 8)), 4);
    NibbleRead(a[i / 8], 4 * (i % 8));
    forall j | 0 <= j < 4
      ensures ToBits(d, 4)[j] == Bits32(a[..])[4 * i + j]
    {
      ToBitsAt(d, 4, j);
      assert (4 * i + j) / 32 == i / 8 && (4 * i + j) % 32 == 4 * (i % 8) + j;
    }
  }

  lemma NibbleRead(n: nat, k: nat)
    ensures Shr(n, k) >= 0 && Low(Shr(n, k), 4) < 16
    ensures forall j {:trigger Bit(Low(Shr(n, k), 4), j)} :: 0 <= j < 4 ==> Bit(Low(Shr(n, k), 4), j) == Bit(n, k + j)
  {
    hide Shr, Bit;
    Pow2Four();
    BitOfShr(n, k, 0);
    forall j | 0 <= j < 4
      ensures Bit(Low(Shr(n, k), 4), j) == Bit(n, k + j)
    {
      BitOfLow(Shr(n, k), 4, j);
      BitOfShr(n, k, j);
    }
  }

  lemma LowAndShr(n: nat, m: nat)
    ensures Shr(n, m) >= 0 && Low(n, m) < Pow2(m) && n == Low(n, m) + Shl(Shr(n, m), m)
  {
    DividedBy(n, Pow2(m));
  }

  lemma DividedBy(n: nat, d: nat)
    requires d > 0
    ensures n == n % d + n / d * d && n % d < d && n / d >= 0
  {}

  lemma BitOfLow(n: nat, m: nat, j: nat)
    requires j < m
    ensures Bit(Low(n, m), j) == Bit(n, j)
  {
    hide Pow2, Bit, Low, Shl, Shr;
    LowAndShr(n, m);
    BitJoin(Low(n, m), Shr(n, m), m, j);
  }

  /** `a[i >> 3] = (a[i >> 3] & ~(15L << ((i & 7) << 2))) | (d << ((i & 7) << 2))` */
  method PutNibble32(a: array<Word>, i: nat, d: nat)
    requires 4 * i + 4 <= 32 * a.Length && d < 16
    modifies a
    ensures Bits32(a[..]) == Overwritten(old(Bits32(a[..])), 4 * i, ToBits(d, 4))
  {
    hide Bits32, Bit, Overwritten, ToBits;
    ghost var before, bits := Bits32(a[..]), ToBits(d, 4);
    OverwriteNothing(before, 4 * i);
    for j := 0 to 4
      invariant Bits32(a[..]) == Overwritten(before, 4 * i, bits[..j])
    {
      PutBit32(a, 4 * i + j, Bit(d, j));
      ToBitsAt(d, 4, j);
      OverwriteOne(before, 4 * i, bits[..j], Bit(d, j));
      assert bits[..j + 1] == bits[..j] + [Bit(d, j)];
    }
    assert bits[..4] == bits;
  }

  /** Nibbles as they are decoded, the first digit lowest. */
  function InOrder(digits: seq<nat>): (bits: seq<bool>)
    ensures |bits| == 4 * |digits|
    ensures forall i {:trigger bits[i]} :: 0 <= i < |bits| ==> bits[i] == Bit(digits[i / 4], i % 4)
  {
    seq(4 * |digits|, i requires 0 <= i < 4 * |digits| => Bit(digits[i / 4], i % 4))
  }

  lemma InOrderNext(digits: seq<nat>, d: nat)
    ensures InOrder(digits + [d]) == InOrder(digits) + ToBits(d, 4)
  {
    hide Bit;
    forall i | 0 <= i < 4 * |digits| + 4
      ensures InOrder(digits + [d])[i] == (InOrder(digits) + ToBits(d, 4))[i]
    {
      if i >= 4 * |digits| {
        ToBitsAt(d, 4, i - 4 * |digits|);
        assert i / 4 == |digits| && i % 4 == i - 4 * |digits|;
      }
    }
  }

  lemma BadDigit16(all: seq<Byte>, k: nat, n: nat)
    requires k < n && !IsHex(CharAt(all, k))
    ensures !Stated16(all, n)
  {
    assert n < |all| ==> all[..n][k] == all[k];
  }

  /** The number of hexadecimal digits of an array. */
  function NibbleCount(dimension: nat): (n: nat)
    ensures dimension <= 4 * n < dimension + 4
  {
    dimension / 4 + if dimension % 4 != 0 then 1 else 0
  }

  /** An array of whole words has room for the nibbles of its bits. */
  lemma WordsHoldNibbles(dimension: nat, words: nat)
    requires dimension <= 32 * words
    ensures 4 * NibbleCount(dimension) <= 32 * words
  {
    hide NibbleCount;
    Quadruples(NibbleCount(dimension), 8 * words);
  }

  lemma Quadruples(a: nat, b: nat)
    requires 4 * a < 4 * b + 4
    ensures a <= b
  {}

  /** The same number, as the reversal computes it. */
  function RoundedUp(dimension: nat): (n: nat)
    ensures n == NibbleCount(dimension)
  {
    (dimension + 3) / 4
  }

  /** The nibbles of a stated numeral, as they are decoded. */
  function StatedBits(all: seq<Byte>, n: nat): (bits: seq<bool>)
    requires Stated16(all, n)
    ensures |bits| == 4 * n
  {
    InOrder(Digits16(all[..n]))
  }

  /** `jam_extract_bool_hex` */
  method ExtractHex(text: seq<Byte>, heap: array<Word>, dimension: nat) returns (ok: bool)
    requires NUL !in text && 4 * NibbleCount(dimension) <= 32 * heap.Length
    modifies heap
    ensures ok == Stated16(NoSpaces(text), NibbleCount(dimension))
    ensures ok ==> Bits32(heap[..]) ==
                     Overwritten(old(Bits32(heap[..])), 0, StatedBits(NoSpaces(text), NibbleCount(dimension)))
  {
    hide Bits32, NoSpaces, IsSpace, After, IsHex, HexDigit, Taken16, StatedBits, Stated16;
    ghost var all := NoSpaces(text);
    ghost var before := Bits32(heap[..]);
    var nibbles := NibbleCount(dimension);
    var index, nibble := 0, 0;
    ok := true;
    AllAfter(text);
    NoneTaken16(all, before);
    while ok && nibble < nibbles
      invariant nibble <= nibbles && |before| == 32 * heap.Length
      invariant ok ==> Taken16(all, nibble, before, Bits32(heap[..]))
      invariant ok ==> NoSpaces(After(text, index)) == From(all, nibble)
      invariant !ok ==> !Stated16(all, nibbles)
      decreases ok, nibbles - nibble
    {
      index := SkipSpaces(text, index);
      NextDigit(text, index);
      var ch := CharAt(text, index);
      FromNext(all, nibble);
      if IsHex(ch) {
        var d := HexDigit(ch);
        NulIsNoDigit();
        ghost var now := Bits32(heap[..]);
        PutNibble32(heap, nibble, d);
        NextTaken16(all, nibble, before, now);
      } else {
        BadDigit16(all, nibble, nibbles);
        ok := false;
      }
      index := index + 1;
      nibble := nibble + 1;
    }
    if ok {
      AllTaken16(all, nibbles, before, Bits32(heap[..]));
      index := SkipSpaces(text, index);
      NextDigit(text, index);
      FromNext(all, nibbles);
      if CharAt(text, index) != SEMICOLON {
        ok := false;
      }
    }
  }

  function From(all: seq<Byte>, k: nat): seq<Byte> { if k <= |all| then all[k..] else [] }

  lemma FromNext(all: seq<Byte>, k: nat)
    ensures CharAt(From(all, k), 0) == CharAt(all, k)
    ensures k < |all| ==> From(all, k) == [all[k]] + From(all, k + 1)
  {}

  /** The first `k` digits are decoded. */
  ghost predicate Taken16(all: seq<Byte>, k: nat, before: seq<bool>, now: seq<bool>) {
    && k <= |all| && AllHex(all[..k]) && 4 * k <= |before|
    && now == Overwritten(before, 0, InOrder(Digits16(all[..k])))
  }

  lemma NoneTaken16(all: seq<Byte>, before: seq<bool>)
    ensures Taken16(all, 0, before, before) && From(all, 0) == all
  {
    assert InOrder(Digits16(all[..0])) == [];
    OverwriteNothing(before, 0);
  }

  lemma NextTaken16(all: seq<Byte>, k: nat, before: seq<bool>, now: seq<bool>)
    requires Taken16(all, k, before, now) && k < |all| && IsHex(all[k]) && 4 * k + 4 <= |before|
    ensures |now| == |before|
    ensures Taken16(all, k + 1, before, Overwritten(now, 4 * k, ToBits(HexDigit(all[k]), 4)))
  {
    hide Overwritten, InOrder, IsHex, HexDigit;
    var d := HexDigit(all[k]);
    assert all[..k + 1] == all[..k] + [all[k]];
    assert Digits16(all[..k + 1]) == Digits16(all[..k]) + [d];
    InOrderNext(Digits16(all[..k]), d);
    OverwriteTwice(before, 0, InOrder(Digits16(all[..k])), ToBits(d, 4));
  }

  lemma AllTaken16(all: seq<Byte>, n: nat, before: seq<bool>, now: seq<bool>)
    requires Taken16(all, n, before, now)
    ensures n <= |all| && (Stated16(all, n) <==> n < |all| && all[n] == SEMICOLON)
    ensures Stated16(all, n) ==> now == Overwritten(before, 0, StatedBits(all, n))
  {}

  lemma NulIsNoDigit()
    ensures !IsHex(NUL)
  {}

  /** Bit `k` of an array whose first `n` nibbles have been turned round. */
  function TurnedBit(k: nat, n: nat): (r: nat)
    ensures if k < 4 * n then r < 4 * n else r == k
  {
    if k < 4 * n then 4 * (n - 1 - k / 4) + k % 4 else k
  }

  ghost predicate TurnedRound(before: seq<bool>, after: seq<bool>, n: nat) {
    && |after| == |before| && 4 * n <= |before|
    && forall k {:trigger after[k]} :: 0 <= k < |after| ==> after[k] == before[TurnedBit(k, n)]
  }

  /** `jam_reverse_boolean_array_hex` */
  method ReverseHex(heap: array<Word>, dimension: nat)
    requires 4 * NibbleCount(dimension) <= 32 * heap.Length
    modifies heap
    ensures TurnedRound(old(Bits32(heap[..])), Bits32(heap[..]), NibbleCount(dimension))
  {
    hide Bits32, Bit, Turned, TurnedRound, TurnedBit, Overwritten, ToBits, NibbleCount, RoundedUp;
    ghost var before := Bits32(heap[..]);
    var nibbles := RoundedUp(dimension);
    TurnedStart(before, nibbles);
    for i := 0 to nibbles / 2
      invariant |before| == 32 * heap.Length
      invariant Turned(before, Bits32(heap[..]), nibbles, i)
    {
      SwapNibbles(heap, i, nibbles - 1 - i, before, nibbles);
    }
    TurnedEnd(before, Bits32(heap[..]), nibbles);
  }

  lemma TurnedStart(before: seq<bool>, n: nat)
    requires 4 * n <= |before|
    ensures Turned(before, before, n, 0)
  {}

  /** A middle nibble stays where it is. */
  lemma TurnedEnd(before: seq<bool>, after: seq<bool>, n: nat)
    requires Turned(before, after, n, n / 2)
    ensures TurnedRound(before, after, n)
  {
    forall k | 0 <= k < |after|
      ensures after[k] == before[TurnedBit(k, n)]
    {
      var i := n / 2;
      if 4 * i <= k < 4 * (n - i) {
        assert k / 4 == i && n - 1 - i == i && TurnedBit(k, n) == k;
      }
    }
  }

  method SwapNibbles(heap: array<Word>, i: nat, j: nat, ghost before: seq<bool>, ghost n: nat)
    requires 4 * n <= 32 * heap.Length && 2 * i + 2 <= n && j == n - 1 - i
    requires Turned(before, Bits32(heap[..]), n, i)
    modifies heap
    ensures Turned(before, Bits32(heap[..]), n, i + 1)
  {
    hide Bits32, Bit, Turned, Overwritten, ToBits;
    ghost var now := Bits32(heap[..]);
    var a := GetNibble32(heap, i);
    var b := GetNibble32(heap, j);
    PutNibble32(heap, j, a);
    PutNibble32(heap, i, b);
    TurnedNext(before, now, Bits32(heap[..]), n, i, ToBits(a, 4), ToBits(b, 4));
  }

  /** The outer `i` nibbles on either side have changed places. */
  ghost predicate Turned(before: seq<bool>, after: seq<bool>, n: nat, i: nat) {
    && |after| == |before| && 4 * n <= |before| && 2 * i <= n
    && forall k {:trigger after[k]} :: 0 <= k < |before| ==>
         after[k] == if k < 4 * i || 4 * (n - i) <= k < 4 * n then before[TurnedBit(k, n)] else before[k]
  }

  lemma TurnedAt(k: nat, n: nat, i: nat)
    requires 4 * i <= k < 4 * i + 4 && i < n
    ensures TurnedBit(k, n) == 4 * (n - 1 - i) + (k - 4 * i)
  {
    QuotientUnique(k, 4, i, k - 4 * i);
  }

  lemma TurnedNext(before: seq<bool>, now: seq<bool>, after: seq<bool>, n: nat, i: nat, a: seq<bool>, b: seq<bool>)
    requires Turned(before, now, n, i) && 2 * i + 2 <= n
    requires var j := n - 1 - i;
             && a == now[4 * i..4 * i + 4] && b == now[4 * j..4 * j + 4]
             && after == Overwritten(Overwritten(now, 4 * j, a), 4 * i, b)
    ensures Turned(before, after, n, i + 1)
  {
    hide TurnedBit, Overwritten;
    var j := n - 1 - i;
    forall k | 0 <= k < |before|
      ensures after[k] == if k < 4 * (i + 1) || 4 * (n - i - 1) <= k < 4 * n then before[TurnedBit(k, n)] else before[k]
    {
      OverwrittenAt(Overwritten(now, 4 * j, a), 4 * i, b, k);
      OverwrittenAt(now, 4 * j, a, k);
      if 4 * i <= k < 4 * i + 4 {
        TurnedAt(k, n, i);
        assert after[k] == now[4 * j + (k - 4 * i)];
      } else if 4 * j <= k < 4 * j + 4 {
        TurnedAt(k, n, j);
        assert after[k] == now[4 * i + (k - 4 * j)];
      }
    }
  }

  /** HEX data of a Jam 2.0 initialiser ends as the numeral. */
  method InitialiseHex(text: seq<Byte>, heap: array<Word>, dimension: nat) returns (ok: bool)
    requires NUL !in text && 4 * NibbleCount(dimension) <= 32 * heap.Length
    modifies heap
    ensures ok == Stated16(NoSpaces(text), NibbleCount(dimension))
    ensures var all, n := NoSpaces(text), (dimension + 3) / 4;
            ok <==> |all| > n && all[n] == ';' as int && forall i :: 0 <= i < n ==> IsHex(all[i])
    ensures ok ==> Holds16(Bits32(heap[..]), NoSpaces(text), dimension)
  {
    hide Bits32, NoSpaces, Stated16, StatedBits, StatedValue, TurnedRound, Overwritten, NibbleCount, Holds16, IsHex;
    ghost var before := Bits32(heap[..]);
    HexStatement(NoSpaces(text), NibbleCount(dimension));
    assert RoundedUp(dimension) == (dimension + 3) / 4;
    ok := ExtractHex(text, heap, dimension);
    if ok {
      ghost var decoded := Bits32(heap[..]);
      ReverseHex(heap, dimension);
      HexTurned(before, decoded, Bits32(heap[..]), NoSpaces(text), NibbleCount(dimension), dimension);
    }
  }

  /** The array is the numeral, down to its dimension. */
  ghost predicate Holds16(bits: seq<bool>, all: seq<Byte>, dimension: nat) {
    && Stated16(all, NibbleCount(dimension)) && dimension <= |bits|
    && bits[..dimension] == StatedValue(all, NibbleCount(dimension))[..dimension]
  }

  /** The bits of a stated numeral, least significant first. */
  function StatedValue(all: seq<Byte>, n: nat): (bits: seq<bool>)
    requires Stated16(all, n)
    ensures |bits| == 4 * n
  {
    HexBits(Digits16(all[..n]))
  }

  /** Nibbles decoded in order and turned round are the numeral's. */
  lemma HexTurned(before: seq<bool>, decoded: seq<bool>, after: seq<bool>, all: seq<Byte>, n: nat,
                  dimension: nat)
    requires Stated16(all, n) && 4 * n <= |before| == |decoded| && n == NibbleCount(dimension)
    requires decoded == Overwritten(before, 0, StatedBits(all, n))
    requires TurnedRound(decoded, after, n)
    ensures Holds16(after, all, dimension)
  {
    hide Bit, TurnedBit, Overwritten, IsHex, HexDigit;
    var digits := Digits16(all[..n]);
    forall k | 0 <= k < dimension
      ensures after[k] == HexBits(digits)[k]
    {
      TurnedIndex(k, n);
      OverwrittenAt(before, 0, InOrder(digits), TurnedBit(k, n));
    }
  }

  lemma TurnedIndex(k: nat, n: nat)
    requires k < 4 * n
    ensures TurnedBit(k, n) < 4 * n && TurnedBit(k, n) / 4 == n - 1 - k / 4 && TurnedBit(k, n) % 4 == k % 4
  {}

  // ----- literals: converted in place -----

  /** Binary digits packed at the front of a buffer, zeros to the end of their last byte. */
  ghost predicate Packed2(buffer: seq<Byte>, digits: seq<Byte>) {
    && |digits| <= 8 * |buffer|
    && (forall j {:trigger Bits8(buffer)[j]} :: 0 <= j < |digits| ==> Bits8(buffer)[j] == (digits[j] == 49))
    && forall j {:trigger Bits8(buffer)[j]} ::
         |digits| <= j < 8 * ((|digits| + 7) / 8) && j < 8 * |buffer| ==> !Bits8(buffer)[j]
  }

  /** One more digit packed, into a byte no later than the one it was read from. */
  method PackDigit2(buffer: array<Byte>, n: nat, data: bool, ghost digits: seq<Byte>)
    requires n < 8 * buffer.Length && |digits| == n && Packed2(buffer[..], digits)
    modifies buffer
    ensures forall k :: 0 <= k < buffer.Length && k != n / 8 ==> buffer[k] == old(buffer[k])
    ensures Packed2(buffer[..], digits + [if data then 49 else 48])
  {
    hide Bits8, Bit;
    ghost var before := Bits8(buffer[..]);
    if n % 8 == 0 {
      buffer[n / 8] := 0;
    }
    ghost var cleared := Bits8(buffer[..]);
    forall j | 0 <= j < |before|
      ensures cleared[j] == if n % 8 == 0 && j / 8 == n / 8 then false else before[j]
    {
      BitBeyond(0, 0, j % 8);
    }
    if data {
      PutBit8(buffer, n, true);
    }
    PackedNext2(before, cleared, Bits8(buffer[..]), buffer[..], digits, data);
  }

  lemma PackedNext2(before: seq<bool>, cleared: seq<bool>, after: seq<bool>,
                    buffer: seq<Byte>, digits: seq<Byte>, data: bool)
    requires |before| == |cleared| == |after| == 8 * |buffer| && |digits| < |before|
    requires forall j :: 0 <= j < |digits| ==> before[j] == (digits[j] == 49)
    requires forall j :: |digits| <= j < 8 * ((|digits| + 7) / 8) && j < |before| ==> !before[j]
    requires forall j {:trigger cleared[j]} :: 0 <= j < |before| ==>
               cleared[j] == if |digits| % 8 == 0 && j / 8 == |digits| / 8 then false else before[j]
    requires after == Bits8(buffer) && after == if data then cleared[|digits| := true] else cleared
    ensures Packed2(buffer, digits + [if data then 49 else 48])
  {
    hide Bits8;
    var n := |digits|;
    forall j | n < j < 8 * ((n + 8) / 8)
      ensures !Bits8(buffer)[j]
    {
      assert after[j] == cleared[j];
      assert j / 8 == n / 8;
    }
    assert after[n] == if data then true else cleared[n];
  }

  /** The first loop of `jam_convert_literal_binary`. */
  method PackBinary(buffer: array<Byte>) returns (ok: bool, length: nat)
    requires NUL in buffer[..]
    modifies buffer
    ensures var digits := NoSpaces(CString(old(buffer[..])));
            && ok == AllBinary(digits)
            && (ok ==> length == |digits| < buffer.Length && Packed2(buffer[..], digits))
  {
    hide Packed2, CString, NoSpaces, IsSpace;
    ghost var text := CString(buffer[..]);
    TextEnds(buffer[..]);
    var i := 0;
    ok, length := true, 0;
    NothingPacked2(buffer[..]);
    assert text[..0] == [] && NoSpaces([]) == [] by {
      NoSpacesOfNothing();
    }
    while ok && buffer[i] != NUL
      invariant i <= |text| < buffer.Length && length <= i
      invariant forall k :: i <= k < buffer.Length ==> buffer[k] == old(buffer[k])
      invariant !ok ==> !AllBinary(NoSpaces(text))
      invariant ok ==> AllBinary(NoSpaces(text[..i])) && length == |NoSpaces(text[..i])|
      invariant ok ==> Packed2(buffer[..], NoSpaces(text[..i]))
      decreases ok, |text| - i
    {
      var ch := buffer[i];
      assert ch == text[i] && text[..i + 1] == text[..i] + [ch];
      NoSpacesSnoc(text[..i], ch);
      if ch == 48 || ch == 49 {
        DigitIsNoSpace(ch);
        PackDigit2(buffer, length, ch == 49, NoSpaces(text[..i]));
        length := length + 1;
      } else if IsSpace(ch) {
      } else {
        BadCharacter2(text, i);
        ok := false;
      }
      i := i + 1;
    }
    assert ok ==> text[..i] == text;
  }

  lemma NothingPacked2(buffer: seq<Byte>)
    ensures Packed2(buffer, [])
  {}

  lemma NoSpacesOfNothing()
    ensures NoSpaces([]) == []
  {}

  lemma DigitIsNoSpace(ch: Byte)
    requires IsHex(ch)
    ensures !IsSpace(ch)
  {}

  lemma {:induction false} NoSpacesConcat(a: seq<Byte>, b: seq<Byte>)
    ensures NoSpaces(a + b) == NoSpaces(a) + NoSpaces(b)
  {
    if a == [] {
      assert a + b == b;
    } else {
      assert (a + b)[1..] == a[1..] + b;
      NoSpacesConcat(a[1..], b);
    }
  }

  lemma CharacterKept(text: seq<Byte>, i: nat)
    requires i < |text| && !IsSpace(text[i])
    ensures var k := |NoSpaces(text[..i])|; k < |NoSpaces(text)| && NoSpaces(text)[k] == text[i]
  {
    assert text == text[..i] + text[i..];
    NoSpacesConcat(text[..i], text[i..]);
  }

  lemma BadCharacter2(text: seq<Byte>, i: nat)
    requires i < |text| && !IsSpace(text[i]) && !IsBinary(text[i])
    ensures !AllBinary(NoSpaces(text))
  {
    CharacterKept(text, i);
  }

  /** Swapping from the middle outwards. */
  ghost predicate Unfolded<T>(before: seq<T>, after: seq<T>, n: nat, i: nat) {
    && |after| == |before| && n <= |before| && 2 * i <= n
    && forall k {:trigger after[k]} :: 0 <= k < |before| ==>
         after[k] == if i <= k < n - i then before[n - 1 - k] else before[k]
  }

  lemma UnfoldedStart<T>(before: seq<T>, n: nat)
    requires n <= |before|
    ensures Unfolded(before, before, n, n / 2)
  {
    if n % 2 == 1 {
      assert n - 1 - n / 2 == n / 2;
    }
  }

  lemma UnfoldedNext<T>(before: seq<T>, now: seq<T>, n: nat, i: nat)
    requires Unfolded(before, now, n, i) && i > 0
    ensures Unfolded(before, now[i - 1 := now[n - i]][n - i := now[i - 1]], n, i - 1)
  {
    assert now[i - 1] == before[i - 1] && now[n - i] == before[n - i];
  }

  lemma UnfoldedEnd<T>(before: seq<T>, after: seq<T>, n: nat)
    requires Unfolded(before, after, n, 0)
    ensures after[..n] == Reversed(before[..n])
  {}

  /** "reverse the order of binary data" */
  method ReverseBits(buffer: array<Byte>, n: nat)
    requires n <= 8 * buffer.Length
    modifies buffer
    ensures Bits8(buffer[..])[..n] == Reversed(old(Bits8(buffer[..]))[..n])
  {
    hide Bits8, Unfolded, Bit;
    ghost var before := Bits8(buffer[..]);
    var rev: nat := n / 2;
    UnfoldedStart(before, n);
    while rev > 0
      invariant |before| == 8 * buffer.Length && 2 * rev <= n
      invariant Unfolded(before, Bits8(buffer[..]), n, rev)
    {
      ghost var now := Bits8(buffer[..]);
      var data := GetBit8(buffer, rev - 1);
      var other := GetBit8(buffer, n - rev);
      PutBit8(buffer, rev - 1, other);
      PutBit8(buffer, n - rev, data);
      UnfoldedNext(before, now, n, rev);
      rev := rev - 1;
    }
    UnfoldedEnd(before, Bits8(buffer[..]), n);
  }

  method GetBit8(a: array<Byte>, i: nat) returns (v: bool)
    requires i < 8 * a.Length
    ensures v == Bits8(a[..])[i]
  {
    v := Bit(a[i / 8], i % 8);
  }

  /** `jam_convert_literal_binary`.  A short literal needs one of the player's spare words. */
  method ConvertBinary(buffer: array<Byte>, arg: nat) returns (ok: bool, length: nat, words: array<Word>)
    requires NUL in buffer[..] && buffer.Length >= 8
    modifies buffer
    ensures var digits := NoSpaces(CString(old(buffer[..])));
            && ok == (AllBinary(digits) && (|digits| > 32 || arg < 4))
            && (ok ==> length == |digits| <= 32 * words.Length
                       && Bits32(words[..])[..length] == Reversed(Digits2(digits)))
  {
    hide Packed2, CString, NoSpaces, Bits8, Bits32;
    ghost var digits := NoSpaces(CString(buffer[..]));
    ok, length := PackBinary(buffer);
    var count := 0;
    if ok {
      PackedBits2(buffer[..], digits);
      ReverseBits(buffer, length);
      count := ((length + 7) / 8 + 3) / 4;
      ok := count > 1 || arg < MAX_LITERAL_ARRAYS;
    }
    words := ToWords(buffer, if ok then count else 0);
    if ok {
      FrontBits(buffer[..], 4 * count, length);
    }
  }

  lemma PackedBits2(buffer: seq<Byte>, digits: seq<Byte>)
    requires Packed2(buffer, digits)
    ensures |digits| <= 8 * |buffer| && Bits8(buffer)[..|digits|] == Digits2(digits)
  {}

  lemma FrontBits(buffer: seq<Byte>, bytes: nat, n: nat)
    requires bytes <= |buffer| && n <= 8 * bytes
    ensures Bits8(buffer[..bytes])[..n] == Bits8(buffer)[..n]
  {}

  // ----- hexadecimal literals -----

  /** Two digits to a byte, the first in the upper half; an odd last one in an upper half. */
  ghost predicate Packed16(buffer: seq<Byte>, digits: seq<nat>) {
    && Nibbles(digits) && |digits| <= 2 * |buffer|
    && (forall k {:trigger buffer[k]} :: 0 <= k < |digits| / 2 ==> buffer[k] == 16 * digits[2 * k] + digits[2 * k + 1])
    && (|digits| % 2 == 1 ==> buffer[|digits| / 2] == 16 * digits[|digits| - 1])
  }

  lemma PackedNext16(before: seq<Byte>, after: seq<Byte>, digits: seq<nat>, d: nat)
    requires Packed16(before, digits) && d < 16 && |digits| < 2 * |before| && |after| == |before|
    requires after == before[|digits| / 2 :=
               if |digits| % 2 == 1 then d + before[|digits| / 2] / 16 * 16 else 16 * d]
    ensures Packed16(after, digits + [d])
  {}

  /** The first loop of `jam_convert_literal_array`. */
  method PackHex(buffer: array<Byte>) returns (ok: bool, length: nat)
    requires NUL in buffer[..]
    modifies buffer
    ensures var text := NoSpaces(CString(old(buffer[..])));
            && ok == AllHex(text)
            && (ok ==> length == |text| < buffer.Length && Packed16(buffer[..], Digits16(text)))
  {
    hide Packed16, CString, NoSpaces, IsSpace, IsHex, HexDigit;
    ghost var text := CString(buffer[..]);
    TextEnds(buffer[..]);
    var i, outIndex := 0, 0;
    ok, length := true, 0;
    NothingPacked16(buffer[..]);
    NoSpacesOfNothing();
    assert text[..0] == [] && Digits16([]) == [];
    while ok && buffer[i] != NUL
      invariant i <= |text| < buffer.Length && length <= i && outIndex == length / 2
      invariant forall k :: i <= k < buffer.Length ==> buffer[k] == old(buffer[k])
      invariant !ok ==> !AllHex(NoSpaces(text))
      invariant ok ==> AllHex(NoSpaces(text[..i])) && length == |NoSpaces(text[..i])|
      invariant ok ==> Packed16(buffer[..], Digits16(NoSpaces(text[..i])))
      decreases ok, |text| - i
    {
      var ch := buffer[i];
      assert ch == text[i] && text[..i + 1] == text[..i] + [ch];
      NoSpacesSnoc(text[..i], ch);
      if IsHex(ch) {
        DigitIsNoSpace(ch);
        var data := HexDigit(ch);
        ghost var before, digits := buffer[..], Digits16(NoSpaces(text[..i]));
        PackedBounds(before, digits);
        assert Digits16(NoSpaces(text[..i]) + [ch]) == digits + [data];
        if length % 2 == 1 {
          OddNibble(before, digits, data);
          buffer[outIndex] := data + buffer[outIndex] / 16 * 16; // `|=` into the lower half
          outIndex := outIndex + 1;
        } else {
          buffer[outIndex] := 16 * data;
        }
        PackedNext16(before, buffer[..], digits, data);
        length := length + 1;
      } else if IsSpace(ch) {
      } else {
        BadCharacter16(text, i);
        ok := false;
      }
      i := i + 1;
    }
    assert ok ==> text[..i] == text;
  }

  lemma NothingPacked16(buffer: seq<Byte>)
    ensures Packed16(buffer, [])
  {}

  lemma PackedBounds(buffer: seq<Byte>, digits: seq<nat>)
    requires Packed16(buffer, digits)
    ensures |digits| <= 2 * |buffer| && Nibbles(digits)
  {}

  lemma OddNibble(buffer: seq<Byte>, digits: seq<nat>, d: nat)
    requires Packed16(buffer, digits) && |digits| % 2 == 1 && d < 16
    ensures d + buffer[|digits| / 2] / 16 * 16 < 0x100
  {}

  lemma BadCharacter16(text: seq<Byte>, i: nat)
    requires i < |text| && !IsSpace(text[i]) && !IsHex(text[i])
    ensures !AllHex(NoSpaces(text))
  {
    CharacterKept(text, i);
  }

  /** The digits of an even number of nibbles: an odd numeral gets a leading zero. */
  function Even(digits: seq<nat>): seq<nat> { if |digits| % 2 == 1 then [0] + digits else digits }

  /** "odd number of nibbles - do a nibble-shift" */
  method ShiftNibbles(buffer: array<Byte>, count: nat, ghost digits: seq<nat>)
    requires Packed16(buffer[..], digits) && count == |digits| && count % 2 == 1 && count < 2 * buffer.Length
    modifies buffer
    ensures Packed16(buffer[..], [0] + digits)
  {
    ghost var before := buffer[..];
    var k: nat := count / 2;
    while k > 0
      invariant k <= |digits| / 2 < buffer.Length == |before|
      invariant forall i :: 0 <= i <= k ==> buffer[i] == before[i]
      invariant forall i {:trigger buffer[i]} :: k < i <= |digits| / 2 ==>
                  buffer[i] == 16 * digits[2 * i - 1] + digits[2 * i]
      modifies buffer
    {
      ShiftedByte(before, digits, k);
      buffer[k] := buffer[k - 1] % 16 * 16 + buffer[k] / 16;
      k := k - 1;
    }
    buffer[0] := buffer[0] / 16;
    ShiftedAll(before, buffer[..], digits);
  }

  lemma ShiftedByte(before: seq<Byte>, digits: seq<nat>, k: nat)
    requires Packed16(before, digits) && |digits| % 2 == 1 && 0 < k <= |digits| / 2 < |before|
    ensures before[k - 1] % 16 * 16 + before[k] / 16 == 16 * digits[2 * k - 1] + digits[2 * k]
  {
    var i := k - 1;
    assert before[i] == 16 * digits[2 * i] + digits[2 * i + 1];
  }

  lemma ShiftedAll(before: seq<Byte>, after: seq<Byte>, digits: seq<nat>)
    requires Packed16(before, digits) && |digits| % 2 == 1 && |digits| / 2 < |before| == |after|
    requires after[0] == before[0] / 16
    requires forall i {:trigger after[i]} :: 0 < i <= |digits| / 2 ==>
               after[i] == 16 * digits[2 * i - 1] + digits[2 * i]
    ensures Packed16(after, [0] + digits)
  {
    var all := [0] + digits;
    forall k | 0 <= k < |all| / 2
      ensures after[k] == 16 * all[2 * k] + all[2 * k + 1]
    {
      if k == 0 {
        FirstShifted(before, digits);
      }
    }
  }

  lemma FirstShifted(before: seq<Byte>, digits: seq<nat>)
    requires Packed16(before, digits) && |digits| % 2 == 1
    ensures before[0] / 16 == digits[0]
  {
    if |digits| == 1 {
      assert before[0] == 16 * digits[0];
    } else {
      assert before[0] == 16 * digits[2 * 0] + digits[2 * 0 + 1];
    }
  }

  /** "reverse the order of binary data", byte by byte from the middle. */
  method ReverseBytes(buffer: array<Byte>, n: nat)
    requires n <= buffer.Length
    modifies buffer
    ensures buffer[..n] == Reversed(old(buffer[..n]))
  {
    hide Unfolded;
    ghost var before := buffer[..];
    var rev: nat := n / 2;
    UnfoldedStart(before, n);
    while rev > 0
      invariant 2 * rev <= n
      invariant Unfolded(before, buffer[..], n, rev)
    {
      ghost var now := buffer[..];
      var ch := buffer[rev - 1];
      buffer[rev - 1] := buffer[n - rev];
      buffer[n - rev] := ch;
      UnfoldedNext(before, now, n, rev);
      assert buffer[..] == now[rev - 1 := now[n - rev]][n - rev := now[rev - 1]];
      rev := rev - 1;
    }
    UnfoldedEnd(before, buffer[..], n);
    assert buffer[..n] == buffer[..][..n] && before[..n] == old(buffer[..n]);
  }

  lemma ReversedHexBits(before: seq<Byte>, after: seq<Byte>, digits: seq<nat>)
    requires Packed16(before, digits) && |digits| % 2 == 0
    requires |after| == |before| && after[..|digits| / 2] == Reversed(before[..|digits| / 2])
    ensures |digits| <= 2 * |after| && Bits8(after)[..4 * |digits|] == HexBits(digits)
  {
    hide Bit;
    var n, m := |digits|, |digits| / 2;
    forall j | 0 <= j < 4 * n
      ensures Bits8(after)[j] == HexBits(digits)[j]
    {
      var k := m - 1 - j / 8;
      assert after[j / 8] == after[..m][j / 8] == before[..m][k] == before[k];
      assert before[k] == 16 * digits[2 * k] + digits[2 * k + 1];
      NibblePair(digits[2 * k], digits[2 * k + 1], j % 8);
      NibbleIndex(j, n);
    }
  }

  lemma NibbleIndex(j: nat, n: nat)
    requires n % 2 == 0 && j < 4 * n
    ensures n - 1 - j / 4 == 2 * (n / 2 - 1 - j / 8) + (if j % 8 < 4 then 1 else 0)
    ensures j % 4 == if j % 8 < 4 then j % 8 else j % 8 - 4
  {}

  /** `jam_convert_literal_array` */
  method ConvertHex(buffer: array<Byte>, arg: nat) returns (ok: bool, length: nat, words: array<Word>)
    requires NUL in buffer[..] && buffer.Length >= 8
    modifies buffer
    ensures var text := NoSpaces(CString(old(buffer[..])));
            && ok == (AllHex(text) && (|text| > 8 || arg < 4))
            && (ok ==> length == 4 * |text| <= 32 * words.Length
                       && Bits32(words[..])[..length] == HexBits(Digits16(text)))
  {
    hide Packed16, CString, NoSpaces, Bits8, Bits32, IsHex, HexDigit, HexBits;
    ghost var text := NoSpaces(CString(buffer[..]));
    var digits, count := 0, 0;
    length := 0;
    ok, digits := PackHex(buffer);
    if ok {
      length := 4 * digits;
      ArrangeHex(buffer, digits, Digits16(text));
      digits := digits + digits % 2;
      count := ((digits + 1) / 2 + 3) / 4;
      ok := count > 1 || arg < MAX_LITERAL_ARRAYS;
    }
    words := ToWords(buffer, if ok then count else 0);
    if ok {
      FrontBits(buffer[..], 4 * count, length);
    }
  }

  /** The nibble-shift of an odd numeral, and the reversal. */
  method ArrangeHex(buffer: array<Byte>, count: nat, ghost digits: seq<nat>)
    requires count == |digits| < buffer.Length && Packed16(buffer[..], digits)
    modifies buffer
    ensures Bits8(buffer[..])[..4 * count] == HexBits(digits)
  {
    hide Packed16, Bits8, HexBits, Reversed;
    if count % 2 == 1 {
      ShiftNibbles(buffer, count, digits);
    }
    ghost var before := buffer[..];
    ReverseBytes(buffer, (count + 1) / 2);
    ReversedHexBits(before, buffer[..], Even(digits));
    EvenFront(buffer[..], digits);
  }

  lemma EvenFront(buffer: seq<Byte>, digits: seq<nat>)
    requires |Even(digits)| <= 2 * |buffer| && Bits8(buffer)[..4 * |Even(digits)|] == HexBits(Even(digits))
    ensures |digits| <= 2 * |buffer| && Bits8(buffer)[..4 * |digits|] == HexBits(digits)
  {
    LeadingZero(digits);
    assert Bits8(buffer)[..4 * |digits|] == Bits8(buffer)[..4 * |Even(digits)|][..4 * |digits|];
  }

  // ----- the two ways agree -----

  /** A binary array that an initialiser or a literal has filled is the numeral's value. */
  lemma BinaryArrayIsValue(bits: seq<bool>, text: seq<Byte>)
    requires |text| <= |bits| && bits[..|text|] == Reversed(Digits2(text))
    ensures Value(bits[..|text|]) == Numeral2(text)
  {
    Numeral2Value(text);
  }

  /** A hexadecimal array is the numeral's value, less the bits beyond the array's dimension. */
  lemma HexArrayIsValue(bits: seq<bool>, all: seq<Byte>, dimension: nat)
    requires Holds16(bits, all, dimension)
    ensures Value(bits[..dimension]) == Low(Numeral16(Digits16(all[..NibbleCount(dimension)])), dimension)
  {
    hide IsHex, HexDigit, Value, HexBits, Low, Bit;
    var digits := Digits16(all[..NibbleCount(dimension)]);
    Numeral16Value(digits);
    ValueMasked(HexBits(digits), dimension);
  }

  /** A numeral as the statement of an initialiser. */
  lemma NumeralStated(numeral: seq<Byte>)
    ensures NoSpaces(numeral + [SEMICOLON]) == NoSpaces(numeral) + [SEMICOLON]
    ensures NUL !in numeral ==> NUL !in numeral + [SEMICOLON]
  {
    NoSpacesConcat(numeral, [SEMICOLON]);
    NoSpacesOne();
  }

  lemma NoSpacesOne()
    ensures NoSpaces([SEMICOLON]) == [SEMICOLON]
  {
    assert [SEMICOLON][1..] == [];
    NoSpacesOfNothing();
  }

  lemma BinaryStated(digits: seq<Byte>, n: nat)
    requires AllBinary(digits)
    ensures Stated2(digits + [SEMICOLON], n) <==> |digits| == n
    ensures (digits + [SEMICOLON])[..|digits|] == digits
  {
    assert n < |digits| ==> (digits + [SEMICOLON])[n] == digits[n];
  }

  lemma HexStated(digits: seq<Byte>, n: nat)
    requires AllHex(digits)
    ensures Stated16(digits + [SEMICOLON], n) <==> |digits| == n
    ensures (digits + [SEMICOLON])[..|digits|] == digits
  {
    hide IsHex;
    assert !IsHex(SEMICOLON) by { SemicolonIsNoDigit(); }
    assert n < |digits| ==> (digits + [SEMICOLON])[n] == digits[n];
    if |digits| == n {
      assert (digits + [SEMICOLON])[..n] == digits;
    }
  }

  lemma SemicolonIsNoDigit()
    ensures !IsHex(SEMICOLON)
  {}

  /** A binary numeral in the statement buffer, initialising an array and converted as a literal: a
      literal initialises just the arrays of as many bits as it has digits, and with the same bits. */
  method BinaryBothWays(buffer: array<Byte>, arg: nat, heap: array<Word>, dimension: nat)
    returns (initialised: bool, converted: bool, length: nat, words: array<Word>)
    requires NUL in buffer[..] && buffer.Length >= 8 && dimension <= 32 * heap.Length
    modifies buffer, heap
    ensures converted ==> (initialised <==> dimension == length <= 32 * words.Length)
    ensures initialised && converted ==> Bits32(heap[..])[..dimension] == Bits32(words[..])[..dimension]
  {
    hide CString, NoSpaces, Bits32, Digits2, Reversed, Stated2, AllBinary;
    var numeral := CString(buffer[..]);
    ghost var digits := NoSpaces(numeral);
    NumeralStated(numeral);
    initialised := InitialiseBinary(numeral + [SEMICOLON], heap, dimension);
    converted, length, words := ConvertBinary(buffer, arg);
    if converted {
      BinaryStated(digits, dimension);
    }
  }

  /** A hexadecimal one likewise, for the bits up to the dimension. */
  method HexBothWays(buffer: array<Byte>, arg: nat, heap: array<Word>, dimension: nat)
    returns (initialised: bool, converted: bool, length: nat, words: array<Word>)
    requires NUL in buffer[..] && buffer.Length >= 8 && dimension <= 32 * heap.Length
    modifies buffer, heap
    ensures converted ==> (initialised <==> 4 * NibbleCount(dimension) == length <= 32 * words.Length)
    ensures initialised && converted ==> Bits32(heap[..])[..dimension] == Bits32(words[..])[..dimension]
  {
    hide CString, NoSpaces, Bits32, Digits16, HexBits, Stated16, AllHex, NibbleCount;
    var numeral := CString(buffer[..]);
    ghost var digits, n := NoSpaces(numeral), NibbleCount(dimension);
    NumeralStated(numeral);
    WordsHoldNibbles(dimension, heap.Length);
    initialised := InitialiseHex(numeral + [SEMICOLON], heap, dimension);
    converted, length, words := ConvertHex(buffer, arg);
    if converted {
      HexStated(digits, n);
      if initialised {
        assert Bits32(words[..])[..dimension] == Bits32(words[..])[..length][..dimension];
      }
    }
  }
}

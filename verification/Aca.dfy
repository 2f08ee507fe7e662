/** ACA, the compressed form of Boolean array data: a bit reader, and an LZ77-style decoder. */
module Aca {
  import opened Bits

  const SHORT_BITS: nat := 16
  const CHAR_BITS: nat := 8
  const DATA_BLOB_LENGTH: nat := 3
  const MATCH_DATA_LENGTH: nat := 8192

  function Min(a: int, b: int): int { if a < b then a else b }

  /** Conversion to a 16-bit signed integer. */
  function Short(n: int): int { (n + 0x8000) % 0x1_0000 - 0x8000 }

  // ----- the width of a match offset -----

  /** The exact binary width of a number, with one bit for zero. */
  function BitLength(n: nat): (r: nat)
    ensures r >= 1 && n < Pow2(r) && (n > 0 ==> Pow2(r - 1) <= n)
  {
    if n < 2 then 1 else 1 + BitLength(n / 2)
  }

  lemma BitLengthDoubled(n: nat)
    requires n > 0
    ensures BitLength(2 * n) == BitLength(n) + 1
  {
    assert 2 * n / 2 == n;
  }

  lemma {:induction false} BitLengthUnique(n: nat, r: nat)
    requires r >= 1 && Pow2(r - 1) <= n < Pow2(r)
    ensures BitLength(n) == r
  {
    if n >= 2 {
      assert r >= 2;
      BitLengthUnique(n / 2, r - 1);
    }
  }

  lemma TopBitSet(pattern: nat)
    requires pattern < 0x1_0000
    ensures pattern >= 0x8000 ==> BitLength(pattern) == SHORT_BITS
    ensures pattern < 0x8000 ==> BitLength(pattern) < SHORT_BITS
  {
    hide BitLength, Pow2;
    Pow2Constants();
    BitLengthOfZero();
    if pattern >= 0x8000 {
      BitLengthUnique(pattern, 16);
    } else if BitLength(pattern) >= 16 {
      Pow2Monotone(15, BitLength(pattern) - 1);
    }
  }

  /** `jam_bits_required`, on a 16-bit signed argument held as its bit pattern. */
  method BitsRequired(n: int) returns (result: nat)
    requires -0x8000 <= n < 0x8000
    ensures result == if n >= 0 then BitLength(n) else SHORT_BITS
  {
    hide BitLength, Pow2;
    result := SHORT_BITS;
    if n == 0 {
      result := 1;
      BitLengthOfZero();
    } else {
      var pattern := n % 0x1_0000;
      ghost var first := pattern;
      assert if n >= 0 then first == n else first >= 0x8000;
      TopBitSet(pattern);
      while pattern < 0x8000
        invariant 0 < pattern < 0x1_0000
        invariant BitLength(pattern) + result == BitLength(first) + SHORT_BITS
        decreases 0x8000 - pattern
      {
        BitLengthDoubled(pattern);
        TopBitSet(pattern);
        ShiftedLeft(pattern);
        pattern := 2 * pattern % 0x1_0000;
        result := result - 1;
      }
      TopBitSet(pattern);
      TopBitSet(first);
    }
  }

  lemma ShiftedLeft(pattern: nat)
    requires pattern < 0x8000
    ensures 2 * pattern % 0x1_0000 == 2 * pattern
  {}

  lemma BitLengthOfZero()
    ensures BitLength(0) == 1
  {}

  // ----- the bit reader -----

  lemma ShortMasked(n: int, m: nat)
    requires m <= 16
    ensures Low(Short(n), m) == Low(n, m)
  {
    hide Pow2;
    Pow2Constants();
    Pow2Sum(16 - m, m);
    var d, k := Pow2(m), (n + 0x8000) / 0x1_0000;
    ShortShift(n);
    var q := k * Pow2(16 - m);
    MulAssociates(k, Pow2(16 - m), d);
    ModShift(n, d, q);
  }

  lemma ShortShift(n: int)
    ensures Short(n) == n - (n + 0x8000) / 0x1_0000 * 0x1_0000
  {}

  lemma ModShift(n: int, d: nat, q: int)
    requires d > 0
    ensures (n - q * d) % d == n % d
  {
    var t := n / d - q;
    assert n - q * d == t * d + n % d by {
      assert t * d == n / d * d - q * d;
    }
    QuotientUnique(n - q * d, d, t, n % d);
  }

  /** Appending the bits up to `f` to those already taken. */
  lemma Appended(stream: seq<bool>, c: nat, e: nat, f: nat)
    requires c <= e <= f <= |stream|
    ensures Value(stream[c..e]) + Shl(Value(stream[e..f]), e - c) == Value(stream[c..f]) < Pow2(f - c)
  {
    hide Value, Pow2, Shl;
    assert stream[c..f] == stream[c..e] + stream[e..f];
    ValueConcat(stream[c..e], stream[e..f]);
    ValueBound(stream[c..f]);
  }

  /** The 16-bit conversions lose nothing that the final mask keeps. */
  lemma Masked(stream: seq<bool>, c: nat, m: nat, f: nat)
    requires c + m <= f <= |stream| && m <= 14
    ensures Short(Low(Short(Value(stream[c..f])), m)) == Value(stream[c..c + m])
  {
    var all := stream[c..f];
    ShortMasked(Value(all), m);
    ValueMasked(all, m);
    assert all[..m] == stream[c..c + m];
    ValueBound(all[..m]);
    SmallShort(Value(all[..m]), m);
  }

  lemma SmallShort(n: nat, m: nat)
    requires m <= 14 && n < Pow2(m)
    ensures Short(n) == n
  {
    Pow2Monotone(m, 14);
    Pow2Constants();
  }

  lemma LowSmall(n: nat, k: nat)
    requires n < Pow2(k)
    ensures Low(n, k) == n
  {
    QuotientUnique(n, Pow2(k), 0, n);
  }

  /** The last `avail` bits of one byte of a buffer. */
  lemma ByteTail(s: seq<Byte>, k: nat, avail: nat)
    requires k < |s| && avail <= 8
    ensures var tail := Bits8(s)[8 * k + 8 - avail..8 * k + 8];
      Shr(s[k], 8 - avail) == Value(tail) == Low(Value(tail), avail)
  {
    var byte := Bits8(s)[8 * k..8 * k + 8];
    ByteBits(s, k);
    ValueMasked(byte, 8 - avail);
    assert byte[8 - avail..] == Bits8(s)[8 * k + 8 - avail..8 * k + 8];
    ValueBound(byte[8 - avail..]);
    LowSmall(Value(byte[8 - avail..]), avail);
  }

  /** One turn of the loop of `jam_read_packed`. */
  lemma TakeChunk(s: seq<Byte>, index: nat, avail: nat, cursor: nat, shift: nat, remaining: nat)
    requires index < |s| && avail <= 8 && shift + remaining <= 14
    requires cursor + shift == 8 * index + 8 - avail
    ensures var stream := Bits8(s);
      var chunk := Low(Shr(s[index], 8 - avail), avail);
      var sum := Short(Value(stream[cursor..cursor + shift]) + Shl(chunk, shift));
      if remaining <= avail
      then Short(Low(sum, remaining + shift)) == Value(stream[cursor..cursor + shift + remaining])
      else sum == Value(stream[cursor..8 * index + 8])
  {
    hide Value, Bits8, Short, Pow2, Shl, Shr, Low;
    var stream, next := Bits8(s), 8 * index + 8;
    ByteTail(s, index, avail);
    Appended(stream, cursor, cursor + shift, next);
    if remaining <= avail {
      Masked(stream, cursor, shift + remaining, next);
    } else {
      SmallShort(Value(stream[cursor..next]), next - cursor);
    }
  }

  class BitReader {
    var index: nat
    var bitsAvail: nat

    ghost predicate Valid()
      reads this
    {
      bitsAvail <= CHAR_BITS
    }

    /** How many bits have been consumed. */
    ghost function Cursor(): int
      reads this
    {
      8 * index + 8 - bitsAvail
    }

    /** `jam_read_packed(NULL, 0, 0)` */
    constructor ()
      ensures Valid() && index == 0 && Cursor() == 0
    {
      index, bitsAvail := 0, CHAR_BITS;
    }

    /** The next `bits` bits, least significant first, whatever byte boundaries lie between;
        -1 when the buffer does not hold that many more. */
    method ReadPacked(buffer: array<Byte>, length: nat, bits: nat) returns (result: int)
      requires Valid() && index < length <= buffer.Length && bits <= 14
      modifies this
      ensures Valid()
      ensures var cursor := old(Cursor());
        if cursor + bits <= 8 * length
        then result == Value(Bits8(buffer[..])[cursor..cursor + bits]) &&
             Cursor() == cursor + bits && index < length
        else result == -1 && index == length
    {
      hide Value, Bits8, Short, Pow2, Shl, Shr, Low;
      ghost var cursor, stream := Cursor(), Bits8(buffer[..]);
      var remaining: nat, shift: nat := bits, 0;
      result := 0;
      ValueOfNothing(stream, cursor);
      while result != -1 && remaining > 0
        invariant Valid() && buffer[..] == old(buffer[..])
        invariant result == -1 ==> index == length && cursor + bits > 8 * length
        invariant result != -1 ==> index < length && cursor <= Cursor() <= 8 * length
        invariant result != -1 ==> Cursor() - cursor == if remaining == 0 then bits else shift
        invariant result != -1 && remaining > 0 ==> shift + remaining == bits
        invariant result != -1 ==> result == Value(stream[cursor..Cursor()]) >= 0
        decreases result != -1, remaining, length - index
      {
        TakeChunk(buffer[..], index, bitsAvail, cursor, shift, remaining);
        var chunk := Low(Shr(buffer[index], CHAR_BITS - bitsAvail), bitsAvail);
        result := Short(result + Shl(chunk, shift));
        if remaining <= bitsAvail {
          result := Short(Low(result, remaining + shift));
          bitsAvail := bitsAvail - remaining;
          remaining := 0;
        } else {
          index := index + 1;
          if index >= length {
            result := -1;
          } else {
            shift := shift + bitsAvail;
            remaining := remaining - bitsAvail;
            bitsAvail := CHAR_BITS;
          }
        }
      }
    }
  }

  lemma ValueOfNothing(stream: seq<bool>, cursor: nat)
    requires cursor <= |stream|
    ensures Value(stream[cursor..cursor]) == 0
  {}

  /** What a series of reads should return: consecutive slices, and -1 for the first that does not fit. */
  function Slices(stream: seq<bool>, at: nat, end: nat, widths: seq<nat>): seq<int>
    requires at <= end <= |stream|
    decreases |widths|
  {
    if widths == [] then []
    else if at + widths[0] > end then [-1]
    else [Value(stream[at..at + widths[0]])] + Slices(stream, at + widths[0], end, widths[1..])
  }

  lemma SlicesNext(stream: seq<bool>, at: nat, end: nat, widths: seq<nat>, i: nat)
    requires at <= end <= |stream| && i < |widths|
    ensures Slices(stream, at, end, widths[i..]) ==
            if at + widths[i] > end then [-1]
            else [Value(stream[at..at + widths[i]])] + Slices(stream, at + widths[i], end, widths[i + 1..])
  {
    hide Value;
    assert widths[i..][0] == widths[i] && widths[i..][1..] == widths[i + 1..];
  }

  lemma NoSlices(stream: seq<bool>, at: nat, end: nat)
    requires at <= end <= |stream|
    ensures Slices(stream, at, end, []) == []
  {}

  /** Any series of reads of a fresh reader, up to the first failure. */
  method ReadSeries(buffer: array<Byte>, length: nat, widths: seq<nat>) returns (results: seq<int>)
    requires 0 < length <= buffer.Length && forall w :: w in widths ==> w <= 14
    ensures results == Slices(Bits8(buffer[..]), 0, 8 * length, widths)
  {
    hide Bits8, Value, Bit, Pow2, Slices;
    var reader := new BitReader();
    ghost var stream := Bits8(buffer[..]);
    results := [];
    var i := 0;
    assert widths[0..] == widths;
    while i < |widths|
      invariant i <= |widths| && reader.Valid() && reader.index < length
      invariant 0 <= reader.Cursor() <= 8 * length
      invariant Slices(stream, 0, 8 * length, widths) ==
                results + Slices(stream, reader.Cursor(), 8 * length, widths[i..])
    {
      SlicesNext(stream, reader.Cursor(), 8 * length, widths, i);
      assert widths[i] in widths;
      var value := reader.ReadPacked(buffer, length, widths[i]);
      results := results + [value];
      if value == -1 {
        return;
      }
      i := i + 1;
    }
    NoSlices(stream, reader.Cursor(), 8 * length);
    assert widths[i..] == [] && results + [] == results;
  }

  // ----- what an ACA stream means -----

  /** A group of literal bytes, or a copy of `length` bytes that begin `offset` bytes back. */
  datatype Token = Literal(bytes: seq<Byte>) | Match(offset: nat, length: Byte)

  function Window(version: int): (w: nat)
    ensures w <= MATCH_DATA_LENGTH
  {
    if version == 2 then MATCH_DATA_LENGTH - 1 else MATCH_DATA_LENGTH
  }

  function OffsetWidth(i: nat, window: nat): nat { BitLength(Min(i, window)) }

  /** A token that the decoder can take after `i` bytes of a text of `total` bytes: the offset fits
      its field, and no byte is copied from before the text. */
  predicate Legal(i: nat, t: Token, total: nat, window: nat) {
    i < total &&
    match t
    case Literal(bytes) => |bytes| == Min(DATA_BLOB_LENGTH, total - i)
    case Match(offset, length) => offset < Pow2(OffsetWidth(i, window)) && (length == 0 || offset <= i)
  }

  /** The byte that a match copies; at no distance it is the zero the text was cleared with. */
  function ByteBack(done: seq<Byte>, offset: nat): Byte
    requires offset <= |done|
  {
    if offset == 0 then 0 else done[|done| - offset]
  }

  /** A copy may overlap itself: each byte is appended before the next is read. */
  function CopyBack(done: seq<Byte>, offset: nat, n: nat): (r: seq<Byte>)
    requires n == 0 || offset <= |done|
    ensures |r| == |done| + n && r[..|done|] == done
    decreases n
  {
    if n == 0 then done else CopyBack(done + [ByteBack(done, offset)], offset, n - 1)
  }

  /** The text after one more token; a copy stops at the end of the text. */
  function Expand(done: seq<Byte>, t: Token, total: nat, window: nat): (r: seq<Byte>)
    requires Legal(|done|, t, total, window)
    ensures |done| <= |r| <= total
  {
    match t
    case Literal(bytes) => done + bytes
    case Match(offset, length) => CopyBack(done, offset, Min(length, total - |done|))
  }

  predicate LegalAll(done: seq<Byte>, ts: seq<Token>, total: nat, window: nat)
    decreases |ts|
  {
    if ts == [] then |done| == total
    else Legal(|done|, ts[0], total, window) &&
         LegalAll(Expand(done, ts[0], total, window), ts[1..], total, window)
  }

  /** The LZ expansion of a list of tokens. */
  function ExpandAll(done: seq<Byte>, ts: seq<Token>, total: nat, window: nat): (r: seq<Byte>)
    requires LegalAll(done, ts, total, window)
    ensures |r| == total
    decreases |ts|
  {
    if ts == [] then done else ExpandAll(Expand(done, ts[0], total, window), ts[1..], total, window)
  }

  function ByteBitsOf(bytes: seq<Byte>): (bits: seq<bool>)
    ensures |bits| == 8 * |bytes|
  {
    if bytes == [] then [] else ToBits(bytes[0], CHAR_BITS) + ByteBitsOf(bytes[1..])
  }

  function EncodeToken(i: nat, t: Token, window: nat): seq<bool> {
    match t
    case Literal(bytes) => [false] + ByteBitsOf(bytes)
    case Match(offset, length) =>
      [true] + (ToBits(offset, OffsetWidth(i, window)) + ToBits(length, CHAR_BITS))
  }

  function EncodeAll(done: seq<Byte>, ts: seq<Token>, total: nat, window: nat): seq<bool>
    requires LegalAll(done, ts, total, window)
    decreases |ts|
  {
    if ts == [] then []
    else EncodeToken(|done|, ts[0], window) +
         EncodeAll(Expand(done, ts[0], total, window), ts[1..], total, window)
  }

  /** A whole stream: the length in four bytes, then the tokens. */
  function Encode(ts: seq<Token>, total: nat, window: nat): seq<bool>
    requires LegalAll([], ts, total, window)
  {
    ToBits(total, 32) + EncodeAll([], ts, total, window)
  }

  // ----- what the decoder makes of any stream -----

  /** The length returned and the text behind it; or a read that the stream is too short for; or a
      copy from before the text. */
  datatype Result = Text(length: int, text: seq<Byte>) | RanOut | BadOffset

  /** The bits of a token after its flag. */
  function BodyBits(isMatch: bool, i: nat, total: nat, window: nat): nat
    requires i < total
  {
    if isMatch then OffsetWidth(i, window) + CHAR_BITS else CHAR_BITS * Min(DATA_BLOB_LENGTH, total - i)
  }

  function BytesIn(bits: seq<bool>, n: nat): (bytes: seq<Byte>)
    requires 8 * n <= |bits|
    ensures |bytes| == n
    decreases n
  {
    if n == 0 then [] else [ByteIn(bits)] + BytesIn(bits[8..], n - 1)
  }

  function ByteIn(bits: seq<bool>): (b: Byte)
    requires |bits| >= 8
    ensures b == Value(bits[..8])
  {
    ValueBound(bits[..8]);
    Pow2Constants();
    Value(bits[..8])
  }

  /** The token at the front of a stream. */
  function Front(rest: seq<bool>, i: nat, total: nat, window: nat): (t: Token)
    requires i < total && rest != [] && |rest| > BodyBits(rest[0], i, total, window)
    ensures t.Match? == rest[0]
  {
    var w := OffsetWidth(i, window);
    if rest[0] then Match(Value(rest[1..1 + w]), ByteIn(rest[1 + w..]))
    else Literal(BytesIn(rest[1..], Min(DATA_BLOB_LENGTH, total - i)))
  }

  /** The decoder's loop on a stream of any bits. */
  function Decode(rest: seq<bool>, done: seq<Byte>, total: nat, window: nat): (r: Result)
    requires |done| <= total
    ensures r.Text? ==> r.length == total == |r.text|
    decreases |rest|
  {
    if |done| == total then Text(total, done)
    else if rest == [] || |rest| <= BodyBits(rest[0], |done|, total, window) then RanOut
    else
      var t := Front(rest, |done|, total, window);
      if !Legal(|done|, t, total, window) then BadOffset
      else Decode(rest[1 + BodyBits(rest[0], |done|, total, window)..], Expand(done, t, total, window), total, window)
  }

  /** A 32-bit integer in two's complement. */
  function Signed(n: nat): int
    requires n < 0x1_0000_0000
  {
    if n < 0x8000_0000 then n else n - 0x1_0000_0000
  }

  function Header(stream: seq<bool>): int
    requires |stream| >= 32
  {
    ValueBound(stream[..32]);
    Pow2Constants();
    Signed(Value(stream[..32]))
  }

  /** `jam_uncompress` on a stream of any bits. */
  function Uncompressed(stream: seq<bool>, outLength: nat, window: nat): (r: Result)
    ensures r.Text? ==> r.length <= outLength && |r.text| == if r.length < 0 then 0 else r.length
  {
    if |stream| < 32 then RanOut
    else
      var total := Header(stream);
      if total > outLength then Text(-1, [])
      else if total < 0 then Text(total, [])
      else Decode(stream[32..], [], total, window)
  }

  // ----- it is the tokens' expansion if and only if there are such tokens -----

  lemma {:induction false} BitsAgain(bits: seq<bool>)
    ensures ToBits(Value(bits), |bits|) == bits
  {
    if bits != [] {
      var n := Value(bits);
      BitsAgain(bits[1..]);
      assert n / 2 == Value(bits[1..]) && (n % 2 == 1) == bits[0];
      assert bits == [bits[0]] + bits[1..];
    }
  }

  lemma {:induction false} BytesAgain(bits: seq<bool>, n: nat)
    requires |bits| == 8 * n
    ensures ByteBitsOf(BytesIn(bits, n)) == bits
    decreases n
  {
    hide ToBits, Value;
    if n > 0 {
      BitsAgain(bits[..8]);
      BytesAgain(bits[8..], n - 1);
      var bytes := BytesIn(bits, n);
      assert bytes[1..] == BytesIn(bits[8..], n - 1);
      assert bits == bits[..8] + bits[8..];
    }
  }

  lemma {:induction false} BytesFront(bits: seq<bool>, more: seq<bool>, n: nat)
    requires |bits| == 8 * n
    ensures BytesIn(bits + more, n) == BytesIn(bits, n)
    decreases n
  {
    hide Value;
    if n > 0 {
      assert (bits + more)[..8] == bits[..8] && (bits + more)[8..] == bits[8..] + more;
      BytesFront(bits[8..], more, n - 1);
    }
  }

  lemma {:induction false} BytesRead(bytes: seq<Byte>, more: seq<bool>)
    ensures BytesIn(ByteBitsOf(bytes) + more, |bytes|) == bytes
    decreases |bytes|
  {
    hide ToBits, Value;
    if bytes != [] {
      var bits := ByteBitsOf(bytes) + more;
      assert bits == ToBits(bytes[0], CHAR_BITS) + (ByteBitsOf(bytes[1..]) + more);
      Pow2Constants();
      ValueOfToBits(bytes[0], CHAR_BITS);
      BytesRead(bytes[1..], more);
      assert bits[..8] == ToBits(bytes[0], CHAR_BITS) && bits[8..] == ByteBitsOf(bytes[1..]) + more;
      assert bytes == [bytes[0]] + bytes[1..];
    }
  }

  lemma FrontMatch(rest: seq<bool>, w: nat)
    requires |rest| >= w + 9
    ensures ToBits(Value(rest[1..1 + w]), w) + ToBits(ByteIn(rest[1 + w..]), CHAR_BITS) == rest[1..w + 9]
  {
    hide ToBits, Value;
    BitsAgain(rest[1..1 + w]);
    BitsAgain(rest[1 + w..][..8]);
    TwoFields(rest, w);
  }

  lemma TwoFields(rest: seq<bool>, w: nat)
    requires |rest| >= w + 9
    ensures rest[1..w + 9] == rest[1..1 + w] + rest[1 + w..][..8]
  {}

  lemma FrontLiteral(rest: seq<bool>, n: nat)
    requires |rest| >= 8 * n + 1
    ensures ByteBitsOf(BytesIn(rest[1..], n)) == rest[1..8 * n + 1]
  {
    hide ByteBitsOf, BytesIn;
    var body, more := rest[1..8 * n + 1], rest[8 * n + 1..];
    assert rest[1..] == body + more;
    BytesFront(body, more, n);
    BytesAgain(body, n);
  }

  lemma FlagThenBody(rest: seq<bool>, n: nat)
    requires |rest| > n
    ensures rest[..1 + n] == [rest[0]] + rest[1..1 + n]
  {}

  /** The token in front encodes to the bits in front. */
  lemma FrontEncodes(rest: seq<bool>, i: nat, total: nat, window: nat)
    requires i < total && rest != [] && |rest| > BodyBits(rest[0], i, total, window)
    ensures EncodeToken(i, Front(rest, i, total, window), window) == rest[..1 + BodyBits(rest[0], i, total, window)]
  {
    hide ToBits, Value, OffsetWidth, ByteBitsOf, BytesIn, ByteIn;
    FlagThenBody(rest, BodyBits(rest[0], i, total, window));
    if rest[0] {
      FrontMatch(rest, OffsetWidth(i, window));
    } else {
      FrontLiteral(rest, Min(DATA_BLOB_LENGTH, total - i));
    }
  }

  lemma MatchInFront(offset: nat, length: Byte, w: nat, more: seq<bool>)
    requires offset < Pow2(w)
    ensures var rest := [true] + (ToBits(offset, w) + ToBits(length, CHAR_BITS)) + more;
            Value(rest[1..1 + w]) == offset && ByteIn(rest[1 + w..]) == length && rest[w + 9..] == more
  {
    hide ToBits, Value, Pow2;
    var a, b := ToBits(offset, w), ToBits(length, CHAR_BITS);
    var rest := [true] + (a + b) + more;
    assert rest == [true] + a + b + more;
    Pow2Constants();
    ValueOfToBits(offset, w);
    ValueOfToBits(length, CHAR_BITS);
    assert rest[1..1 + w] == a && rest[1 + w..][..8] == b;
  }

  lemma LiteralInFront(bytes: seq<Byte>, more: seq<bool>)
    ensures var rest := [false] + ByteBitsOf(bytes) + more;
            BytesIn(rest[1..], |bytes|) == bytes && rest[8 * |bytes| + 1..] == more
  {
    hide ByteBitsOf, BytesIn;
    var rest := [false] + ByteBitsOf(bytes) + more;
    assert rest == [false] + (ByteBitsOf(bytes) + more);
    assert rest[1..] == ByteBitsOf(bytes) + more;
    BytesRead(bytes, more);
  }

  /** A legal token is the one in front of its encoding. */
  lemma FrontOfEncoded(i: nat, t: Token, total: nat, window: nat, more: seq<bool>)
    requires Legal(i, t, total, window)
    ensures var rest := EncodeToken(i, t, window) + more;
            && rest[0] == t.Match? && |rest| == 1 + BodyBits(rest[0], i, total, window) + |more|
            && Front(rest, i, total, window) == t && rest[1 + BodyBits(rest[0], i, total, window)..] == more
  {
    hide ToBits, Value, BitLength, ByteBitsOf, BytesIn, ByteIn, Pow2;
    match t
    case Literal(bytes) => LiteralInFront(bytes, more);
    case Match(offset, length) => MatchInFront(offset, length, OffsetWidth(i, window), more);
  }

  /** Whatever follows the encoding of legal tokens, the decoder yields their expansion. */
  lemma {:induction false} DecodeComplete(done: seq<Byte>, ts: seq<Token>, total: nat, window: nat, more: seq<bool>)
    requires LegalAll(done, ts, total, window) && |done| <= total
    ensures Decode(EncodeAll(done, ts, total, window) + more, done, total, window) ==
            Text(total, ExpandAll(done, ts, total, window))
    decreases |ts|
  {
    hide EncodeToken, Expand, Front, BodyBits, Legal;
    if ts != [] {
      LegalInside(|done|, ts[0], total, window);
      var next := Expand(done, ts[0], total, window);
      var tail := EncodeAll(next, ts[1..], total, window) + more;
      assert EncodeAll(done, ts, total, window) + more == EncodeToken(|done|, ts[0], window) + tail;
      FrontOfEncoded(|done|, ts[0], total, window, tail);
      DecodeComplete(next, ts[1..], total, window, more);
    }
  }

  lemma LegalInside(i: nat, t: Token, total: nat, window: nat)
    requires Legal(i, t, total, window)
    ensures i < total
  {}

  /** And what it yields is the expansion of legal tokens whose encoding is in front. */
  lemma {:induction false} DecodeSound(rest: seq<bool>, done: seq<Byte>, total: nat, window: nat)
    returns (ts: seq<Token>)
    requires |done| <= total && Decode(rest, done, total, window).Text?
    ensures LegalAll(done, ts, total, window)
    ensures EncodeAll(done, ts, total, window) <= rest
    ensures ExpandAll(done, ts, total, window) == Decode(rest, done, total, window).text
    decreases |rest|
  {
    hide EncodeToken, Expand, Front, BodyBits, Legal;
    if |done| == total {
      ts := [];
    } else {
      var t, n := Front(rest, |done|, total, window), 1 + BodyBits(rest[0], |done|, total, window);
      var next := Expand(done, t, total, window);
      FrontEncodes(rest, |done|, total, window);
      var later := DecodeSound(rest[n..], next, total, window);
      ts := [t] + later;
      assert ts[1..] == later;
      assert rest == rest[..n] + rest[n..];
    }
  }

  /** Some tokens encode to the front of a stream and expand to a text. */
  ghost predicate Codes(ts: seq<Token>, text: seq<Byte>, stream: seq<bool>, window: nat) {
    && LegalAll([], ts, |text|, window) && ExpandAll([], ts, |text|, window) == text
    && Encode(ts, |text|, window) <= stream
  }

  lemma HeaderRead(total: nat, more: seq<bool>)
    requires total < 0x8000_0000
    ensures Header(ToBits(total, 32) + more) == total && (ToBits(total, 32) + more)[32..] == more
  {
    hide ToBits, Value, Pow2;
    Pow2Constants();
    ValueOfToBits(total, 32);
    assert (ToBits(total, 32) + more)[..32] == ToBits(total, 32);
  }

  lemma HeaderBack(stream: seq<bool>)
    requires |stream| >= 32 && Header(stream) >= 0
    ensures ToBits(Header(stream), 32) == stream[..32]
  {
    hide ToBits, Value, Pow2;
    ValueBound(stream[..32]);
    Pow2Constants();
    BitsAgain(stream[..32]);
  }

  lemma CodesComplete(ts: seq<Token>, text: seq<Byte>, stream: seq<bool>, outLength: nat, window: nat)
    requires Codes(ts, text, stream, window) && |text| < 0x8000_0000
    ensures Uncompressed(stream, outLength, window) == if |text| <= outLength then Text(|text|, text) else Text(-1, [])
  {
    hide ToBits, EncodeAll, Decode, LegalAll, ExpandAll, Header;
    var code, body := Encode(ts, |text|, window), EncodeAll([], ts, |text|, window);
    var more := stream[|code|..];
    assert stream == ToBits(|text|, 32) + (body + more);
    HeaderRead(|text|, body + more);
    DecodeComplete([], ts, |text|, window, more);
  }

  /** For a stream of any bits: the decoder returns a text if and only if the stream begins with the
      encoding of legal tokens that expand to it, and there is room for it. */
  lemma UncompressedExactly(stream: seq<bool>, outLength: nat, window: nat, text: seq<Byte>)
    requires outLength < 0x8000_0000
    ensures Uncompressed(stream, outLength, window) == Text(|text|, text) <==>
            |text| <= outLength && exists ts :: Codes(ts, text, stream, window)
  {
    hide ToBits, EncodeAll, Decode, LegalAll, ExpandAll, Header;
    if Uncompressed(stream, outLength, window) == Text(|text|, text) {
      var ts := DecodeSound(stream[32..], [], |text|, window);
      HeaderBack(stream);
      assert stream == stream[..32] + stream[32..];
      assert Codes(ts, text, stream, window);
    }
    if |text| <= outLength && exists ts :: Codes(ts, text, stream, window) {
      var ts :| Codes(ts, text, stream, window);
      CodesComplete(ts, text, stream, outLength, window);
    }
  }

  // ----- every text has an encoding -----

  /** Literal groups for the rest of a text. */
  function Literals(text: seq<Byte>, i: nat): (ts: seq<Token>)
    requires i <= |text|
    decreases |text| - i
  {
    if i == |text| then []
    else var n := Min(DATA_BLOB_LENGTH, |text| - i);
      [Literal(text[i..i + n])] + Literals(text, i + n)
  }

  lemma {:induction false} LiteralsExpand(text: seq<Byte>, i: nat, window: nat)
    requires i <= |text|
    ensures LegalAll(text[..i], Literals(text, i), |text|, window)
    ensures ExpandAll(text[..i], Literals(text, i), |text|, window) == text
    decreases |text| - i
  {
    if i < |text| {
      var n := Min(DATA_BLOB_LENGTH, |text| - i);
      assert text[..i] + text[i..i + n] == text[..i + n];
      assert Literals(text, i)[1..] == Literals(text, i + n);
      LiteralsExpand(text, i + n, window);
    } else {
      assert text[..i] == text;
    }
  }

  /** Every text is the expansion of some legal token list. */
  lemma EveryTextHasTokens(text: seq<Byte>, version: int)
    ensures exists ts :: LegalAll([], ts, |text|, Window(version)) &&
                         ExpandAll([], ts, |text|, Window(version)) == text
  {
    LiteralsExpand(text, 0, Window(version));
    assert text[..0] == [];
    var ts := Literals(text, 0);
    assert LegalAll([], ts, |text|, Window(version));
  }

  /** An offset into the window fits its field, which has at most fourteen bits. */
  lemma OffsetFits(i: nat, offset: nat, window: nat)
    requires window <= MATCH_DATA_LENGTH
    ensures OffsetWidth(i, window) <= 14
    ensures offset <= Min(i, window) ==> offset < Pow2(OffsetWidth(i, window))
  {
    var n := Min(i, window);
    if BitLength(n) > 14 {
      Pow2Monotone(14, BitLength(n) - 1);
      Pow2Constants();
    }
  }

  // ----- how long an encoding is -----

  /** The bits of a token that follows `i` bytes. */
  function TokenBits(i: nat, t: Token, window: nat): nat {
    match t
    case Literal(bytes) => 1 + 8 * |bytes|
    case Match(offset, length) => 9 + OffsetWidth(i, window)
  }

  /** The bits of some tokens, found without encoding or expanding them. */
  function Size(i: nat, ts: seq<Token>, total: nat, window: nat): nat
    decreases |ts|
  {
    if ts == [] then 0
    else TokenBits(i, ts[0], window) + Size(Min(i + BytesOf(ts[0]), total), ts[1..], total, window)
  }

  /** The bytes a token stands for, unless the text ends. */
  function BytesOf(t: Token): nat { if t.Literal? then |t.bytes| else t.length }

  lemma TokenSize(done: seq<Byte>, t: Token, total: nat, window: nat)
    requires Legal(|done|, t, total, window)
    ensures |EncodeToken(|done|, t, window)| == TokenBits(|done|, t, window)
    ensures |Expand(done, t, total, window)| == Min(|done| + BytesOf(t), total)
  {
    hide ToBits, BitLength, Pow2;
  }

  lemma {:induction false} EncodedSize(done: seq<Byte>, ts: seq<Token>, total: nat, window: nat)
    requires LegalAll(done, ts, total, window)
    ensures |EncodeAll(done, ts, total, window)| == Size(|done|, ts, total, window)
    decreases |ts|
  {
    hide EncodeToken, Expand, TokenBits, BytesOf, Legal;
    if ts != [] {
      TokenSize(done, ts[0], total, window);
      EncodedSize(Expand(done, ts[0], total, window), ts[1..], total, window);
    }
  }

  /** Nine bits for each byte of a text, less what groups of three save. */
  lemma {:induction false} LiteralsSize(text: seq<Byte>, i: nat, window: nat)
    requires i <= |text|
    ensures Size(i, Literals(text, i), |text|, window) == 8 * (|text| - i) + (|text| - i + 2) / 3
    decreases |text| - i
  {
    if i < |text| {
      var n := Min(DATA_BLOB_LENGTH, |text| - i);
      LiteralsSize(text, i + n, window);
      assert Literals(text, i)[1..] == Literals(text, i + n);
    }
  }

  /** Matches without bytes, before other tokens. */
  function Stalled(k: nat, ts: seq<Token>): seq<Token> {
    if k == 0 then ts else [Match(0, 0)] + Stalled(k - 1, ts)
  }

  /** Before the end of a text they are legal anywhere, and change nothing but the size. */
  lemma {:induction false} StalledSame(done: seq<Byte>, k: nat, ts: seq<Token>, total: nat, window: nat)
    requires |done| < total && LegalAll(done, ts, total, window)
    ensures LegalAll(done, Stalled(k, ts), total, window)
    ensures ExpandAll(done, Stalled(k, ts), total, window) == ExpandAll(done, ts, total, window)
    ensures Size(|done|, Stalled(k, ts), total, window) >= 10 * k
    decreases k
  {
    hide BitLength, Pow2;
    if k > 0 {
      StalledSame(done, k - 1, ts, total, window);
      assert Stalled(k, ts)[1..] == Stalled(k - 1, ts);
    }
  }

  /** Legal tokens that expand to a text. */
  ghost predicate TokensOf(ts: seq<Token>, text: seq<Byte>, version: int) {
    LegalAll([], ts, |text|, Window(version)) && ExpandAll([], ts, |text|, Window(version)) == text
  }

  /** A text that is not empty has lists of any size. */
  lemma LongTokens(text: seq<Byte>, version: int, bits: nat) returns (ts: seq<Token>)
    requires text != []
    ensures TokensOf(ts, text, version) && Size(0, ts, |text|, Window(version)) >= bits
  {
    assert text[..0] == [];
    LiteralsExpand(text, 0, Window(version));
    StalledSame([], bits, Literals(text, 0), |text|, Window(version));
    ts := Stalled(bits, Literals(text, 0));
  }

  // ----- the decoder -----

  /** What is left of the stream is `rest`. */
  ghost predicate Left(reader: BitReader, input: array<Byte>, length: nat, rest: seq<bool>)
    reads reader, input
  {
    reader.Valid() && reader.index < length <= input.Length && 0 <= reader.Cursor() <= 8 * length &&
    Bits8(input[..])[reader.Cursor()..8 * length] == rest
  }

  method ReadBits(reader: BitReader, input: array<Byte>, length: nat, w: nat, ghost rest: seq<bool>)
    returns (value: int)
    requires Left(reader, input, length, rest) && w <= 14
    modifies reader
    ensures if w <= |rest| then value == Value(rest[..w]) && Left(reader, input, length, rest[w..]) else value == -1
  {
    hide Bits8, Value;
    ghost var stream, cursor := Bits8(input[..]), reader.Cursor();
    value := reader.ReadPacked(input, length, w);
    if w <= |rest| {
      assert stream[cursor..8 * length][..w] == stream[cursor..cursor + w];
      assert stream[cursor..8 * length][w..] == stream[cursor + w..8 * length];
    }
  }

  /** What a read may end with: as the source goes on after a read that fails, and copies from before the
      text, the model stops there. */
  datatype Fault = NoFault | ShortStream | FarOffset

  function FaultOf(r: Result): Fault {
    match r
    case Text(_, _) => NoFault
    case RanOut => ShortStream
    case BadOffset => FarOffset
  }

  lemma NoBitsLeft(rest: seq<bool>)
    ensures Value(rest[..0]) == 0 && rest[0..] == rest
  {}

  /** The four length bytes. */
  method ReadLength(reader: BitReader, input: array<Byte>, length: nat, ghost rest: seq<bool>)
    returns (value: int, fault: Fault)
    requires Left(reader, input, length, rest)
    modifies reader
    ensures fault == if |rest| >= 32 then NoFault else ShortStream
    ensures fault.NoFault? ==> value == Header(rest) && Left(reader, input, length, rest[32..])
  {
    hide ToBits, Value, Pow2, Shl, Left;
    value, fault := 0, NoFault;
    NoBitsLeft(rest);
    for i := 0 to 4
      invariant 8 * i <= |rest| && Left(reader, input, length, rest[8 * i..])
      invariant value == Value(rest[..8 * i])
    {
      var v := ReadBits(reader, input, length, CHAR_BITS, rest[8 * i..]);
      if v == -1 {
        return 0, ShortStream;
      }
      NextByte(rest, i);
      ValueConcat(rest[..8 * i], rest[8 * i..8 * i + 8]);
      value := value + Shl(v, i * CHAR_BITS);
    }
    ValueBound(rest[..32]);
    Pow2Constants();
    value := if value < 0x8000_0000 then value else value - 0x1_0000_0000;
  }

  lemma NextByte(rest: seq<bool>, i: nat)
    requires 8 * i + 8 <= |rest|
    ensures rest[8 * i..][..8] == rest[8 * i..8 * i + 8]
    ensures rest[8 * i..][8..] == rest[8 * i + 8..]
    ensures rest[..8 * i + 8] == rest[..8 * i] + rest[8 * i..8 * i + 8]
  {}

  /** A literal group: up to three bytes, fewer at the end of the text. */
  method ReadLiteral(reader: BitReader, input: array<Byte>, length: nat, out: array<Byte>, start: nat, total: nat,
                     ghost rest: seq<bool>)
    returns (i: nat, fault: Fault)
    requires Left(reader, input, length, rest) && start < total <= out.Length && out != input
    modifies reader, out
    ensures var n := Min(DATA_BLOB_LENGTH, total - start);
            && fault == (if 8 * n <= |rest| then NoFault else ShortStream)
            && (fault.NoFault? ==>
                  && i == start + n && Left(reader, input, length, rest[8 * n..])
                  && out[..i] == old(out[..start]) + BytesIn(rest, n))
    ensures fault.NoFault? ==> forall k :: i <= k < out.Length ==> out[k] == old(out[k])
    ensures forall k :: total <= k < out.Length ==> out[k] == old(out[k])
  {
    hide Left, Value, Pow2;
    i, fault := start, NoFault;
    ghost var n := Min(DATA_BLOB_LENGTH, total - start);
    NoBitsLeft(rest);
    for j := 0 to DATA_BLOB_LENGTH
      invariant i == start + Min(j, n) && 8 * (i - start) <= |rest|
      invariant Left(reader, input, length, rest[8 * (i - start)..])
      invariant out[..i] == old(out[..start]) + BytesIn(rest, i - start)
      invariant forall k :: i <= k < out.Length ==> out[k] == old(out[k])
    {
      if i < total {
        ghost var k := i - start;
        var v := ReadBits(reader, input, length, CHAR_BITS, rest[8 * k..]);
        if v == -1 {
          return i, ShortStream;
        }
        NextByte(rest, k);
        BytesInNext(rest, k);
        ValueBound(rest[8 * k..8 * k + 8]);
        Pow2Constants();
        out[i] := v;
        assert out[..i + 1] == out[..i] + [v];
        i := i + 1;
      }
    }
  }

  lemma {:induction false} BytesInNext(bits: seq<bool>, n: nat)
    requires 8 * n + 8 <= |bits|
    ensures BytesIn(bits, n + 1) == BytesIn(bits, n) + [ByteIn(bits[8 * n..])]
    decreases n
  {
    hide ByteIn;
    if n > 0 {
      BytesInNext(bits[8..], n - 1);
      assert bits[8..][8 * (n - 1)..] == bits[8 * n..];
    }
  }

  /** A match: an overlapping copy inside the output, which was cleared before. */
  method CopyMatch(out: array<Byte>, start: nat, total: nat, offset: nat, length: nat)
    returns (i: nat)
    requires start < total <= out.Length && (length == 0 || offset <= start)
    requires forall k :: start <= k < total ==> out[k] == 0
    modifies out
    ensures i == start + Min(length, total - start)
    ensures out[..i] == CopyBack(old(out[..start]), offset, i - start)
    ensures forall k :: i <= k < out.Length ==> out[k] == old(out[k])
  {
    i := start;
    for j := 0 to length
      invariant i == start + Min(j, total - start)
      invariant out[..i] == CopyBack(old(out[..start]), offset, i - start)
      invariant forall k :: i <= k < out.Length ==> out[k] == old(out[k])
    {
      if i < total {
        CopyBackSnoc(old(out[..start]), offset, i - start);
        out[i] := out[i - offset];
        assert out[..i + 1] == out[..i] + [out[i]];
        i := i + 1;
      }
    }
  }

  lemma {:induction false} CopyBackSnoc(done: seq<Byte>, offset: nat, n: nat)
    requires offset <= |done|
    ensures var r := CopyBack(done, offset, n);
      CopyBack(done, offset, n + 1) == r + [ByteBack(r, offset)]
    decreases n
  {
    if n > 0 {
      CopyBackSnoc(done + [ByteBack(done, offset)], offset, n - 1);
    }
  }

  /** A match: the offset in as many bits as the text so far needs, and the length in a byte. */
  method ReadMatch(reader: BitReader, input: array<Byte>, length: nat, out: array<Byte>, start: nat, total: nat,
                   window: nat, ghost rest: seq<bool>)
    returns (i: nat, fault: Fault)
    requires Left(reader, input, length, rest)
    requires start < total <= out.Length && out != input && window <= MATCH_DATA_LENGTH
    requires forall k :: start <= k < total ==> out[k] == 0
    modifies reader, out
    ensures var w := OffsetWidth(start, window);
            if |rest| < w + 8 then fault == ShortStream
            else
              var offset, n := Value(rest[..w]), ByteIn(rest[w..]);
              if n > 0 && offset > start then fault == FarOffset
              else
                && fault == NoFault && start <= i <= total && Left(reader, input, length, rest[w + 8..])
                && out[..i] == CopyBack(old(out[..start]), offset, Min(n, total - start))
    ensures forall k :: start <= k < out.Length && (fault.NoFault? ==> i <= k) ==> out[k] == old(out[k])
  {
    hide Left, Pow2, CopyBack, OffsetWidth, BitLength, Value, ByteIn;
    i, fault := start, NoFault;
    var w := BitsRequired(if start > window then window else start);
    OffsetFits(start, 0, window);
    WidthIs(start, window, w);
    var offset := ReadBits(reader, input, length, w, rest);
    if offset == -1 {
      return start, ShortStream;
    }
    var n := ReadBits(reader, input, length, CHAR_BITS, rest[w..]);
    if n == -1 {
      return start, ShortStream;
    }
    ByteAt(rest, w);
    if n > 0 && offset > start {
      return start, FarOffset;
    }
    i := CopyMatch(out, start, total, offset, n);
  }

  lemma ByteAt(rest: seq<bool>, w: nat)
    requires w + 8 <= |rest|
    ensures Value(rest[w..][..8]) == ByteIn(rest[w..]) && rest[w..][8..] == rest[w + 8..]
  {
    hide Value;
  }

  lemma WidthIs(i: nat, window: nat, w: nat)
    requires w == BitLength(Min(i, window))
    ensures w == OffsetWidth(i, window)
  {}

  /** One turn of the decoder: a flag bit, then a literal group or a match. */
  method ReadToken(reader: BitReader, input: array<Byte>, length: nat, out: array<Byte>, start: nat, total: nat,
                   window: nat, ghost rest: seq<bool>)
    returns (i: nat, fault: Fault)
    requires Left(reader, input, length, rest)
    requires start < total <= out.Length && out != input && window <= MATCH_DATA_LENGTH
    requires forall k :: start <= k < total ==> out[k] == 0
    modifies reader, out
    ensures if rest == [] || |rest| <= BodyBits(rest[0], start, total, window) then fault == ShortStream
            else
              var t := Front(rest, start, total, window);
              if !Legal(start, t, total, window) then fault == FarOffset
              else
                && fault == NoFault && start <= i <= total
                && Left(reader, input, length, rest[1 + BodyBits(rest[0], start, total, window)..])
                && out[..i] == Expand(old(out[..start]), t, total, window)
    ensures fault.NoFault? ==> forall k :: i <= k < out.Length ==> out[k] == old(out[k])
    ensures forall k :: total <= k < out.Length ==> out[k] == old(out[k])
  {
    hide Left, Pow2, CopyBack, OffsetWidth, BitLength, Value, ByteIn, BytesIn;
    i := start;
    var flag := ReadBits(reader, input, length, 1, rest);
    if flag == -1 {
      return start, ShortStream;
    }
    FlagIs(rest);
    if flag == 0 {
      i, fault := ReadLiteral(reader, input, length, out, start, total, rest[1..]);
    } else {
      i, fault := ReadMatch(reader, input, length, out, start, total, window, rest[1..]);
      MatchFits(rest, start, total, window);
    }
    SliceAgain(rest, if flag == 0 then 8 * Min(DATA_BLOB_LENGTH, total - start) else OffsetWidth(start, window) + 8);
  }

  lemma FlagIs(rest: seq<bool>)
    requires rest != []
    ensures Value(rest[..1]) == if rest[0] then 1 else 0
  {
    assert rest[..1][1..] == [];
  }

  lemma SliceAgain(rest: seq<bool>, n: nat)
    ensures 1 + n <= |rest| ==> rest[1..][n..] == rest[1 + n..]
  {}

  /** An offset that was read fits its field. */
  lemma MatchFits(rest: seq<bool>, i: nat, total: nat, window: nat)
    requires i < total && rest != [] && rest[0]
    ensures var w := OffsetWidth(i, window);
            |rest| > w + 8 ==>
              && rest[1..][..w] == rest[1..1 + w] && rest[1..][w..] == rest[1 + w..]
              && Value(rest[1..1 + w]) < Pow2(w)
  {
    hide Value, Pow2, BitLength;
    var w := OffsetWidth(i, window);
    if |rest| > w + 8 {
      ValueBound(rest[1..1 + w]);
    }
  }

  lemma StreamLeft(reader: BitReader, input: array<Byte>, length: nat)
    requires reader.Valid() && reader.index == 0 && reader.Cursor() == 0 && 0 < length <= input.Length
    ensures Left(reader, input, length, Bits8(input[..length]))
  {
    var all, some := Bits8(input[..]), Bits8(input[..length]);
    assert all[0..8 * length] == some;
  }

  lemma DecodeTurn(rest: seq<bool>, done: seq<Byte>, total: nat, window: nat)
    requires |done| < total
    ensures Decode(rest, done, total, window) ==
            if rest == [] || |rest| <= BodyBits(rest[0], |done|, total, window) then RanOut
            else
              var t := Front(rest, |done|, total, window);
              if !Legal(|done|, t, total, window) then BadOffset
              else Decode(rest[1 + BodyBits(rest[0], |done|, total, window)..], Expand(done, t, total, window),
                          total, window)
  {
    hide BodyBits, Front, Legal, Expand;
  }

  /** `jam_uncompress` on any stream. It ends, with what is defined on the stream, the output filled up
      with zeros; or a read or a copy fails as it does there. */
  method Uncompress(input: array<Byte>, inLength: nat, out: array<Byte>, outLength: nat, version: int)
    returns (dataLength: int, fault: Fault)
    requires inLength <= input.Length && outLength <= out.Length && input != out
    modifies out
    ensures var r := Uncompressed(Bits8(input[..inLength]), outLength, Window(version));
            && fault == FaultOf(r)
            && (r.Text? ==>
                  && dataLength == r.length && |r.text| <= outLength && out[..|r.text|] == r.text
                  && forall k :: |r.text| <= k < outLength ==> out[k] == 0)
    ensures forall k :: outLength <= k < out.Length ==> out[k] == old(out[k])
  {
    hide Bits8, Left, Decode, Header;
    var window := Window(version);
    for i := 0 to outLength
      modifies out
      invariant forall k :: 0 <= k < i ==> out[k] == 0
      invariant forall k :: i <= k < out.Length ==> out[k] == old(out[k])
    {
      out[i] := 0;
    }
    ghost var stream := Bits8(input[..inLength]);
    if inLength == 0 {
      return 0, ShortStream;
    }
    var reader := new BitReader();
    StreamLeft(reader, input, inLength);
    dataLength, fault := ReadLength(reader, input, inLength, stream);
    if fault.NoFault? {
      if dataLength > outLength {
        dataLength := -1;
      } else {
        fault := ReadTokens(reader, input, inLength, out, dataLength, window, stream[32..]);
      }
    }
  }

  /** The decoder's loop. */
  method ReadTokens(reader: BitReader, input: array<Byte>, length: nat, out: array<Byte>, total: int, window: nat,
                    ghost stream: seq<bool>)
    returns (fault: Fault)
    requires Left(reader, input, length, stream)
    requires total <= out.Length && out != input && window <= MATCH_DATA_LENGTH
    requires forall k :: 0 <= k < total ==> out[k] == 0
    modifies reader, out
    ensures total < 0 ==> fault == NoFault
    ensures total >= 0 ==>
              var r := Decode(stream, [], total, window);
              fault == FaultOf(r) && (r.Text? ==> out[..total] == r.text)
    ensures forall k :: 0 <= k < out.Length && k >= total ==> out[k] == old(out[k])
  {
    hide Left, Decode, BodyBits, Front, Legal, Expand;
    fault := NoFault;
    var i: nat := 0;
    ghost var rest := stream;
    assert out[..0] == [];
    while i < total && fault.NoFault?
      invariant total < 0 ==> i == 0 && fault.NoFault?
      invariant total >= 0 && fault.NoFault? ==> i <= total
      invariant fault.NoFault? ==> Left(reader, input, length, rest)
      invariant fault.NoFault? ==> forall k :: i <= k < total ==> out[k] == 0
      invariant total >= 0 ==>
                  if fault.NoFault? then Decode(stream, [], total, window) == Decode(rest, out[..i], total, window)
                  else fault == FaultOf(Decode(stream, [], total, window))
      invariant forall k :: 0 <= k < out.Length && k >= total ==> out[k] == old(out[k])
      decreases fault.NoFault?, |rest|
    {
      var start := i;
      DecodeTurn(rest, out[..start], total, window);
      i, fault := ReadToken(reader, input, length, out, start, total, window, rest);
      if fault.NoFault? {
        rest := rest[1 + BodyBits(rest[0], start, total, window)..];
      }
    }
    if total >= 0 && fault.NoFault? {
      DecodeEnds(rest, out[..i], total, window);
    }
  }

  lemma DecodeEnds(rest: seq<bool>, done: seq<Byte>, total: nat, window: nat)
    requires |done| == total
    ensures Decode(rest, done, total, window) == Text(total, done)
  {}
}

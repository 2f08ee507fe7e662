/** The ACA format written out in numbers, and what the decoder makes of it. */
module AcaFormat {
  import opened Bits
  import Aca

  /** A number in `w` bits, least significant first. */
  function Put(n: nat, w: nat): (bits: seq<bool>)
    ensures |bits| == w
  {
    seq(w, k requires 0 <= k < w => n / Pow2(k) % 2 == 1)
  }

  /** The bits, at least `w`, in which every number up to `limit` can be written. */
  function WidthFor(limit: nat, w: nat): (r: nat)
    requires w >= 1
    ensures r >= w && limit < Pow2(r) && (r > w ==> Pow2(r - 1) <= limit)
    decreases if limit < Pow2(w) then 0 else limit - Pow2(w) + 1
  {
    if limit < Pow2(w) then w else WidthFor(limit, w + 1)
  }

  /** How far back a match may reach: 8192 bytes, one less in version 2. */
  function Reach(version: int): nat { if version == 2 then 8191 else 8192 }

  /** The bits of an offset after `i` bytes of text: as many as the longest that is possible there needs. */
  function OffsetBits(i: nat, version: int): nat {
    WidthFor(if i < Reach(version) then i else Reach(version), 1)
  }

  function PutBytes(bytes: seq<Byte>): seq<bool> {
    if bytes == [] then [] else Put(bytes[0], 8) + PutBytes(bytes[1..])
  }

  /** The tokens of a text from byte `i` on: a 0 and up to three literal bytes, or a 1, the offset, and the
      length in eight bits. */
  function Emit(ts: seq<Aca.Token>, i: nat, version: int): seq<bool>
    decreases |ts|
  {
    if ts == [] then []
    else
      match ts[0]
      case Literal(bytes) => [false] + PutBytes(bytes) + Emit(ts[1..], i + |bytes|, version)
      case Match(offset, length) =>
        [true] + Put(offset, OffsetBits(i, version)) + Put(length, 8) + Emit(ts[1..], i + length, version)
  }

  /** The tokens describe a text from byte `i` on: literals stand in it, three at a time, and each byte of a
      match is the one that stands `offset` before it, or a zero if that is the byte itself. Only the last match may
      reach beyond the text. */
  ghost predicate Describes(ts: seq<Aca.Token>, text: seq<Byte>, i: nat, version: int)
    decreases |ts|
  {
    if ts == [] then i >= |text|
    else
      i < |text| &&
      match ts[0]
      case Literal(bytes) =>
        && |bytes| == (if |text| - i < 3 then |text| - i else 3) && bytes == text[i..i + |bytes|]
        && Describes(ts[1..], text, i + |bytes|, version)
      case Match(offset, length) =>
        && offset < Pow2(OffsetBits(i, version)) && (length == 0 || offset <= i)
        && (forall k :: i <= k < i + length && k < |text| ==> text[k] == if offset == 0 then 0 else text[k - offset])
        && Describes(ts[1..], text, i + length, version)
  }

  // ----- the same widths -----

  lemma PutIsToBits(n: nat, w: nat)
    ensures Put(n, w) == ToBits(n, w)
  {
    forall k | 0 <= k < w
      ensures Put(n, w)[k] == ToBits(n, w)[k]
    {
      ToBitsAt(n, w, k);
      BitMeans(n, k);
    }
  }

  lemma {:induction false} PutBytesIsByteBits(bytes: seq<Byte>)
    ensures PutBytes(bytes) == Aca.ByteBitsOf(bytes)
  {
    if bytes != [] {
      PutIsToBits(bytes[0], 8);
      PutBytesIsByteBits(bytes[1..]);
    }
  }

  lemma WidthIsBitLength(limit: nat)
    ensures WidthFor(limit, 1) == Aca.BitLength(limit)
  {
    var r := WidthFor(limit, 1);
    if r == 1 {
      assert Pow2(1) == 2;
    } else {
      Aca.BitLengthUnique(limit, r);
    }
  }

  /** The decoder's offset fields, in numbers: they are as wide as the format has them, hold every offset
      that may be written there, and from byte 8192 on have fourteen bits, thirteen in version 2. */
  lemma OffsetFields(i: nat, version: int, offset: nat)
    ensures Aca.OffsetWidth(i, Aca.Window(version)) == OffsetBits(i, version) <= 14
    ensures offset <= i && offset <= (if version == 2 then 8191 else 8192) ==>
              offset < Pow2(Aca.OffsetWidth(i, Aca.Window(version)))
    ensures i >= 8192 ==> Aca.OffsetWidth(i, Aca.Window(version)) == if version == 2 then 13 else 14
  {
    hide Pow2;
    var limit := if i < Reach(version) then i else Reach(version);
    WidthIsBitLength(limit);
    Aca.OffsetFits(i, offset, Aca.Window(version));
    if i >= 8192 {
      Widest(limit);
    }
  }

  lemma Widest(limit: nat)
    requires limit in {8191, 8192}
    ensures Aca.BitLength(limit) == if limit == 8191 then 13 else 14
  {
    Pow2Constants();
    assert Pow2(14) == 2 * Pow2(13) && Pow2(13) == 2 * Pow2(12);
    hide Pow2;
    Aca.BitLengthUnique(limit, if limit == 8191 then 13 else 14);
  }

  // ----- the same text -----

  lemma {:induction false} CopyBackCopies(done: seq<Byte>, text: seq<Byte>, offset: nat, n: nat)
    requires n == 0 || offset <= |done|
    requires |done| + n <= |text| && text[..|done|] == done
    requires forall k :: |done| <= k < |done| + n ==> text[k] == if offset == 0 then 0 else text[k - offset]
    ensures Aca.CopyBack(done, offset, n) == text[..|done| + n]
    decreases n
  {
    if n > 0 {
      var i := |done|;
      assert text[i] == Aca.ByteBack(done, offset);
      assert done + [Aca.ByteBack(done, offset)] == text[..i + 1];
      CopyBackCopies(text[..i + 1], text, offset, n - 1);
    }
  }

  lemma MatchDescribed(text: seq<Byte>, i: nat, offset: nat, length: Byte, version: int)
    requires i < |text| && offset < Pow2(OffsetBits(i, version)) && (length == 0 || offset <= i)
    requires forall k :: i <= k < i + length && k < |text| ==> text[k] == if offset == 0 then 0 else text[k - offset]
    ensures Aca.Legal(i, Aca.Match(offset, length), |text|, Aca.Window(version))
    ensures Aca.CopyBack(text[..i], offset, Aca.Min(length, |text| - i)) == text[..i + Aca.Min(length, |text| - i)]
  {
    hide Pow2, OffsetBits, Aca.OffsetWidth, Aca.CopyBack;
    OffsetFields(i, version, offset);
    CopyBackCopies(text[..i], text, offset, Aca.Min(length, |text| - i));
  }

  /** One token of a description is legal, and appends what it describes. */
  lemma TokenDescribed(ts: seq<Aca.Token>, text: seq<Byte>, i: nat, version: int)
    requires ts != [] && Describes(ts, text, i, version)
    ensures var window := Aca.Window(version);
            var n := if ts[0].Literal? then |ts[0].bytes| else ts[0].length;
            var end := if i + n < |text| then i + n else |text|;
            && i < |text| && Aca.Legal(i, ts[0], |text|, window)
            && Aca.Expand(text[..i], ts[0], |text|, window) == text[..end]
  {
    hide Pow2, OffsetBits, Aca.OffsetWidth, Aca.CopyBack;
    match ts[0]
    case Literal(bytes) =>
      assert text[..i] + bytes == text[..i + |bytes|];
    case Match(offset, length) =>
      MatchDescribed(text, i, offset, length, version);
  }

  lemma NothingMore(ts: seq<Aca.Token>, text: seq<Byte>, i: nat, version: int)
    requires Describes(ts, text, i, version) && i >= |text|
    ensures ts == []
  {}

  lemma {:induction false} DescriptionExpands(ts: seq<Aca.Token>, text: seq<Byte>, i: nat, version: int)
    requires Describes(ts, text, i, version)
    ensures var done := text[..if i < |text| then i else |text|];
            var window := Aca.Window(version);
            && Aca.LegalAll(done, ts, |text|, window)
            && Aca.ExpandAll(done, ts, |text|, window) == text
            && Aca.EncodeAll(done, ts, |text|, window) == Emit(ts, i, version)
    decreases |ts|
  {
    hide Aca.EncodeToken, Aca.Legal, Aca.Expand, Aca.Window, PutToken, Emit;
    if ts == [] {
      NothingEmitted(i, version);
      assert text[..|text|] == text;
    } else {
      var n := if ts[0].Literal? then |ts[0].bytes| else ts[0].length;
      TokenDescribed(ts, text, i, version);
      DescriptionExpands(ts[1..], text, i + n, version);
      TokenEmitted(ts[0], i, version);
      EmitNext(ts, i, version);
    }
  }

  function PutToken(t: Aca.Token, i: nat, version: int): seq<bool> {
    match t
    case Literal(bytes) => [false] + PutBytes(bytes)
    case Match(offset, length) => [true] + (Put(offset, OffsetBits(i, version)) + Put(length, 8))
  }

  lemma NothingEmitted(i: nat, version: int)
    ensures Emit([], i, version) == []
  {}

  lemma EmitNext(ts: seq<Aca.Token>, i: nat, version: int)
    requires ts != []
    ensures var n := if ts[0].Literal? then |ts[0].bytes| else ts[0].length;
            Emit(ts, i, version) == PutToken(ts[0], i, version) + Emit(ts[1..], i + n, version)
  {
    hide OffsetBits, Put, PutBytes;
    match ts[0]
    case Literal(bytes) =>
    case Match(offset, length) =>
      assert [true] + Put(offset, OffsetBits(i, version)) + Put(length, 8) == PutToken(ts[0], i, version);
  }

  lemma TokenEmitted(t: Aca.Token, i: nat, version: int)
    ensures Aca.EncodeToken(i, t, Aca.Window(version)) == PutToken(t, i, version)
  {
    hide Pow2, Aca.OffsetWidth, OffsetBits;
    match t
    case Literal(bytes) => PutBytesIsByteBits(bytes);
    case Match(offset, length) =>
      OffsetFields(i, version, 0);
      PutIsToBits(offset, OffsetBits(i, version));
      PutIsToBits(length, 8);
  }

  /** What the four bytes at the front do: a length that is too large gives -1, and one of 2^31 or more is
      taken for negative and returned. */
  lemma LengthStated(n: nat, version: int, outLength: nat, more: seq<bool>)
    requires n < 0x1_0000_0000 && outLength < 0x8000_0000
    ensures var r := Aca.Uncompressed(Put(n, 32) + more, outLength, Aca.Window(version));
            && (n >= 0x8000_0000 ==> r == Aca.Text(n - 0x1_0000_0000, []))
            && (outLength < n < 0x8000_0000 ==> r == Aca.Text(-1, []))
  {
    hide Pow2, ToBits, Value, Put, Aca.Decode;
    PutIsToBits(n, 32);
    Pow2Constants();
    ValueOfToBits(n, 32);
    assert (Put(n, 32) + more)[..32] == Put(n, 32);
  }

  /** A stream in the format, whatever follows it, is decoded to the text its tokens describe. */
  lemma FormatDecodes(ts: seq<Aca.Token>, text: seq<Byte>, version: int, outLength: nat, more: seq<bool>)
    requires Describes(ts, text, 0, version) && |text| < 0x8000_0000
    ensures Aca.Uncompressed(Put(|text|, 32) + Emit(ts, 0, version) + more, outLength, Aca.Window(version)) ==
            if |text| <= outLength then Aca.Text(|text|, text) else Aca.Text(-1, [])
  {
    hide Aca.Uncompressed, Aca.LegalAll, Aca.ExpandAll, Aca.EncodeAll, Emit, Describes, Put;
    assert text[..0] == [];
    DescriptionExpands(ts, text, 0, version);
    PutIsToBits(|text|, 32);
    var stream := Put(|text|, 32) + Emit(ts, 0, version) + more;
    assert Aca.Encode(ts, |text|, Aca.Window(version)) <= stream;
    Aca.CodesComplete(ts, text, stream, outLength, Aca.Window(version));
  }
}

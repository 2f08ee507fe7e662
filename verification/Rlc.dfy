/** RLC, the run-length form of Boolean array data, and its two decoders: one works on the
    statement buffer, the other reads the program stream. */
module Rlc {
  import opened Bits
  import opened CStrings
  import opened JamStub
  import opened JamText

  // ----- the format -----

  datatype Kind = ConstantZeros | ConstantOnes | Random

  datatype Key = NoKey | Key(kind: Kind, size: nat)

  /** `jam_rlc_key_char`: the letter gives the kind of a block and the number of count digits. */
  function KeyOf(ch: Byte): (k: Key)
    ensures k.Key? ==> 1 <= k.size <= 5
  {
    if 65 <= ch <= 69 then Key(ConstantZeros, ch + 1 - 65)
    else if 73 <= ch <= 77 then Key(ConstantOnes, ch + 1 - 73)
    else if 81 <= ch <= 85 then Key(Random, ch + 1 - 81)
    else NoKey
  }

  function KeyChar(kind: Kind, size: nat): (ch: Byte)
    requires 1 <= size <= 5
    ensures KeyOf(ch) == Key(kind, size)
  {
    size - 1 + match kind case ConstantZeros => 65 case ConstantOnes => 73 case Random => 81
  }

  /** The count, most significant digit first. */
  function CountOf(digits: seq<Byte>): (n: nat)
    requires AllSix(digits)
  {
    if digits == [] then 0 else 64 * CountOf(digits[..|digits| - 1]) + SixBit(digits[|digits| - 1])
  }

  function CountText(n: nat, size: nat): (digits: seq<Byte>)
    ensures |digits| == size && AllSix(digits)
  {
    if size == 0 then [] else CountText(n / 64, size - 1) + [SixBitChar(n % 64)]
  }

  function Pow64(k: nat): nat { if k == 0 then 1 else 64 * Pow64(k - 1) }

  lemma {:induction false} CountRead(n: nat, size: nat)
    requires n < Pow64(size)
    ensures CountOf(CountText(n, size)) == n
  {
    if size > 0 {
      CountRead(n / 64, size - 1);
      assert CountText(n, size)[..size - 1] == CountText(n / 64, size - 1);
    }
  }

  /** A part of a text; past its end there are only NULs. */
  function Part(text: seq<Byte>, from: nat, n: nat): (p: seq<Byte>)
    ensures |p| == n
    ensures forall i :: 0 <= i < n ==> p[i] == CharAt(text, from + i)
  {
    seq<Byte>(n, i requires 0 <= i < n => CharAt(text, from + i))
  }

  function Drop(text: seq<Byte>, n: nat): seq<Byte> { if n <= |text| then text[n..] else [] }

  function Repeated(n: nat, v: bool): (bits: seq<bool>)
    ensures |bits| == n && forall i :: 0 <= i < n ==> bits[i] == v
  {
    seq(n, _ => v)
  }

  function Sixths(n: nat): nat { (n + 5) / 6 }

  // ----- decoding, as a function -----

  /** The data bits of a block: the first `n` of its characters' bits. */
  function DataBits(data: seq<Byte>, n: nat): (bits: seq<bool>)
    requires AllSix(data) && n <= 6 * |data|
    ensures |bits| == n
  {
    SixBits(data)[..n]
  }

  datatype Result = Failure | Success(bits: seq<bool>)

  /** One block taken off the text, if there is a well-formed one. */
  datatype Taken = Malformed | Taken(bits: seq<bool>, rest: seq<Byte>)

  function TakeBlock(text: seq<Byte>): (t: Taken)
    ensures t.Taken? ==> |t.rest| < |text|
  {
    var key := KeyOf(CharAt(text, 0));
    if key.NoKey? || !AllSix(Part(text, 1, key.size)) then Malformed
    else
      var count := CountOf(Part(text, 1, key.size));
      match key.kind
      case ConstantZeros => Taken(Repeated(count, false), Drop(text, 1 + key.size))
      case ConstantOnes => Taken(Repeated(count, true), Drop(text, 1 + key.size))
      case Random =>
        var data := Part(text, 1 + key.size, Sixths(count));
        if AllSix(data) then Taken(DataBits(data, count), Drop(text, 1 + key.size + Sixths(count))) else Malformed
  }

  /** Blocks until the array is full, then a semicolon. */
  function Decode(text: seq<Byte>, dimension: nat, got: seq<bool>): (r: Result)
    ensures r.Success? ==> |r.bits| == dimension
    decreases |text|
  {
    if |got| >= dimension then
      if CharAt(text, 0) == SEMICOLON && |got| == dimension then Success(got) else Failure
    else
      var t := TakeBlock(text);
      if t.Malformed? then Failure else Decode(t.rest, dimension, got + t.bits)
  }

  /** How far the blocks reach that are taken until the array is full; nothing keeps the last one from
      reaching further. */
  datatype Extent = Illegal | Reach(end: nat)

  function Reached(text: seq<Byte>, dimension: nat, at: nat): (r: Extent)
    ensures r.Reach? ==> r.end >= dimension
    decreases |text|
  {
    if at >= dimension then Reach(at)
    else
      var t := TakeBlock(text);
      if t.Malformed? then Illegal else Reached(t.rest, dimension, at + |t.bits|)
  }

  // ----- encoding -----

  function Header(kind: Kind, size: nat, n: nat): seq<Byte>
    requires 1 <= size <= 5
  {
    [KeyChar(kind, size)] + CountText(n, size)
  }

  /** The number that some digits write in base 64, the first counting most. */
  function Number(digits: seq<Byte>): nat
    requires AllSix(digits)
  {
    if digits == [] then 0 else SixBit(digits[0]) * Pow64(|digits| - 1) + Number(digits[1..])
  }

  lemma {:induction false} NumberSnoc(digits: seq<Byte>)
    requires AllSix(digits) && digits != []
    ensures Number(digits) == 64 * Number(digits[..|digits| - 1]) + SixBit(digits[|digits| - 1])
  {
    hide SixBit;
    var n := |digits| - 1;
    if n == 0 {
      assert Pow64(0) == 1;
    } else {
      NumberSnoc(digits[1..]);
      assert digits[1..][..n - 1] == digits[..n][1..];
      assert Pow64(n) == 64 * Pow64(n - 1);
      MulAssociates(SixBit(digits[0]), 64, Pow64(n - 1));
    }
  }

  lemma {:induction false} CountIsNumber(digits: seq<Byte>)
    requires AllSix(digits)
    ensures CountOf(digits) == Number(digits)
  {
    hide SixBit;
    if digits != [] {
      CountIsNumber(digits[..|digits| - 1]);
      NumberSnoc(digits);
    }
  }

  lemma ThreeParts(letter: Byte, digits: seq<Byte>, more: seq<Byte>)
    ensures var text := [letter] + digits + more;
            CharAt(text, 0) == letter && Part(text, 1, |digits|) == digits && Drop(text, 1 + |digits|) == more
    ensures var text := [letter] + digits + more;
            forall n: nat :: Part(text, 1 + |digits|, n) == Part(more, 0, n)
    ensures var text := [letter] + digits + more;
            forall n: nat :: Drop(text, 1 + |digits| + n) == Drop(more, n)
  {
    hide Part, Drop;
    PartOf([letter], digits, more);
    var text := [letter] + digits + more;
    DropNothing(more);
    DropMore(text, 1 + |digits|, 0, 0);
    forall n: nat
      ensures Part(text, 1 + |digits|, n) == Part(more, 0, n) && Drop(text, 1 + |digits| + n) == Drop(more, n)
    {
      DropMore(text, 1 + |digits|, n, 0);
      DropMore(text, 1 + |digits|, 0, 0);
    }
  }

  /** A block by its letters: A to E begin zeros, I to M ones, with one to five digits of the count; Q to U
      begin data, six bits to a character, the least significant first. */
  lemma BlocksByLetter(k: nat, digits: seq<Byte>, data: seq<Byte>, rest: seq<Byte>)
    requires k < 5 && |digits| == k + 1 && AllSix(digits)
    ensures TakeBlock(['A' as int + k] + digits + rest) == Taken(Repeated(Number(digits), false), rest)
    ensures TakeBlock(['I' as int + k] + digits + rest) == Taken(Repeated(Number(digits), true), rest)
    ensures |data| == (Number(digits) + 5) / 6 && AllSix(data) ==>
              var t := TakeBlock(['Q' as int + k] + digits + (data + rest));
              && t.Taken? && t.rest == rest && |t.bits| == Number(digits)
              && forall j :: 0 <= j < |t.bits| ==> (t.bits[j] <==> SixBit(data[j / 6]) / Pow2(j % 6) % 2 == 1)
  {
    hide SixBit, CountOf, Number, Part, Drop, CharAt, Pow2;
    CountIsNumber(digits);
    ThreeParts('A' as int + k, digits, rest);
    ThreeParts('I' as int + k, digits, rest);
    if |data| == (Number(digits) + 5) / 6 && AllSix(data) {
      ThreeParts('Q' as int + k, digits, data + rest);
      PartOf([], data, rest);
      assert [] + data + rest == data + rest;
      DataByBit(data, Number(digits));
    }
  }

  lemma DataByBit(data: seq<Byte>, n: nat)
    requires AllSix(data) && n <= 6 * |data|
    ensures forall j :: 0 <= j < n ==> (DataBits(data, n)[j] <==> SixBit(data[j / 6]) / Pow2(j % 6) % 2 == 1)
  {
    hide SixBit, Pow2;
    forall j | 0 <= j < n
      ensures DataBits(data, n)[j] <==> SixBit(data[j / 6]) / Pow2(j % 6) % 2 == 1
    {
      SixBitsAt(data, j / 6, j % 6);
    }
  }

  /** Any other letter is refused, and so are digits that are none. */
  lemma OthersRefused(ch: Byte, digits: seq<Byte>, rest: seq<Byte>)
    ensures !('A' as int <= ch <= 'E' as int || 'I' as int <= ch <= 'M' as int || 'Q' as int <= ch <= 'U' as int) ==>
              TakeBlock([ch] + rest).Malformed?
    ensures TakeBlock([]).Malformed?
    ensures 1 <= |digits| <= 5 && !AllSix(digits) ==>
              && TakeBlock(['A' as int + |digits| - 1] + digits + rest).Malformed?
              && TakeBlock(['I' as int + |digits| - 1] + digits + rest).Malformed?
              && TakeBlock(['Q' as int + |digits| - 1] + digits + rest).Malformed?
  {
    hide CountOf, Part, Drop, AllSix;
    if 1 <= |digits| <= 5 {
      ThreeParts('A' as int + |digits| - 1, digits, rest);
      ThreeParts('I' as int + |digits| - 1, digits, rest);
      ThreeParts('Q' as int + |digits| - 1, digits, rest);
    }
  }

  datatype Block = Zeros(size: nat, count: nat) | Ones(size: nat, count: nat) | Data(size: nat, bits: seq<bool>) {
    function Expanded(): seq<bool> {
      match this
      case Zeros(_, count) => Repeated(count, false)
      case Ones(_, count) => Repeated(count, true)
      case Data(_, bits) => bits
    }

    /** The count fits in the digits. */
    predicate Legal() { 1 <= size <= 5 && |Expanded()| < Pow64(size) }

    function Encoded(): seq<Byte>
      requires Legal()
    {
      match this
      case Zeros(size, count) => Header(ConstantZeros, size, count)
      case Ones(size, count) => Header(ConstantOnes, size, count)
      case Data(size, bits) => Header(Random, size, |bits|) + SixBitText(bits)
    }
  }

  predicate AllLegal(blocks: seq<Block>) {
    forall i :: 0 <= i < |blocks| ==> blocks[i].Legal()
  }

  function ExpandAll(blocks: seq<Block>): seq<bool> {
    if blocks == [] then [] else blocks[0].Expanded() + ExpandAll(blocks[1..])
  }

  function EncodeAll(blocks: seq<Block>): seq<Byte>
    requires AllLegal(blocks)
  {
    if blocks == [] then [] else blocks[0].Encoded() + EncodeAll(blocks[1..])
  }

  lemma PartOf(a: seq<Byte>, b: seq<Byte>, c: seq<Byte>)
    ensures Part(a + b + c, |a|, |b|) == b
    ensures Drop(a + b + c, |a| + |b|) == c
  {}

  lemma HeaderRead(kind: Kind, size: nat, n: nat, rest: seq<Byte>)
    requires 1 <= size <= 5 && n < Pow64(size)
    ensures var text := Header(kind, size, n) + rest;
            && KeyOf(CharAt(text, 0)) == Key(kind, size)
            && AllSix(Part(text, 1, size)) && CountOf(Part(text, 1, size)) == n
            && Drop(text, 1 + size) == rest
  {
    hide CountOf, CountText, KeyOf, KeyChar, Part, Drop;
    CountRead(n, size);
    PartOf([KeyChar(kind, size)], CountText(n, size), rest);
  }

  lemma DataPart(kind: Kind, size: nat, n: nat, data: seq<Byte>, rest: seq<Byte>)
    requires 1 <= size <= 5
    ensures var text := Header(kind, size, n) + (data + rest);
            Part(text, 1 + size, |data|) == data && Drop(text, 1 + size + |data|) == rest
  {
    hide CountText, KeyChar, Part, Drop;
    var head := Header(kind, size, n);
    assert head + (data + rest) == head + data + rest;
    PartOf(head, data, rest);
  }

  lemma ConstantTaken(kind: Kind, size: nat, n: nat, rest: seq<Byte>)
    requires 1 <= size <= 5 && n < Pow64(size) && kind != Random
    ensures TakeBlock(Header(kind, size, n) + rest) == Taken(Repeated(n, kind == ConstantOnes), rest)
  {
    hide CountOf, CountText, KeyOf, KeyChar, Part, Drop, Header, SixBits, Pow64;
    HeaderRead(kind, size, n, rest);
  }

  lemma DataTaken(size: nat, bits: seq<bool>, rest: seq<Byte>)
    requires 1 <= size <= 5 && |bits| < Pow64(size)
    ensures TakeBlock(Header(Random, size, |bits|) + (SixBitText(bits) + rest)) == Taken(bits, rest)
  {
    hide CountOf, CountText, KeyOf, KeyChar, Part, Drop, Header, SixBits, SixBitText, Pow64;
    DataRead(bits);
    HeaderRead(Random, size, |bits|, SixBitText(bits) + rest);
    DataPart(Random, size, |bits|, SixBitText(bits), rest);
  }

  /** A block is taken back as it was encoded. */
  lemma BlockTaken(block: Block, rest: seq<Byte>)
    requires block.Legal()
    ensures TakeBlock(block.Encoded() + rest) == Taken(block.Expanded(), rest)
  {
    hide TakeBlock, Header, SixBitText, Pow64;
    match block
    case Zeros(size, count) => ConstantTaken(ConstantZeros, size, count, rest);
    case Ones(size, count) => ConstantTaken(ConstantOnes, size, count, rest);
    case Data(size, bits) =>
      var head, data := Header(Random, size, |bits|), SixBitText(bits);
      assert head + data + rest == head + (data + rest);
      DataTaken(size, bits, rest);
  }

  lemma DataRead(bits: seq<bool>)
    ensures |SixBitText(bits)| == Sixths(|bits|)
    ensures SixBits(SixBitText(bits))[..|bits|] == bits
  {
    forall k | 0 <= k < |bits|
      ensures SixBits(SixBitText(bits))[k] == bits[k]
    {
      SixBitsOfText(bits, k);
    }
  }

  /** The encoding of blocks that fill the array exactly, and a semicolon, decodes to their bits;
      unless blocks of no bits follow the last bit, which the decoders take for errors. */
  lemma {:induction false} RoundTripFrom(blocks: seq<Block>, got: seq<bool>, tail: seq<Byte>)
    requires AllLegal(blocks)
    ensures var all := got + ExpandAll(blocks);
            Decode(EncodeAll(blocks) + ([SEMICOLON] + tail), |all|, got) ==
            if blocks != [] && blocks[|blocks| - 1].Expanded() == [] then Failure else Success(all)
    decreases |blocks|
  {
    hide TakeBlock, Block.Encoded, Block.Expanded, Block.Legal;
    var end := [SEMICOLON] + tail;
    if blocks == [] {
      assert EncodeAll(blocks) + end == end && got + [] == got;
    } else {
      var first, rest := blocks[0], blocks[1..];
      var text := EncodeAll(blocks) + end;
      var all := got + ExpandAll(blocks);
      assert text == first.Encoded() + (EncodeAll(rest) + end);
      assert all == got + first.Expanded() + ExpandAll(rest);
      if |got| < |all| {
        BlockTaken(first, EncodeAll(rest) + end);
        RoundTripFrom(rest, got + first.Expanded(), tail);
        if rest == [] {
          assert first.Expanded() != [];
        } else {
          assert rest[|rest| - 1] == blocks[|blocks| - 1];
        }
      } else {
        NothingExpanded(blocks);
        EncodedStart(first, EncodeAll(rest) + end);
      }
    }
  }

  lemma {:induction false} NothingExpanded(blocks: seq<Block>)
    requires blocks != [] && ExpandAll(blocks) == []
    ensures blocks[|blocks| - 1].Expanded() == []
  {
    if |blocks| > 1 {
      NothingExpanded(blocks[1..]);
    }
  }

  lemma EncodedStart(block: Block, rest: seq<Byte>)
    requires block.Legal()
    ensures CharAt(block.Encoded() + rest, 0) != SEMICOLON
  {
    assert KeyOf(SEMICOLON) == NoKey;
  }

  /** Without the semicolon, blocks that fill the array are refused. */
  lemma {:induction false} SemicolonNeeded(blocks: seq<Block>, got: seq<bool>, tail: seq<Byte>)
    requires AllLegal(blocks) && CharAt(tail, 0) != ';' as int
    requires blocks == [] || blocks[|blocks| - 1].Expanded() != []
    ensures Decode(EncodeAll(blocks) + tail, |got + ExpandAll(blocks)|, got) == Failure
    decreases |blocks|
  {
    hide TakeBlock, Block.Encoded, Block.Expanded, Block.Legal;
    if blocks == [] {
      assert EncodeAll(blocks) + tail == tail && got + [] == got;
    } else {
      var first, rest := blocks[0], blocks[1..];
      assert EncodeAll(blocks) + tail == first.Encoded() + (EncodeAll(rest) + tail);
      assert got + ExpandAll(blocks) == got + first.Expanded() + ExpandAll(rest);
      LastExpands(blocks);
      BlockTaken(first, EncodeAll(rest) + tail);
      SemicolonNeeded(rest, got + first.Expanded(), tail);
    }
  }

  lemma {:induction false} LastExpands(blocks: seq<Block>)
    requires blocks != [] && blocks[|blocks| - 1].Expanded() != []
    ensures ExpandAll(blocks) != []
  {
    hide Block.Expanded;
    if |blocks| > 1 {
      LastExpands(blocks[1..]);
    }
  }

  lemma RoundTrip(blocks: seq<Block>, tail: seq<Byte>)
    requires AllLegal(blocks)
    ensures var all := ExpandAll(blocks);
            Decode(EncodeAll(blocks) + ([SEMICOLON] + tail), |all|, []) == Success(all)
            <==> blocks == [] || blocks[|blocks| - 1].Expanded() != []
  {
    hide Decode, Block.Expanded;
    RoundTripFrom(blocks, [], tail);
    assert [] + ExpandAll(blocks) == ExpandAll(blocks);
  }

  /** Every array has an encoding. */
  function BlocksFor(bits: seq<bool>): (blocks: seq<Block>)
    ensures AllLegal(blocks) && ExpandAll(blocks) == bits
    ensures blocks == [] || blocks[|blocks| - 1].Expanded() != []
    decreases |bits|
  {
    hide Block.Expanded, Block.Legal, ExpandAll, AllLegal;
    if bits == [] then
      NoBlocks();
      []
    else
      var n := if |bits| < 64 then |bits| else 63;
      var rest := BlocksFor(bits[n..]);
      BlockBefore(bits[..n], rest);
      assert bits[..n] + bits[n..] == bits;
      [Data(1, bits[..n])] + rest
  }

  lemma NoBlocks()
    ensures AllLegal([]) && ExpandAll([]) == []
  {}

  lemma BlockBefore(bits: seq<bool>, rest: seq<Block>)
    requires 0 < |bits| < 64 && AllLegal(rest)
    requires rest == [] || rest[|rest| - 1].Expanded() != []
    ensures var blocks := [Data(1, bits)] + rest;
            && AllLegal(blocks) && ExpandAll(blocks) == bits + ExpandAll(rest)
            && blocks[|blocks| - 1].Expanded() != []
  {
    var first := Data(1, bits);
    assert ([first] + rest)[1..] == rest;
    assert Pow64(1) == 64;
    assert first.Legal();
  }

  lemma EveryArrayHasAnEncoding(bits: seq<bool>, tail: seq<Byte>)
    ensures Decode(EncodeAll(BlocksFor(bits)) + ([SEMICOLON] + tail), |bits|, []) == Success(bits)
  {
    hide Decode, BlocksFor;
    RoundTrip(BlocksFor(bits), tail);
  }

  // ----- text after the end of the string makes no difference -----

  lemma PartStops(x: seq<Byte>, y: seq<Byte>, from: nat, n: nat)
    requires from <= |x|
    ensures var z := x + [NUL] + y;
            && AllSix(Part(z, from, n)) == AllSix(Part(x, from, n))
            && (AllSix(Part(x, from, n)) ==> from + n <= |x| && Part(z, from, n) == Part(x, from, n))
  {
    var z := x + [NUL] + y;
    if from + n > |x| {
      var i := |x| - from;
      assert Part(z, from, n)[i] == NUL && Part(x, from, n)[i] == NUL && !IsSix(NUL);
    } else {
      assert Part(z, from, n) == Part(x, from, n);
    }
  }

  lemma DropStops(x: seq<Byte>, y: seq<Byte>, n: nat)
    requires n <= |x|
    ensures Drop(x + [NUL] + y, n) == Drop(x, n) + [NUL] + y
  {}

  lemma KeyStops(x: seq<Byte>, y: seq<Byte>)
    ensures KeyOf(CharAt(x + [NUL] + y, 0)) == KeyOf(CharAt(x, 0))
    ensures KeyOf(CharAt(x, 0)).Key? ==> |x| >= 1
  {
    assert KeyOf(NUL) == NoKey;
  }

  lemma TakeStops(x: seq<Byte>, y: seq<Byte>)
    ensures var t, t' := TakeBlock(x), TakeBlock(x + [NUL] + y);
            if t.Malformed? then t'.Malformed? else t' == Taken(t.bits, t.rest + [NUL] + y)
  {
    hide CountOf, SixBits, Part, AllSix, Drop, KeyOf, CharAt, DataBits, Repeated, Sixths;
    KeyStops(x, y);
    var key := KeyOf(CharAt(x, 0));
    if key.Key? {
      PartStops(x, y, 1, key.size);
      if AllSix(Part(x, 1, key.size)) {
        var from, n := 1 + key.size, Sixths(CountOf(Part(x, 1, key.size)));
        DropStops(x, y, from);
        PartStops(x, y, from, n);
        if AllSix(Part(x, from, n)) {
          DropStops(x, y, from + n);
        }
      }
    }
  }

  lemma {:induction false} DecodeStops(x: seq<Byte>, y: seq<Byte>, dimension: nat, got: seq<bool>)
    ensures Decode(x + [NUL] + y, dimension, got) == Decode(x, dimension, got)
    decreases |x|
  {
    hide TakeBlock;
    if |got| < dimension {
      var t := TakeBlock(x);
      TakeStops(x, y);
      if t.Taken? {
        DecodeStops(t.rest, y, dimension, got + t.bits);
      }
    }
  }

  lemma {:induction false} ReachedStops(x: seq<Byte>, y: seq<Byte>, dimension: nat, at: nat)
    ensures Reached(x + [NUL] + y, dimension, at) == Reached(x, dimension, at)
    decreases |x|
  {
    hide TakeBlock;
    if at < dimension {
      var t := TakeBlock(x);
      TakeStops(x, y);
      if t.Taken? {
        ReachedStops(t.rest, y, dimension, at + |t.bits|);
      }
    }
  }

  // ----- the decoder in the statement buffer -----

  /** Some of the bits from `address` on are beyond the array. */
  predicate Beyond(address: nat, count: nat, words: nat) { count > 0 && address + count > 32 * words }

  /** One bit of a block; nothing tests for the end of the array, beyond which no write is made here. */
  method StoreBit(heap: array<Word>, at: nat, v: bool) returns (outside: bool)
    modifies heap
    ensures outside == (at >= 32 * heap.Length)
    ensures Bits32(heap[..]) == if outside then old(Bits32(heap[..])) else old(Bits32(heap[..]))[at := v]
  {
    hide Bits32;
    outside := at >= 32 * heap.Length;
    if !outside {
      PutBit32(heap, at, v);
    }
  }

  /** The loops over ones and zeros; `overran` tells of a write beyond the array. */
  method Fill(heap: array<Word>, address: nat, count: nat, v: bool) returns (overran: bool)
    modifies heap
    ensures overran == Beyond(address, count, heap.Length)
    ensures address + count <= 32 * heap.Length ==>
              Bits32(heap[..]) == Overwritten(old(Bits32(heap[..])), address, Repeated(count, v))
  {
    hide Bits32, Overwritten;
    ghost var before := Bits32(heap[..]);
    ghost var fits := address + count <= 32 * heap.Length;
    overran := false;
    if fits {
      OverwriteNothing(before, address);
    }
    for bit := 0 to count
      invariant |before| == 32 * heap.Length && (fits ==> address + count <= |before|)
      invariant overran == Beyond(address, bit, heap.Length)
      invariant fits ==> Bits32(heap[..]) == Overwritten(before, address, Repeated(bit, v))
    {
      var outside := StoreBit(heap, address + bit, v);
      overran := overran || outside;
      if fits {
        OverwriteOne(before, address, Repeated(bit, v), v);
        assert Repeated(bit, v) + [v] == Repeated(bit + 1, v);
      }
    }
  }

  lemma PartNext(text: seq<Byte>, from: nat, n: nat)
    ensures Part(text, from, n + 1) == Part(text, from, n) + [CharAt(text, from + n)]
    ensures AllSix(Part(text, from, n + 1)) == (AllSix(Part(text, from, n)) && IsSix(CharAt(text, from + n)))
  {
    assert Part(text, from, n + 1)[n] == CharAt(text, from + n);
    forall i | 0 <= i < n
      ensures Part(text, from, n + 1)[i] == Part(text, from, n)[i]
    {
    }
  }

  /** The character, and the bit in it, that bit `n` of random data is read from. */
  function CharIn(n: nat): nat { n / 6 }

  function BitIn(n: nat): nat { n % 6 }

  lemma NextBit(n: nat, count: nat)
    requires n < count
    ensures CharIn(n) < Sixths(count) && n < 6 * Sixths(count)
    ensures Sixths(n + 1) == CharIn(n) + 1
    ensures BitIn(n) == 0 ==> Sixths(n) == CharIn(n)
    ensures BitIn(n) != 0 ==> Sixths(n) == CharIn(n) + 1
    ensures BitIn(n + 1) != 0 ==> CharIn(n + 1) == CharIn(n)
  {}

  /** The first `n` data bits are in the array. */
  ghost predicate Stored(before: seq<bool>, now: seq<bool>, address: nat, data: seq<Byte>, n: nat) {
    && AllSix(data) && n <= 6 * |data| && address + n <= |before|
    && now == Overwritten(before, address, DataBits(data, n))
  }

  lemma StoredNone(before: seq<bool>, address: nat, data: seq<Byte>)
    requires AllSix(data) && address <= |before|
    ensures Stored(before, before, address, data, 0)
  {
    assert DataBits(data, 0) == [];
    OverwriteNothing(before, address);
  }

  lemma StoredNext(before: seq<bool>, now: seq<bool>, address: nat, data: seq<Byte>, n: nat)
    requires Stored(before, now, address, data, n) && n < 6 * |data| && address + n < |before|
    ensures CharIn(n) < |data| && |now| == |before|
    ensures IsSix(data[CharIn(n)])
    ensures Stored(before, now[address + n := Bit(SixBit(data[CharIn(n)]), BitIn(n))], address, data, n + 1)
  {
    hide Bit, SixBit, Overwritten;
    DataNext(data, n);
    OverwriteOne(before, address, DataBits(data, n), Bit(SixBit(data[CharIn(n)]), BitIn(n)));
  }

  lemma DataNext(data: seq<Byte>, n: nat)
    requires AllSix(data) && n < 6 * |data|
    ensures CharIn(n) < |data| && IsSix(data[CharIn(n)])
    ensures DataBits(data, n + 1) == DataBits(data, n) + [Bit(SixBit(data[CharIn(n)]), BitIn(n))]
  {}

  lemma StoredAll(before: seq<bool>, now: seq<bool>, address: nat, data: seq<Byte>, n: nat)
    requires Stored(before, now, address, data, n)
    ensures now == Overwritten(before, address, DataBits(data, n))
  {}

  /** The loop over random data, its characters in the buffer from `index` on. */
  method CopyData(text: seq<Byte>, index: nat, heap: array<Word>, address: nat, count: nat)
    returns (ok: bool, overran: bool)
    modifies heap
    ensures ok ==> overran == Beyond(address, count, heap.Length)
    ensures var data := Part(text, index, Sixths(count));
            && ok == AllSix(data)
            && (ok && address + count <= 32 * heap.Length ==>
                  Bits32(heap[..]) == Overwritten(old(Bits32(heap[..])), address, DataBits(data, count)))
  {
    hide Bits32, Overwritten, DataBits, Part, Bit, Stored, Sixths, CharIn, BitIn, SixBit, CharAt, AllSix;
    ghost var before := Bits32(heap[..]);
    ghost var data := Part(text, index, Sixths(count));
    ghost var proper := address + count <= 32 * heap.Length && AllSix(data);
    ok, overran := true, false;
    if proper {
      StoredNone(before, address, data);
    }
    NoBits();
    NoDigits(text, index);
    for bit := 0 to count
      invariant |before| == 32 * heap.Length && (proper ==> address + count <= |before|)
      invariant ok == AllSix(Part(text, index, Sixths(bit)))
      invariant ok ==> overran == Beyond(address, bit, heap.Length)
      invariant proper ==> Stored(before, Bits32(heap[..]), address, data, bit)
    {
      NextBit(bit, count);
      SameCharacter(text, index, bit);
      assert data[CharIn(bit)] == CharAt(text, index + CharIn(bit));
      if proper {
        StoredNext(before, Bits32(heap[..]), address, data, bit);
      }
      var value := SixBit(CharAt(text, index + CharIn(bit)));
      if value == -1 {
        ok := false;
      } else {
        var outside := StoreBit(heap, address + bit, Bit(value, BitIn(bit)));
        overran := overran || outside;
      }
    }
    if proper {
      StoredAll(before, Bits32(heap[..]), address, data, count);
    }
  }

  lemma NoBits()
    ensures Sixths(0) == 0 && BitIn(0) == 0
  {}

  /** A further bit needs its character to be legal too. */
  lemma SameCharacter(text: seq<Byte>, index: nat, bit: nat)
    ensures AllSix(Part(text, index, Sixths(bit + 1))) ==
            (AllSix(Part(text, index, Sixths(bit))) && IsSix(CharAt(text, index + CharIn(bit))))
  {
    hide Part, AllSix, CharIn, BitIn, Sixths;
    NextBit(bit, bit + 1);
    PartNext(text, index, CharIn(bit));
  }

  /** The count of a block, in the buffer from `index` on. */
  method CopyCount(text: seq<Byte>, index: nat, size: nat) returns (ok: bool, count: nat)
    ensures ok == AllSix(Part(text, index, size))
    ensures ok ==> count == CountOf(Part(text, index, size))
  {
    hide Part, AllSix;
    ok, count := true, 0;
    NoDigits(text, index);
    for i := 0 to size
      invariant ok == AllSix(Part(text, index, i))
      invariant ok ==> count == CountOf(Part(text, index, i))
    {
      PartNext(text, index, i);
      count := 64 * count;
      var value := SixBit(CharAt(text, index + i));
      if value == -1 {
        ok := false;
      } else {
        count := count + value; // `|=` into six clear bits
      }
    }
  }

  lemma NoDigits(text: seq<Byte>, index: nat)
    ensures AllSix(Part(text, index, 0)) && CountOf(Part(text, index, 0)) == 0
  {}

  lemma DropMore(text: seq<Byte>, a: nat, b: nat, k: nat)
    ensures Drop(Drop(text, a), b) == Drop(text, a + b)
    ensures CharAt(Drop(text, a), k) == CharAt(text, a + k)
    ensures forall n :: Part(Drop(text, a), b, n) == Part(text, a + b, n)
  {
    forall n: nat
      ensures Part(Drop(text, a), b, n) == Part(text, a + b, n)
    {
    }
  }

  /** One turn of the buffer decoder's loop. */
  method CopyBlock(text: seq<Byte>, index: nat, heap: array<Word>, address: nat)
    returns (ok: bool, next: nat, end: nat, overran: bool, ghost bits: seq<bool>)
    modifies heap
    ensures var t := TakeBlock(Drop(text, index));
            && ok == t.Taken?
            && (ok ==> bits == t.bits && Drop(text, next) == t.rest && end == address + |bits|)
    ensures ok ==> overran == Beyond(address, |bits|, heap.Length)
    ensures ok && end <= 32 * heap.Length ==> Bits32(heap[..]) == Overwritten(old(Bits32(heap[..])), address, bits)
  {
    hide Bits32, Overwritten, DataBits, Part, Drop, KeyOf, CountOf, AllSix, CharAt;
    ok, next, end, overran, bits := false, index, address, false, [];
    ghost var rest := Drop(text, index);
    DropMore(text, index, 1, 0);
    var key := KeyOf(CharAt(text, index));
    if key.Key? {
      var proper, count := CopyCount(text, index + 1, key.size);
      if proper {
        DropMore(text, index, 1 + key.size, 0);
        next := index + 1 + key.size;
        end := address + count;
        match key.kind
        case ConstantZeros =>
          ok, bits := true, Repeated(count, false);
          overran := Fill(heap, address, count, false);
        case ConstantOnes =>
          ok, bits := true, Repeated(count, true);
          overran := Fill(heap, address, count, true);
        case Random =>
          ok, overran := CopyData(text, next, heap, address, count);
          if ok {
            bits := DataBits(Part(text, next, Sixths(count)), count);
          }
          next := next + Sixths(count);
          DropMore(text, index, 1 + key.size + Sixths(count), 0);
      }
    }
  }

  /** `jam_extract_bool_run_length`. Its only error is a syntax error. */
  method ExtractRunLength(buffer: array<Byte>, heap: array<Word>, dimension: nat) returns (ok: bool, overran: bool)
    requires NUL in buffer[..] && (buffer as object) != heap
    requires dimension <= 32 * heap.Length
    modifies buffer, heap
    ensures var r := Decode(NoSpaces(CString(old(buffer[..]))), dimension, []);
            && ok == r.Success?
            && (ok ==> Bits32(heap[..]) == Overwritten(old(Bits32(heap[..])), 0, r.bits))
    ensures var e := Reached(NoSpaces(CString(old(buffer[..]))), dimension, 0);
            && (e.Reach? ==> (overran <==> e.end > 32 * heap.Length))
            && (ok ==> e == Reach(dimension) && !overran)
  {
    hide Bits32, Overwritten, CString, NoSpaces, Decode, Reached, TakeBlock, Drop;
    ghost var stripped := NoSpaces(CString(buffer[..]));
    ghost var before := Bits32(heap[..]);
    StripSpaces(buffer);
    var text := buffer[..];
    assert text == stripped + [NUL] + text[|stripped| + 1..];
    DecodeStops(stripped, text[|stripped| + 1..], dimension, []);
    ReachedStops(stripped, text[|stripped| + 1..], dimension, 0);
    ghost var got: seq<bool> := [];
    var index, address := 0, 0;
    ok, overran := true, false;
    OverwriteNothing(before, 0);
    DropNothing(text);
    while ok && address < dimension
      invariant (ok ==> address == |got|) && |before| == 32 * heap.Length
      invariant Decode(text, dimension, []) == if ok then Decode(Drop(text, index), dimension, got) else Failure
      invariant ok ==> Reached(text, dimension, 0) == Reached(Drop(text, index), dimension, address)
      invariant !ok ==> Reached(text, dimension, 0) == Illegal
      invariant ok ==> overran == (address > 32 * heap.Length)
      invariant ok && address <= dimension ==> Bits32(heap[..]) == Overwritten(before, 0, got)
      decreases ok, |Drop(text, index)|
      modifies heap
    {
      DecodeTurn(Drop(text, index), dimension, got);
      ghost var bits;
      ReachedTurn(Drop(text, index), dimension, address);
      ok, index, address, overran, bits := CopyBlock(text, index, heap, address);
      if ok {
        if address <= dimension {
          OverwriteTwice(before, 0, got, bits);
        }
        got := got + bits;
      }
    }
    if ok {
      DecodeEnd(Drop(text, index), dimension, got);
      ReachedEnd(Drop(text, index), dimension, address);
      DropMoreAt(text, index);
    }
    if ok && CharAt(text, index) != SEMICOLON {
      ok := false;
    }
    if ok && address != dimension {
      ok := false;
    }
  }

  lemma DropNothing(text: seq<Byte>)
    ensures Drop(text, 0) == text
  {}

  lemma DropMoreAt(text: seq<Byte>, index: nat)
    ensures CharAt(Drop(text, index), 0) == CharAt(text, index)
  {}

  lemma DecodeTurn(text: seq<Byte>, dimension: nat, got: seq<bool>)
    requires |got| < dimension
    ensures var t := TakeBlock(text);
            Decode(text, dimension, got) == if t.Malformed? then Failure else Decode(t.rest, dimension, got + t.bits)
    ensures var t := TakeBlock(text); t.Taken? ==> |t.rest| < |text|
  {}

  lemma DecodeEnd(text: seq<Byte>, dimension: nat, got: seq<bool>)
    requires |got| >= dimension
    ensures Decode(text, dimension, got) ==
            if CharAt(text, 0) == SEMICOLON && |got| == dimension then Success(got) else Failure
  {}

  lemma ReachedTurn(text: seq<Byte>, dimension: nat, at: nat)
    requires at < dimension
    ensures var t := TakeBlock(text);
            Reached(text, dimension, at) == if t.Malformed? then Illegal else Reached(t.rest, dimension, at + |t.bits|)
  {}

  lemma ReachedEnd(text: seq<Byte>, dimension: nat, at: nat)
    requires at >= dimension
    ensures Reached(text, dimension, at) == Reach(at)
  {}

  // ----- the decoder of the program stream -----

  /** The count, read from the program. */
  method ReadCount(input: Reader<Byte>, size: nat) returns (ok: bool, count: nat)
    requires input.eof == EOF
    modifies input
    ensures var text := RealChars(old(input.Rest()));
            && ok == AllSix(Part(text, 0, size))
            && (ok ==> count == CountOf(Part(text, 0, size)) && RealChars(input.Rest()) == Drop(text, size))
  {
    hide Part, AllSix, RealChars, Drop, Reader.Rest;
    ghost var text := RealChars(input.Rest());
    ok, count := true, 0;
    NoDigits(text, 0);
    DropNothing(text);
    for i := 0 to size
      invariant ok == AllSix(Part(text, 0, i))
      invariant ok ==> count == CountOf(Part(text, 0, i)) && RealChars(input.Rest()) == Drop(text, i)
    {
      PartNext(text, 0, i);
      DropStep(text, i);
      count := 64 * count;
      var ch := GetRealChar(input);
      var value := SixBit(ch);
      if value == -1 {
        ok := false;
      } else {
        count := count + value;
      }
    }
  }

  /** Reading the next real character steps along the text; at its end there is no legal one. */
  lemma DropStep(text: seq<Byte>, i: nat)
    ensures Tail(Drop(text, i)) == Drop(text, i + 1)
    ensures Head(Drop(text, i), EOF) == CharAt(text, i) || (Head(Drop(text, i), EOF) == EOF && CharAt(text, i) == NUL)
    ensures SixBit(EOF) == SixBit(NUL) == -1 && KeyOf(EOF) == KeyOf(NUL) == NoKey
  {}

  /** The loop over random data, each character read when its first bit is due. */
  method ReadData(input: Reader<Byte>, heap: array<Word>, address: nat, count: nat)
    returns (ok: bool, overran: bool)
    requires input.eof == EOF && (input as object) != heap
    modifies input, heap
    ensures overran == Beyond(address, count, heap.Length)
    ensures var text := RealChars(old(input.Rest()));
            var data := Part(text, 0, Sixths(count));
            && ok == AllSix(data)
            && (ok ==> RealChars(input.Rest()) == Drop(text, Sixths(count)))
            && (ok && address + count <= 32 * heap.Length ==>
                  Bits32(heap[..]) == Overwritten(old(Bits32(heap[..])), address, DataBits(data, count)))
  {
    hide Bits32, Overwritten, DataBits, Part, Bit, RealChars, Drop, Reader.Rest, AllSix, SixBit, CharAt, Head, Tail;
    hide Stored, Sixths, CharIn, BitIn;
    ghost var text := RealChars(input.Rest());
    ghost var before := Bits32(heap[..]);
    ghost var data := Part(text, 0, Sixths(count));
    ghost var proper := address + count <= 32 * heap.Length && AllSix(data);
    ok, overran := true, false;
    var value: int := 0;
    if proper {
      StoredNone(before, address, data);
    }
    NoBits();
    DropNothing(text);
    NoDigits(text, 0);
    for bit := 0 to count
      invariant |before| == 32 * heap.Length && (proper ==> address + count <= |before|)
      invariant ok == AllSix(Part(text, 0, Sixths(bit)))
      invariant ok ==> RealChars(input.Rest()) == Drop(text, Sixths(bit))
      invariant value >= -1
      invariant overran == Beyond(address, bit, heap.Length)
      invariant ok && BitIn(bit) != 0 ==> value == SixBit(CharAt(text, CharIn(bit)))
      invariant proper && ok ==> Stored(before, Bits32(heap[..]), address, data, bit)
    {
      NextBit(bit, count);
      SameCharacter(text, 0, bit);
      assert data[CharIn(bit)] == CharAt(text, CharIn(bit));
      if BitIn(bit) == 0 {
        DropStep(text, CharIn(bit));
        var ch := GetRealChar(input);
        value := SixBit(ch);
        if value == -1 {
          ok := false;
        }
      }
      if proper && ok {
        StoredNext(before, Bits32(heap[..]), address, data, bit);
      }
      var v := value == -1 || Bit(value, BitIn(bit)); // all bits of -1 are set
      var outside := StoreBit(heap, address + bit, v);
      overran := overran || outside;
    }
    if proper && ok {
      StoredAll(before, Bits32(heap[..]), address, data, count);
    }
  }

  /** One turn of the stream decoder's loop.  An illegal count is noticed, but its block is
      worked through all the same. */
  method ReadBlock(input: Reader<Byte>, heap: array<Word>, address: nat)
    returns (ok: bool, end: nat, overran: bool, ghost bits: seq<bool>)
    requires input.eof == EOF && (input as object) != heap
    modifies input, heap
    ensures var t := TakeBlock(RealChars(old(input.Rest())));
            && ok == t.Taken?
            && (ok ==> bits == t.bits && RealChars(input.Rest()) == t.rest && end == address + |bits|)
    ensures ok ==> overran == Beyond(address, |bits|, heap.Length)
    ensures ok && end <= 32 * heap.Length ==> Bits32(heap[..]) == Overwritten(old(Bits32(heap[..])), address, bits)
  {
    hide Bits32, Overwritten, DataBits, Part, Drop, KeyOf, CountOf, AllSix, RealChars, Reader.Rest;
    ghost var text := RealChars(input.Rest());
    ok, end, overran, bits := false, address, false, [];
    DropNothing(text);
    DropStep(text, 0);
    var ch := GetRealChar(input);
    var key := KeyOf(ch);
    if key.Key? {
      DropMore(text, 1, 0, 0);
      assert RealChars(input.Rest()) == Drop(text, 1);
      var proper, count := ReadCount(input, key.size);
      DropMore(text, 1, key.size, 0);
      DropMore(text, 1 + key.size, 0, 0);
      end := address + count;
      ok := proper;
      match key.kind
      case ConstantZeros =>
        bits := Repeated(count, false);
        overran := Fill(heap, address, count, false);
      case ConstantOnes =>
        bits := Repeated(count, true);
        overran := Fill(heap, address, count, true);
      case Random =>
        var legal;
        legal, overran := ReadData(input, heap, address, count);
        ok := proper && legal;
        if ok {
          bits := DataBits(Part(text, 1 + key.size, Sixths(count)), count);
        }
        DropMore(text, 1 + key.size, Sixths(count), 0);
    }
  }

  /** `jam_read_bool_run_length`, the program having been positioned at the data. */
  method ReadRunLength(input: Reader<Byte>, heap: array<Word>, dimension: nat) returns (ok: bool, overran: bool)
    requires input.eof == EOF && (input as object) != heap
    requires dimension <= 32 * heap.Length
    modifies input, heap
    ensures var r := Decode(RealChars(old(input.Rest())), dimension, []);
            && ok == r.Success?
            && (ok ==> Bits32(heap[..]) == Overwritten(old(Bits32(heap[..])), 0, r.bits))
    ensures var e := Reached(RealChars(old(input.Rest())), dimension, 0);
            && (e.Reach? ==> (overran <==> e.end > 32 * heap.Length))
            && (ok ==> e == Reach(dimension) && !overran)
  {
    hide Bits32, Overwritten, RealChars, Decode, Reached, TakeBlock, Reader.Rest, Head, Tail;
    ghost var text := RealChars(input.Rest());
    ghost var before := Bits32(heap[..]);
    ghost var got: seq<bool> := [];
    var address := 0;
    ok, overran := true, false;
    OverwriteNothing(before, 0);
    while ok && address < dimension
      invariant (ok ==> address == |got|) && |before| == 32 * heap.Length
      invariant Decode(text, dimension, []) == if ok then Decode(RealChars(input.Rest()), dimension, got) else Failure
      invariant ok ==> Reached(text, dimension, 0) == Reached(RealChars(input.Rest()), dimension, address)
      invariant !ok ==> Reached(text, dimension, 0) == Illegal
      invariant ok ==> overran == (address > 32 * heap.Length)
      invariant ok && address <= dimension ==> Bits32(heap[..]) == Overwritten(before, 0, got)
      decreases ok, |RealChars(input.Rest())|
    {
      DecodeTurn(RealChars(input.Rest()), dimension, got);
      ghost var bits;
      ReachedTurn(RealChars(input.Rest()), dimension, address);
      ok, address, overran, bits := ReadBlock(input, heap, address);
      if ok {
        if address <= dimension {
          OverwriteTwice(before, 0, got, bits);
        }
        got := got + bits;
      }
    }
    if ok {
      DecodeEnd(RealChars(input.Rest()), dimension, got);
      ReachedEnd(RealChars(input.Rest()), dimension, address);
      NextChar(RealChars(input.Rest()));
    }
    var ch := GetRealChar(input);
    if ch == EOF {
      ok := false;
    }
    if ok && (ch != SEMICOLON || address != dimension) {
      ok := false;
    }
  }

  lemma NextChar(text: seq<Byte>)
    ensures Head(text, EOF) == SEMICOLON <==> CharAt(text, 0) == SEMICOLON
  {}

  // ----- which encodings reach beyond the array -----

  /** How far blocks reach until the array is full. */
  function ReachOf(blocks: seq<Block>, dimension: nat, at: nat): nat {
    if at >= dimension || blocks == [] then at else ReachOf(blocks[1..], dimension, at + |blocks[0].Expanded()|)
  }

  lemma {:induction false} ReachOfEncoded(blocks: seq<Block>, tail: seq<Byte>, dimension: nat, at: nat)
    requires AllLegal(blocks) && at + |ExpandAll(blocks)| >= dimension
    ensures Reached(EncodeAll(blocks) + tail, dimension, at) == Reach(ReachOf(blocks, dimension, at))
    decreases |blocks|
  {
    hide TakeBlock, Block.Encoded, Block.Expanded, Block.Legal;
    if at < dimension {
      var first, rest := blocks[0], blocks[1..];
      assert EncodeAll(blocks) + tail == first.Encoded() + (EncodeAll(rest) + tail);
      BlockTaken(first, EncodeAll(rest) + tail);
      ReachOfEncoded(rest, tail, dimension, at + |first.Expanded()|);
    }
  }

  /** Every array has an encoding, of one legal block, that is refused, but only after it has been written
      beyond the array. */
  lemma Overshoots(dimension: nat, words: nat, tail: seq<Byte>)
    requires 0 < dimension <= 32 * words < Pow64(5) - 1
    ensures var block := Ones(5, 32 * words + 1);
            block.Legal() &&
            var text := block.Encoded() + tail;
            Reached(text, dimension, 0) == Reach(32 * words + 1) && Decode(text, dimension, []) == Failure
  {
    hide TakeBlock, Block.Encoded, Pow64;
    var block := Ones(5, 32 * words + 1);
    assert block.Legal();
    BlockTaken(block, tail);
    ReachedTurn(block.Encoded() + tail, dimension, 0);
    ReachedEnd(tail, dimension, 32 * words + 1);
    DecodeTurn(block.Encoded() + tail, dimension, []);
    DecodeEnd(tail, dimension, [] + block.Expanded());
  }

  // ----- the two agree -----

  lemma {:induction false} EncodedPlain(blocks: seq<Block>)
    requires AllLegal(blocks)
    ensures Plain(EncodeAll(blocks) + [SEMICOLON])
  {
    hide Block.Legal, Block.Encoded;
    if blocks != [] {
      EncodedPlain(blocks[1..]);
      BlockPlain(blocks[0]);
      var rest := EncodeAll(blocks[1..]) + [SEMICOLON];
      assert EncodeAll(blocks) + [SEMICOLON] == blocks[0].Encoded() + rest;
    }
  }

  lemma {:induction false} CountPlain(n: nat, size: nat)
    ensures Plain(CountText(n, size))
  {
    if size > 0 {
      CountPlain(n / 64, size - 1);
    }
  }

  lemma BlockPlain(block: Block)
    requires block.Legal()
    ensures Plain(block.Encoded())
  {
    hide CountText, SixBitText, Pow64;
    CountPlain(|block.Expanded()|, block.size);
    if block.Data? {
      var data := SixBitText(block.bits);
      assert Plain(data);
    }
  }

  /** What each decoder makes of an encoding, in a statement buffer or in a program that goes on:
      the blocks' bits, if and only if no empty block comes last. */
  lemma BothDecodersAgree(blocks: seq<Block>, program: seq<Byte>)
    requires AllLegal(blocks)
    ensures var text, all := EncodeAll(blocks) + [SEMICOLON], ExpandAll(blocks);
            var r := if blocks != [] && blocks[|blocks| - 1].Expanded() == [] then Failure else Success(all);
            && Decode(NoSpaces(text), |all|, []) == r
            && Decode(RealChars(text + program), |all|, []) == r
  {
    hide Decode, NoSpaces, RealChars, Plain, Block.Expanded, Block.Encoded, Block.Legal;
    var text, all := EncodeAll(blocks) + [SEMICOLON], ExpandAll(blocks);
    EncodedPlain(blocks);
    PlainUnchanged(text, program);
    RoundTripFrom(blocks, [], []);
    RoundTripFrom(blocks, [], RealChars(program));
    assert [] + all == all;
    assert text == EncodeAll(blocks) + ([SEMICOLON] + []);
    assert text + RealChars(program) == EncodeAll(blocks) + ([SEMICOLON] + RealChars(program));
  }
}

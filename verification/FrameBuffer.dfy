/** The frame buffer of the c7 driver: several memory blocks divided into frames, and the
    head and tail of the ring laid over them. */
module FrameBuffer {
  import opened Cyclic

  const DMA_ADDR_ALIGN: nat := 1024
  const ENODATA: int := 61
  const EAGAIN: int := 11
  const ENODEV: int := 19

  /** `dsp_memblock_t` */
  datatype Block = Block(size: nat, bus: int, start: nat, end: nat)

  /** One entry of the SET_DATA_MULTI command. */
  datatype Extent = Extent(bus: int, start: nat, end: nat)

  datatype SetDataMulti = SetDataMulti(nFrames: nat, frameSize: nat, dataSize: nat, extents: seq<Extent>)

  // ----- dividing the blocks -----

  /** Sizes are rounded up to the alignment of the bus addresses; no size means one unit. */
  function DataSize(requested: int): (d: nat)
    ensures d > 0
  {
    if requested <= 0 then 1024 else requested
  }

  function FrameSize(dataSize: nat): (f: nat)
    requires dataSize > 0
    ensures dataSize <= f < dataSize + 1024 && f % 1024 == 0
  {
    (dataSize + DMA_ADDR_ALIGN - 1) / DMA_ADDR_ALIGN * DMA_ADDR_ALIGN
  }

  /** How many whole frames a block holds. */
  function Fits(size: nat, frame: nat): (n: nat)
    requires frame > 0
  {
    size / frame
  }

  function Bytes(frame: nat, n: nat): nat { frame * n }

  /** A block is divided into as many frames as it holds, and no fewer. */
  lemma FitsBytes(size: nat, frame: nat)
    requires frame > 0
    ensures Bytes(frame, Fits(size, frame)) <= size < Bytes(frame, Fits(size, frame)) + frame
    ensures frame * Fits(size, frame) <= size < frame * (Fits(size, frame) + 1)
  {}

  lemma BytesAre(frame: nat, n: nat)
    ensures Bytes(frame, n) == frame * n
  {}

  lemma BytesMonotone(frame: nat, a: nat, b: nat)
    requires a < b
    ensures Bytes(frame, a) + frame <= Bytes(frame, b)
  {
    Distribute(frame, b - a - 1, a + 1);
    Distribute(frame, a, 1);
  }

  lemma Distribute(frame: nat, a: nat, b: nat)
    ensures Bytes(frame, a + b) == Bytes(frame, a) + Bytes(frame, b)
    ensures Bytes(frame, 1) == frame
  {}

  function Sizes(blocks: seq<Block>): (s: seq<nat>)
    ensures |s| == |blocks|
    ensures forall i :: 0 <= i < |s| ==> s[i] == blocks[i].size
  {
    seq(|blocks|, i requires 0 <= i < |blocks| => blocks[i].size)
  }

  function FramesBefore(sizes: seq<nat>, frame: nat, i: nat): nat
    requires i <= |sizes| && frame > 0
  {
    if i == 0 then 0 else FramesBefore(sizes, frame, i - 1) + Fits(sizes[i - 1], frame)
  }

  function BytesBefore(sizes: seq<nat>, i: nat): nat
    requires i <= |sizes|
  {
    if i == 0 then 0 else BytesBefore(sizes, i - 1) + sizes[i - 1]
  }

  /** The frame ranges of the blocks, one after the other. */
  ghost predicate Divided(blocks: seq<Block>, frame: nat)
    requires frame > 0
  {
    forall i {:trigger Ranged(blocks[i], Sizes(blocks), frame, i)} ::
      0 <= i < |blocks| ==> Ranged(blocks[i], Sizes(blocks), frame, i)
  }

  ghost predicate Ranged(block: Block, sizes: seq<nat>, frame: nat, i: nat)
    requires frame > 0 && i < |sizes|
  {
    && block.start == FramesBefore(sizes, frame, i)
    && block.end == FramesBefore(sizes, frame, i + 1)
  }

  lemma NoFramesBefore(sizes: seq<nat>, frame: nat)
    requires frame > 0
    ensures FramesBefore(sizes, frame, 0) == 0
  {}

  lemma NoBytesBefore(sizes: seq<nat>)
    ensures BytesBefore(sizes, 0) == 0
  {}

  lemma BytesUpTo(sizes: seq<nat>, i: nat)
    requires i < |sizes|
    ensures BytesBefore(sizes, i + 1) == BytesBefore(sizes, i) + sizes[i]
  {}

  lemma FramesUpTo(sizes: seq<nat>, frame: nat, i: nat)
    requires frame > 0 && i < |sizes|
    ensures FramesBefore(sizes, frame, i + 1) == FramesBefore(sizes, frame, i) + Fits(sizes[i], frame)
  {
    hide Fits;
  }

  lemma DividedAt(blocks: seq<Block>, frame: nat, i: nat)
    requires frame > 0 && Divided(blocks, frame) && i < |blocks|
    ensures blocks[i].start == FramesBefore(Sizes(blocks), frame, i)
    ensures blocks[i].end == FramesBefore(Sizes(blocks), frame, i + 1)
    ensures blocks[i].end == blocks[i].start + Fits(blocks[i].size, frame)
    ensures BytesBefore(Sizes(blocks), i + 1) == BytesBefore(Sizes(blocks), i) + blocks[i].size
  {
    hide Fits, FramesBefore;
    var sizes := Sizes(blocks);
    assert Ranged(blocks[i], sizes, frame, i);
    FramesUpTo(sizes, frame, i);
  }

  /** The ranges follow each other from 0 on, and each is as long as its block has room for. */
  lemma RangesFill(blocks: seq<Block>, frame: nat)
    requires frame > 0 && Divided(blocks, frame)
    ensures forall i :: 0 <= i < |blocks| ==>
              && blocks[i].start == (if i == 0 then 0 else blocks[i - 1].end) <= blocks[i].end
              && frame * (blocks[i].end - blocks[i].start) <= blocks[i].size
              && blocks[i].size < frame * (blocks[i].end - blocks[i].start + 1)
    ensures FramesBefore(Sizes(blocks), frame, |blocks|) == if blocks == [] then 0 else blocks[|blocks| - 1].end
  {
    hide Fits, Divided, FramesBefore;
    NoFramesBefore(Sizes(blocks), frame);
    forall i | 0 <= i < |blocks|
      ensures blocks[i].start == (if i == 0 then 0 else blocks[i - 1].end) <= blocks[i].end
      ensures frame * (blocks[i].end - blocks[i].start) <= blocks[i].size
      ensures blocks[i].size < frame * (blocks[i].end - blocks[i].start + 1)
    {
      DividedAt(blocks, frame, i);
      FitsBytes(blocks[i].size, frame);
      if i > 0 {
        DividedAt(blocks, frame, i - 1);
      }
    }
    if blocks != [] {
      DividedAt(blocks, frame, |blocks| - 1);
    }
  }

  lemma {:induction false} FramesMonotone(sizes: seq<nat>, frame: nat, i: nat, j: nat)
    requires i <= j <= |sizes| && frame > 0
    ensures FramesBefore(sizes, frame, i) <= FramesBefore(sizes, frame, j)
    ensures BytesBefore(sizes, i) <= BytesBefore(sizes, j)
    decreases j
  {
    hide Fits;
    if i < j {
      FramesMonotone(sizes, frame, i, j - 1);
    }
  }

  predicate Covers(block: Block, x: int) { block.start <= x < block.end }

  /** The ranges tile `0..n`: every frame lies in exactly one block. */
  lemma {:induction false} RangesTile(blocks: seq<Block>, frame: nat, x: nat, n: nat)
    requires frame > 0 && Divided(blocks, frame)
    requires n <= |blocks| && x < FramesBefore(Sizes(blocks), frame, n)
    ensures exists i :: 0 <= i < n && Covers(blocks[i], x)
  {
    hide Fits, Divided;
    DividedAt(blocks, frame, n - 1);
    if x >= FramesBefore(Sizes(blocks), frame, n - 1) {
      assert Covers(blocks[n - 1], x);
    } else {
      RangesTile(blocks, frame, x, n - 1);
    }
  }

  lemma RangesDisjoint(blocks: seq<Block>, frame: nat, x: nat, i: nat, j: nat)
    requires frame > 0 && Divided(blocks, frame) && i < |blocks| && j < |blocks|
    requires Covers(blocks[i], x) && Covers(blocks[j], x)
    ensures i == j
  {
    hide Divided, FramesBefore;
    DividedAt(blocks, frame, i);
    DividedAt(blocks, frame, j);
    if i < j {
      FramesMonotone(Sizes(blocks), frame, i + 1, j);
    } else if j < i {
      FramesMonotone(Sizes(blocks), frame, j + 1, i);
    }
  }

  /** The block that holds a frame. */
  ghost function BlockOf(blocks: seq<Block>, frame: nat, x: nat): (i: nat)
    requires frame > 0 && Divided(blocks, frame) && x < FramesBefore(Sizes(blocks), frame, |blocks|)
    ensures i < |blocks| && Covers(blocks[i], x)
  {
    hide Divided, FramesBefore;
    RangesTile(blocks, frame, x, |blocks|);
    var i :| 0 <= i < |blocks| && Covers(blocks[i], x);
    i
  }

  /** Where a frame is in the memory map: the blocks are mapped one after the other. */
  ghost function Offset(blocks: seq<Block>, frame: nat, x: nat): int
    requires frame > 0 && Divided(blocks, frame) && x < FramesBefore(Sizes(blocks), frame, |blocks|)
  {
    var i := BlockOf(blocks, frame, x);
    BytesBefore(Sizes(blocks), i) + Bytes(frame, x - blocks[i].start)
  }

  /** A frame lies within its block. */
  lemma FrameInBlock(blocks: seq<Block>, frame: nat, x: nat)
    requires frame > 0 && Divided(blocks, frame) && x < FramesBefore(Sizes(blocks), frame, |blocks|)
    ensures var i := BlockOf(blocks, frame, x);
            && blocks[i].start <= x < blocks[i].end
            && Offset(blocks, frame, x) == BytesBefore(Sizes(blocks), i) + frame * (x - blocks[i].start)
            && BytesBefore(Sizes(blocks), i) <= Offset(blocks, frame, x)
            && Offset(blocks, frame, x) + frame <= BytesBefore(Sizes(blocks), i + 1)
  {
    hide Fits, Bytes, Divided, FramesBefore, BytesBefore, BlockOf;
    var i := BlockOf(blocks, frame, x);
    BytesAre(frame, x - blocks[i].start);
    DividedAt(blocks, frame, i);
    FitsBytes(blocks[i].size, frame);
    BytesMonotone(frame, x - blocks[i].start, Fits(blocks[i].size, frame));
  }

  /** Distinct frames occupy disjoint bytes, in order. */
  lemma FramesDisjoint(blocks: seq<Block>, frame: nat, x: nat, y: nat)
    requires frame > 0 && Divided(blocks, frame)
    requires x < y < FramesBefore(Sizes(blocks), frame, |blocks|)
    ensures Offset(blocks, frame, x) + frame <= Offset(blocks, frame, y)
  {
    hide Fits, Bytes, Divided, FramesBefore, BytesBefore, BlockOf;
    var sizes := Sizes(blocks);
    var i, j := BlockOf(blocks, frame, x), BlockOf(blocks, frame, y);
    FrameInBlock(blocks, frame, x);
    FrameInBlock(blocks, frame, y);
    DividedAt(blocks, frame, i);
    DividedAt(blocks, frame, j);
    if j < i {
      FramesMonotone(sizes, frame, j + 1, i);
    } else if i < j {
      FramesMonotone(sizes, frame, i + 1, j);
    } else {
      BytesMonotone(frame, x - blocks[i].start, y - blocks[i].start);
    }
  }

  // ----- what the card is told -----

  /** The blocks that hold a frame, in order. */
  function Extents(blocks: seq<Block>, n: nat): seq<Extent>
    requires n <= |blocks|
  {
    if n == 0 then []
    else
      var b := blocks[n - 1];
      Extents(blocks, n - 1) + if b.start == b.end then [] else [Extent(b.bus, b.start, b.end)]
  }

  predicate Contains(e: Extent, x: int) { e.start <= x < e.end }

  /** The card writes frame `x` into the extent that contains it. */
  ghost predicate CardAddress(command: SetDataMulti, x: nat, address: int) {
    exists e :: e in command.extents && Contains(e, x) && address == e.bus + Bytes(command.frameSize, x - e.start)
  }

  lemma {:induction false} ExtentsAreBlocks(blocks: seq<Block>, n: nat, e: Extent)
    requires n <= |blocks|
    ensures e in Extents(blocks, n) <==>
            exists i :: 0 <= i < n && blocks[i].start != blocks[i].end
                        && e == Extent(blocks[i].bus, blocks[i].start, blocks[i].end)
  {
    if n > 0 {
      ExtentsAreBlocks(blocks, n - 1, e);
    }
  }

  lemma NextExtent(blocks: seq<Block>, n: nat)
    requires n <= |blocks|
    ensures n == 0 ==> Extents(blocks, n) == []
    ensures n > 0 ==> var b := blocks[n - 1];
              Extents(blocks, n) == if b.start == b.end then Extents(blocks, n - 1)
                                    else Extents(blocks, n - 1) + [Extent(b.bus, b.start, b.end)]
  {}

  function EndOf(es: seq<Extent>): nat { if es == [] then 0 else es[|es| - 1].end }

  /** They follow each other from 0 on, with no gap, and none is empty. */
  predicate Following(es: seq<Extent>) {
    forall k :: 0 <= k < |es| ==> es[k].start == EndOf(es[..k]) < es[k].end
  }

  lemma FollowingNext(es: seq<Extent>, e: Extent)
    requires Following(es) && e.start == EndOf(es) < e.end
    ensures Following(es + [e]) && EndOf(es + [e]) == e.end
  {
    var all := es + [e];
    assert all[..|es|] == es;
    forall k | 0 <= k < |es|
      ensures all[k].start == EndOf(all[..k]) < all[k].end
    {
      assert all[k] == es[k] && all[..k] == es[..k];
    }
  }

  lemma {:induction false} ExtentsFollow(blocks: seq<Block>, frame: nat, n: nat)
    requires frame > 0 && Divided(blocks, frame) && n <= |blocks|
    ensures Following(Extents(blocks, n)) && EndOf(Extents(blocks, n)) == FramesBefore(Sizes(blocks), frame, n)
  {
    hide Fits, Divided, FramesBefore, Extents, Following, EndOf;
    NoFramesBefore(Sizes(blocks), frame);
    NextExtent(blocks, n);
    if n > 0 {
      ExtentsFollow(blocks, frame, n - 1);
      DividedAt(blocks, frame, n - 1);
      FramesMonotone(Sizes(blocks), frame, n - 1, n);
      var b := blocks[n - 1];
      if b.start != b.end {
        FollowingNext(Extents(blocks, n - 1), Extent(b.bus, b.start, b.end));
      }
    } else {
      NoExtents();
    }
  }

  lemma NoExtents()
    ensures Following([]) && EndOf([]) == 0
  {}

  /** The extents of the command: each starts at the frame where the one before ends, the first at frame 0; none is
      empty; and the last ends at the number of frames. */
  lemma ExtentsTile(blocks: seq<Block>, frame: nat, command: SetDataMulti)
    requires frame > 0 && Divided(blocks, frame) && command.extents == Extents(blocks, |blocks|)
    requires command.nFrames == FramesBefore(Sizes(blocks), frame, |blocks|)
    ensures var es := command.extents;
            && (forall k :: 0 <= k < |es| ==> es[k].start < es[k].end)
            && (es == [] <==> command.nFrames == 0)
            && (es != [] ==> es[0].start == 0 && es[|es| - 1].end == command.nFrames)
            && forall k :: 0 < k < |es| ==> es[k].start == es[k - 1].end
  {
    hide Divided, FramesBefore, Extents;
    ExtentsFollow(blocks, frame, |blocks|);
    var es := command.extents;
    forall k | 0 < k < |es|
      ensures es[k].start == es[k - 1].end
    {
      assert es[..k][k - 1] == es[k - 1];
    }
    if es != [] {
      assert es[0].start == EndOf(es[..0]);
    }
  }

  /** The card and the memory map agree: frame `x` has one address, and it is as far into
      its block as the offset handed to the reader is. */
  lemma SamePlace(blocks: seq<Block>, command: SetDataMulti, x: nat, address: int)
    requires command.frameSize > 0 && Divided(blocks, command.frameSize)
    requires command.extents == Extents(blocks, |blocks|)
    requires x < FramesBefore(Sizes(blocks), command.frameSize, |blocks|)
    ensures var i := BlockOf(blocks, command.frameSize, x);
            CardAddress(command, x, address) <==>
            address - blocks[i].bus == Offset(blocks, command.frameSize, x) - BytesBefore(Sizes(blocks), i)
  {
    hide Bytes, Divided, FramesBefore, BytesBefore, BlockOf, Extents;
    var i := BlockOf(blocks, command.frameSize, x);
    var own := Extent(blocks[i].bus, blocks[i].start, blocks[i].end);
    ExtentsAreBlocks(blocks, |blocks|, own);
    assert own in command.extents && Contains(own, x);
    forall e | e in command.extents && Contains(e, x)
      ensures e == own
    {
      ExtentsAreBlocks(blocks, |blocks|, e);
      var k :| 0 <= k < |blocks| && e == Extent(blocks[k].bus, blocks[k].start, blocks[k].end);
      RangesDisjoint(blocks, command.frameSize, x, i, k);
    }
  }

  // ----- the ring of frames -----

  datatype Ring = Ring(nFrames: nat, head: nat, tail: nat, lastGrant: nat, forceExit: bool) {
    predicate Sane() {
      if nFrames == 0 then head == tail == lastGrant == 0 else head < nFrames && tail < nFrames && lastGrant < nFrames
    }
  }

  /** The number of frames reported since the last grant. */
  function SinceGrant(r: Ring): int
    requires r.nFrames > 0
  {
    (r.head - r.lastGrant + r.nFrames) % r.nFrames
  }

  function Informed(r: Ring, value: nat): Ring {
    if r.nFrames > 0 && value < r.nFrames then r.(head := value) else r
  }

  predicate GrantDue(r: Ring, value: nat) {
    r.nFrames > 0 && value < r.nFrames && SinceGrant(r.(head := value)) > r.nFrames / 4
  }

  /** A grant is due once more than a quarter of the ring has been reported since the last one. */
  lemma DueExactly(r: Ring, value: nat)
    ensures value >= r.nFrames ==> !GrantDue(r, value)
    ensures r.lastGrant <= value < r.nFrames ==> (GrantDue(r, value) <==> 4 * (value - r.lastGrant) > r.nFrames)
    ensures value < r.lastGrant < r.nFrames ==>
              (GrantDue(r, value) <==> 4 * (value + r.nFrames - r.lastGrant) > r.nFrames)
  {
    if r.lastGrant <= value < r.nFrames {
      WrapsRound(value - r.lastGrant, r.nFrames);
      Small(value - r.lastGrant, r.nFrames);
      assert value - r.lastGrant + r.nFrames == r.nFrames + (value - r.lastGrant);
    } else if value < r.lastGrant < r.nFrames {
      Small(value + r.nFrames - r.lastGrant, r.nFrames);
    }
  }

  function Consumed(r: Ring): Ring {
    if r.nFrames > 0 && r.tail != r.head then r.(tail := (r.tail + 1) % r.nFrames) else r
  }

  /** What reaches the frame buffer: ioctls on the data device, the reports of the card and the grant task. */
  datatype Request =
    | SetDataSize(size: int)  // DSPIOCT_SET_DATASIZE
    | FramePoll               // DSPIOCT_FRAME_POLL
    | FrameConsume            // DSPIOCT_FRAME_CONSUME
    | FakeStopFrame           // DSPIOCT_FAKE_STOPFRAME
    | Empty                   // DSPIOCT_EMPTY
    | Report(head: nat)       // DGRAM_TYPE_BUF_INFO
    | SetTail(enabled: bool)  // the grant task, or DSPIOCT_SET_NFRAMES

  predicate Sized(e: Request) { e.SetDataSize? ==> e.size <= 0x7FFF_FC00 }

  function FrameAfter(frame: nat, e: Request): nat {
    if e.SetDataSize? then FrameSize(DataSize(e.size)) else frame
  }

  function Step(r: Ring, e: Request, sizes: seq<nat>): Ring {
    match e
    case SetDataSize(size) => Ring(FramesBefore(sizes, FrameSize(DataSize(size)), |sizes|), 0, 0, 0, false)
    case FramePoll => r.(forceExit := false)
    case FrameConsume => Consumed(r)
    case FakeStopFrame => r.(forceExit := true)
    case Empty => r.(head := 0, tail := 0)
    case Report(head) => Informed(r, head)
    case SetTail(enabled) => if enabled then r.(lastGrant := r.tail) else r
  }

  function RunRing(r: Ring, es: seq<Request>, sizes: seq<nat>): Ring {
    if es == [] then r else Step(RunRing(r, es[..|es| - 1], sizes), es[|es| - 1], sizes)
  }

  function RunFrame(frame: nat, es: seq<Request>): nat {
    if es == [] then frame else FrameAfter(RunFrame(frame, es[..|es| - 1]), es[|es| - 1])
  }

  /** What a poll may return: an error, or the place of a whole frame inside the memory map. */
  predicate PollResult(x: int, r: Ring, frame: nat, bytes: nat) {
    if r.forceExit then x == -61
    else if r.tail == r.head then x == -11
    else 0 <= x && x + frame <= bytes
  }

  /** `frame_buffer_t` */
  class Frames {
    const blocks: array<Block>
    var nFrames: nat
    var frameSize: nat
    var dataSize: nat
    var head: nat
    var tail: nat
    var lastGrant: nat
    var forceExit: bool

    constructor (blocks: array<Block>)
      requires forall i :: 0 <= i < blocks.Length ==> blocks[i].start == blocks[i].end == 0
      ensures this.blocks == blocks && View() == Ring(0, 0, 0, 0, false) && Valid()
    {
      this.blocks := blocks;
      nFrames, frameSize, dataSize, head, tail, lastGrant, forceExit := 0, 0, 0, 0, 0, 0, false;
    }

    function View(): Ring
      reads this
    {
      Ring(nFrames, head, tail, lastGrant, forceExit)
    }

    ghost predicate Configured()
      reads this, blocks
    {
      && frameSize > 0 && Divided(blocks[..], frameSize) && View().Sane()
      && nFrames == FramesBefore(Sizes(blocks[..]), frameSize, blocks.Length)
    }

    /** Before the first SET_DATASIZE there are no frames; then the blocks are divided. */
    ghost predicate Valid()
      reads this, blocks
    {
      if frameSize == 0 then nFrames == 0 && View().Sane() else Configured()
    }

    lemma PollIsSafe()
      requires Valid() && tail != head
      ensures Configured()
      ensures 0 <= Offset(blocks[..], frameSize, tail)
      ensures Offset(blocks[..], frameSize, tail) + frameSize <= BytesBefore(Sizes(blocks[..]), blocks.Length)
    {
      hide Divided, FramesBefore, BytesBefore, BlockOf, Bytes;
      var i := BlockOf(blocks[..], frameSize, tail);
      FrameInBlock(blocks[..], frameSize, tail);
      FramesMonotone(Sizes(blocks[..]), frameSize, i + 1, blocks.Length);
    }

    /** `set_transfer_params_multi`, up to sending the command it makes. */
    method SetTransferParams(requested: int) returns (command: SetDataMulti)
      requires requested <= 0x7FFF_FC00 // or the 32-bit sum in the rounding overflows
      modifies this, blocks
      ensures Configured() && dataSize == DataSize(requested) && frameSize == FrameSize(dataSize)
      ensures dataSize == if requested <= 0 then 1024 else requested
      ensures dataSize <= frameSize < dataSize + 1024 && frameSize % 1024 == 0
      ensures Sizes(blocks[..]) == old(Sizes(blocks[..]))
      ensures forall i :: 0 <= i < blocks.Length ==> blocks[i].bus == old(blocks[i]).bus
      ensures View() == Ring(nFrames, 0, 0, 0, false)
      ensures command == SetDataMulti(nFrames, frameSize, dataSize, Extents(blocks[..], blocks.Length))
    {
      hide Fits, FrameSize, Divided, FramesBefore;
      head, tail, lastGrant, forceExit := 0, 0, 0, false;
      dataSize := if requested <= 0 then 1024 else requested;
      frameSize := FrameSize(dataSize);
      Divide();
      var extents := [];
      for i := 0 to blocks.Length
        invariant extents == Extents(blocks[..], i)
      {
        if blocks[i].start != blocks[i].end {
          extents := extents + [Extent(blocks[i].bus, blocks[i].start, blocks[i].end)];
        }
      }
      command := SetDataMulti(nFrames, frameSize, dataSize, extents);
    }

    method Divide()
      requires frameSize > 0
      modifies this`nFrames, blocks
      ensures Divided(blocks[..], frameSize)
      ensures nFrames == FramesBefore(Sizes(blocks[..]), frameSize, blocks.Length)
      ensures Sizes(blocks[..]) == old(Sizes(blocks[..]))
      ensures forall i :: 0 <= i < blocks.Length ==> blocks[i].bus == old(blocks[i]).bus
    {
      hide FramesBefore;
      ghost var sizes := Sizes(blocks[..]);
      var start: nat := 0;
      NoFramesBefore(sizes, frameSize);
      for i := 0 to blocks.Length
        invariant start == FramesBefore(sizes, frameSize, i)
        invariant forall k :: 0 <= k < blocks.Length ==>
                    blocks[k].size == sizes[k] && blocks[k].bus == old(blocks[k]).bus
        invariant forall k :: 0 <= k < i ==> Ranged(blocks[k], sizes, frameSize, k)
      {
        FramesUpTo(sizes, frameSize, i);
        var end := start + Fits(blocks[i].size, frameSize);
        blocks[i] := blocks[i].(start := start, end := end);
        start := end;
      }
      nFrames := start;
      assert Sizes(blocks[..]) == sizes;
    }

    /** DSPIOCT_FRAME_POLL */
    method FramePoll() returns (x: int)
      requires tail == head || Configured()
      modifies this`forceExit
      ensures !forceExit
      ensures x == if old(forceExit) then -61
                   else if tail == head then -11
                   else Offset(blocks[..], frameSize, tail)
    {
      if forceExit {
        forceExit := false;
        return -ENODATA;
      }
      if tail == head {
        return -EAGAIN;
      }
      x := Locate();
    }

    method Locate() returns (offset: int)
      requires Configured() && tail != head
      ensures offset == Offset(blocks[..], frameSize, tail)
    {
      hide Bytes, Divided, FramesBefore, BytesBefore, BlockOf;
      ghost var all := blocks[..];
      ghost var target := BlockOf(all, frameSize, tail);
      var i := 0;
      offset := 0;
      NoBytesBefore(Sizes(all));
      while tail < blocks[i].start || tail >= blocks[i].end
        invariant 0 <= i <= target
        invariant offset == BytesBefore(Sizes(all), i)
        decreases target - i
      {
        assert blocks[i] == all[i] && !Covers(all[i], tail);
        BytesUpTo(Sizes(all), i);
        offset := offset + blocks[i].size;
        i := i + 1;
      }
      assert blocks[i] == all[i];
      RangesDisjoint(all, frameSize, tail, i, target);
      offset := offset + Bytes(frameSize, tail - blocks[i].start);
    }

    /** DSPIOCT_FRAME_CONSUME */
    method FrameConsume()
      modifies this`tail
      ensures View() == Consumed(old(View()))
      ensures tail == if nFrames == 0 || old(tail) == head then old(tail)
                      else if old(tail) == nFrames - 1 then 0 else if old(tail) < nFrames then old(tail) + 1 else tail
      ensures old(Configured()) ==> Configured()
    {
      if nFrames > 0 && tail != head {
        tail := (tail + 1) % nFrames;
      }
    }

    /** The DGRAM_TYPE_BUF_INFO branch of the interrupt handler. */
    method BufInfo(value: nat) returns (schedule: bool)
      modifies this`head
      ensures View() == Informed(old(View()), value)
      ensures head == if value < nFrames then value else old(head)
      ensures old(Configured()) ==> Configured()
      ensures schedule == GrantDue(old(View()), value)
      ensures value >= nFrames ==> !schedule
      ensures lastGrant <= value < nFrames ==> schedule == (4 * (value - lastGrant) > nFrames)
      ensures value < lastGrant < nFrames ==> schedule == (4 * (value + nFrames - lastGrant) > nFrames)
    {
      DueExactly(View(), value);
      schedule := false;
      if nFrames > 0 && value < nFrames {
        head := value;
        var k := (head - lastGrant + nFrames) % nFrames;
        schedule := k > nFrames / 4;
      }
    }

    /** `send_set_tail_inform`; `Some` tail to be sent, when the card is enabled. */
    method SendSetTailInform(enabled: bool) returns (err: int, granted: nat)
      modifies this`lastGrant
      ensures View() == if enabled then old(View()).(lastGrant := tail) else old(View())
      ensures old(Configured()) ==> Configured()
      ensures err == (if enabled then 0 else -19) && granted == tail
    {
      err, granted := -ENODEV, tail;
      if enabled {
        lastGrant := tail;
        err := 0;
      }
    }

    /** One request of any kind; the result of a poll. */
    method Handle(e: Request) returns (x: int)
      requires Valid() && Sized(e)
      modifies this, blocks
      ensures Valid() && View() == Step(old(View()), e, Sizes(blocks[..])) && frameSize == FrameAfter(old(frameSize), e)
      ensures Sizes(blocks[..]) == old(Sizes(blocks[..]))
      ensures match e
              case SetDataSize(size) => View() == Ring(nFrames, 0, 0, 0, false)
              case FramePoll => View() == old(View()).(forceExit := false)
              case FrameConsume =>
                View() == old(View()).(tail := if old(tail == head) then old(tail)
                                               else if old(tail) == nFrames - 1 then 0 else old(tail) + 1)
              case FakeStopFrame => View() == old(View()).(forceExit := true)
              case Empty => View() == old(View()).(head := 0, tail := 0)
              case Report(value) => View() == old(View()).(head := if value < nFrames then value else old(head))
              case SetTail(enabled) =>
                View() == old(View()).(lastGrant := if enabled then old(tail) else old(lastGrant))
      ensures e.FramePoll? ==>
                PollResult(x, old(View()), frameSize, BytesBefore(Sizes(blocks[..]), blocks.Length))
    {
      hide Divided, FramesBefore, FrameSize, DataSize, BytesBefore, Offset, Bytes;
      x := 0;
      match e
      case SetDataSize(size) =>
        var command := SetTransferParams(size);
      case FramePoll =>
        if tail != head {
          PollIsSafe();
        }
        x := FramePoll();
      case FrameConsume =>
        FrameConsume();
      case FakeStopFrame =>
        forceExit := true;
      case Empty =>
        head, tail := 0, 0;
      case Report(value) =>
        var schedule := BufInfo(value);
      case SetTail(enabled) =>
        var err, granted := SendSetTailInform(enabled);
    }

    /** Any run of requests. Every search for a block ends, and each poll returns an error or the
        place of a whole frame. */
    method Run(es: seq<Request>) returns (results: seq<int>)
      requires Valid() && forall e :: e in es ==> Sized(e)
      modifies this, blocks
      ensures Valid() && View() == RunRing(old(View()), es, Sizes(blocks[..]))
      ensures frameSize == RunFrame(old(frameSize), es)
      ensures Sizes(blocks[..]) == old(Sizes(blocks[..])) && |results| == |es|
      ensures forall k :: 0 <= k < |es| && es[k].FramePoll? ==>
                PollResult(results[k], RunRing(old(View()), es[..k], old(Sizes(blocks[..]))),
                           RunFrame(old(frameSize), es[..k]),
                           BytesBefore(old(Sizes(blocks[..])), blocks.Length))
    {
      hide Valid, FramesBefore, FrameAfter, Step, BytesBefore, PollResult;
      results := [];
      for i := 0 to |es|
        invariant Valid() && View() == RunRing(old(View()), es[..i], Sizes(blocks[..]))
        invariant frameSize == RunFrame(old(frameSize), es[..i])
        invariant Sizes(blocks[..]) == old(Sizes(blocks[..])) && |results| == i
        invariant forall k :: 0 <= k < i && es[k].FramePoll? ==>
                    PollResult(results[k], RunRing(old(View()), es[..k], old(Sizes(blocks[..]))),
                               RunFrame(old(frameSize), es[..k]),
                               BytesBefore(old(Sizes(blocks[..])), blocks.Length))
      {
        assert es[..i + 1][..i] == es[..i] && es[i] in es;
        PollKeepsFrame(frameSize, es[i]);
        var x := Handle(es[i]);
        results := results + [x];
      }
      assert es[..|es|] == es;
    }
  }

  lemma PollKeepsFrame(frame: nat, e: Request)
    ensures e.FramePoll? ==> FrameAfter(frame, e) == frame
  {}
}

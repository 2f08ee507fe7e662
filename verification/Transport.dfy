/** The MCE transport of the Jam player: TMS/TDI pairs are packed sixteen to a word and sent to
    the MCE in payloads; captured TDO bits are read back and unpacked. */
module Transport {
  import opened Bits

  const MAX_PAYLOAD: nat := 55
  const MAX_PACKING: nat := 16
  const MAX_TBITS: nat := MAX_PAYLOAD * MAX_PACKING

  /** What the TAP sees at one rising TCK edge. */
  datatype Pair = Pair(tms: bool, tdi: bool)

  function Words(count: nat): nat { (count + MAX_PACKING - 1) / MAX_PACKING }

  /** The pairs held by packed words: bit 2i is TDI and bit 2i+1 is TMS of pair i. */
  function UnpackWords(words: seq<Word>, count: nat): (pairs: seq<Pair>)
    requires Words(count) <= |words|
    ensures |pairs| == count
  {
    var bits := Bits32(words);
    seq(count, i requires 0 <= i < count => Pair(bits[2 * i + 1], bits[2 * i]))
  }

  /** A payload is twice the pair count, followed by just the words that hold the pairs. */
  predicate IsPayload(p: seq<Word>) {
    |p| >= 1 && p[0] % 2 == 0 && |p| == 1 + Words(p[0] / 2)
  }

  function UnpackPayload(p: seq<Word>): (pairs: seq<Pair>)
    requires IsPayload(p)
  {
    UnpackWords(p[1..], p[0] / 2)
  }

  /** Where each pair is in a payload: sixteen to a word, TDI below TMS. */
  lemma PairInPayload(p: seq<Word>, i: nat)
    requires IsPayload(p) && i < p[0] / 2
    ensures |p| == 1 + (p[0] / 2 + 15) / 16
    ensures UnpackPayload(p)[i] == Pair(Bit(p[1 + i / 16], 2 * (i % 16) + 1), Bit(p[1 + i / 16], 2 * (i % 16)))
  {
    hide Bit;
    assert p[1..][i / 16] == p[1 + i / 16];
  }

  function UnpackAll(payloads: seq<seq<Word>>): (pairs: seq<Pair>)
    requires forall p :: p in payloads ==> IsPayload(p)
  {
    if payloads == [] then []
    else UnpackAll(payloads[..|payloads| - 1]) + UnpackPayload(payloads[|payloads| - 1])
  }

  lemma UnpackAllSnoc(payloads: seq<seq<Word>>, p: seq<Word>)
    requires forall q :: q in payloads ==> IsPayload(q)
    requires IsPayload(p)
    ensures forall q :: q in payloads + [p] ==> IsPayload(q)
    ensures UnpackAll(payloads + [p]) == UnpackAll(payloads) + UnpackPayload(p)
  {
    assert (payloads + [p])[..|payloads|] == payloads;
  }

  lemma UnpackPrefix(words: seq<Word>, n: nat, count: nat)
    requires Words(count) <= n <= |words|
    ensures UnpackWords(words[..n], count) == UnpackWords(words, count)
  {
    forall i | 0 <= i < count
      ensures UnpackWords(words[..n], count)[i] == UnpackWords(words, count)[i]
    {
      assert 2 * i + 1 < 32 * n;
      assert Bits32(words[..n])[2 * i] == Bits32(words)[2 * i];
      assert Bits32(words[..n])[2 * i + 1] == Bits32(words)[2 * i + 1];
    }
  }

  // ----- the words that come back -----

  function Min(a: nat, b: nat): nat { if a < b then a else b }

  /** The captured bits of one word, complemented, the latest in bit 0. */
  function ReadBackWord(bits: seq<bool>): (w: Word)
    requires |bits| <= MAX_PACKING
  {
    var rev := seq(|bits|, i requires 0 <= i < |bits| => !bits[|bits| - 1 - i]);
    ValueBound(rev);
    Pow2Monotone(|bits|, 16);
    Pow2Constants();
    Value(rev)
  }

  lemma ReadBackWordBit(bits: seq<bool>, p: nat)
    requires |bits| <= MAX_PACKING && p < |bits|
    ensures Bit(ReadBackWord(bits), p) == !bits[|bits| - 1 - p]
  {
    var rev := seq(|bits|, i requires 0 <= i < |bits| => !bits[|bits| - 1 - i]);
    BitOfValue(rev, p);
  }

  /** The TDO words the MCE returns for the captured bits of one payload. */
  function ReadBack(bits: seq<bool>): (words: seq<Word>)
    ensures |words| == Words(|bits|)
  {
    seq(Words(|bits|), w requires 0 <= w < Words(|bits|) =>
      ReadBackWord(bits[MAX_PACKING * w..Min(MAX_PACKING * w + MAX_PACKING, |bits|)]))
  }

  /** `get_bit` on a read buffer of `count` bits. */
  function GetBit(words: seq<Word>, count: nat, idx: nat): bool
    requires idx < count && Words(count) <= |words|
  {
    var bitIdx := if count / MAX_PACKING == idx / MAX_PACKING then count - idx - 1
                  else MAX_PACKING - 1 - idx % MAX_PACKING;
    !Bit(words[idx / MAX_PACKING], bitIdx)
  }

  /** Which bit that is: each word holds the latest of its sixteen, or of those left, in bit 0, inverted. */
  lemma GetBitPlace(words: seq<Word>, count: nat, idx: nat)
    requires idx < count && Words(count) <= |words|
    ensures var w := idx / 16;
            GetBit(words, count, idx) ==
            !Bit(words[w], (if count - 16 * w < 16 then count - 16 * w else 16) - 1 - idx % 16)
  {}

  /** `get_bit` undoes the read-back layout, whatever the number of bits. */
  lemma GetBitInvertsReadBack(bits: seq<bool>, idx: nat)
    requires idx < |bits|
    ensures GetBit(ReadBack(bits), |bits|, idx) == bits[idx]
  {
    var w := idx / MAX_PACKING;
    var chunk := bits[MAX_PACKING * w..Min(MAX_PACKING * w + MAX_PACKING, |bits|)];
    ReadBackWordBit(chunk, |chunk| - 1 - idx % MAX_PACKING);
  }

  lemma GetBitLocal(a: seq<Word>, b: seq<Word>, count: nat, idx: nat)
    requires idx < count && Words(count) <= |a| <= |b| && a == b[..|a|]
    ensures GetBit(a, count, idx) == GetBit(b, count, idx)
  {}

  /** A scan raises TMS on its last bit only. */
  function ScanPairs(bits: seq<bool>): (pairs: seq<Pair>)
    ensures |pairs| == |bits|
    ensures forall i :: 0 <= i < |bits| ==> pairs[i] == Pair(i == |bits| - 1, bits[i])
  {
    seq(|bits|, i requires 0 <= i < |bits| => Pair(i == |bits| - 1, bits[i]))
  }

  lemma ScanPairsAre(bits: seq<bool>, k: nat)
    requires k < |bits|
    ensures ScanPairs(bits)[k] == Pair(k == |bits| - 1, bits[k])
  {}

  /** The TDO bits of the clocks of a history from `from` on. */
  function TdoOf(tdo: seq<Pair> -> bool, history: seq<Pair>, from: nat): (bits: seq<bool>)
    requires from <= |history|
    ensures |bits| == |history| - from
  {
    seq(|history| - from, i requires 0 <= i < |history| - from => tdo(history[..from + i + 1]))
  }

  lemma TdoOfNothing(tdo: seq<Pair> -> bool, history: seq<Pair>)
    ensures TdoOf(tdo, history, |history|) == []
  {}

  lemma TdoOfSplit(tdo: seq<Pair> -> bool, history: seq<Pair>, from: nat, mid: nat)
    requires from <= mid <= |history|
    ensures TdoOf(tdo, history, from) == TdoOf(tdo, history[..mid], from) + TdoOf(tdo, history, mid)
  {
    forall i | 0 <= i < mid - from
      ensures TdoOf(tdo, history, from)[i] == TdoOf(tdo, history[..mid], from)[i]
    {
      assert history[..mid][..from + i + 1] == history[..from + i + 1];
    }
  }

  lemma Stitch(tdo: seq<Pair> -> bool, rest: seq<bool>, start: seq<Pair>, pairs: seq<Pair>, a: nat, b: nat)
    requires a <= b <= |pairs| && b <= |rest|
    ensures Overwritten(Overwritten(rest, 0, TdoOf(tdo, start + pairs[..a], |start|)), a,
                        TdoOf(tdo, start + pairs[..b], |start| + a))
         == Overwritten(rest, 0, TdoOf(tdo, start + pairs[..b], |start|))
  {
    hide TdoOf, Overwritten;
    var history := start + pairs[..b];
    TdoOfSplit(tdo, history, |start|, |start| + a);
    assert history[..|start| + a] == start + pairs[..a];
    OverwriteTwice(rest, 0, TdoOf(tdo, start + pairs[..a], |start|), TdoOf(tdo, history, |start| + a));
  }

  /** The pairs of a scan, bit by bit. */
  lemma ScannedPairs(tdi: seq<Byte>, count: nat, start: seq<Pair>, pushed: seq<Pair>)
    requires count <= 8 * |tdi| && pushed == start + ScanPairs(Bits8(tdi)[..count])
    ensures forall k :: 0 <= k < count ==> pushed[|start| + k] == Pair(k == count - 1, Bit(tdi[k / 8], k % 8))
  {
    hide Bit;
    forall k | 0 <= k < count
      ensures pushed[|start| + k] == Pair(k == count - 1, Bit(tdi[k / 8], k % 8))
    {
      assert pushed[|start| + k] == ScanPairs(Bits8(tdi)[..count])[k];
      assert Bits8(tdi)[..count][k] == Bits8(tdi)[k];
    }
  }

  /** What a scan stores, bit by bit. */
  lemma StoredBits(tdo: seq<Pair> -> bool, pushed: seq<Pair>, from: nat, rest: seq<bool>, count: nat)
    requires from + count == |pushed| && count <= |rest|
    ensures var stored := Overwritten(rest, 0, TdoOf(tdo, pushed, from));
            forall k {:trigger stored[k]} :: 0 <= k < |rest| ==>
              stored[k] == if k < count then tdo(pushed[..from + k + 1]) else rest[k]
  {}

  class Mce {
    /** TDO sampled at the last clock of a history: any device at all. */
    const tdo: seq<Pair> -> bool
    /** The payloads written to `tms_tdi`, in order. */
    var sent: seq<seq<Word>>
    var writeCount: nat
    const writeData: array<Word>
    var readCount: nat
    const readData: array<Word>

    ghost predicate Valid()
      reads this, writeData, readData
    {
      writeData.Length == MAX_PAYLOAD && readData.Length == MAX_PAYLOAD && writeData != readData &&
      writeCount <= MAX_TBITS && readCount <= MAX_TBITS &&
      forall p :: p in sent ==> IsPayload(p) && |p| <= MAX_PAYLOAD + 1
    }

    /** The caller's buffers are not the transport's. */
    ghost predicate Apart(buffer: array?<Byte>) {
      (buffer as object?) !in {writeData as object, readData}
    }

    /** Between calls there is always room for one more pair. */
    ghost predicate Ready()
      reads this, writeData, readData
      ensures Ready() ==> Valid()
    {
      Valid() && writeCount < MAX_TBITS
    }

    ghost function Pending(): (pairs: seq<Pair>)
      requires Valid()
      reads this, writeData, readData
    {
      UnpackWords(writeData[..], writeCount)
    }

    /** Everything pushed so far: the flushed payloads, then the buffer. */
    ghost function Pushed(): (pairs: seq<Pair>)
      requires Valid()
      reads this, writeData, readData
    {
      UnpackAll(sent) + Pending()
    }

    /** The TDO bit of every clock from `from` on. */
    ghost function Captured(from: nat): (bits: seq<bool>)
      requires Valid() && from <= |Pushed()|
      reads this, writeData, readData
      ensures |bits| == |Pushed()| - from
    {
      TdoOf(tdo, Pushed(), from)
    }

    constructor (tdo: seq<Pair> -> bool)
      ensures Ready() && Pushed() == [] && this.tdo == tdo && fresh(writeData) && fresh(readData)
    {
      this.tdo := tdo;
      sent := [];
      writeCount, readCount := 0, 0;
      writeData := new Word[MAX_PAYLOAD](_ => 0);
      readData := new Word[MAX_PAYLOAD](_ => 0);
    }

    /** `mcecmd_write_block` of the pending pairs to `tms_tdi`. */
    method SendPayload()
      requires Valid() && writeCount > 0
      modifies this`sent
      ensures Valid() && old(sent) <= sent && |sent| == |old(sent)| + 1
      ensures var p := sent[|sent| - 1]; p[0] == 2 * writeCount && |p| <= 56
      ensures UnpackAll(sent) == old(Pushed())
    {
      hide UnpackAll, UnpackWords;
      var nData := Words(writeCount);
      var payload := [2 * writeCount] + writeData[..nData];
      assert payload[1..] == writeData[..nData] == writeData[..][..nData];
      UnpackPrefix(writeData[..], nData, writeCount);
      UnpackAllSnoc(sent, payload);
      sent := sent + [payload];
    }

    /** `mcecmd_read_block` of the TDO words for the payload just sent. */
    method ReadTdo()
      requires Valid() && writeCount <= |UnpackAll(sent)|
      modifies this`readCount, readData
      ensures Valid() && readCount == writeCount
      ensures forall j {:trigger GetBit(readData[..], readCount, j)} :: 0 <= j < readCount ==>
                GetBit(readData[..], readCount, j) ==
                TdoOf(tdo, UnpackAll(sent), |UnpackAll(sent)| - readCount)[j]
    {
      hide GetBit, ReadBack, UnpackAll, TdoOf;
      var history := UnpackAll(sent);
      var captured := TdoOf(tdo, history, |history| - writeCount);
      var back := ReadBack(captured);
      forall i | 0 <= i < |back| {
        readData[i] := back[i];
      }
      readCount := writeCount;
      assert back == readData[..][..|back|];
      forall j | 0 <= j < readCount
        ensures GetBit(readData[..], readCount, j) == captured[j]
      {
        GetBitInvertsReadBack(captured, j);
        GetBitLocal(back, readData[..], readCount, j);
      }
    }

    method FlushStack(doRead: bool)
      requires Valid()
      modifies this, writeData, readData
      ensures Valid() && writeCount == 0
      ensures Pushed() == old(Pushed()) && old(sent) <= sent
      ensures |sent| == |old(sent)| + if old(writeCount) > 0 then 1 else 0
      ensures doRead ==> readCount == old(writeCount)
      ensures doRead ==> forall j {:trigger GetBit(readData[..], readCount, j)} :: 0 <= j < readCount ==>
                GetBit(readData[..], readCount, j) == Captured(|Pushed()| - readCount)[j]
    {
      hide UnpackAll, UnpackWords, GetBit, TdoOf;
      if writeCount == 0 {
        readCount := 0;
        return;
      }
      SendPayload();
      if doRead {
        ReadTdo();
      }
      writeCount := 0;
      ghost var back := readData[..];
      forall i | 0 <= i < MAX_PAYLOAD {
        writeData[i] := 0;
      }
      assert readData[..] == back;
      assert Pending() == [];
      assert Pushed() == UnpackAll(sent);
    }

    /** `set_bits`: overwrite the two bits of pair `idx`. */
    method SetBits(idx: nat, tms: bool, tdi: bool)
      requires Valid() && idx < MAX_TBITS
      modifies writeData
      ensures Valid()
      ensures Bits32(writeData[..]) == old(Bits32(writeData[..]))[2 * idx := tdi][2 * idx + 1 := tms]
    {
      PutBit32(writeData, 2 * idx, tdi);
      PutBit32(writeData, 2 * idx + 1, tms);
    }

    /** `set_bits(write_buffer.count++, tms, tdi)` */
    method Push(tms: bool, tdi: bool)
      requires Ready()
      modifies this`writeCount, writeData
      ensures Valid() && writeCount == old(writeCount) + 1
      ensures Pushed() == old(Pushed()) + [Pair(tms, tdi)]
    {
      ghost var before := Pending();
      SetBits(writeCount, tms, tdi);
      writeCount := writeCount + 1;
      assert Pending() == before + [Pair(tms, tdi)];
    }

    /** Push one pair; a read flushes at once and returns the TDO bit of this very clock. */
    method WriteSingle(tms: bool, tdi: bool, readTdo: bool) returns (bit: bool)
      requires Ready()
      modifies this, writeData, readData
      ensures Ready() && old(sent) <= sent
      ensures |sent| == |old(sent)| + if readTdo || old(writeCount) == 879 then 1 else 0
      ensures Pushed() == old(Pushed()) + [Pair(tms, tdi)]
      ensures bit == (readTdo && tdo(Pushed()))
    {
      hide UnpackAll, UnpackWords, GetBit;
      Push(tms, tdi);
      if writeCount >= MAX_TBITS || readTdo {
        FlushStack(readTdo);
      }
      if readTdo {
        var idx := readCount - 1;
        assert Pushed()[..|Pushed()|] == Pushed();
        return GetBit(readData[..], readCount, idx);
      }
      return false;
    }

    /** Copy the read buffer to `tdo` from bit `dest` on. */
    method Unload(tdo: array<Byte>, dest: nat, ghost captured: seq<bool>) returns (end: nat)
      requires Valid() && dest + readCount <= 8 * tdo.Length
      requires Apart(tdo)
      requires |captured| == readCount && forall j {:trigger GetBit(readData[..], readCount, j)} ::
                 0 <= j < readCount ==> GetBit(readData[..], readCount, j) == captured[j]
      modifies tdo
      ensures end == dest + readCount
      ensures Bits8(tdo[..]) == Overwritten(old(Bits8(tdo[..])), dest, captured)
    {
      hide GetBit, Bits8, Overwritten;
      end := dest;
      ghost var before := Bits8(tdo[..]);
      OverwriteNothing(before, dest);
      for j := 0 to readCount
        invariant Valid() && end == dest + j
        invariant readData[..] == old(readData[..])
        invariant Bits8(tdo[..]) == Overwritten(before, dest, captured[..j])
      {
        var bit := GetBit(readData[..], readCount, j);
        PutBit8(tdo, end, bit);
        OverwriteOne(before, dest, captured[..j], bit);
        assert captured[..j + 1] == captured[..j] + [bit];
        end := end + 1;
      }
      assert captured[..readCount] == captured;
    }

    /** Flush, and copy the read buffer to `tdo` if there is one. */
    method FlushInto(tdo: array?<Byte>, dest: nat) returns (end: nat)
      requires Valid() && 0 < writeCount
      requires tdo != null ==> dest + writeCount <= 8 * tdo.Length && Apart(tdo)
      modifies this, writeData, readData, if tdo == null then {} else {tdo}
      ensures Valid() && writeCount == 0
      ensures Pushed() == old(Pushed()) && old(sent) <= sent
      ensures tdo != null ==> end == dest + old(writeCount) &&
                              Bits8(tdo[..]) == Overwritten(old(Bits8(tdo[..])), dest,
                                                            Captured(|Pushed()| - old(writeCount)))
    {
      hide GetBit, Bits8, TdoOf, UnpackAll, UnpackWords, Overwritten;
      end := dest;
      FlushStack(tdo != null);
      if tdo != null {
        assert tdo[..] == old(tdo[..]);
        end := Unload(tdo, dest, Captured(|Pushed()| - readCount));
      }
    }

    /** After `i` bits of a scan, `flushed` of them sent: the pairs pushed, and the TDO bits stored. */
    ghost predicate Scanning(i: nat, flushed: nat, start: seq<Pair>, pairs: seq<Pair>,
                             tdo: array?<Byte>, rest: seq<bool>, dest: nat)
      reads this, writeData, readData, tdo
    {
      Ready() && flushed + writeCount == i <= |pairs| && (i == |pairs| ==> writeCount == 0) &&
      Pushed() == start + pairs[..i] &&
      (tdo != null ==>
         |rest| == 8 * tdo.Length >= |pairs| && dest == flushed && Apart(tdo) &&
         Bits8(tdo[..]) == Overwritten(rest, 0, TdoOf(this.tdo, start + pairs[..flushed], |start|)))
    }

    lemma ScanStarts(start: seq<Pair>, pairs: seq<Pair>, tdo: array?<Byte>, rest: seq<bool>)
      requires Ready() && writeCount == 0 && Pushed() == start
      requires tdo != null ==> Apart(tdo) && rest == Bits8(tdo[..]) && |pairs| <= |rest|
      ensures Scanning(0, 0, start, pairs, tdo, rest, 0)
    {
      hide TdoOf, Overwritten, Bits8, Mce.Pushed;
      assert start + pairs[..0] == start;
      TdoOfNothing(this.tdo, start);
      OverwriteNothing(rest, 0);
    }

    /** Bits not yet sent have not been overwritten. */
    lemma ScanSpares(i: nat, flushed: nat, start: seq<Pair>, pairs: seq<Pair>,
                     tdo: array?<Byte>, rest: seq<bool>, dest: nat)
      requires Scanning(i, flushed, start, pairs, tdo, rest, dest) && i < |pairs|
      ensures Valid()
      ensures tdo != null ==> i < 8 * tdo.Length && |rest| == 8 * tdo.Length && Bits8(tdo[..])[i] == rest[i]
    {
      hide TdoOf, Overwritten, Bits8, Mce.Pushed;
      if tdo != null {
        OverwrittenAt(rest, 0, TdoOf(this.tdo, start + pairs[..flushed], |start|), i);
      }
    }

    lemma ScanEnds(flushed: nat, start: seq<Pair>, pairs: seq<Pair>, tdo: array?<Byte>, rest: seq<bool>, dest: nat)
      requires Scanning(|pairs|, flushed, start, pairs, tdo, rest, dest)
      ensures Ready() && Pushed() == start + pairs
      ensures tdo != null ==> Bits8(tdo[..]) == Overwritten(rest, 0, Captured(|start|))
    {
      hide TdoOf, Overwritten, Bits8, Mce.Pushed;
      assert pairs[..|pairs|] == pairs;
    }

    /** One turn of the loop of `scan_mce`. */
    method ScanBit(i: nat, bit: bool, tdo: array?<Byte>, dest: nat,
                   ghost flushed: nat, ghost start: seq<Pair>, ghost pairs: seq<Pair>,
                   ghost rest: seq<bool>, count: nat)
      returns (end: nat, ghost flushedEnd: nat)
      requires Scanning(i, flushed, start, pairs, tdo, rest, dest)
      requires i < count == |pairs| && pairs[i] == Pair(i == count - 1, bit)
      modifies this, writeData, readData, if tdo == null then {} else {tdo}
      ensures old(sent) <= sent
      ensures Scanning(i + 1, flushedEnd, start, pairs, tdo, rest, end)
    {
      hide UnpackAll, UnpackWords, GetBit, TdoOf, Bits8, Overwritten, Mce.Pushed, Mce.Pending;
      ghost var history := start + pairs[..i + 1];
      Push(i == count - 1, bit);
      assert tdo != null ==> tdo[..] == old(tdo[..]);
      assert Pushed() == history by {
        assert pairs[..i + 1] == pairs[..i] + [pairs[i]];
      }
      end, flushedEnd := dest, flushed;
      if writeCount < MAX_TBITS && i < count - 1 {
        return;
      }
      ghost var sending := writeCount;
      assert |history| - sending == |start| + flushed;
      end := FlushInto(tdo, dest);
      flushedEnd := i + 1;
      if tdo != null {
        Stitch(this.tdo, rest, start, pairs, flushed, i + 1);
        assert Captured(|Pushed()| - sending) == TdoOf(this.tdo, history, |start| + flushed);
      }
    }

    /** The loop of `scan_mce`. */
    method ScanBits(count: nat, tdi: array<Byte>, tdo: array?<Byte>)
      requires Ready() && writeCount == 0 && count <= 8 * tdi.Length && Apart(tdi)
      requires tdo != null ==> count <= 8 * tdo.Length && Apart(tdo)
      modifies this, writeData, readData, if tdo == null then {} else {tdo}
      ensures Ready() && old(sent) <= sent
      ensures Pushed() == old(Pushed()) + ScanPairs(old(Bits8(tdi[..]))[..count])
      ensures tdo != null ==>
                Bits8(tdo[..]) == Overwritten(old(Bits8(tdo[..])), 0, Captured(|old(Pushed())|))
    {
      hide UnpackAll, UnpackWords, GetBit, TdoOf, Bits8, Overwritten, Mce.Scanning, Mce.Pushed, Bit;
      ghost var start, bits := Pushed(), Bits8(tdi[..])[..count];
      ghost var rest := if tdo == null then [] else Bits8(tdo[..]);
      ghost var pairs := ScanPairs(bits);
      ghost var flushed: nat := 0;
      var dest: nat := 0;
      ScanStarts(start, pairs, tdo, rest);
      for i := 0 to count
        invariant Scanning(i, flushed, start, pairs, tdo, rest, dest) && old(sent) <= sent
        invariant tdi != tdo ==> tdi[..] == old(tdi[..])
      {
        ScanSpares(i, flushed, start, pairs, tdo, rest, dest);
        assert Bits8(tdi[..])[i] == bits[i];
        var bit := Bit(tdi[i / 8], i % 8);
        dest, flushed := ScanBit(i, bit, tdo, dest, flushed, start, pairs, rest, count);
      }
      ScanEnds(flushed, start, pairs, tdo, rest, dest);
    }

    /** `scan_mce`: transmit the bits of `tdi` with TMS high on the last one; when `tdo` is given, record
        the returned bits there.  `tdo` may be the array `tdi` itself. */
    method Scan(count: nat, tdi: array<Byte>, tdo: array?<Byte>)
      requires Ready() && count <= 8 * tdi.Length && Apart(tdi)
      requires tdo != null ==> count <= 8 * tdo.Length && Apart(tdo)
      modifies this, writeData, readData, if tdo == null then {} else {tdo}
      ensures Ready() && old(sent) <= sent
      ensures Pushed() == old(Pushed()) + ScanPairs(old(Bits8(tdi[..]))[..count])
      ensures tdo != null ==>
                Bits8(tdo[..]) == Overwritten(old(Bits8(tdo[..])), 0, Captured(|old(Pushed())|))
      ensures forall k :: 0 <= k < count ==>
                Pushed()[|old(Pushed())| + k] == Pair(k == count - 1, Bit(old(tdi[..])[k / 8], k % 8))
      ensures tdo != null ==> forall k {:trigger Bits8(tdo[..])[k]} :: 0 <= k < 8 * tdo.Length ==>
                Bits8(tdo[..])[k] ==
                if k < count then this.tdo(Pushed()[..|old(Pushed())| + k + 1]) else old(Bits8(tdo[..]))[k]
    {
      hide UnpackAll, UnpackWords, GetBit, TdoOf, Bits8, Overwritten, Mce.Pushed, Bit, ScanPairs;
      ghost var start := Pushed();
      ghost var rest := if tdo == null then [] else Bits8(tdo[..]);
      if writeCount > 0 {
        FlushStack(true);
      }
      assert tdo != null ==> tdo[..] == old(tdo[..]);
      assert tdi[..] == old(tdi[..]);
      ScanBits(count, tdi, tdo);
      ScannedPairs(old(tdi[..]), count, start, Pushed());
      if tdo != null {
        StoredBits(this.tdo, Pushed(), |start|, rest, count);
      }
    }
  }
}

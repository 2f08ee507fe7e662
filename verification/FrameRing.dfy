/** The frame ring of the c6 driver. */
module FrameRing {
  import opened Bits
  import opened Cyclic

  /** The indices of `frame_buffer_t`. */
  datatype Ring = Ring(maxIndex: nat, head: nat, tail: nat, partial: nat, dropped: nat) {
    predicate Valid() { head < maxIndex && tail < maxIndex }

    /** The number of frames waiting. */
    function Queued(): nat
      requires Valid()
    {
      Ahead(maxIndex, tail, head)
    }
  }

  /** How far `b` is ahead of `a`, going round. */
  function Ahead(n: nat, a: nat, b: nat): (d: nat)
    requires a < n && b < n
    ensures d < n && d == (b + n - a) % n
  {
    if b >= a then
      WrapsRound(b - a, n);
      Small(b - a, n);
      b - a
    else
      Small(b + n - a, n);
      b + n - a
  }

  function Next(n: nat, a: nat): (r: nat)
    requires a < n
    ensures r < n && r == (a + 1) % n
  {
    Small(a, n);
    if a + 1 < n then Small(a + 1, n); a + 1 else WrapsRound(0, n); 0
  }

  function Incremented(r: Ring): Ring
    requires r.Valid()
  {
    var d := Next(r.maxIndex, r.head);
    if d == r.tail then r.(dropped := r.dropped + 1) else r.(head := d)
  }

  function TailIncremented(r: Ring): Ring
    requires r.Valid()
  {
    if r.head == r.tail then r else r.(tail := Next(r.maxIndex, r.tail), partial := 0)
  }

  /** A completed frame is dropped, and counted, exactly if the ring is full; else one more is queued. */
  lemma DropsWhenFull(r: Ring)
    requires r.Valid()
    ensures var t := Incremented(r);
            && t.Valid() && t.maxIndex == r.maxIndex && t.tail == r.tail && t.partial == r.partial
            && if r.Queued() == r.maxIndex - 1 then t == r.(dropped := r.dropped + 1)
               else && t.Queued() == r.Queued() + 1 && t.dropped == r.dropped
                    && t.head == if r.head == r.maxIndex - 1 then 0 else r.head + 1
  {}

  /** With a frame queued, one is taken off, and reading begins at the start of the next. */
  lemma TakesOne(r: Ring)
    requires r.Valid()
    ensures var t := TailIncremented(r);
            && t.Valid() && t.maxIndex == r.maxIndex && t.head == r.head && t.dropped == r.dropped
            && if r.Queued() == 0 then t == r
               else && t.Queued() == r.Queued() - 1 && t.partial == 0
                    && t.tail == if r.tail == r.maxIndex - 1 then 0 else r.tail + 1
  {}

  /** A batch of frames up to `newHead` fits if the queue can take them without reaching the tail. */
  predicate BatchFits(r: Ring, newHead: nat)
    requires r.Valid() && newHead < r.maxIndex
  {
    r.Queued() + Ahead(r.maxIndex, r.head, newHead) <= r.maxIndex - 1
  }

  function Contributed(r: Ring, newHead: nat): Ring
    requires r.Valid() && newHead < r.maxIndex
  {
    if BatchFits(r, newHead) then r.(head := newHead)
    else r.(head := newHead, tail := Next(r.maxIndex, newHead))
  }

  function BoolToInt(b: bool): int { if b then 1 else 0 }

  /** The three comparisons of `data_frame_contribute` count to two exactly when the batch fits. */
  lemma ThreeComparisons(r: Ring, newHead: nat)
    requires r.Valid() && newHead < r.maxIndex
    ensures BoolToInt(newHead >= r.head) + BoolToInt(r.head >= r.tail) + BoolToInt(r.tail > newHead) == 2
            <==> BatchFits(r, newHead)
  {
    var d := BoolToInt(newHead >= r.head) + BoolToInt(r.head >= r.tail) + BoolToInt(r.tail > newHead);
    if newHead >= r.head {} else {}
  }

  /** A batch that fits queues just its frames; one that does not leaves a full ring. */
  lemma ContributedQueue(r: Ring, newHead: nat)
    requires r.Valid() && newHead < r.maxIndex
    ensures var t := Contributed(r, newHead);
            t.Valid() && t.head == newHead
            && t.Queued() == if r.Queued() + Ahead(r.maxIndex, r.head, newHead) <= r.maxIndex - 1
                             then r.Queued() + Ahead(r.maxIndex, r.head, newHead) else r.maxIndex - 1
  {}

  // ----- peeking -----

  /** The buffer, with the geometry of its frames. */
  datatype Memory = Memory(bytes: seq<Byte>, frameSize: nat, dataSize: nat, frames: nat) {
    predicate Valid() { dataSize <= frameSize && Times(frames, frameSize) <= |bytes| }

    /** The data of one frame. */
    function Data(i: nat): (d: seq<Byte>)
      requires Valid() && i < frames
      ensures |d| == dataSize
    {
      FrameInside(this, i);
      bytes[Times(i, frameSize)..Times(i, frameSize) + dataSize]
    }
  }

  lemma FrameInside(m: Memory, i: nat)
    requires m.Valid() && i < m.frames
    ensures Times(i, m.frameSize) + m.dataSize <= |m.bytes|
  {
    hide Times;
    TimesSum(i + 1, m.frames - i - 1, m.frameSize);
    TimesSum(i, 1, m.frameSize);
    TimesOne(m.frameSize);
  }

  /** The data of frame `i` is read where the card puts that frame: `i` frame sizes into the buffer. */
  lemma DataAt(m: Memory, i: nat)
    requires m.Valid() && i < m.frames
    ensures 0 <= m.frameSize * i <= m.frameSize * i + m.dataSize <= |m.bytes|
    ensures m.Data(i) == m.bytes[m.frameSize * i..m.frameSize * i + m.dataSize]
  {
    FrameInside(m, i);
    assert Times(i, m.frameSize) == m.frameSize * i;
  }

  lemma TimesSum(a: nat, b: nat, n: nat)
    ensures Times(a + b, n) == Times(a, n) + Times(b, n)
  {}

  lemma TimesOne(n: nat)
    ensures Times(1, n) == n
  {}

  /** A reading position: a frame, and an offset into its data. */
  datatype Position = Position(tail: nat, partial: nat)

  ghost predicate Readable(m: Memory, head: nat, p: Position) {
    m.Valid() && head < m.frames && p.tail < m.frames && p.partial <= m.dataSize
  }

  /** Every byte between a position and the head. */
  ghost function Unread(m: Memory, head: nat, p: Position): seq<Byte>
    requires Readable(m, head, p)
    decreases Ahead(m.frames, p.tail, head)
  {
    if p.tail == head then []
    else m.Data(p.tail)[p.partial..] + Unread(m, head, Position(Next(m.frames, p.tail), 0))
  }

  /** The bytes one call takes, and the position after them. */
  ghost function Peeked(m: Memory, head: nat, p: Position, count: int): (r: (seq<Byte>, Position))
    requires Readable(m, head, p)
    ensures Readable(m, head, r.1)
    decreases Ahead(m.frames, p.tail, head)
  {
    if p.tail == head || count <= 0 then ([], p)
    else if m.dataSize - p.partial > count then
      (m.Data(p.tail)[p.partial..p.partial + count], Position(p.tail, p.partial + count))
    else
      var rest := Peeked(m, head, Position(Next(m.frames, p.tail), 0), count - (m.dataSize - p.partial));
      (m.Data(p.tail)[p.partial..] + rest.0, rest.1)
  }

  function Min(a: int, b: int): int { if a < b then a else b }

  /** A peek takes the next bytes in order, as many as asked for and available. */
  lemma {:induction false} PeekTakesPrefix(m: Memory, head: nat, p: Position, count: nat)
    requires Readable(m, head, p)
    ensures var r := Peeked(m, head, p, count);
            && |r.0| == Min(count, |Unread(m, head, p)|)
            && r.0 + Unread(m, head, r.1) == Unread(m, head, p)
    decreases Ahead(m.frames, p.tail, head)
  {
    hide Ahead, Next, Memory.Data;
    if p.tail != head && count > 0 {
      var data := m.Data(p.tail);
      if m.dataSize - p.partial > count {
        assert data[p.partial..] == data[p.partial..p.partial + count] + data[p.partial + count..];
      } else {
        var q := Position(Next(m.frames, p.tail), 0);
        NextIsCloser(m.frames, p.tail, head);
        PeekTakesPrefix(m, head, q, count - (m.dataSize - p.partial));
      }
    }
  }

  lemma NextIsCloser(n: nat, a: nat, b: nat)
    requires a < n && b < n && a != b
    ensures Ahead(n, Next(n, a), b) == Ahead(n, a, b) - 1
  {}

  /** How many bytes are unread: those of the frames queued, but for the part already read. */
  lemma {:induction false} UnreadLength(m: Memory, head: nat, p: Position)
    requires Readable(m, head, p)
    ensures |Unread(m, head, p)| ==
            if p.tail == head then 0 else m.dataSize * Ahead(m.frames, p.tail, head) - p.partial
    decreases Ahead(m.frames, p.tail, head)
  {
    hide Ahead, Next, Memory.Data;
    if p.tail != head {
      var q := Position(Next(m.frames, p.tail), 0);
      NextIsCloser(m.frames, p.tail, head);
      UnreadLength(m, head, q);
      NoneAhead(m.frames, head);
      Unwound(m.dataSize, Ahead(m.frames, p.tail, head));
    }
  }

  lemma NoneAhead(n: nat, a: nat)
    requires a < n
    ensures Ahead(n, a, a) == 0
  {}

  lemma Unwound(n: nat, k: nat)
    ensures n * k == n + n * (k - 1)
    ensures n * 0 == 0
  {}

  /** Which they are: byte by byte through each frame, and frame by frame round the ring. */
  lemma {:induction false} UnreadAt(m: Memory, head: nat, p: Position, k: nat)
    requires Readable(m, head, p) && k < |Unread(m, head, p)|
    ensures m.dataSize > 0
    ensures var i := p.partial + k;
            var frame := (p.tail + i / m.dataSize) % m.frames;
            0 <= frame < m.frames && 0 <= i % m.dataSize < m.dataSize
            && Unread(m, head, p)[k] == m.Data(frame)[i % m.dataSize]
    decreases Ahead(m.frames, p.tail, head)
  {
    hide Ahead, Next, Memory.Data, Memory.Valid;
    var i := p.partial + k;
    if i < m.dataSize {
      Small(i, m.dataSize);
      FirstFrame(i, m.dataSize);
      Small(p.tail, m.frames);
      assert Unread(m, head, p)[k] == m.Data(p.tail)[i];
    } else {
      var q := Position(Next(m.frames, p.tail), 0);
      NextIsCloser(m.frames, p.tail, head);
      assert Unread(m, head, p)[k] == Unread(m, head, q)[i - m.dataSize];
      UnreadAt(m, head, q, i - m.dataSize);
      NextFrame(i, m.dataSize);
      NextRound(m.frames, p.tail, (i - m.dataSize) / m.dataSize);
    }
  }

  lemma FirstFrame(i: nat, n: nat)
    requires i < n
    ensures i / n == 0
  {}

  lemma NextFrame(i: nat, n: nat)
    requires 0 < n <= i
    ensures i / n == 1 + (i - n) / n && i % n == (i - n) % n
    ensures (i - n) / n >= 0
  {
    Split(i - n, n);
    TimesNext((i - n) / n, n);
    assert i == Times(1 + (i - n) / n, n) + (i - n) % n;
    QuotientUnique(i, n, 1 + (i - n) / n, (i - n) % n);
  }

  lemma NextRound(n: nat, a: nat, more: nat)
    requires a < n
    ensures (Next(n, a) + more) % n == (a + (1 + more)) % n
  {
    if a == n - 1 {
      WrapsRound(more, n);
      assert more + n == a + (1 + more);
    }
  }

  lemma PeekWithin(m: Memory, head: nat, p: Position, n: nat)
    requires Readable(m, head, p) && p.tail != head && 0 < n < m.dataSize - p.partial
    ensures Peeked(m, head, p, n) == (m.Data(p.tail)[p.partial..p.partial + n], Position(p.tail, p.partial + n))
  {}

  lemma PeekBeyond(m: Memory, head: nat, p: Position, n: nat)
    requires Readable(m, head, p) && p.tail != head && 0 < n && m.dataSize - p.partial <= n
    ensures var q := Position(Next(m.frames, p.tail), 0);
            var rest := Peeked(m, head, q, n - (m.dataSize - p.partial));
            && Readable(m, head, q) && Ahead(m.frames, q.tail, head) < Ahead(m.frames, p.tail, head)
            && Peeked(m, head, p, n).0 == m.Data(p.tail)[p.partial..] + rest.0
            && Peeked(m, head, p, n).1 == rest.1
  {
    hide Ahead, Next, Memory.Data;
    NextIsCloser(m.frames, p.tail, head);
  }

  /** With the head fixed, peeking `a` bytes and then `b` is peeking `a + b`. */
  lemma {:induction false} PeekTwice(m: Memory, head: nat, p: Position, a: nat, b: nat)
    requires Readable(m, head, p)
    ensures var r := Peeked(m, head, p, a);
            var s := Peeked(m, head, r.1, b);
            Peeked(m, head, p, a + b).0 == r.0 + s.0 && Peeked(m, head, p, a + b).1 == s.1
    decreases Ahead(m.frames, p.tail, head)
  {
    hide Peeked, Ahead, Next, Memory.Data;
    if p.tail == head || a == 0 {
      PeekNothing(m, head, p, a);
      if p.tail == head {
        PeekNothing(m, head, p, b);
        PeekNothing(m, head, p, a + b);
      }
      assert [] + Peeked(m, head, p, a + b).0 == Peeked(m, head, p, a + b).0;
    } else {
      var room := m.dataSize - p.partial;
      if a < room {
        PeekWithin(m, head, p, a);
        PeekSameFrame(m, head, p, a, b);
      } else {
        PeekBeyond(m, head, p, a);
        PeekTwice(m, head, Position(Next(m.frames, p.tail), 0), a - room, b);
        PeekNextFrame(m, head, p, a, b);
      }
    }
  }

  lemma PeekNextFrame(m: Memory, head: nat, p: Position, a: nat, b: nat)
    requires Readable(m, head, p) && p.tail != head && 0 < a && m.dataSize - p.partial <= a
    requires var q, n := Position(Next(m.frames, p.tail), 0), a - (m.dataSize - p.partial);
             Readable(m, head, q) &&
             var r := Peeked(m, head, q, n);
             var s := Peeked(m, head, r.1, b);
             Peeked(m, head, q, n + b).0 == r.0 + s.0 && Peeked(m, head, q, n + b).1 == s.1
    ensures var r := Peeked(m, head, p, a);
            var s := Peeked(m, head, r.1, b);
            Peeked(m, head, p, a + b).0 == r.0 + s.0 && Peeked(m, head, p, a + b).1 == s.1
  {
    hide Peeked, Ahead, Next, Memory.Data;
    PeekBeyond(m, head, p, a);
    PeekBeyond(m, head, p, a + b);
    var q := Position(Next(m.frames, p.tail), 0);
    var r := Peeked(m, head, q, a - (m.dataSize - p.partial));
    Associates(m.Data(p.tail)[p.partial..], r.0, Peeked(m, head, r.1, b).0);
  }

  lemma PeekSameFrame(m: Memory, head: nat, p: Position, a: nat, b: nat)
    requires Readable(m, head, p) && p.tail != head && 0 < a < m.dataSize - p.partial
    ensures var s := Peeked(m, head, Position(p.tail, p.partial + a), b);
            && Peeked(m, head, p, a + b).0 == m.Data(p.tail)[p.partial..p.partial + a] + s.0
            && Peeked(m, head, p, a + b).1 == s.1
  {
    hide Peeked, Ahead, Next, Memory.Data;
    var q := Position(p.tail, p.partial + a);
    var data, room := m.Data(p.tail), m.dataSize - p.partial;
    if b == 0 {
      PeekNothing(m, head, q, 0);
      PeekWithin(m, head, p, a);
      assert data[p.partial..p.partial + a] + [] == data[p.partial..p.partial + a];
    } else if a + b < room {
      PeekWithin(m, head, p, a + b);
      PeekWithin(m, head, q, b);
      assert data[p.partial..p.partial + a + b]
          == data[p.partial..p.partial + a] + data[p.partial + a..p.partial + a + b];
    } else {
      PeekBeyond(m, head, p, a + b);
      PeekBeyond(m, head, q, b);
      assert data[p.partial..] == data[p.partial..p.partial + a] + data[p.partial + a..];
      var rest := Peeked(m, head, Position(Next(m.frames, p.tail), 0), a + b - room);
      Associates(data[p.partial..p.partial + a], data[p.partial + a..], rest.0);
    }
  }

  lemma PeekNothing(m: Memory, head: nat, p: Position, left: int)
    requires Readable(m, head, p) && (p.tail == head || left <= 0)
    ensures Peeked(m, head, p, left) == ([], p)
  {}

  lemma Associates<T>(a: seq<T>, b: seq<T>, c: seq<T>)
    ensures (a + b) + c == a + (b + c)
  {}

  /** Where a turn of the loop leaves the position. */
  function Advanced(m: Memory, p: Position, n: nat): Position
    requires p.tail < m.frames && p.partial + n <= m.dataSize
  {
    if p.partial + n >= m.dataSize then Position(Next(m.frames, p.tail), 0) else Position(p.tail, p.partial + n)
  }

  lemma PeekTurn(m: Memory, head: nat, p: Position, left: nat, n: nat)
    requires Readable(m, head, p) && p.tail != head && left > 0
    requires n == Min(m.dataSize - p.partial, left)
    ensures var q := Advanced(m, p, n);
            var rest := Peeked(m, head, q, left - n);
            && Peeked(m, head, p, left).0 == m.Data(p.tail)[p.partial..p.partial + n] + rest.0
            && Peeked(m, head, p, left).1 == rest.1
            && (Ahead(m.frames, q.tail, head) < Ahead(m.frames, p.tail, head) || (q.tail == p.tail && left - n == 0))
  {
    hide Ahead, Next, Memory.Data;
    NextIsCloser(m.frames, p.tail, head);
    var data := m.Data(p.tail);
    assert data[p.partial..m.dataSize] == data[p.partial..];
    assert data[p.partial..p.partial + n] + [] == data[p.partial..p.partial + n];
  }

  // ----- the ring as the driver's record -----

  class Frames {
    const memory: Memory
    const baseBus: int
    var head: nat
    var tail: nat
    var partial: nat
    var dropped: nat

    constructor (memory: Memory, baseBus: int)
      requires memory.Valid() && memory.frames > 0
      ensures Valid() && View() == Ring(memory.frames, 0, 0, 0, 0) && this.memory == memory
    {
      this.memory, this.baseBus := memory, baseBus;
      head, tail, partial, dropped := 0, 0, 0, 0;
    }

    function View(): Ring
      reads this
    {
      Ring(memory.frames, head, tail, partial, dropped)
    }

    ghost predicate Valid()
      reads this
    {
      View().Valid() && memory.Valid()
    }

    /** `data_frame_address`: where the card puts the frame it is filling. */
    method FrameAddress() returns (bus: int)
      requires Valid()
      ensures bus == baseBus + memory.frameSize * head
      ensures 0 <= bus - baseBus <= bus - baseBus + memory.dataSize <= |memory.bytes|
      ensures memory.Data(head) == memory.bytes[bus - baseBus..bus - baseBus + memory.dataSize]
    {
      DataAt(memory, head);
      bus := baseBus + memory.frameSize * head;
    }

    /** `data_frame_increment` */
    method Increment() returns (err: int)
      requires Valid()
      modifies this
      ensures Valid() && View() == Incremented(old(View()))
      ensures if old(View().Queued()) == memory.frames - 1 then err == -1 && dropped == old(dropped) + 1
              else err == 0 && View().Queued() == old(View().Queued()) + 1
    {
      DropsWhenFull(View());
      var d := (head + 1) % memory.frames;
      if d == tail {
        dropped := dropped + 1;
        return -1;
      }
      head := d;
      err := 0;
    }

    /** `data_frame_contribute`.  It does not check the head it is given: the ring stays sound exactly if
        that is inside it. */
    method Contribute(newHead: nat)
      requires Valid()
      modifies this
      ensures Valid() <==> newHead < memory.frames
      ensures newHead < memory.frames ==> View() == Contributed(old(View()), newHead)
      ensures newHead >= memory.frames ==>
                && head == newHead && partial == old(partial) && dropped == old(dropped)
                && tail == if old(head) >= old(tail) then old(tail) else (newHead + 1) % memory.frames
    {
      if newHead < memory.frames {
        ThreeComparisons(View(), newHead);
      }
      var d := BoolToInt(newHead >= head) + BoolToInt(head >= tail) + BoolToInt(tail > newHead);
      if d != 2 {
        head := newHead;
        tail := (newHead + 1) % memory.frames;
      } else {
        head := newHead;
      }
    }

    /** `data_tail_increment`; the tail to grant to the card, or -1 with nothing to consume. */
    method TailIncrement() returns (err: int)
      requires Valid()
      modifies this
      ensures Valid() && View() == TailIncremented(old(View()))
      ensures if old(View().Queued()) == 0 then err == -1 && View() == old(View())
              else err == 0 && View().Queued() == old(View().Queued()) - 1 && partial == 0
    {
      TakesOne(View());
      var d := (tail + 1) % memory.frames;
      if head == tail {
        return -1;
      }
      tail := d;
      partial := 0;
      err := 0;
    }

    /** `data_peek_frame`, which advances its caller's position and not the ring's. */
    method Peek(count: int, from: Position) returns (out: seq<Byte>, to: Position)
      requires Valid() && Readable(memory, head, from)
      ensures out == Peeked(memory, head, from, count).0 && to == Peeked(memory, head, from, count).1
    {
      hide Memory.Data, Ahead, Next, Peeked, Advanced;
      var left := count;
      var at := from;
      out := [];
      ghost var all := Peeked(memory, head, from, count);
      assert [] + all.0 == all.0;
      while at.tail != head && left > 0
        invariant Readable(memory, head, at)
        invariant var rest := Peeked(memory, head, at, left); all.0 == out + rest.0 && all.1 == rest.1
        decreases Ahead(memory.frames, at.tail, head), left
      {
        var taken, next := PeekOnce(at, left);
        Associates(out, taken, Peeked(memory, head, next, left - |taken|).0);
        out, at, left := out + taken, next, left - |taken|;
      }
      PeekNothing(memory, head, at, left);
      assert out + [] == out;
      to := at;
    }

    /** One turn of the loop of `data_peek_frame`, which never crosses a frame boundary. */
    method PeekOnce(at: Position, left: int) returns (taken: seq<Byte>, next: Position)
      requires Valid() && Readable(memory, head, at) && at.tail != head && left > 0
      ensures Readable(memory, head, next) && |taken| <= left
      ensures Peeked(memory, head, at, left).0 == taken + Peeked(memory, head, next, left - |taken|).0
      ensures Peeked(memory, head, at, left).1 == Peeked(memory, head, next, left - |taken|).1
      ensures Ahead(memory.frames, next.tail, head) < Ahead(memory.frames, at.tail, head)
              || (next.tail == at.tail && left - |taken| == 0)
    {
      hide Memory.Data, Peeked;
      var tail, partial := at.tail, at.partial;
      var thisRead := if memory.dataSize - partial < left then memory.dataSize - partial else left;
      PeekTurn(memory, head, at, left, thisRead);
      taken := memory.Data(tail)[partial..partial + thisRead];
      partial := partial + thisRead;
      if partial >= memory.dataSize {
        partial := 0;
        tail := (tail + 1) % memory.frames;
      }
      next := Position(tail, partial);
    }
  }

  // ----- runs of completed and consumed frames -----

  /** The ring with what the card wrote: `slots` holds the number of the frame last written to
      each slot, `completed` counts frames, `consumed` lists those read. */
  datatype System = System(ring: Ring, slots: seq<int>, completed: nat, accepted: seq<int>, consumed: seq<int>)

  datatype Event =
    | Complete // the card has filled the slot at the head, and data_frame_increment is called
    | Consume  // the frame at the tail is read, and data_tail_increment is called

  function Step(s: System, e: Event): System
    requires s.ring.Valid() && |s.slots| == s.ring.maxIndex
  {
    match e
    case Complete =>
      var r := Incremented(s.ring);
      System(r, s.slots[s.ring.head := s.completed], s.completed + 1,
             if r.dropped == s.ring.dropped then s.accepted + [s.completed] else s.accepted, s.consumed)
    case Consume =>
      if s.ring.head == s.ring.tail then s
      else s.(ring := TailIncremented(s.ring), consumed := s.consumed + [s.slots[s.ring.tail]])
  }

  ghost predicate Ascending(frames: seq<int>, below: int) {
    && (forall i :: 0 <= i < |frames| ==> 0 <= frames[i] < below)
    && forall i, j :: 0 <= i < j < |frames| ==> frames[i] < frames[j]
  }

  /** Frame `|consumed| + k` of the accepted ones is in the `k`-th slot from the tail. */
  ghost predicate Inv(s: System) {
    && s.ring.Valid() && |s.slots| == s.ring.maxIndex
    && |s.accepted| == |s.consumed| + s.ring.Queued()
    && s.completed == |s.accepted| + s.ring.dropped
    && s.consumed == s.accepted[..|s.consumed|]
    && Ascending(s.accepted, s.completed)
    && forall i {:trigger s.slots[i]} ::
         0 <= i < |s.slots| && Ahead(s.ring.maxIndex, s.ring.tail, i) < s.ring.Queued() ==>
         s.slots[i] == s.accepted[|s.consumed| + Ahead(s.ring.maxIndex, s.ring.tail, i)]
  }

  lemma AscendingNext(frames: seq<int>, below: nat)
    requires Ascending(frames, below)
    ensures Ascending(frames, below + 1) && Ascending(frames + [below], below + 1)
  {}

  lemma CompleteKeepsInv(s: System)
    requires Inv(s)
    ensures Inv(Step(s, Complete))
  {
    hide Ascending;
    AscendingNext(s.accepted, s.completed);
    var n, t := s.ring.maxIndex, Step(s, Complete);
    assert Ahead(n, s.ring.tail, s.ring.head) == s.ring.Queued();
    forall i | 0 <= i < |t.slots| && Ahead(n, t.ring.tail, i) < t.ring.Queued()
      ensures t.slots[i] == t.accepted[|t.consumed| + Ahead(n, t.ring.tail, i)]
    {
      if i != s.ring.head {
        assert t.slots[i] == s.slots[i];
      }
    }
  }

  lemma ConsumeKeepsInv(s: System)
    requires Inv(s)
    ensures Inv(Step(s, Consume))
  {
    hide Ascending;
    var n, t := s.ring.maxIndex, Step(s, Consume);
    if s.ring.head != s.ring.tail {
      NextIsCloser(n, s.ring.tail, s.ring.head);
      assert Ahead(n, s.ring.tail, s.ring.tail) == 0;
      assert s.accepted[..|s.consumed| + 1] == s.accepted[..|s.consumed|] + [s.accepted[|s.consumed|]];
      forall i | 0 <= i < |t.slots| && Ahead(n, t.ring.tail, i) < t.ring.Queued()
        ensures t.slots[i] == t.accepted[|t.consumed| + Ahead(n, t.ring.tail, i)]
      {
        if i != s.ring.tail {
          NextIsCloser(n, s.ring.tail, i);
        }
        assert t.slots[i] == s.slots[i];
      }
    }
  }

  ghost function Run(n: nat, events: seq<Event>): (s: System)
    requires n > 0
    ensures Inv(s)
  {
    if events == [] then System(Ring(n, 0, 0, 0, 0), seq(n, _ => -1), 0, [], [])
    else
      var s := Run(n, events[..|events| - 1]);
      CompleteKeepsInv(s);
      ConsumeKeepsInv(s);
      Step(s, events[|events| - 1])
  }

  /** Every completed frame is consumed, queued or counted as dropped; the consumer gets those
      that were not dropped, whole, once and in order. */
  lemma FramesConserved(n: nat, events: seq<Event>)
    requires n > 0
    ensures var s := Run(n, events);
            && s.completed == |s.consumed| + s.ring.Queued() + s.ring.dropped
            && s.consumed == s.accepted[..|s.consumed|]
            && |s.accepted| == s.completed - s.ring.dropped
            && (forall i :: 0 <= i < |s.accepted| ==> 0 <= s.accepted[i] < s.completed)
            && forall i, j :: 0 <= i < j < |s.accepted| ==> s.accepted[i] < s.accepted[j]
  {
    hide Run;
    var s := Run(n, events);
  }

  /** Filling the slot at the head changes none that waits to be read. */
  lemma FillingSparesUnread(n: nat, events: seq<Event>, k: nat)
    requires n > 0 && k < Run(n, events).ring.Queued()
    ensures var s := Run(n, events);
            var i := (s.ring.tail + k) % s.ring.maxIndex;
            && i < |s.slots| && i != s.ring.head
            && Step(s, Complete).slots[i] == s.slots[i] == s.accepted[|s.consumed| + k]
  {
    hide Run;
    var s := Run(n, events);
    var m := s.ring.maxIndex;
    if s.ring.tail + k < m {
      Small(s.ring.tail + k, m);
    } else {
      WrapsRound(s.ring.tail + k - m, m);
      Small(s.ring.tail + k - m, m);
    }
    var i := (s.ring.tail + k) % m;
    assert Ahead(m, s.ring.tail, i) == k;
    assert s.slots[i] == s.accepted[|s.consumed| + k];
  }
}

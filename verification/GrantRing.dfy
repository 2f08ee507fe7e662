/** The c7 data ring, run by the card and the driver together: the card writes frames and
    reports its head; the driver's reader consumes them; the driver grants the room back by
    sending its tail, late and not always successfully. */
module GrantRing {
  import opened Cyclic
  import opened FrameBuffer

  /** The driver's ring with the card beside it.  `slots` is the buffer, each slot holding the
      number of the frame written there; `consumed` lists the frame numbers read so far. */
  datatype System = System(
    host: Ring, grantDue: bool,
    cardHead: nat, cardTail: nat, slots: seq<int>, produced: nat,
    informs: seq<nat>, grants: seq<nat>, consumed: seq<int>)

  /** Where everything stands after SET_DATA_MULTI has been answered. */
  function Start(n: nat): System {
    System(Ring(n, 0, 0, 0, false), false, 0, 0, seq(n, _ => -1), 0, [], [], [])
  }

  datatype Event =
    | Produce            // the card writes a frame, if its tail leaves room
    | Inform             // the card reports its head
    | BufInfo            // the report reaches the interrupt handler
    | Grant(sent: bool)  // the grant task, or DSPIOCT_SET_NFRAMES; the command may fail to be sent
    | Deliver            // the card takes a tail it was sent
    | Consume            // DSPIOCT_FRAME_CONSUME, the frame at the tail having been read

  function Step(s: System, e: Event): System
    requires s.host.nFrames == |s.slots| > 0 && s.host.tail < |s.slots| && s.cardHead < |s.slots|
  {
    var n := s.host.nFrames;
    match e
    case Produce =>
      if (s.cardHead + 1) % n == s.cardTail then s
      else s.(slots := s.slots[s.cardHead := s.produced], cardHead := (s.cardHead + 1) % n, produced := s.produced + 1)
    case Inform => s.(informs := s.informs + [s.cardHead])
    case BufInfo =>
      if s.informs == [] then s
      else s.(host := Informed(s.host, s.informs[0]), informs := s.informs[1..],
              grantDue := s.grantDue || GrantDue(s.host, s.informs[0]))
    case Grant(sent) =>
      s.(host := s.host.(lastGrant := s.host.tail), grantDue := false,
         grants := if sent then s.grants + [s.host.tail] else s.grants)
    case Deliver =>
      if s.grants == [] then s else s.(cardTail := s.grants[0], grants := s.grants[1..])
    case Consume =>
      if s.host.tail == s.host.head then s
      else s.(host := Consumed(s.host), consumed := s.consumed + [s.slots[s.host.tail]])
  }

  // ----- unrolled counters -----

  /** The same indices, counted without wrapping round. */
  datatype Counters = Counters(
    cardTail: nat, grants: seq<nat>, lastGrant: nat, tail: nat, head: nat, informs: seq<nat>, cardHead: nat)

  predicate Ordered(low: nat, queue: seq<nat>, high: nat)
    decreases |queue|
  {
    if queue == [] then low <= high else low <= queue[0] && Ordered(queue[0], queue[1..], high)
  }

  function Wrapped(queue: seq<nat>, n: nat): (r: seq<nat>)
    requires n > 0
    ensures |r| == |queue|
    ensures forall i :: 0 <= i < |r| ==> r[i] == queue[i] % n
  {
    seq(|queue|, i requires 0 <= i < |queue| => queue[i] % n)
  }

  /** The chain of counters: nothing the card may write over is unread. */
  ghost predicate Chained(c: Counters, n: nat) {
    && Ordered(c.cardTail, c.grants, c.lastGrant)
    && c.lastGrant <= c.tail <= c.head
    && Ordered(c.head, c.informs, c.cardHead)
    && c.cardHead <= c.cardTail + n - 1
  }

  ghost predicate Indexed(s: System, c: Counters) {
    var n := s.host.nFrames;
    && n == |s.slots| > 0
    && s.cardTail == c.cardTail % n && s.cardHead == c.cardHead % n
    && s.host.lastGrant == c.lastGrant % n && s.host.tail == c.tail % n && s.host.head == c.head % n
    && s.grants == Wrapped(c.grants, n) && s.informs == Wrapped(c.informs, n)
  }

  /** Every frame not yet consumed is still in its slot; the consumed ones came in order. */
  ghost predicate Intact(s: System, c: Counters)
    requires s.host.nFrames == |s.slots| > 0
  {
    && s.produced == c.cardHead
    && (forall f {:trigger Slot(s, f)} :: c.tail <= f < c.cardHead ==> Slot(s, f) == f)
    && |s.consumed| == c.tail
    && forall f :: 0 <= f < c.tail ==> s.consumed[f] == f
  }

  function Slot(s: System, f: nat): int
    requires s.host.nFrames == |s.slots| > 0
  {
    s.slots[f % s.host.nFrames]
  }

  ghost predicate Inv(s: System, c: Counters) {
    Indexed(s, c) && Chained(c, s.host.nFrames) && Intact(s, c)
  }

  function Counted(c: Counters, s: System, e: Event): Counters
    requires s.host.nFrames == |s.slots| > 0
  {
    match e
    case Produce => if (s.cardHead + 1) % |s.slots| == s.cardTail then c else c.(cardHead := c.cardHead + 1)
    case Inform => c.(informs := c.informs + [c.cardHead])
    case BufInfo => if c.informs == [] then c else c.(head := c.informs[0], informs := c.informs[1..])
    case Grant(sent) => c.(lastGrant := c.tail, grants := if sent then c.grants + [c.tail] else c.grants)
    case Deliver => if c.grants == [] then c else c.(cardTail := c.grants[0], grants := c.grants[1..])
    case Consume => if s.host.tail == s.host.head then c else c.(tail := c.tail + 1)
  }

  // ----- each step -----

  lemma {:induction false} OrderedBounds(low: nat, queue: seq<nat>, high: nat)
    requires Ordered(low, queue, high)
    ensures low <= high
    ensures queue != [] ==> low <= queue[0] <= high
    decreases |queue|
  {
    if queue != [] {
      OrderedBounds(queue[0], queue[1..], high);
    }
  }

  lemma {:induction false} OrderedAppend(low: nat, queue: seq<nat>, high: nat, more: nat)
    requires Ordered(low, queue, high) && high <= more
    ensures Ordered(low, queue, more) && Ordered(low, queue + [more], more)
    decreases |queue|
  {
    if queue != [] {
      OrderedAppend(queue[0], queue[1..], high, more);
      assert (queue + [more])[1..] == queue[1..] + [more];
    }
  }

  lemma KeepsChained(s: System, c: Counters, e: Event)
    requires Inv(s, c)
    ensures Chained(Counted(c, s, e), s.host.nFrames)
  {
    hide Intact, Indexed;
    OrderedBounds(c.cardTail, c.grants, c.lastGrant);
    OrderedBounds(c.head, c.informs, c.cardHead);
    match e
    case Produce =>
      RoomToProduce(s, c);
      OrderedAppend(c.head, c.informs, c.cardHead, c.cardHead + 1);
    case Inform =>
      OrderedAppend(c.head, c.informs, c.cardHead, c.cardHead);
    case BufInfo =>
    case Grant(sent) =>
      OrderedAppend(c.cardTail, c.grants, c.lastGrant, c.tail);
    case Deliver =>
    case Consume =>
      RoomToConsume(s, c);
  }

  /** The card's test of its indices keeps it a slot short of its tail. */
  lemma RoomToProduce(s: System, c: Counters)
    requires Inv(s, c)
    ensures var n := s.host.nFrames;
            n == |s.slots| > 0 && ((s.cardHead + 1) % n != s.cardTail ==> c.cardHead + 1 <= c.cardTail + n - 1)
  {
    hide Intact, Wrapped, Ordered;
    NextIndex(c.cardHead, s.host.nFrames);
    WrapsRound(c.cardTail, s.host.nFrames);
  }

  lemma RoomToConsume(s: System, c: Counters)
    requires Inv(s, c)
    ensures s.host.tail != s.host.head ==> c.tail + 1 <= c.head
  {
    hide Intact, Wrapped, Ordered;
  }

  lemma KeepsIndexed(s: System, c: Counters, e: Event)
    requires Inv(s, c)
    ensures Indexed(Step(s, e), Counted(c, s, e))
  {
    hide Intact, Ordered;
    var n := s.host.nFrames;
    match e
    case Produce => NextIndex(c.cardHead, n);
    case Inform =>
    case BufInfo =>
    case Grant(sent) =>
    case Deliver =>
    case Consume => NextIndex(c.tail, n);
  }

  lemma KeepsIntact(s: System, c: Counters, e: Event)
    requires Inv(s, c)
    ensures Intact(Step(s, e), Counted(c, s, e))
  {
    match e
    case Produce =>
      ProduceIntact(s, c);
    case Consume =>
      ConsumeIntact(s, c);
    case _ =>
      hide Intact, Indexed, Chained, GrantDue;
      SlotsSame(s, Step(s, e), c, Counted(c, s, e));
  }

  lemma ProduceIntact(s: System, c: Counters)
    requires Inv(s, c)
    ensures Intact(Step(s, Produce), Counted(c, s, Produce))
  {
    hide Ordered, Wrapped;
    var n := s.host.nFrames;
    OrderedBounds(c.cardTail, c.grants, c.lastGrant);
    OrderedBounds(c.head, c.informs, c.cardHead);
    var s', c' := Step(s, Produce), Counted(c, s, Produce);
    forall f | c'.tail <= f < c'.cardHead
      ensures Slot(s', f) == f
    {
      if f < c.cardHead {
        WindowDistinct(f, c.cardHead, n);
        assert Slot(s, f) == f;
      }
    }
  }

  lemma ConsumeIntact(s: System, c: Counters)
    requires Inv(s, c)
    ensures Intact(Step(s, Consume), Counted(c, s, Consume))
  {
    hide Ordered, Wrapped;
    OrderedBounds(c.head, c.informs, c.cardHead);
    var s', c' := Step(s, Consume), Counted(c, s, Consume);
    if s.host.tail != s.host.head {
      assert Slot(s, c.tail) == c.tail;
      forall f | c'.tail <= f < c'.cardHead
        ensures Slot(s', f) == f
      {
        assert Slot(s, f) == f;
      }
    }
  }

  lemma SlotsSame(s: System, s': System, c: Counters, c': Counters)
    requires s.host.nFrames == |s.slots| > 0 && Intact(s, c)
    requires s'.host.nFrames == s.host.nFrames && s'.slots == s.slots
    requires s'.produced == s.produced && s'.consumed == s.consumed
    requires c'.tail == c.tail && c'.cardHead == c.cardHead
    ensures Intact(s', c')
  {
    forall f | c.tail <= f < c.cardHead
      ensures Slot(s', f) == f
    {
      assert Slot(s, f) == f;
    }
  }

  // ----- whole runs -----

  /** The run of a list of events, with the counters beside it. */
  ghost function Run(n: nat, events: seq<Event>): (r: (System, Counters))
    requires n > 0
    ensures Inv(r.0, r.1) && r.0.host.nFrames == n
  {
    if events == [] then
      StartInv(n);
      (Start(n), Counters(0, [], 0, 0, 0, [], 0))
    else
      var before := Run(n, events[..|events| - 1]);
      var e := events[|events| - 1];
      StepKeepsInv(before.0, before.1, e);
      (Step(before.0, e), Counted(before.1, before.0, e))
  }

  lemma StartInv(n: nat)
    requires n > 0
    ensures Inv(Start(n), Counters(0, [], 0, 0, 0, [], 0))
  {}

  lemma StepKeepsInv(s: System, c: Counters, e: Event)
    requires Inv(s, c)
    ensures Inv(Step(s, e), Counted(c, s, e)) && Step(s, e).host.nFrames == s.host.nFrames
  {
    hide Indexed, Chained, Intact, Counted;
    StepInBounds(s, c);
    KeepsChained(s, c, e);
    KeepsIndexed(s, c, e);
    KeepsIntact(s, c, e);
    SameFrames(s, e);
  }

  lemma StepInBounds(s: System, c: Counters)
    requires Inv(s, c)
    ensures s.host.nFrames == |s.slots| > 0 && s.host.tail < |s.slots| && s.cardHead < |s.slots|
  {}

  lemma SameFrames(s: System, e: Event)
    requires s.host.nFrames == |s.slots| > 0 && s.host.tail < |s.slots| && s.cardHead < |s.slots|
    ensures Step(s, e).host.nFrames == s.host.nFrames
  {}

  /** Through every run the counters stay in order and in one window, whether or not grants get through. */
  lemma GrantsAreSafe(n: nat, events: seq<Event>)
    requires n > 0
    ensures var c := Run(n, events).1;
            c.cardTail <= c.lastGrant <= c.tail <= c.head <= c.cardHead <= c.cardTail + n - 1
  {
    hide Run;
    var r := Run(n, events);
    OrderedBounds(r.1.cardTail, r.1.grants, r.1.lastGrant);
    OrderedBounds(r.1.head, r.1.informs, r.1.cardHead);
  }

  /** What the reader has consumed is exactly the frames produced, from the first on, in order. */
  lemma ConsumedInOrder(n: nat, events: seq<Event>)
    requires n > 0
    ensures var s := Run(n, events).0;
            |s.consumed| <= s.produced && forall f :: 0 <= f < |s.consumed| ==> s.consumed[f] == f
  {
    hide Run;
    GrantsAreSafe(n, events);
  }

  /** The slot the card writes next is none that the reader still has to read. */
  lemma NextWriteIsFree(n: nat, events: seq<Event>)
    requires n > 0
    ensures var (s, c) := Run(n, events);
            forall f {:trigger Slot(s, f)} :: c.tail <= f < c.cardHead ==> s.cardHead != f % n && Slot(s, f) == f
  {
    hide Run;
    GrantsAreSafe(n, events);
    var (s, c) := Run(n, events);
    forall f | c.tail <= f < c.cardHead
      ensures s.cardHead != f % n && Slot(s, f) == f
    {
      WindowDistinct(f, c.cardHead, n);
    }
  }

  /** The driver's count `k` is the number of frames reported since the last grant. */
  lemma GrantCountIsExact(n: nat, events: seq<Event>)
    requires n > 0
    ensures var r := Run(n, events); SinceGrant(r.0.host) == r.1.head - r.1.lastGrant
  {
    hide Run;
    GrantsAreSafe(n, events);
    var c := Run(n, events).1;
    Distance(c.lastGrant, c.head, n);
  }

  /** A report asks for a grant exactly if it makes more than a quarter of the ring reported since the last one. */
  lemma ReportAsks(n: nat, events: seq<Event>)
    requires n > 0 && Run(n, events).0.informs != []
    ensures var before, after := Run(n, events), Run(n, events + [BufInfo]);
            after.0.grantDue <==> before.0.grantDue || 4 * (after.1.head - after.1.lastGrant) > n
  {
    hide Run;
    var all := events + [BufInfo];
    assert all[..|events|] == events && all[..|events| + 1] == all;
    RunNext(n, all, |events|);
    CountNext(n, all, |events|);
    var (s, c) := Run(n, events);
    GrantsAreSafe(n, all);
    ReportCounted(s, c);
  }

  lemma ReportCounted(s: System, c: Counters)
    requires Inv(s, c) && s.informs != []
    ensures var t, d := Step(s, BufInfo), Counted(c, s, BufInfo);
            t.grantDue <==> s.grantDue || 4 * (d.head - d.lastGrant) > s.host.nFrames
  {
    hide Intact, GrantDue;
    var n := s.host.nFrames;
    OrderedBounds(c.head, c.informs, c.cardHead);
    OrderedBounds(c.cardTail, c.grants, c.lastGrant);
    Distance(c.lastGrant, c.informs[0], n);
    DueExactly(s.host, s.informs[0]);
  }

  lemma CountNext(n: nat, events: seq<Event>, k: nat)
    requires n > 0 && k < |events|
    ensures var (s, c) := Run(n, events[..k]);
            s.host.nFrames == |s.slots| > 0 && Run(n, events[..k + 1]).1 == Counted(c, s, events[k])
  {
    hide Step, Counted;
    assert events[..k + 1][..k] == events[..k];
    StepInBounds(Run(n, events[..k]).0, Run(n, events[..k]).1);
  }

  // ----- what must happen -----

  /** The card's next frame is written exactly if it has room. */
  lemma ProducesExactly(n: nat, events: seq<Event>)
    requires n > 0
    ensures var s, t := Run(n, events).0, Run(n, events + [Produce]).0;
            t.produced == s.produced + if (s.cardHead + 1) % n == s.cardTail then 0 else 1
  {
    hide Run;
    var all := events + [Produce];
    assert all[..|events|] == events && all[..|events| + 1] == all;
    RunNext(n, all, |events|);
    RunInBounds(n, events);
  }

  function Reports(k: nat): seq<Event> { seq(k, _ => BufInfo) }

  function Reads(k: nat): seq<Event> { seq(k, _ => Consume) }

  lemma {:induction false} AllReported(n: nat, events: seq<Event>, k: nat)
    requires n > 0 && k <= |Run(n, events).1.informs|
    ensures var c := Run(n, events).1;
            Run(n, events + Reports(k)).1 == AfterReports(c, k)
    decreases k
  {
    hide Run, Counted, AfterReports;
    var all := events + Reports(k);
    if k == 0 {
      assert all == events;
      NothingReported(Run(n, events).1);
    } else {
      AllReported(n, events, k - 1);
      assert all[..|all| - 1] == events + Reports(k - 1) && all[..|all|] == all;
      CountNext(n, all, |all| - 1);
      ReportNext(Run(n, events).1, k - 1, Run(n, events + Reports(k - 1)).0);
    }
  }

  /** The first `k` of the reports under way have come in. */
  function AfterReports(c: Counters, k: nat): Counters
    requires k <= |c.informs|
  {
    c.(head := if k == 0 then c.head else c.informs[k - 1], informs := c.informs[k..])
  }

  lemma NothingReported(c: Counters)
    ensures AfterReports(c, 0) == c
  {}

  lemma ReportNext(c: Counters, k: nat, s: System)
    requires k < |c.informs| && s.host.nFrames == |s.slots| > 0
    ensures Counted(AfterReports(c, k), s, BufInfo) == AfterReports(c, k + 1)
  {
    assert c.informs[k..][1..] == c.informs[k + 1..];
  }

  lemma {:induction false} AllRead(n: nat, events: seq<Event>, k: nat)
    requires n > 0 && k <= Run(n, events).1.head - Run(n, events).1.tail
    ensures var c := Run(n, events).1; Run(n, events + Reads(k)).1 == c.(tail := c.tail + k)
    decreases k
  {
    hide Run;
    var all := events + Reads(k);
    if k == 0 {
      assert all == events;
    } else {
      AllRead(n, events, k - 1);
      assert all[..|all| - 1] == events + Reads(k - 1) && all[..|all|] == all;
      CountNext(n, all, |all| - 1);
      GrantsAreSafe(n, events + Reads(k - 1));
      ReadCounted(Run(n, events + Reads(k - 1)).0, Run(n, events + Reads(k - 1)).1);
    }
  }

  lemma ReadCounted(s: System, c: Counters)
    requires Inv(s, c) && c.tail < c.head < c.tail + s.host.nFrames
    ensures s.host.tail != s.host.head
  {
    hide Intact, Chained;
    WindowDistinct(c.tail, c.head, s.host.nFrames);
  }

  /** The reader catches up: after any run, once the card reports its head and the reports come in, as many
      reads as frames are left consume every frame produced, in order. */
  lemma ReaderCatchesUp(n: nat, events: seq<Event>)
    requires n > 0
    ensures var s := Run(n, events).0;
            |s.consumed| <= s.produced &&
            var t := Run(n, events + [Inform] + Reports(|s.informs| + 1) + Reads(s.produced - |s.consumed|)).0;
            |t.consumed| == t.produced == s.produced && forall f :: 0 <= f < |t.consumed| ==> t.consumed[f] == f
  {
    hide Run;
    var (s, c) := Run(n, events);
    var informed := events + [Inform];
    assert informed[..|events|] == events && informed[..|events| + 1] == informed;
    CountNext(n, informed, |events|);
    GrantsAreSafe(n, events);
    var reported := informed + Reports(|c.informs| + 1);
    AllReported(n, informed, |c.informs| + 1);
    AllRead(n, reported, c.cardHead - c.tail);
    ConsumedInOrder(n, reported + Reads(c.cardHead - c.tail));
  }

  // ----- when the card is left without room -----

  /** The card's next frame would reach the last tail it has received. */
  predicate NoRoom(s: System)
    requires s.host.nFrames > 0
  {
    (s.cardHead + 1) % s.host.nFrames == s.cardTail
  }

  /** How far one index is ahead of another. */
  function Gap(a: nat, b: nat, n: nat): int
    requires n > 0
  {
    (b - a + n) % n
  }

  /** Over every run, whatever is under way and whatever was lost: the card has no room exactly when
      the frames not reported, those reported since the last grant, and those granted but not yet
      received by the card fill the ring. */
  lemma NoRoomExactly(n: nat, events: seq<Event>)
    requires n > 0
    ensures var s := Run(n, events).0;
            NoRoom(s) <==>
            Gap(s.host.head, s.cardHead, n) + SinceGrant(s.host) + Gap(s.cardTail, s.host.lastGrant, n) == n - 1
  {
    hide Run;
    GrantsAreSafe(n, events);
    GrantCountIsExact(n, events);
    var c := Run(n, events).1;
    Distance(c.head, c.cardHead, n);
    Distance(c.cardTail, c.lastGrant, n);
    FullExactly(c.cardTail, c.cardHead, n);
  }

  lemma FullExactly(cardTail: nat, cardHead: nat, n: nat)
    requires n > 0 && cardTail <= cardHead <= cardTail + n - 1
    ensures (cardHead % n + 1) % n == cardTail % n <==> cardHead - cardTail == n - 1
  {
    NextIndex(cardHead, n);
    if cardHead + 1 == cardTail + n {
      WrapsRound(cardTail, n);
    } else {
      WindowDistinct(cardTail, cardHead + 1, n);
    }
  }

  function LastOr(first: nat, queue: seq<nat>): nat { if queue == [] then first else queue[|queue| - 1] }

  lemma LastKept(s: System, e: Event)
    requires s.host.nFrames == |s.slots| > 0 && s.host.tail < |s.slots| && s.cardHead < |s.slots|
    requires LastOr(s.cardTail, s.grants) == s.host.lastGrant && e != Grant(false)
    ensures var t := Step(s, e); LastOr(t.cardTail, t.grants) == t.host.lastGrant
  {
    hide GrantDue;
  }

  /** While no grant has failed, the last tail granted is the last one the card has or will receive. */
  lemma {:induction false} GrantsArrive(n: nat, events: seq<Event>)
    requires n > 0 && Grant(false) !in events
    ensures var s := Run(n, events).0; LastOr(s.cardTail, s.grants) == s.host.lastGrant
  {
    hide Step, Counted, Inv;
    if events != [] {
      var k := |events| - 1;
      GrantsArrive(n, events[..k]);
      assert events[k] in events;
      var (s, c) := Run(n, events[..k]);
      StepInBounds(s, c);
      LastKept(s, events[k]);
    } else {
      StartKept(n);
    }
  }

  lemma StartKept(n: nat)
    ensures LastOr(Start(n).cardTail, Start(n).grants) == Start(n).host.lastGrant
  {}

  /** With every frame reported and no grant failed or under way, the driver can tell from its own
      indices: the card has no room exactly when its count since the last grant is `n - 1`. */
  lemma NoRoomWhenReported(n: nat, events: seq<Event>)
    requires n > 0 && Grant(false) !in events
    ensures var s := Run(n, events).0;
            s.grants == [] && s.host.head == s.cardHead ==> (NoRoom(s) <==> SinceGrant(s.host) == n - 1)
  {
    hide Run, NoRoom, SinceGrant;
    NoRoomExactly(n, events);
    GrantsArrive(n, events);
    WrapsRound(0, n);
    Small(0, n);
  }

  /** A grant, and the deliveries of all that are under way. */
  function Regrant(s: System): seq<Event> { [Grant(true)] + Deliveries(|s.grants| + 1) }

  function Deliveries(k: nat): seq<Event> { seq(k, _ => Deliver) }

  lemma {:induction false} AllDelivered(n: nat, events: seq<Event>, k: nat)
    requires n > 0 && k <= |Run(n, events).0.grants|
    ensures Run(n, events + Deliveries(k)).0 == AfterDeliveries(Run(n, events).0, k)
    decreases k
  {
    hide Run, Step;
    var all := events + Deliveries(k);
    var s := Run(n, events).0;
    if k == 0 {
      assert all == events;
    } else {
      AllDelivered(n, events, k - 1);
      assert all[..|all| - 1] == events + Deliveries(k - 1) && all[..|all|] == all;
      RunNext(n, all, |all| - 1);
      RunInBounds(n, events);
      DeliverNext(s, k - 1);
    }
  }

  /** The card has taken the first `k` of the grants under way. */
  function AfterDeliveries(s: System, k: nat): System
    requires k <= |s.grants|
  {
    s.(cardTail := LastOr(s.cardTail, s.grants[..k]), grants := s.grants[k..])
  }

  lemma DeliverNext(s: System, k: nat)
    requires s.host.nFrames == |s.slots| > 0 && s.host.tail < |s.slots| && s.cardHead < |s.slots|
    requires k < |s.grants|
    ensures Step(AfterDeliveries(s, k), Deliver) == AfterDeliveries(s, k + 1)
  {
    assert s.grants[k..][1..] == s.grants[k + 1..];
  }

  lemma RunInBounds(n: nat, events: seq<Event>)
    requires n > 0
    ensures var s := Run(n, events).0;
            s.host.nFrames == |s.slots| == n && s.host.tail < |s.slots| && s.cardHead < |s.slots|
  {
    hide Run;
    StepInBounds(Run(n, events).0, Run(n, events).1);
  }

  /** What a reader can do: a grant, as DSPIOCT_SET_NFRAMES sends one at any time, leaves the card
      room, once delivered, exactly if fewer than `n - 1` frames are produced and not consumed. */
  lemma GrantMakesRoom(n: nat, events: seq<Event>)
    requires n > 0
    ensures var s := Run(n, events).0;
            var t := Run(n, events + Regrant(s)).0;
            && t.cardTail == s.host.tail && t.grants == []
            && (NoRoom(t) <==> s.produced - |s.consumed| == n - 1)
  {
    hide Run, NoRoom;
    var s := Run(n, events).0;
    var granted := events + [Grant(true)];
    assert granted[..|events|] == events && granted[..|events| + 1] == granted;
    RunNext(n, granted, |events|);
    AllDelivered(n, granted, |s.grants| + 1);
    assert granted + Deliveries(|s.grants| + 1) == events + Regrant(s);
    RoomFor(n, events + Regrant(s));
  }

  lemma RoomFor(n: nat, events: seq<Event>)
    requires n > 0
    ensures var s := Run(n, events).0;
            s.cardTail == s.host.tail ==> (NoRoom(s) <==> s.produced - |s.consumed| == n - 1)
  {
    hide Run;
    GrantsAreSafe(n, events);
    var (s, c) := Run(n, events);
    if s.cardTail == s.host.tail {
      if c.cardTail < c.tail {
        WindowDistinct(c.cardTail, c.tail, n);
      }
      FullExactly(c.cardTail, c.cardHead, n);
    }
  }

  /** The count is `n - 1` here: grants follow reports, not consumption, and this one goes out before
      the reader has consumed anything.  The card stays out of room though the reader has caught up,
      no grant is due, and no report or grant is under way. */
  lemma GrantMayComeTooEarly()
    ensures var s := Run(2, EARLY_GRANT).0;
            && s.host.tail == s.host.head && s.informs == s.grants == [] && !s.grantDue
            && NoRoom(s) && SinceGrant(s.host) == 1 && |s.consumed| == 1
  {
    hide Run, Step, Counted;
    EarlyReport();
    var s3 := Run(2, EARLY_GRANT[..3]).0;
    RunNext(2, EARLY_GRANT, 3);
    RunNext(2, EARLY_GRANT, 4);
    RunNext(2, EARLY_GRANT, 5);
    assert EARLY_GRANT[..6] == EARLY_GRANT;
    GrantedEarly(s3);
  }

  const EARLY_GRANT := [Produce, Inform, BufInfo, Grant(true), Deliver, Consume]

  /** Here the count is 0 and the card has no room: the grant was recorded, but could not be sent. */
  lemma GrantMayBeLost()
    ensures var s := Run(2, LOST_GRANT).0;
            && s.host.tail == s.host.head == s.cardHead && s.informs == s.grants == [] && !s.grantDue
            && NoRoom(s) && SinceGrant(s.host) == 0
  {
    hide Run, Step, Counted;
    EarlyReport();
    assert LOST_GRANT[..3] == EARLY_GRANT[..3];
    RunNext(2, LOST_GRANT, 3);
    RunNext(2, LOST_GRANT, 4);
    assert LOST_GRANT[..5] == LOST_GRANT;
    GrantLost(Run(2, LOST_GRANT[..3]).0);
  }

  const LOST_GRANT := [Produce, Inform, BufInfo, Consume, Grant(false)]

  lemma GrantLost(s: System)
    requires s == System(Ring(2, 1, 0, 0, false), true, 1, 0, [0, -1], 1, [], [], [])
    ensures Step(s, Consume) == System(Ring(2, 1, 1, 0, false), true, 1, 0, [0, -1], 1, [], [], [0])
    ensures Step(Step(s, Consume), Grant(false)) ==
            System(Ring(2, 1, 1, 1, false), false, 1, 0, [0, -1], 1, [], [], [0])
  {}

  lemma RunNext(n: nat, events: seq<Event>, k: nat)
    requires n > 0 && k < |events|
    ensures Run(n, events[..k + 1]).0 == Step(Run(n, events[..k]).0, events[k])
  {
    hide Step, Counted, Inv;
    assert events[..k + 1][..k] == events[..k];
  }

  lemma EarlyReport()
    ensures Run(2, EARLY_GRANT[..3]).0 == System(Ring(2, 1, 0, 0, false), true, 1, 0, [0, -1], 1, [], [], [])
  {
    hide Run;
    RunNext(2, EARLY_GRANT, 0);
    RunNext(2, EARLY_GRANT, 1);
    RunNext(2, EARLY_GRANT, 2);
    RunOfNothing(EARLY_GRANT[..0]);
    assert [1][1..] == [];
  }

  lemma RunOfNothing(events: seq<Event>)
    requires events == []
    ensures Run(2, events).0 == Start(2)
  {}

  lemma GrantedEarly(s: System)
    requires s == System(Ring(2, 1, 0, 0, false), true, 1, 0, [0, -1], 1, [], [], [])
    ensures var t := Step(s, Grant(true));
            t == System(Ring(2, 1, 0, 0, false), false, 1, 0, [0, -1], 1, [], [0], [])
    ensures var t := Step(Step(Step(s, Grant(true)), Deliver), Consume);
            t == System(Ring(2, 1, 1, 0, false), false, 1, 0, [0, -1], 1, [], [], [0])
  {
    var t := Step(s, Grant(true));
    assert t.grants == [0] && t.grants[1..] == [];
  }
}

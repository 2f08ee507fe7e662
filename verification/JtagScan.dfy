/** The JTAG engine of the Jam player: it tracks the TAP state in software, moves it along the path
    map, and shifts padded data through the instruction and data registers. */
module JtagScan {
  import opened Bits
  import opened Tap
  import opened Transport

  datatype Option<T> = None | Some(value: T)

  datatype Status = Success | InternalError | OutOfMemory

  datatype Register = DR | IR

  const MAX_DR_LENGTH: nat := 2048
  const MAX_IR_LENGTH: nat := 512

  function Shift(r: Register): State { if r.DR? then DrShift else IrShift }

  function Pause(r: Register): State { if r.DR? then DrPause else IrPause }

  function Exit2(r: Register): State { if r.DR? then DrExit2 else IrExit2 }

  function Update(r: Register): State { if r.DR? then DrUpdate else IrUpdate }

  /** Where the scan commands start from: the pause state of the column the TAP is in, or Idle. */
  function StartState(s: Option<State>): State {
    if s.None? || s.value.Reset? || s.value.Idle? then Idle
    else if 2 <= Code(s.value) <= 8 then DrPause
    else IrPause
  }

  /** The TMS values that lead from a start state into the shift state of a register. */
  function Approach(start: State, r: Register): seq<bool> {
    match (start, r)
    case (DrPause, DR) => [true, true, true, false, false]
    case (IrPause, DR) => [true, true, true, false, false]
    case (_, DR) => [true, false, false]
    case (DrPause, IR) => [true, true, true, true, false, false]
    case (IrPause, IR) => [true, false]
    case (_, IR) => [true, true, false, false]
  }

  function Other(r: Register): Register { if r.DR? then IR else DR }

  function Capture(r: Register): State { if r.DR? then DrCapture else IrCapture }

  /** A way into the shift state of a register that disturbs nothing else: the TAP is never reset, the other
      register is neither captured nor shifted, and this one is captured once, just before it is shifted,
      unless an instruction scan goes on from its own pause; in as few clocks as that takes. */
  ghost predicate Enters(r: Register, from: State, tms: seq<bool>) {
    && tms != [] && Fold(from, tms) == Shift(r)
    && Fold(from, tms[..|tms| - 1]) == (if r.IR? && from == IrPause then IrExit2 else Capture(r))
    && (forall k :: 0 <= k < |tms| ==>
          Fold(from, tms[..k]) !in {Reset, Shift(r), Capture(Other(r)), Shift(Other(r))})
    && |tms| == if r.IR? && from == IrPause then 2 else Distance(from, Shift(r))
  }

  lemma FoldPrefix(s: State, tms: seq<bool>, k: nat)
    requires k < |tms|
    ensures Fold(s, tms[..k + 1]) == Clock(Fold(s, tms[..k]), tms[k])
  {
    assert tms[..k + 1][..k] == tms[..k];
  }

  /** The states passed through, up to six of them. */
  ghost predicate Passed(s: State, tms: seq<bool>, states: seq<State>) {
    |states| == |tms| + 1 && forall k :: 0 <= k < |states| ==> Fold(s, tms[..k]) == states[k]
  }

  lemma PassedNext(s: State, tms: seq<bool>, states: seq<State>)
    requires |states| == |tms| + 1 && states[0] == s
    requires forall k :: 0 <= k < |tms| ==> states[k + 1] == Clock(states[k], tms[k])
    ensures Passed(s, tms, states)
  {
    hide Clock;
    var k := 0;
    assert tms[..0] == [];
    while k < |tms|
      invariant k <= |tms| && forall j :: 0 <= j <= k ==> Fold(s, tms[..j]) == states[j]
    {
      FoldPrefix(s, tms, k);
      k := k + 1;
    }
  }

  /** The states through which the scans approach a shift state, each named. */
  function Way(start: State, r: Register): seq<State> {
    match (start, r)
    case (DrPause, DR) => [DrPause, DrExit2, DrUpdate, DrSelect, DrCapture, DrShift]
    case (IrPause, DR) => [IrPause, IrExit2, IrUpdate, DrSelect, DrCapture, DrShift]
    case (_, DR) => [Idle, DrSelect, DrCapture, DrShift]
    case (DrPause, IR) => [DrPause, DrExit2, DrUpdate, DrSelect, IrSelect, IrCapture, IrShift]
    case (IrPause, IR) => [IrPause, IrExit2, IrShift]
    case (_, IR) => [Idle, DrSelect, IrSelect, IrCapture, IrShift]
  }

  lemma ApproachPasses(start: State, r: Register)
    requires start in {Idle, DrPause, IrPause}
    ensures Passed(start, Approach(start, r), Way(start, r))
  {
    hide Fold, Passed;
    PassedNext(start, Approach(start, r), Way(start, r));
  }

  /** From every start state the scans enter the shift state so. */
  lemma ApproachEnters(start: State, r: Register)
    requires start in {Idle, DrPause, IrPause}
    ensures Enters(r, start, Approach(start, r))
  {
    hide Fold, Clock;
    var tms, states := Approach(start, r), Way(start, r);
    ApproachPasses(start, r);
    assert tms[..|tms|] == tms;
    forall k | 0 <= k < |tms|
      ensures Fold(start, tms[..k]) !in {Reset, Shift(r), Capture(Other(r)), Shift(Other(r))}
    {
      assert Fold(start, tms[..k]) == states[k];
    }
  }

  /** Where scans start from: a TAP in a column goes to the pause state of that column first, so that what
      was shifted there is neither lost nor shifted on; any other TAP goes to Idle. */
  lemma StartsInColumn(s: Option<State>)
    ensures s.Some? && s.value in {DrSelect, DrCapture, DrShift, DrExit1, DrPause, DrExit2, DrUpdate}
            <==> StartState(s) == DrPause
    ensures s.Some? && s.value in {IrSelect, IrCapture, IrShift, IrExit1, IrPause, IrExit2, IrUpdate}
            <==> StartState(s) == IrPause
    ensures s in {None, Some(Reset), Some(Idle)} <==> StartState(s) == Idle
  {}

  lemma ApproachShifts(start: State, r: Register)
    requires start in {Idle, DrPause, IrPause}
    ensures Fold(start, Approach(start, r)) == Shift(r)
  {
    hide Fold, Approach, Distance;
    ApproachEnters(start, r);
  }

  function TmsOf(pairs: seq<Pair>): (tms: seq<bool>)
    ensures |tms| == |pairs|
  {
    seq(|pairs|, i requires 0 <= i < |pairs| => pairs[i].tms)
  }

  lemma TmsOfConcat(a: seq<Pair>, b: seq<Pair>)
    ensures TmsOf(a + b) == TmsOf(a) + TmsOf(b)
  {}

  /** The tracker is right, whatever state the TAP was in before the first clock. */
  ghost predicate Tracks(state: State, pairs: seq<Pair>) {
    forall s0: State {:trigger Fold(s0, TmsOf(pairs))} :: Fold(s0, TmsOf(pairs)) == state
  }

  lemma TracksAfter(state: State, pairs: seq<Pair>, more: seq<Pair>)
    requires Tracks(state, pairs)
    ensures Tracks(Fold(state, TmsOf(more)), pairs + more)
  {
    TmsOfConcat(pairs, more);
    forall s0: State
      ensures Fold(s0, TmsOf(pairs + more)) == Fold(state, TmsOf(more))
    {
      FoldConcat(s0, TmsOf(pairs), TmsOf(more));
    }
  }

  /** No trace has two final states. */
  lemma TracksOne(a: State, b: State, pairs: seq<Pair>)
    requires Tracks(a, pairs)
    ensures Tracks(b, pairs) <==> a == b
  {
    assert Fold(Reset, TmsOf(pairs)) == a;
  }

  lemma FoldTwo(s: State, a: bool, b: bool)
    ensures Fold(s, [a, b]) == Clock(Clock(s, a), b)
  {
    assert [a, b][..1] == [a];
    FoldOne(s, a);
  }

  lemma FoldThree(s: State, a: bool, b: bool, c: bool)
    ensures Fold(s, [a, b, c]) == Clock(Clock(Clock(s, a), b), c)
  {
    assert [a, b, c][..2] == [a, b];
    FoldTwo(s, a, b);
  }

  lemma FoldFour(s: State, a: bool, b: bool, c: bool, d: bool)
    ensures Fold(s, [a, b, c, d]) == Clock(Clock(Clock(Clock(s, a), b), c), d)
  {
    assert [a, b, c, d][..3] == [a, b, c];
    FoldThree(s, a, b, c);
  }

  lemma FoldFive(s: State, a: bool, b: bool, c: bool, d: bool, e: bool)
    ensures Fold(s, [a, b, c, d, e]) == Clock(Clock(Clock(Clock(Clock(s, a), b), c), d), e)
  {
    assert [a, b, c, d, e][..4] == [a, b, c, d];
    FoldFour(s, a, b, c, d);
  }

  lemma FoldOne(s: State, tms: bool)
    ensures Fold(s, [tms]) == Clock(s, tms)
  {
    assert [tms][..0] == [];
  }

  lemma {:induction false} FoldSame(s: State, tms: bool, n: nat)
    requires Clock(s, tms) == s
    ensures Fold(s, seq(n, _ => tms)) == s
  {
    if n > 0 {
      var trace := seq(n, _ => tms);
      assert trace[..n - 1] == seq(n - 1, _ => tms);
      FoldSame(s, tms, n - 1);
    }
  }

  /** Five clocks with TMS high reset the TAP from any state; a sixth with TMS low idles it. */
  lemma ResetIdles(s0: State)
    ensures Fold(s0, [true, true, true, true, true, false]) == Idle
  {
    hide Fold, Clock;
    var t := [true, true, true, true, true, false];
    assert t == [true, true, true] + [true, true, false];
    FoldConcat(s0, [true, true, true], [true, true, false]);
    FoldThree(s0, true, true, true);
    FoldThree(Fold(s0, [true, true, true]), true, true, false);
    ResetClocks(s0);
  }

  lemma ResetClocks(s0: State)
    ensures Clock(Clock(Clock(Clock(Clock(s0, true), true), true), true), true) == Reset
    ensures Clock(Reset, false) == Idle
  {}

  const SIX_CLOCKS: seq<bool> := [true, true, true, true, true, false]

  lemma ResetIdleTracks(start: seq<Pair>)
    ensures Tracks(Idle, start + Idling(SIX_CLOCKS))
  {
    IdlingTms(SIX_CLOCKS);
    TmsOfConcat(start, Idling(SIX_CLOCKS));
    forall s0: State
      ensures Fold(s0, TmsOf(start + Idling(SIX_CLOCKS))) == Idle
    {
      FoldConcat(s0, TmsOf(start), SIX_CLOCKS);
      ResetIdles(Fold(s0, TmsOf(start)));
    }
  }

  /** Clocks that shift nothing. */
  function Idling(tms: seq<bool>): (pairs: seq<Pair>)
    ensures |pairs| == |tms|
  {
    seq(|tms|, i requires 0 <= i < |tms| => Pair(tms[i], false))
  }

  lemma IdlingTms(tms: seq<bool>)
    ensures TmsOf(Idling(tms)) == tms
  {}

  lemma IdlingConcat(a: seq<bool>, b: seq<bool>)
    ensures Idling(a + b) == Idling(a) + Idling(b)
  {}

  // ----- the path to a state -----

  /** The TMS values along the path map. */
  function Route(s: State, target: State): (tms: seq<bool>)
    ensures |tms| == Distance(s, target) <= 8
    decreases Distance(s, target)
  {
    hide Distance, Step, TmsTowards, Code;
    StepDescends(s, target);
    if s == target then [] else [TmsTowards(s, target)] + Route(Step(s, target), target)
  }

  lemma {:induction false} RouteArrives(s: State, target: State)
    ensures Fold(s, Route(s, target)) == target
    decreases Distance(s, target)
  {
    hide Distance, TmsTowards, Clock;
    StepDescends(s, target);
    if s != target {
      var rest := Route(Step(s, target), target);
      RouteArrives(Step(s, target), target);
      FoldConcat(s, [TmsTowards(s, target)], rest);
      FoldOne(s, TmsTowards(s, target));
    }
  }

  /** What `jam_goto_jtag_state` clocks from a state it knows: the path, or one clock in a stable state
      that is already reached. */
  function KnownTms(from: State, target: State): (tms: seq<bool>)
    ensures |tms| <= 8
  {
    if from != target then Route(from, target) else if Stable(from) then [from == Reset] else []
  }

  /** From an unknown state it resets the TAP first. */
  function GotoTms(from: Option<State>, target: State): (tms: seq<bool>)
    ensures |tms| <= (if from.None? then 6 else 0) + 8
  {
    if from.None? then SIX_CLOCKS + KnownTms(Idle, target) else KnownTms(from.value, target)
  }

  lemma FairFrom(s: State, tms: bool, rest: seq<bool>, target: State)
    requires Fair(s, tms, target) && FairWay(Clock(s, tms), rest, target)
    ensures FairWay(s, [tms] + rest, target)
  {
    hide Clock, Fair, Fold;
    var way := [tms] + rest;
    FoldOne(s, tms);
    FoldNothing(s);
    assert way[..0] == [];
    forall k | 0 <= k < |way|
      ensures Fair(Fold(s, way[..k]), way[k], target)
    {
      if k > 0 {
        assert way[..k] == [tms] + rest[..k - 1] && way[k] == rest[k - 1];
        FoldConcat(s, [tms], rest[..k - 1]);
      }
    }
  }

  lemma {:induction false} RouteIsFair(s: State, target: State)
    ensures FairWay(s, Route(s, target), target)
    decreases Distance(s, target)
  {
    hide Distance, TmsTowards, Clock, Fair;
    StepDescends(s, target);
    if s != target {
      MapIsFair(s, target);
      RouteIsFair(Step(s, target), target);
      FairFrom(s, TmsTowards(s, target), Route(Step(s, target), target), target);
    }
  }

  /** What a goto clocks, written out: five clocks high and one low before anything else if the state is not
      known; a fair way of the map's length to another state; and one clock where a state is held. */
  lemma GotoClocks(from: Option<State>, target: State)
    ensures var tms := GotoTms(from, target);
            match from
            case None => tms == [true, true, true, true, true, false] + GotoTms(Some(Idle), target)
            case Some(s) =>
              if s == target then
                tms == if s in {Idle, DrShift, DrPause, IrShift, IrPause} then [false]
                       else if s == Reset then [true] else []
              else |tms| == Distance(s, target) && Fold(s, tms) == target && FairWay(s, tms, target)
  {
    hide Distance, Fold, Route, FairWay;
    match from
    case None =>
    case Some(s) =>
      RouteArrives(s, target);
      RouteIsFair(s, target);
  }

  /** What the waits clock to get to their state. */
  function ReachTms(from: Option<State>, target: State): seq<bool> {
    if from == Some(target) then [] else GotoTms(from, target)
  }

  /** Both states of the way on from the pause state are left with TMS high. */
  lemma MapLeadsUp(r: Register, target: State)
    ensures target != Pause(r) ==> TmsTowards(Pause(r), target)
    ensures TmsTowards(Exit2(r), target)
  {
    hide TmsTowards;
    TmsWrittenOut(Pause(r), target);
    TmsWrittenOut(Exit2(r), target);
  }

  lemma ColumnsClock(r: Register)
    ensures Clock(Pause(r), true) == Exit2(r) && Clock(Exit2(r), true) == Update(r)
    ensures Clock(Clock(Shift(r), true), true) == Update(r)
    ensures Clock(Shift(r), true) !in {Pause(r), Exit2(r)} && Shift(r) != Pause(r) && Pause(r) != Exit2(r)
  {}

  /** From the pause state, two clocks lead to the update state if they lead on at all. */
  lemma RouteUpdates(r: Register, target: State)
    requires target !in {Pause(r), Exit2(r)}
    ensures Route(Pause(r), target) == [true, true] + Route(Update(r), target)
  {
    hide Route, TmsTowards, Clock, Pause, Exit2, Update;
    MapLeadsUp(r, target);
    ColumnsClock(r);
    RouteNext(Pause(r), target);
    RouteNext(Exit2(r), target);
  }

  lemma RouteNext(s: State, target: State)
    requires s != target
    ensures Route(s, target) == [TmsTowards(s, target)] + Route(Step(s, target), target)
    ensures Step(s, target) == Clock(s, TmsTowards(s, target))
  {
    hide Distance, TmsTowards, Clock;
  }

  lemma RouteToExit2(r: Register)
    ensures Route(Pause(r), Exit2(r)) == [true]
  {
    hide Route, TmsTowards, Clock, Pause, Exit2, Update;
    MapLeadsUp(r, Exit2(r));
    ColumnsClock(r);
    RouteNext(Pause(r), Exit2(r));
    NoRoute(Exit2(r));
  }

  lemma FoldNothing(s: State)
    ensures Fold(s, []) == s
  {}

  lemma NoRoute(s: State)
    ensures Route(s, s) == []
  {}

  /** The way on from the pause state. */
  function StopTms(r: Register, stop: State): seq<bool> {
    if stop == Pause(r) then [] else Route(Pause(r), stop)
  }

  lemma ShiftSlips(r: Register, stop: State)
    requires stop in {Pause(r), Exit2(r)}
    ensures Fold(Shift(r), StopTms(r, stop)) != stop
  {
    hide Route, Clock, Fold, Pause, Exit2, Shift;
    ColumnsClock(r);
    if stop == Pause(r) {
      FoldNothing(Shift(r));
    } else {
      RouteToExit2(r);
      FoldOne(Shift(r), true);
    }
  }

  lemma ShiftMoves(r: Register, stop: State)
    requires stop !in {Pause(r), Exit2(r)}
    ensures Fold(Shift(r), StopTms(r, stop)) == stop
  {
    hide Route, Clock, Fold, Pause, Exit2, Update, Shift;
    ColumnsClock(r);
    RouteUpdates(r, stop);
    RouteArrives(Update(r), stop);
    FoldConcat(Shift(r), [true, true], Route(Update(r), stop));
    FoldTwo(Shift(r), true, true);
  }

  /** A TAP left in the shift state reaches a stop state by the path from the pause state if and
      only if that is neither the pause state nor the one after it. */
  lemma ShiftStops(r: Register, stop: State)
    ensures Fold(Shift(r), StopTms(r, stop)) == stop <==> stop !in {Pause(r), Exit2(r)}
  {
    hide StopTms, Fold, Pause, Exit2, Shift;
    if stop in {Pause(r), Exit2(r)} {
      ShiftSlips(r, stop);
    } else {
      ShiftMoves(r, stop);
    }
  }

  // ----- what a scan shifts -----

  /** A scan of at least one bit, then the closing clock, ends in the pause state. */
  lemma ScanPauses(r: Register, bits: seq<bool>)
    ensures Fold(Shift(r), TmsOf(ScanPairs(bits)) + [false]) ==
            if |bits| >= 1 then Pause(r) else Shift(r)
  {
    hide Fold, Clock, ScanPairs, TmsOf;
    var n := |bits|;
    ScanTms(bits);
    if n >= 1 {
      var zeros := seq(n - 1, _ => false);
      assert zeros + [true] + [false] == zeros + [true, false];
      FoldConcat(Shift(r), zeros, [true, false]);
      ShiftExits(r);
      FoldSame(Shift(r), false, n - 1);
      FoldTwo(Shift(r), true, false);
    } else {
      assert [] + [false] == [false];
      ShiftExits(r);
      FoldOne(Shift(r), false);
    }
  }

  lemma ScanTms(bits: seq<bool>)
    ensures TmsOf(ScanPairs(bits)) == if bits == [] then [] else seq(|bits| - 1, _ => false) + [true]
  {}

  lemma ShiftExits(r: Register)
    ensures Clock(Shift(r), false) == Shift(r) && Clock(Clock(Shift(r), true), false) == Pause(r)
  {}

  // ----- the player -----

  /** Fixed bits shifted before and after the target data of a register. */
  datatype Padding = Padding(preData: seq<Word>, pre: nat, postData: seq<Word>, post: nat) {
    ghost predicate Valid() {
      pre <= 32 * |preData| && post <= 32 * |postData|
    }

    /** The bits of a whole scan. */
    ghost function Around(target: seq<bool>): (bits: seq<bool>)
      requires Valid()
      ensures |bits| == pre + |target| + post
    {
      Bits32(preData)[..pre] + target + Bits32(postData)[..post]
    }
  }

  /** Which bit of a padded scan is which. */
  lemma AroundAt(pad: Padding, target: seq<bool>, k: nat)
    requires pad.Valid() && k < pad.pre + |target| + pad.post
    ensures pad.Around(target)[k] ==
            if k < pad.pre then Bit(pad.preData[k / 32], k % 32)
            else if k < pad.pre + |target| then target[k - pad.pre]
            else var j := k - pad.pre - |target|; Bit(pad.postData[j / 32], j % 32)
  {}

  /** The states in which the TAP loops while TMS is held. */
  predicate Stable(s: State) {
    s in {Reset, Idle, DrShift, DrPause, IrShift, IrPause}
  }

  /** Holding TMS keeps a state exactly when it is stable (or when nothing is clocked). */
  lemma HoldingKeeps(s: State, cycles: nat)
    ensures Fold(s, seq(cycles, _ => s == Reset)) == s <==> Stable(s) || cycles == 0
  {
    var tms := s == Reset;
    var next := Clock(s, tms);
    if Stable(s) {
      FoldSame(s, tms, cycles);
    } else if cycles > 0 {
      LowLeaves(s, cycles);
    }
  }

  predicate Settling(s: State) {
    s in {DrShift, DrPause, IrShift, IrPause, Idle, DrCapture, IrCapture}
  }

  /** From an unstable state, TMS low leads away for good. */
  lemma {:induction false} LowLeaves(s: State, cycles: nat)
    requires !Stable(s) && cycles > 0
    ensures Fold(s, seq(cycles, _ => false)) != s
    ensures Settling(Fold(s, seq(cycles, _ => false)))
    ensures s in {DrCapture, IrCapture} ==> Stable(Fold(s, seq(cycles, _ => false)))
  {
    var trace := seq(cycles, _ => false);
    assert trace[..cycles - 1] == seq(cycles - 1, _ => false);
    if cycles == 1 {
      assert trace[..0] == [];
    } else {
      LowLeaves(s, cycles - 1);
    }
  }

  /** Clocks that hold TMS. */
  function Held(cycles: nat, tms: bool): (pairs: seq<Pair>)
    ensures |pairs| == cycles
    ensures forall i :: 0 <= i < cycles ==> pairs[i] == Pair(tms, false)
  {
    seq(cycles, _ => Pair(tms, false))
  }

  lemma HoldingTracks(s: State, start: seq<Pair>, cycles: nat)
    requires Tracks(s, start)
    ensures Tracks(s, start + Held(cycles, s == Reset)) <==> Stable(s) || cycles == 0
  {
    hide Tracks, Fold, Stable;
    var more := Held(cycles, s == Reset);
    assert TmsOf(more) == seq(cycles, _ => s == Reset);
    HoldingKeeps(s, cycles);
    TracksAfter(s, start, more);
    TracksOne(Fold(s, TmsOf(more)), s, start + more);
  }

  /** The clocks of one scan command, from its start state to the pause state. */
  function ScanClocks(start: State, r: Register, bits: seq<bool>): seq<Pair> {
    Idling(Approach(start, r)) + ScanPairs(bits) + [Pair(false, false)]
  }

  /** During the shift the TAP is in the shift state; after the scan it is in the pause state if at
      least one bit was shifted, and still in the shift state otherwise. */
  lemma ScanTracks(start: State, r: Register, history: seq<Pair>, bits: seq<bool>)
    requires start in {Idle, DrPause, IrPause} && Tracks(start, history)
    ensures Tracks(Shift(r), history + Idling(Approach(start, r)))
    ensures Tracks(if |bits| >= 1 then Pause(r) else Shift(r), history + ScanClocks(start, r, bits))
    ensures Tracks(Pause(r), history + ScanClocks(start, r, bits)) <==> |bits| >= 1
  {
    hide Tracks, Approach, ScanPairs, Fold;
    var a := Idling(Approach(start, r));
    var b := ScanPairs(bits) + [Pair(false, false)];
    assert TmsOf(a) == Approach(start, r);
    ApproachShifts(start, r);
    TracksAfter(start, history, a);
    assert TmsOf(b) == TmsOf(ScanPairs(bits)) + [false];
    ScanPauses(r, bits);
    TracksAfter(Shift(r), history + a, b);
    assert history + a + b == history + ScanClocks(start, r, bits);
    TracksOne(Fold(Shift(r), TmsOf(b)), Pause(r), history + ScanClocks(start, r, bits));
  }

  /** The scan that carried `bits` began at clock `at` of a history: the TAP was in the shift state,
      and exactly these bits were shifted, TMS rising with the last. */
  ghost predicate Shifted(r: Register, history: seq<Pair>, at: nat, bits: seq<bool>) {
    && at + |bits| <= |history| && Tracks(Shift(r), history[..at])
    && forall k :: 0 <= k < |bits| ==> history[at + k] == Pair(k == |bits| - 1, bits[k])
  }

  /** It was entered in the clocks from `begin` to `at`, from a state in which the TAP was at `begin`. */
  ghost predicate Entered(r: Register, from: State, history: seq<Pair>, begin: nat, at: nat) {
    && begin <= at <= |history| && Tracks(from, history[..begin])
    && Enters(r, from, TmsOf(history[begin..at]))
  }

  /** `bits` are the TDO bits of the clocks from `at` on. */
  ghost predicate Returned(tdo: seq<Pair> -> bool, history: seq<Pair>, at: nat, bits: seq<bool>) {
    && at + |bits| <= |history|
    && forall k :: 0 <= k < |bits| ==> bits[k] == tdo(history[..at + k + 1])
  }

  lemma CapturedReturned(tdo: seq<Pair> -> bool, history: seq<Pair>, at: nat, bits: seq<bool>)
    requires at + |bits| <= |history| && bits == TdoOf(tdo, history[..at + |bits|], at)
    ensures Returned(tdo, history, at, bits)
  {
    forall k | 0 <= k < |bits|
      ensures bits[k] == tdo(history[..at + k + 1])
    {
      assert history[..at + |bits|][..at + k + 1] == history[..at + k + 1];
    }
  }

  lemma ReturnedLater(tdo: seq<Pair> -> bool, scanned: seq<Pair>, history: seq<Pair>, at: nat, bits: seq<bool>)
    requires Returned(tdo, scanned, at, bits) && scanned <= history
    ensures Returned(tdo, history, at, bits)
  {
    forall k | 0 <= k < |bits|
      ensures bits[k] == tdo(history[..at + k + 1])
    {
      assert history[..at + k + 1] == scanned[..at + k + 1];
    }
  }

  lemma ReturnedWithin(tdo: seq<Pair> -> bool, history: seq<Pair>, at: nat, bits: seq<bool>, lo: nat, hi: nat)
    requires Returned(tdo, history, at, bits) && lo <= hi <= |bits|
    ensures Returned(tdo, history, at + lo, bits[lo..hi])
  {
    var some := bits[lo..hi];
    forall k | 0 <= k < |some|
      ensures some[k] == tdo(history[..at + lo + k + 1])
    {
      assert some[k] == bits[lo + k] == tdo(history[..at + (lo + k) + 1]);
    }
  }

  lemma ShiftedEarlier(r: Register, scanned: seq<Pair>, history: seq<Pair>, at: nat, bits: seq<bool>)
    requires Shifted(r, scanned, at, bits) && scanned <= history
    ensures Shifted(r, history, at, bits)
  {
    assert history[..at] == scanned[..at];
    forall k | 0 <= k < |bits|
      ensures history[at + k] == Pair(k == |bits| - 1, bits[k])
    {
      assert history[at + k] == scanned[at + k];
    }
  }

  lemma EnteredEarlier(r: Register, from: State, scanned: seq<Pair>, history: seq<Pair>, begin: nat, at: nat)
    requires Entered(r, from, scanned, begin, at) && scanned <= history
    ensures Entered(r, from, history, begin, at)
  {
    assert history[..begin] == scanned[..begin] && history[begin..at] == scanned[begin..at];
  }

  lemma ScanShifts(start: State, r: Register, history: seq<Pair>, bits: seq<bool>)
    requires start in {Idle, DrPause, IrPause} && Tracks(start, history)
    ensures var all, at := history + ScanClocks(start, r, bits), |history| + |Approach(start, r)|;
            Shifted(r, all, at, bits) && Entered(r, start, all, |history|, at)
  {
    hide Tracks, Approach, ScanPairs, Enters;
    var a := Idling(Approach(start, r));
    ScanTracks(start, r, history, bits);
    var all := history + ScanClocks(start, r, bits);
    assert all == (history + a) + ScanPairs(bits) + [Pair(false, false)];
    assert all[..|history| + |a|] == history + a && all[..|history|] == history;
    assert all[|history|..|history| + |a|] == a;
    ApproachEnters(start, r);
    IdlingTms(Approach(start, r));
    forall k | 0 <= k < |bits|
      ensures all[|history| + |a| + k] == Pair(k == |bits| - 1, bits[k])
    {
      assert all[|history| + |a| + k] == ScanPairs(bits)[k];
    }
  }

  /** What a Jam program may ask of the engine. */
  datatype Command =
    | GoTo(target: State)
    | Wait(cycles: nat, waitState: State)
    | Delay(waitState: State)
    | SetStop(r: Register, stop: State)
    | SetPadding(r: Register, pad: Padding)
    | Shifting(r: Register, data: seq<Word>, start: nat, count: nat, swap: bool)
  {
    /** Data is as long as it is said to be. */
    ghost predicate Valid() {
      match this
      case SetPadding(_, pad) => pad.Valid()
      case Shifting(_, data, start, count, _) => start + count <= 32 * |data|
      case _ => true
    }
  }

  /** What a Jam program has set up for the scans of a register. */
  datatype Setup = Setup(stop: State, pad: Padding)

  /** A scan that shifts nothing at all, and stops where the way on from the pause state is not
      the way on from the shift state. */
  predicate Slips(r: Register, setup: Setup, count: nat) {
    setup.pad.pre + count + setup.pad.post == 0 && setup.stop in {Pause(r), Exit2(r)}
  }

  /** The commands that leave a right tracker wrong. */
  predicate Misleads(dr: Setup, ir: Setup, c: Command) {
    match c
    case Wait(cycles, waitState) => !Stable(waitState) && cycles > 0
    case Shifting(r, _, _, count, _) => Slips(r, if r.DR? then dr else ir, count)
    case _ => false
  }

  function SetupAfter(r: Register, setup: Setup, c: Command): Setup {
    match c
    case SetStop(q, stop) => if q == r then setup.(stop := stop) else setup
    case SetPadding(q, pad) => if q == r then setup.(pad := pad) else setup
    case _ => setup
  }

  function SetupAfterAll(r: Register, setup: Setup, cs: seq<Command>): Setup {
    if cs == [] then setup else SetupAfter(r, SetupAfterAll(r, setup, cs[..|cs| - 1]), cs[|cs| - 1])
  }

  /** No command of a run misleads the tracker. */
  predicate Faithful(dr: Setup, ir: Setup, cs: seq<Command>) {
    cs == [] ||
    (var n := |cs| - 1;
     Faithful(dr, ir, cs[..n]) &&
     !Misleads(SetupAfterAll(DR, dr, cs[..n]), SetupAfterAll(IR, ir, cs[..n]), cs[n]))
  }

  lemma PutTogether(start: seq<Pair>, a: seq<Pair>, b: seq<Pair>, c: seq<Pair>)
    ensures start + a + b + c == start + (a + b + c)
    ensures (start + a + b + c)[|start|..|start + a|] == a
    ensures (start + a + b + c)[..|start + a| + |b|] == start + a + b
  {}

  lemma SixIdling()
    ensures Idling(SIX_CLOCKS) == seq(5, _ => Pair(true, false)) + [Pair(false, false)]
  {}

  lemma GotoIsRoute(s: State, target: State)
    requires s != target
    ensures GotoTms(Some(s), target) == Route(s, target)
  {}

  lemma NothingIdling(start: seq<Pair>)
    ensures start + Idling([]) == start
  {}

  lemma RouteStarts(start: seq<Pair>, s: State, target: State)
    requires s != target
    ensures start + Idling(Route(s, target)) ==
            start + [Pair(TmsTowards(s, target), false)] + Idling(Route(Clock(s, TmsTowards(s, target)), target))
    ensures Distance(Clock(s, TmsTowards(s, target)), target) < Distance(s, target)
  {
    hide Distance, TmsTowards, Clock, Idling, Route;
    StepDescends(s, target);
    RouteNext(s, target);
    var tms := TmsTowards(s, target);
    IdlingConcat([tms], Route(Step(s, target), target));
    IdlingOne(tms);
  }

  lemma IdlingOne(tms: bool)
    ensures Idling([tms]) == [Pair(tms, false)]
  {}

  lemma RouteEnds(start: seq<Pair>, target: State)
    ensures start + Idling(Route(target, target)) == start
  {
    hide Distance;
  }

  class Player {
    const mce: Mce
    const workspace: bool
    var state: Option<State>
    var drStop: State
    var irStop: State
    var drPad: Padding
    var irPad: Padding
    var drLength: nat
    var irLength: nat
    var drBuffer: array<Byte>
    var irBuffer: array<Byte>

    ghost predicate Wired()
      reads this, mce, mce.writeData, mce.readData
    {
      mce.Ready() && mce.Apart(drBuffer) && mce.Apart(irBuffer) && drBuffer != irBuffer &&
      drPad.Valid() && irPad.Valid() &&
      (if workspace then 8 * drBuffer.Length >= MAX_DR_LENGTH && 8 * irBuffer.Length >= MAX_IR_LENGTH
       else drLength <= 8 * drBuffer.Length && irLength <= 8 * irBuffer.Length)
    }

    /** The tracker, once it claims a state, claims the right one. */
    ghost predicate Valid()
      reads this, mce, mce.writeData, mce.readData
    {
      Wired() && (state.Some? ==> Tracks(state.value, mce.Pushed()))
    }

    function Pad(r: Register): Padding
      reads this
    {
      if r.DR? then drPad else irPad
    }

    function Stop(r: Register): State
      reads this
    {
      if r.DR? then drStop else irStop
    }

    function SetupOf(r: Register): Setup
      reads this
    {
      Setup(Stop(r), Pad(r))
    }

    /** A workspace has only so much room for a padded scan. */
    predicate TooLong(r: Register, count: nat)
      reads this
    {
      Exceeds(r, Pad(r).pre + count + Pad(r).post)
    }

    predicate Exceeds(r: Register, total: nat) {
      workspace && total > if r.DR? then MAX_DR_LENGTH else MAX_IR_LENGTH
    }

    function Buffer(r: Register): array<Byte>
      reads this
    {
      if r.DR? then drBuffer else irBuffer
    }

    /** `jam_init_jtag`: the state is unknown, there is no padding. */
    constructor (mce: Mce, workspace: bool)
      requires mce.Ready()
      ensures Valid() && state == None && this.mce == mce && this.workspace == workspace
      ensures drStop == irStop == Idle
      ensures fresh(drBuffer) && fresh(irBuffer)
    {
      this.mce, this.workspace := mce, workspace;
      state := None;
      drStop, irStop := Idle, Idle;
      drPad, irPad := Padding([], 0, [], 0), Padding([], 0, [], 0);
      drLength, irLength := 0, 0;
      drBuffer := new Byte[if workspace then MAX_DR_LENGTH / 8 else 0](_ => 0);
      irBuffer := new Byte[if workspace then MAX_IR_LENGTH / 8 else 0](_ => 0);
    }

    /** `jam_jtag_io(tms, TDI_LOW, IGNORE_TDO)` */
    method Io(tms: bool)
      requires Wired()
      modifies mce, mce.writeData, mce.readData
      ensures Wired()
      ensures mce.Pushed() == old(mce.Pushed()) + [Pair(tms, false)]
    {
      var _ := mce.WriteSingle(tms, false, false);
    }

    /** Clock with TMS, and track. */
    method Track(tms: bool)
      requires Wired() && state.Some?
      modifies this`state, mce, mce.writeData, mce.readData
      ensures Wired() && state == Some(Clock(old(state).value, tms))
      ensures mce.Pushed() == old(mce.Pushed()) + [Pair(tms, false)]
      ensures old(Valid()) ==> Valid()
    {
      ghost var start := mce.Pushed();
      if Valid() {
        TracksAfter(state.value, start, [Pair(tms, false)]);
        assert TmsOf([Pair(tms, false)]) == [tms];
        FoldOne(state.value, tms);
      }
      Io(tms);
      state := Some(if tms then TRANSITIONS[Code(state.value)].0 else TRANSITIONS[Code(state.value)].1);
      TransitionsAreStandard(old(state).value);
    }

    method ResetIdle()
      requires Wired()
      modifies this`state, mce, mce.writeData, mce.readData
      ensures Valid() && state == Some(Idle)
      ensures mce.Pushed() == old(mce.Pushed()) + Idling(SIX_CLOCKS)
    {
      hide Mce.Pushed, Mce.Valid, Mce.Ready, Tracks;
      ghost var start := mce.Pushed();
      for i := 0 to 5
        invariant Wired()
        invariant mce.Pushed() == start + seq(i, _ => Pair(true, false))
      {
        Io(true);
      }
      Io(false);
      state := Some(Idle);
      SixIdling();
      assert mce.Pushed() == start + Idling(SIX_CLOCKS);
      ResetIdleTracks(start);
    }

    /** `jam_goto_jtag_state`: by the tracker it always arrives, within its limit of nine clocks;
        the TAP arrives if the tracker was right. */
    method Goto(target: State) returns (status: Status)
      requires Wired()
      modifies this`state, mce, mce.writeData, mce.readData
      ensures Wired() && status == Success && state == Some(target)
      ensures mce.Pushed() == old(mce.Pushed()) + Idling(GotoTms(old(state), target))
      ensures old(Valid()) ==> Valid()
    {
      hide Mce.Pushed, Mce.Valid, Mce.Ready, Tracks, Distance, Idling, KnownTms;
      ghost var before := mce.Pushed();
      status := Success;
      if state.None? {
        ResetIdle();
        IdlingConcat(SIX_CLOCKS, KnownTms(Idle, target));
      }
      GotoKnown(target);
      if state.value != target {
        status := InternalError;
      }
    }

    /** The rest of it, from a state the tracker claims. */
    method GotoKnown(target: State)
      requires Wired() && state.Some?
      modifies this`state, mce, mce.writeData, mce.readData
      ensures Wired() && state == Some(target)
      ensures mce.Pushed() == old(mce.Pushed()) + Idling(KnownTms(old(state).value, target))
      ensures old(Valid()) ==> Valid()
    {
      hide Mce.Pushed, Mce.Valid, Mce.Ready, Tracks, Distance, Step, TmsTowards, Route;
      ghost var start, right := mce.Pushed(), Valid();
      ghost var from := state.value;
      if state.value == target {
        if target in {Idle, DrShift, DrPause, IrShift, IrPause} {
          Track(false);
        } else if target == Reset {
          Track(true);
        }
      } else {
        var count := 0;
        StepDescends(from, target);
        while state.value != target && count < 9
          invariant Wired() && state.Some? && (right ==> Valid())
          invariant count + Distance(state.value, target) <= 8
          invariant mce.Pushed() + Idling(Route(state.value, target)) == start + Idling(Route(from, target))
        {
          var tms := TmsTowards(state.value, target);
          RouteStarts(mce.Pushed(), state.value, target);
          Track(tms);
          count := count + 1;
        }
        StepDescends(state.value, target);
        RouteEnds(mce.Pushed(), target);
      }
    }

    /** Loop in a state for a number of clocks: the tracker stays right if and only if the state is stable
        or no clock is waited. */
    method WaitCycles(cycles: nat, waitState: State) returns (status: Status)
      requires Wired()
      modifies this`state, mce, mce.writeData, mce.readData
      ensures Wired() && status == Success && state == Some(waitState)
      ensures mce.Pushed() == old(mce.Pushed()) + Idling(ReachTms(old(state), waitState))
                              + Held(cycles, waitState == Reset)
      ensures old(Valid()) ==> (Valid() <==> Stable(waitState) || cycles == 0)
    {
      hide Mce.Pushed, Mce.Valid, Mce.Ready, Tracks, Stable, GotoTms;
      status := Success;
      if state != Some(waitState) {
        status := Goto(waitState);
      }
      Hold(cycles);
    }

    method Hold(cycles: nat)
      requires Wired() && state.Some?
      modifies mce, mce.writeData, mce.readData
      ensures Wired() && mce.Pushed() == old(mce.Pushed()) + Held(cycles, state.value == Reset)
      ensures old(Valid()) ==> (Valid() <==> Stable(state.value) || cycles == 0)
    {
      hide Mce.Pushed, Mce.Valid, Mce.Ready, Tracks, Stable;
      ghost var start, right := mce.Pushed(), Valid();
      var tms := state.value == Reset;
      for i := 0 to cycles
        invariant Wired() && mce.Pushed() == start + Held(i, tms)
      {
        Io(tms);
      }
      if right {
        HoldingTracks(state.value, start, cycles);
      }
    }

    /** `jam_do_wait_microseconds`, but for the delay: a player that never used the TAP leaves it alone. */
    method WaitMicroseconds(waitState: State) returns (status: Status)
      requires Wired()
      modifies this`state, mce, mce.writeData, mce.readData
      ensures Wired() && status == Success && (old(Valid()) ==> Valid())
      ensures state == if old(state).None? then None else Some(waitState)
      ensures mce.Pushed() ==
              old(mce.Pushed()) + Idling(if old(state).None? then [] else ReachTms(old(state), waitState))
    {
      hide Mce.Pushed, Mce.Valid, Mce.Ready, Tracks, GotoTms;
      status := Success;
      if state.Some? && state.value != waitState {
        status := Goto(waitState);
      }
    }

    /** Copy `count` bits of a word array, from bit `start`, into a byte buffer from bit `at`. */
    static method CopyBits(buffer: array<Byte>, at: nat, words: seq<Word>, start: nat, count: nat)
      requires start + count <= 32 * |words| && at + count <= 8 * buffer.Length
      modifies buffer
      ensures Bits8(buffer[..]) == Overwritten(old(Bits8(buffer[..])), at, Bits32(words)[start..start + count])
    {
      hide Bits8, Overwritten;
      ghost var bits, before := Bits32(words)[start..start + count], Bits8(buffer[..]);
      OverwriteNothing(before, at);
      for i := 0 to count
        invariant Bits8(buffer[..]) == Overwritten(before, at, bits[..i])
      {
        var j := start + i;
        PutBit8(buffer, at + i, Bit(words[j / 32], j % 32));
        OverwriteOne(before, at, bits[..i], bits[i]);
        assert bits[..i + 1] == bits[..i] + [bits[i]];
      }
      assert bits[..count] == bits;
    }

    /** `jam_jtag_concatenate_data` */
    method Concatenate(r: Register, target: seq<Word>, start: nat, count: nat)
      requires Wired() && start + count <= 32 * |target|
      requires Pad(r).pre + count + Pad(r).post <= 8 * Buffer(r).Length
      modifies Buffer(r)
      ensures Bits8(Buffer(r)[..]) ==
              Overwritten(old(Bits8(Buffer(r)[..])), 0, Pad(r).Around(Bits32(target)[start..start + count]))
    {
      hide Bits8, Bits32, Overwritten, TmsOf, Tracks, Fold, Mce.Pushed, Mce.Valid, Mce.Ready;
      var buffer, pad := Buffer(r), Pad(r);
      ghost var before := Bits8(buffer[..]);
      ghost var pre, mid, post :=
        Bits32(pad.preData)[..pad.pre], Bits32(target)[start..start + count], Bits32(pad.postData)[..pad.post];
      CopyBits(buffer, 0, pad.preData, 0, pad.pre);
      CopyBits(buffer, pad.pre, target, start, count);
      OverwriteTwice(before, 0, pre, mid);
      CopyBits(buffer, pad.pre + count, pad.postData, 0, pad.post);
      OverwriteTwice(before, 0, pre + mid, post);
    }

    /** `jam_jtag_extract_target_data` */
    static method Extract(buffer: array<Byte>, target: array<Word>, start: nat, pre: nat, count: nat)
      requires pre + count <= 8 * buffer.Length && start + count <= 32 * target.Length
      requires buffer as object != target
      modifies target
      ensures Bits32(target[..]) ==
              Overwritten(old(Bits32(target[..])), start, Bits8(buffer[..])[pre..pre + count])
    {
      hide Bits32, Overwritten;
      ghost var bits, before := Bits8(buffer[..])[pre..pre + count], Bits32(target[..]);
      OverwriteNothing(before, start);
      for i := 0 to count
        invariant buffer[..] == old(buffer[..])
        invariant Bits32(target[..]) == Overwritten(before, start, bits[..i])
      {
        var j := pre + i;
        var bit := Bit(buffer[j / 8], j % 8);
        assert bits[i] == Bits8(buffer[..])[j] == bit;
        PutBit32(target, start + i, bit);
        OverwriteOne(before, start, bits[..i], bit);
        assert bits[..i + 1] == bits[..i] + [bit];
      }
      assert bits[..count] == bits;
    }

    /** To the shift state. */
    method EnterShift(r: Register, start: State)
      requires Wired() && start in {Idle, DrPause, IrPause}
      modifies mce, mce.writeData, mce.readData
      ensures Wired() && mce.Pushed() == old(mce.Pushed()) + Idling(Approach(start, r))
    {
      hide Mce.Pushed, Mce.Valid, Mce.Ready, Approach;
      ghost var history := mce.Pushed();
      var tms := Approach(start, r);
      for i := 0 to |tms|
        invariant Wired() && mce.Pushed() == history + Idling(tms)[..i]
      {
        Io(tms[i]);
      }
      assert Idling(tms)[..|tms|] == Idling(tms);
    }

    /** `jam_jtag_drscan` and `jam_jtag_irscan` over the MCE: a capturing scan is one block, with the
        buffer as its own destination; any other goes bit by bit. */
    method ScanRegister(r: Register, start: State, count: nat, capture: bool) returns (ghost at: nat)
      requires start in {Idle, DrPause, IrPause}
      requires Wired() && count <= 8 * Buffer(r).Length
      modifies mce, mce.writeData, mce.readData, Buffer(r)
      ensures Wired()
      ensures mce.Pushed() == old(mce.Pushed()) + ScanClocks(start, r, old(Bits8(Buffer(r)[..]))[..count])
      ensures at == |old(mce.Pushed())| + |Approach(start, r)| <= |mce.Pushed()|
      ensures Enters(r, start, TmsOf(mce.Pushed()[|old(mce.Pushed())|..at]))
      ensures capture ==> Returned(mce.tdo, mce.Pushed(), at, Bits8(Buffer(r)[..])[..count])
    {
      hide Bits8, TdoOf, Approach, Mce.Pushed, Mce.Valid, Mce.Ready, ScanPairs, Enters, Returned, Idling, TmsOf;
      ghost var history := mce.Pushed();
      var buffer := Buffer(r);
      ghost var bits := Bits8(buffer[..])[..count];
      EnterShift(r, start);
      assert buffer[..] == old(buffer[..]);
      ghost var before := mce.Pushed();
      ShiftBits(buffer, count, capture);
      ghost var shifted := mce.Pushed();
      Io(false);
      at := |before|;
      ghost var tms := Approach(start, r);
      PutTogether(history, Idling(tms), ScanPairs(bits), [Pair(false, false)]);
      IdlingTms(tms);
      ApproachEnters(start, r);
      if capture {
        CapturedReturned(mce.tdo, mce.Pushed(), at, Bits8(buffer[..])[..count]);
      }
    }

    /** The shift itself. */
    method ShiftBits(buffer: array<Byte>, count: nat, capture: bool)
      requires mce.Ready() && mce.Apart(buffer) && count <= 8 * buffer.Length
      modifies mce, mce.writeData, mce.readData, buffer
      ensures mce.Ready()
      ensures mce.Pushed() == old(mce.Pushed()) + ScanPairs(old(Bits8(buffer[..]))[..count])
      ensures capture ==> Bits8(buffer[..])[..count] == TdoOf(mce.tdo, mce.Pushed(), |old(mce.Pushed())|)
    {
      hide Bits8, TdoOf, Mce.Pushed, Mce.Valid, Mce.Ready, ScanPairs;
      ghost var history := mce.Pushed();
      ghost var bits := Bits8(buffer[..])[..count];
      if capture {
        mce.Scan(count, buffer, buffer);
      } else {
        for i := 0 to count
          modifies mce, mce.writeData, mce.readData
          invariant mce.Ready() && buffer[..] == old(buffer[..])
          invariant mce.Pushed() == history + ScanPairs(bits)[..i]
        {
          var _ := mce.WriteSingle(i == count - 1, Bit(buffer[i / 8], i % 8), false);
          assert ScanPairs(bits)[..i + 1] == ScanPairs(bits)[..i] + [ScanPairs(bits)[i]];
        }
        assert ScanPairs(bits)[..count] == ScanPairs(bits);
      }
    }

    /** Room for a whole scan: a fixed buffer in workspace mode, a growing one otherwise. */
    method Reserve(r: Register, total: nat) returns (status: Status)
      requires Wired()
      modifies this`drBuffer, this`irBuffer, this`drLength, this`irLength
      ensures Wired() && (old(Valid()) ==> Valid())
      ensures status == if Exceeds(r, total) then OutOfMemory else Success
      ensures status == OutOfMemory <==> workspace && total > if r.DR? then 2048 else 512
      ensures status.Success? ==> total <= 8 * Buffer(r).Length
      ensures (drBuffer == old(drBuffer) || fresh(drBuffer)) && (irBuffer == old(irBuffer) || fresh(irBuffer))
    {
      status := Success;
      if workspace {
        if total > if r.DR? then MAX_DR_LENGTH else MAX_IR_LENGTH {
          status := OutOfMemory;
        }
      } else if total > if r.DR? then drLength else irLength {
        var chars := (total + 7) / 8;
        var grown := new Byte[chars](_ => 0);
        if r.DR? {
          drBuffer, drLength := grown, chars * 8;
        } else {
          irBuffer, irLength := grown, chars * 8;
        }
      }
    }

    /** The bits of a whole scan and their number. */
    ghost function ScanBits(r: Register, data: seq<Word>, start: nat, count: nat): (bits: seq<bool>)
      requires Pad(r).Valid() && start + count <= 32 * |data|
      reads this
      ensures |bits| == Total(r, count)
    {
      Pad(r).Around(Bits32(data)[start..start + count])
    }

    function Total(r: Register, count: nat): nat
      reads this
    {
      Pad(r).pre + count + Pad(r).post
    }

    /** One scan from its start state, of a buffer that is large enough. The TAP is left in the pause
        state, as the tracker says, or, if no bit was shifted, in the shift state. */
    method ScanPadded(r: Register, from: State, data: seq<Word>, start: nat, count: nat, capture: bool)
      returns (ghost at: nat)
      requires Wired() && state == Some(from) && from in {Idle, DrPause, IrPause}
      requires start + count <= 32 * |data| && Total(r, count) <= 8 * Buffer(r).Length
      modifies this`state, mce, mce.writeData, mce.readData, Buffer(r)
      ensures Wired() && state == Some(Pause(r)) && old(mce.Pushed()) <= mce.Pushed()
      ensures |old(mce.Pushed())| <= at
      ensures old(Valid()) ==> Tracks(if Total(r, count) >= 1 then Pause(r) else Shift(r), mce.Pushed())
      ensures old(Valid()) ==> Shifted(r, mce.Pushed(), at, ScanBits(r, data, start, count))
      ensures old(Valid()) ==> Entered(r, from, mce.Pushed(), |old(mce.Pushed())|, at)
      ensures capture ==> Returned(mce.tdo, mce.Pushed(), at, Bits8(Buffer(r)[..])[..Total(r, count)])
    {
      hide Mce.Pushed, Mce.Valid, Mce.Ready, Tracks, Bits8, Bits32, TdoOf, Overwritten;
      hide ScanPairs, Approach, Enters, Shifted, Returned;
      ghost var history, right := mce.Pushed(), Valid();
      ghost var bits := ScanBits(r, data, start, count);
      OverwrittenPrefix(Bits8(Buffer(r)[..]), bits);
      Concatenate(r, data, start, count);
      at := ScanRegister(r, from, Pad(r).pre + count + Pad(r).post, capture);
      if right {
        ScanTracks(from, r, history, bits);
        ScanShifts(from, r, history, bits);
      }
      state := Some(Pause(r));
    }

    /** Go to the start state, and make room. */
    method Prepare(r: Register, total: nat) returns (status: Status, from: State)
      requires Wired()
      modifies this`state, this`drBuffer, this`irBuffer, this`drLength, this`irLength
      modifies mce, mce.writeData, mce.readData
      ensures Wired() && (old(Valid()) ==> Valid())
      ensures mce.Pushed() == old(mce.Pushed()) + Idling(ReachTms(old(state), from))
      ensures state == Some(from) && from == StartState(old(state))
      ensures status == if Exceeds(r, total) then OutOfMemory else Success
      ensures status.Success? ==> total <= 8 * Buffer(r).Length
      ensures (drBuffer == old(drBuffer) || fresh(drBuffer)) && (irBuffer == old(irBuffer) || fresh(irBuffer))
    {
      hide Mce.Pushed, Mce.Valid, Mce.Ready, Tracks, GotoTms, Idling;
      from := StartState(state);
      if state != Some(from) {
        status := Goto(from);
      }
      status := Reserve(r, total);
    }

    /** On to the stop state, unless it is the pause state. After a scan of no bits the tracker is right
        again if and only if the path goes through the update state. */
    method ToStop(r: Register, ghost shifted: bool)
      requires Wired() && state == Some(Pause(r))
      modifies this`state, mce, mce.writeData, mce.readData
      ensures Wired() && state == Some(Stop(r)) && old(mce.Pushed()) <= mce.Pushed()
      ensures old(Tracks(if shifted then Pause(r) else Shift(r), mce.Pushed())) ==>
                (Valid() <==> shifted || Stop(r) !in {Pause(r), Exit2(r)})
    {
      hide Mce.Pushed, Mce.Valid, Mce.Ready, Tracks, GotoTms, Idling, Route, Fold;
      ghost var start := mce.Pushed();
      ghost var stop, path := Stop(r), StopTms(r, Stop(r));
      if Stop(r) != Pause(r) {
        var _ := Goto(Stop(r));
        GotoIsRoute(Pause(r), stop);
      }
      assert mce.Pushed() == start + Idling(path) by {
        NothingIdling(start);
      }
      if !shifted && Tracks(Shift(r), start) {
        TracksAfter(Shift(r), start, Idling(path));
        IdlingTms(path);
        ShiftStops(r, stop);
        TracksOne(Fold(Shift(r), path), stop, mce.Pushed());
      }
    }

    /** The scan, and on to the stop state. */
    method ScanAndStop(r: Register, from: State, data: seq<Word>, start: nat, count: nat, capture: bool)
      returns (ghost at: nat)
      requires Wired() && state == Some(from) && from in {Idle, DrPause, IrPause}
      requires start + count <= 32 * |data| && Total(r, count) <= 8 * Buffer(r).Length
      modifies this`state, mce, mce.writeData, mce.readData, Buffer(r)
      ensures Wired() && state == Some(Stop(r)) && old(mce.Pushed()) <= mce.Pushed()
      ensures |old(mce.Pushed())| <= at
      ensures old(Valid()) ==> (Valid() <==> !Slips(r, SetupOf(r), count))
      ensures old(Valid()) ==> Shifted(r, mce.Pushed(), at, ScanBits(r, data, start, count))
      ensures old(Valid()) ==> Entered(r, from, mce.Pushed(), |old(mce.Pushed())|, at)
      ensures capture ==> Returned(mce.tdo, mce.Pushed(), at, Bits8(Buffer(r)[..])[..Total(r, count)])
    {
      hide Mce.Pushed, Mce.Valid, Mce.Ready, Tracks, Bits8, Bits32, Shifted, Entered, Returned, Clock, Stable;
      hide TmsOf, Fold, Padding.Around;
      ghost var right := Valid();
      at := ScanPadded(r, from, data, start, count, capture);
      ghost var scanned, back := mce.Pushed(), Buffer(r)[..];
      ToStop(r, Total(r, count) >= 1);
      assert Buffer(r)[..] == back;
      ghost var bits := ScanBits(r, data, start, count);
      if right {
        ShiftedEarlier(r, scanned, mce.Pushed(), at, bits);
        EnteredEarlier(r, from, scanned, mce.Pushed(), |old(mce.Pushed())|, at);
      }
      if capture {
        ReturnedLater(mce.tdo, scanned, mce.Pushed(), at, Bits8(back)[..|bits|]);
      }
    }

    /** What the scan and the swap commands have in common. */
    method ShiftData(r: Register, data: seq<Word>, start: nat, count: nat, capture: bool)
      returns (status: Status, ghost begin: nat, ghost at: nat)
      requires Wired() && start + count <= 32 * |data|
      modifies this`state, this`drBuffer, this`irBuffer, this`drLength, this`irLength
      modifies mce, mce.writeData, mce.readData, drBuffer, irBuffer
      ensures Wired() && state.Some? && old(mce.Pushed()) <= mce.Pushed()
      ensures (drBuffer == old(drBuffer) || fresh(drBuffer)) && (irBuffer == old(irBuffer) || fresh(irBuffer))
      ensures status == if TooLong(r, count) then OutOfMemory else Success
      ensures status.Success? ==> state == Some(Stop(r)) && begin <= at
      ensures begin == |old(mce.Pushed())| + |ReachTms(old(state), StartState(old(state)))|
      ensures old(mce.Pushed()) + Idling(ReachTms(old(state), StartState(old(state)))) <= mce.Pushed()
      ensures status.Success? ==> Total(r, count) <= 8 * Buffer(r).Length
      ensures old(Valid()) ==> (Valid() <==> !Slips(r, SetupOf(r), count))
      ensures old(Valid()) && status.Success? ==> Shifted(r, mce.Pushed(), at, ScanBits(r, data, start, count))
      ensures old(Valid()) && status.Success? ==> Entered(r, StartState(old(state)), mce.Pushed(), begin, at)
      ensures status.Success? && capture ==>
                Returned(mce.tdo, mce.Pushed(), at, Bits8(Buffer(r)[..])[..Total(r, count)])
    {
      hide Mce.Pushed, Mce.Valid, Mce.Ready, Tracks, Bits8, Bits32, Shifted, Entered, Returned, Clock, Stable;
      hide TmsOf, Fold, Padding.Around;
      at := 0;
      var from;
      status, from := Prepare(r, Pad(r).pre + count + Pad(r).post);
      begin := |mce.Pushed()|;
      if status == Success {
        at := ScanAndStop(r, from, data, start, count, capture);
      }
    }

    /** `jam_do_irscan` and `jam_do_drscan` */
    method DoScan(r: Register, count: nat, data: array<Word>, start: nat)
      returns (status: Status, ghost begin: nat, ghost at: nat)
      requires Wired() && start + count <= 32 * data.Length
      modifies this`state, this`drBuffer, this`irBuffer, this`drLength, this`irLength
      modifies mce, mce.writeData, mce.readData, drBuffer, irBuffer
      ensures Wired() && old(mce.Pushed()) <= mce.Pushed()
      ensures status == if TooLong(r, count) then OutOfMemory else Success
      ensures status.Success? ==> state == Some(Stop(r)) && begin <= at
      ensures old(Valid()) ==> (Valid() <==> !Slips(r, SetupOf(r), count))
      ensures begin == |old(mce.Pushed())| + |ReachTms(old(state), StartState(old(state)))|
      ensures old(mce.Pushed()) + Idling(ReachTms(old(state), StartState(old(state)))) <= mce.Pushed()
      ensures old(Valid()) && status.Success? ==> Entered(r, StartState(old(state)), mce.Pushed(), begin, at)
      ensures old(Valid()) && status.Success? ==>
                Shifted(r, mce.Pushed(), at, Pad(r).Around(old(Bits32(data[..]))[start..start + count]))
    {
      hide Mce.Pushed, Mce.Valid, Mce.Ready, Tracks, Bits32, Shifted, Entered, Slips, ReachTms, Idling;
      status, begin, at := ShiftData(r, data[..], start, count, false);
    }

    /** `jam_swap_ir` and `jam_swap_dr`: output bit `outIndex + k` is the TDO bit of clock
        `pre + k` of the shift, and no other output bit changes. */
    method Swap(r: Register, count: nat, data: array<Word>, start: nat, out: array<Word>, outIndex: nat)
      returns (status: Status, ghost begin: nat, ghost at: nat)
      requires Wired() && start + count <= 32 * data.Length && outIndex + count <= 32 * out.Length
      requires out as object !in {mce.writeData as object, mce.readData, drBuffer, irBuffer}
      modifies this`state, this`drBuffer, this`irBuffer, this`drLength, this`irLength
      modifies mce, mce.writeData, mce.readData, drBuffer, irBuffer, out
      ensures Wired() && old(mce.Pushed()) <= mce.Pushed()
      ensures (drBuffer == old(drBuffer) || fresh(drBuffer)) && (irBuffer == old(irBuffer) || fresh(irBuffer))
      ensures status == if TooLong(r, count) then OutOfMemory else Success
      ensures status.Success? ==> state == Some(Stop(r)) && begin <= at
      ensures old(Valid()) ==> (Valid() <==> !Slips(r, SetupOf(r), count))
      ensures begin == |old(mce.Pushed())| + |ReachTms(old(state), StartState(old(state)))|
      ensures old(mce.Pushed()) + Idling(ReachTms(old(state), StartState(old(state)))) <= mce.Pushed()
      ensures old(Valid()) && status.Success? ==> Entered(r, StartState(old(state)), mce.Pushed(), begin, at)
      ensures old(Valid()) && status.Success? ==>
                Shifted(r, mce.Pushed(), at, Pad(r).Around(old(Bits32(data[..]))[start..start + count]))
      ensures status.Success? ==>
                exists bits :: |bits| == count && Returned(mce.tdo, mce.Pushed(), at + Pad(r).pre, bits) &&
                  Bits32(out[..]) == Overwritten(old(Bits32(out[..])), outIndex, bits)
      ensures !status.Success? ==> out[..] == old(out[..])
    {
      hide Mce.Pushed, Mce.Valid, Mce.Ready, Tracks, Bits8, Bits32, Shifted, Entered, Returned;
      hide Clock, Overwritten, Slips, ReachTms, Idling;
      status, begin, at := ShiftData(r, data[..], start, count, true);
      assert out[..] == old(out[..]);
      if status == Success {
        var pre := Pad(r).pre;
        ghost var all := Bits8(Buffer(r)[..])[..Total(r, count)];
        ghost var bits := Bits8(Buffer(r)[..])[pre..pre + count];
        assert all[pre..pre + count] == bits;
        ReturnedWithin(mce.tdo, mce.Pushed(), at, all, pre, pre + count);
        Extract(Buffer(r), out, outIndex, pre, count);
      }
    }

    /** A scan command, its captured data not looked at. */
    method PerformShift(r: Register, data: seq<Word>, start: nat, count: nat, swap: bool)
      requires Wired() && start + count <= 32 * |data|
      modifies this`state, this`drBuffer, this`irBuffer, this`drLength, this`irLength
      modifies mce, mce.writeData, mce.readData, drBuffer, irBuffer
      ensures Wired() && old(mce.Pushed()) <= mce.Pushed()
      ensures (drBuffer == old(drBuffer) || fresh(drBuffer)) && (irBuffer == old(irBuffer) || fresh(irBuffer))
      ensures !TooLong(r, count) ==> state == Some(Stop(r))
      ensures old(Valid()) ==> (Valid() <==> !Slips(r, SetupOf(r), count))
    {
      hide Mce.Pushed, Mce.Valid, Mce.Ready, Tracks, Shifted, Returned, Overwritten, Bits32, Slips;
      if swap {
        var out := new Word[|data|](_ => 0);
        var input := new Word[|data|](i requires 0 <= i < |data| => data[i]);
        var _, _, _ := Swap(r, count, input, start, out, start);
      } else {
        var _, _, _ := ShiftData(r, data, start, count, false);
      }
    }

    /** One command: a right tracker stays right if and only if the command does not mislead it. */
    method Perform(c: Command)
      requires Wired() && c.Valid()
      modifies this, mce, mce.writeData, mce.readData, drBuffer, irBuffer
      ensures Wired() && old(mce.Pushed()) <= mce.Pushed()
      ensures (drBuffer == old(drBuffer) || fresh(drBuffer)) && (irBuffer == old(irBuffer) || fresh(irBuffer))
      ensures c.GoTo? ==> state == Some(c.target)
      ensures c.Wait? ==> state == Some(c.waitState)
      ensures c.Delay? ==> state == if old(state).None? then None else Some(c.waitState)
      ensures c.Shifting? && !TooLong(c.r, c.count) ==> state == Some(Stop(c.r))
      ensures forall r :: SetupOf(r) == SetupAfter(r, old(SetupOf(r)), c)
      ensures old(Valid()) ==> (Valid() <==> !Misleads(old(SetupOf(DR)), old(SetupOf(IR)), c))
    {
      hide Mce.Pushed, Mce.Valid, Mce.Ready, Tracks, Shifted, Returned, Slips, GotoTms, ReachTms, Idling, Held, Stable;
      match c {
        case GoTo(target) => var _ := Goto(target);
        case Wait(cycles, waitState) =>
          var _ := WaitCycles(cycles, waitState);
        case Delay(waitState) => var _ := WaitMicroseconds(waitState);
        case SetStop(r, stop) =>
          if r.DR? { drStop := stop; } else { irStop := stop; }
        case SetPadding(r, pad) =>
          if r.DR? { drPad := pad; } else { irPad := pad; }
        case Shifting(r, data, start, count, swap) =>
          PerformShift(r, data, start, count, swap);
      }
    }

    /** Over any run of commands, from any initial state of the TAP: the tracker stays right as long as no
        command misleads it, and the first that does leaves it wrong. */
    method Run(commands: seq<Command>)
      requires Valid() && forall c :: c in commands ==> c.Valid()
      modifies this, mce, mce.writeData, mce.readData, drBuffer, irBuffer
      ensures Wired() && old(mce.Pushed()) <= mce.Pushed()
      ensures forall r :: SetupOf(r) == SetupAfterAll(r, old(SetupOf(r)), commands)
      ensures Faithful(old(SetupOf(DR)), old(SetupOf(IR)), commands) ==>
                (state.Some? ==> Tracks(state.value, mce.Pushed()))
      ensures commands != [] && Faithful(old(SetupOf(DR)), old(SetupOf(IR)), commands[..|commands| - 1]) ==>
                ((state.Some? ==> Tracks(state.value, mce.Pushed())) <==>
                 Faithful(old(SetupOf(DR)), old(SetupOf(IR)), commands))
    {
      hide Mce.Pushed, Mce.Valid, Mce.Ready, Tracks, Misleads, SetupAfter;
      ghost var dr, ir := SetupOf(DR), SetupOf(IR);
      for i := 0 to |commands|
        invariant Wired() && old(mce.Pushed()) <= mce.Pushed()
        invariant SetupOf(DR) == SetupAfterAll(DR, dr, commands[..i])
        invariant SetupOf(IR) == SetupAfterAll(IR, ir, commands[..i])
        invariant Faithful(dr, ir, commands[..i]) ==> Valid()
        invariant i > 0 && Faithful(dr, ir, commands[..i - 1]) ==> (Valid() <==> Faithful(dr, ir, commands[..i]))
        invariant (drBuffer == old(drBuffer) || fresh(drBuffer)) && (irBuffer == old(irBuffer) || fresh(irBuffer))
      {
        assert commands[..i + 1][..i] == commands[..i] && commands[i] in commands;
        Perform(commands[i]);
      }
      assert commands[..|commands|] == commands;
    }
  }
}

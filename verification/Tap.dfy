/** The IEEE 1149.1 TAP controller and the two tables with which the Jam player steers it. */
module Tap {
  import opened Bits

  /** The sixteen controller states, in the order of their codes 0 to 15. */
  datatype State =
    | Reset | Idle
    | DrSelect | DrCapture | DrShift | DrExit1 | DrPause | DrExit2 | DrUpdate
    | IrSelect | IrCapture | IrShift | IrExit1 | IrPause | IrExit2 | IrUpdate

  function Code(s: State): (c: nat)
    ensures c < 16
  {
    match s
    case Reset => 0 case Idle => 1
    case DrSelect => 2 case DrCapture => 3 case DrShift => 4 case DrExit1 => 5
    case DrPause => 6 case DrExit2 => 7 case DrUpdate => 8
    case IrSelect => 9 case IrCapture => 10 case IrShift => 11 case IrExit1 => 12
    case IrPause => 13 case IrExit2 => 14 case IrUpdate => 15
  }

  /** The controller of clause 6.1 of IEEE Std 1149.1-2001: the state after one rising TCK edge.
      The data and the instruction column have the same shape. */
  function Clock(s: State, tms: bool): State {
    match s
    case Reset => if tms then Reset else Idle
    case Idle => if tms then DrSelect else Idle
    case DrSelect => if tms then IrSelect else DrCapture
    case DrCapture => if tms then DrExit1 else DrShift
    case DrShift => if tms then DrExit1 else DrShift
    case DrExit1 => if tms then DrUpdate else DrPause
    case DrPause => if tms then DrExit2 else DrPause
    case DrExit2 => if tms then DrUpdate else DrShift
    case DrUpdate => if tms then DrSelect else Idle
    case IrSelect => if tms then Reset else IrCapture
    case IrCapture => if tms then IrExit1 else IrShift
    case IrShift => if tms then IrExit1 else IrShift
    case IrExit1 => if tms then IrUpdate else IrPause
    case IrPause => if tms then IrExit2 else IrPause
    case IrExit2 => if tms then IrUpdate else IrShift
    case IrUpdate => if tms then DrSelect else Idle
  }

  /** The TAP after a whole TMS trace. */
  function Fold(s: State, trace: seq<bool>): State {
    if trace == [] then s else Clock(Fold(s, trace[..|trace| - 1]), trace[|trace| - 1])
  }

  lemma {:induction false} FoldConcat(s: State, a: seq<bool>, b: seq<bool>)
    ensures Fold(s, a + b) == Fold(Fold(s, a), b)
  {
    if b == [] {
      assert a + b == a;
    } else {
      var n := |b| - 1;
      assert (a + b)[..|a + b| - 1] == a + b[..n];
      FoldConcat(s, a, b[..n]);
    }
  }

  /** The player's transition table: next states under TMS high and TMS low, by state code. */
  const TRANSITIONS: seq<(State, State)> := [
    (Reset, Idle), (DrSelect, Idle), (IrSelect, DrCapture), (DrExit1, DrShift),
    (DrExit1, DrShift), (DrUpdate, DrPause), (DrExit2, DrPause), (DrUpdate, DrShift),
    (DrSelect, Idle), (Reset, IrCapture), (IrExit1, IrShift), (IrExit1, IrShift),
    (IrUpdate, IrPause), (IrExit2, IrPause), (IrUpdate, IrShift), (DrSelect, Idle)]

  /** The player's path map: bit `t` of word `s` is the TMS value that steps from `s` towards `t`. */
  function PathMap(s: State): nat {
    match s
    case Reset => 0x0001
    case Idle => 0xFFFD
    case DrSelect => 0xFE01
    case DrCapture => 0xFFE7
    case DrShift => 0xFFEF
    case DrExit1 => 0xFF0F
    case DrPause => 0xFFBF
    case DrExit2 => 0xFFFF
    case DrUpdate => 0xFEFD
    case IrSelect => 0x0001
    case IrCapture => 0xF3FF
    case IrShift => 0xF7FF
    case IrExit1 => 0x87FF
    case IrPause => 0xDFFF
    case IrExit2 => 0xFFFF
    case IrUpdate => 0x7FFD
  }

  /** The transition table is the standard's controller. */
  lemma TransitionsAreStandard(s: State)
    ensures TRANSITIONS[Code(s)].0 == Clock(s, true)
    ensures TRANSITIONS[Code(s)].1 == Clock(s, false)
  {}

  predicate TmsTowards(s: State, target: State) {
    Bit(PathMap(s), Code(target))
  }

  /** One turn of the loop of `jam_goto_jtag_state`. */
  function Step(s: State, target: State): State {
    if s == target then s else Clock(s, TmsTowards(s, target))
  }

  function Walk(s: State, target: State, steps: nat): State
    decreases steps
  {
    if steps == 0 then s else Walk(Step(s, target), target, steps - 1)
  }

  // ----- every path of the map ends, within the nine clocks the player allows -----

  function Pick(t: State,
                x0: nat, x1: nat, x2: nat, x3: nat, x4: nat, x5: nat, x6: nat, x7: nat,
                x8: nat, x9: nat, x10: nat, x11: nat, x12: nat, x13: nat, x14: nat, x15: nat): nat {
    match t
    case Reset => x0 case Idle => x1 case DrSelect => x2 case DrCapture => x3
    case DrShift => x4 case DrExit1 => x5 case DrPause => x6 case DrExit2 => x7
    case DrUpdate => x8 case IrSelect => x9 case IrCapture => x10 case IrShift => x11
    case IrExit1 => x12 case IrPause => x13 case IrExit2 => x14 case IrUpdate => x15
  }

  /** The path map written out: one row a state, one TMS value a target. */
  function Tms(s: State, target: State): nat {
    match s
    case Reset => Pick(target, 1, 0, 0, 0, 0, 0, 0, 0, 0, 0, 0, 0, 0, 0, 0, 0)
    case Idle => Pick(target, 1, 0, 1, 1, 1, 1, 1, 1, 1, 1, 1, 1, 1, 1, 1, 1)
    case DrSelect => Pick(target, 1, 0, 0, 0, 0, 0, 0, 0, 0, 1, 1, 1, 1, 1, 1, 1)
    case DrCapture => Pick(target, 1, 1, 1, 0, 0, 1, 1, 1, 1, 1, 1, 1, 1, 1, 1, 1)
    case DrShift => Pick(target, 1, 1, 1, 1, 0, 1, 1, 1, 1, 1, 1, 1, 1, 1, 1, 1)
    case DrExit1 => Pick(target, 1, 1, 1, 1, 0, 0, 0, 0, 1, 1, 1, 1, 1, 1, 1, 1)
    case DrPause => Pick(target, 1, 1, 1, 1, 1, 1, 0, 1, 1, 1, 1, 1, 1, 1, 1, 1)
    case DrExit2 => Pick(target, 1, 1, 1, 1, 1, 1, 1, 1, 1, 1, 1, 1, 1, 1, 1, 1)
    case DrUpdate => Pick(target, 1, 0, 1, 1, 1, 1, 1, 1, 0, 1, 1, 1, 1, 1, 1, 1)
    case IrSelect => Pick(target, 1, 0, 0, 0, 0, 0, 0, 0, 0, 0, 0, 0, 0, 0, 0, 0)
    case IrCapture => Pick(target, 1, 1, 1, 1, 1, 1, 1, 1, 1, 1, 0, 0, 1, 1, 1, 1)
    case IrShift => Pick(target, 1, 1, 1, 1, 1, 1, 1, 1, 1, 1, 1, 0, 1, 1, 1, 1)
    case IrExit1 => Pick(target, 1, 1, 1, 1, 1, 1, 1, 1, 1, 1, 1, 0, 0, 0, 0, 1)
    case IrPause => Pick(target, 1, 1, 1, 1, 1, 1, 1, 1, 1, 1, 1, 1, 1, 0, 1, 1)
    case IrExit2 => Pick(target, 1, 1, 1, 1, 1, 1, 1, 1, 1, 1, 1, 1, 1, 1, 1, 1)
    case IrUpdate => Pick(target, 1, 0, 1, 1, 1, 1, 1, 1, 1, 1, 1, 1, 1, 1, 1, 0)
  }

  /** The clocks needed from each state to each target along the path map. */
  function Distance(s: State, target: State): nat {
    match s
    case Reset => Pick(target, 0, 1, 2, 3, 4, 4, 5, 6, 5, 3, 4, 5, 5, 6, 7, 6)
    case Idle => Pick(target, 3, 0, 1, 2, 3, 3, 4, 5, 4, 2, 3, 4, 4, 5, 6, 5)
    case DrSelect => Pick(target, 2, 4, 0, 1, 2, 2, 3, 4, 3, 1, 2, 3, 3, 4, 5, 4)
    case DrCapture => Pick(target, 5, 3, 3, 0, 1, 1, 2, 3, 2, 4, 5, 6, 6, 7, 8, 7)
    case DrShift => Pick(target, 5, 3, 3, 4, 0, 1, 2, 3, 2, 4, 5, 6, 6, 7, 8, 7)
    case DrExit1 => Pick(target, 4, 2, 2, 3, 6, 0, 1, 2, 1, 3, 4, 5, 5, 6, 7, 6)
    case DrPause => Pick(target, 5, 3, 3, 4, 5, 5, 0, 1, 2, 4, 5, 6, 6, 7, 8, 7)
    case DrExit2 => Pick(target, 4, 2, 2, 3, 4, 4, 5, 0, 1, 3, 4, 5, 5, 6, 7, 6)
    case DrUpdate => Pick(target, 3, 1, 1, 2, 3, 3, 4, 5, 0, 2, 3, 4, 4, 5, 6, 5)
    case IrSelect => Pick(target, 1, 4, 4, 5, 6, 6, 7, 8, 7, 0, 1, 2, 2, 3, 4, 3)
    case IrCapture => Pick(target, 5, 3, 3, 4, 5, 5, 6, 7, 6, 4, 0, 1, 1, 2, 3, 2)
    case IrShift => Pick(target, 5, 3, 3, 4, 5, 5, 6, 7, 6, 4, 5, 0, 1, 2, 3, 2)
    case IrExit1 => Pick(target, 4, 2, 2, 3, 4, 4, 5, 6, 5, 3, 4, 7, 0, 1, 2, 1)
    case IrPause => Pick(target, 5, 3, 3, 4, 5, 5, 6, 7, 6, 4, 5, 6, 6, 0, 1, 2)
    case IrExit2 => Pick(target, 4, 2, 2, 3, 4, 4, 5, 6, 5, 3, 4, 5, 5, 6, 0, 1)
    case IrUpdate => Pick(target, 3, 1, 1, 2, 3, 3, 4, 5, 4, 2, 3, 4, 4, 5, 6, 0)
  }

  lemma {:induction false} BitUp(n: nat, b: nat, m: nat, k: nat)
    requires b < 2 && n == b + 2 * m
    ensures Bit(n, 0) == (b == 1) && Bit(n, k + 1) == Bit(m, k)
  {
    assert n / 2 == m && n % 2 == b;
  }

  lemma NibbleBits(n: nat, x0: nat, x1: nat, x2: nat, x3: nat, m: nat, k: nat)
    requires x0 < 2 && x1 < 2 && x2 < 2 && x3 < 2
    requires n == x0 + 2 * x1 + 4 * x2 + 8 * x3 + 16 * m
    ensures Bit(n, 0) == (x0 == 1) && Bit(n, 1) == (x1 == 1)
    ensures Bit(n, 2) == (x2 == 1) && Bit(n, 3) == (x3 == 1)
    ensures Bit(n, k + 4) == Bit(m, k)
  {
    var m3 := x3 + 2 * m;
    var m2 := x2 + 2 * m3;
    var m1 := x1 + 2 * m2;
    BitUp(n, x0, m1, k + 3);
    BitUp(n, x0, m1, 0);
    BitUp(n, x0, m1, 1);
    BitUp(n, x0, m1, 2);
    BitUp(m1, x1, m2, k + 2);
    BitUp(m1, x1, m2, 0);
    BitUp(m1, x1, m2, 1);
    BitUp(m2, x2, m3, k + 1);
    BitUp(m2, x2, m3, 0);
    BitUp(m3, x3, m, k);
  }

  lemma RowBits(n: nat, t: State,
                x0: nat, x1: nat, x2: nat, x3: nat, x4: nat, x5: nat, x6: nat, x7: nat,
                x8: nat, x9: nat, x10: nat, x11: nat, x12: nat, x13: nat, x14: nat, x15: nat)
    requires x0 < 2 && x1 < 2 && x2 < 2 && x3 < 2 && x4 < 2 && x5 < 2 && x6 < 2 && x7 < 2
    requires x8 < 2 && x9 < 2 && x10 < 2 && x11 < 2 && x12 < 2 && x13 < 2 && x14 < 2 && x15 < 2
    requires n == x0 + 2 * x1 + 4 * x2 + 8 * x3 + 16 * x4 + 32 * x5 + 64 * x6 + 128 * x7
               + 256 * x8 + 512 * x9 + 1024 * x10 + 2048 * x11 + 4096 * x12 + 8192 * x13 + 16384 * x14 + 32768 * x15
    ensures Bit(n, Code(t)) == (Pick(t, x0, x1, x2, x3, x4, x5, x6, x7, x8, x9, x10, x11, x12, x13, x14, x15) == 1)
  {
    var m3 := x12 + 2 * x13 + 4 * x14 + 8 * x15;
    var m2 := x8 + 2 * x9 + 4 * x10 + 8 * x11 + 16 * m3;
    var m1 := x4 + 2 * x5 + 4 * x6 + 8 * x7 + 16 * m2;
    var c := Code(t);
    NibbleBits(n, x0, x1, x2, x3, m1, if c >= 4 then c - 4 else 0);
    NibbleBits(m1, x4, x5, x6, x7, m2, if c >= 8 then c - 8 else 0);
    NibbleBits(m2, x8, x9, x10, x11, m3, if c >= 12 then c - 12 else 0);
    NibbleBits(m3, x12, x13, x14, x15, 0, 0);
  }

  lemma EarlyTmsWrittenOut(s: State, target: State)
    requires s in [Reset, Idle, DrSelect, DrCapture, DrShift, DrExit1]
    ensures TmsTowards(s, target) == (Tms(s, target) == 1)
  {
    hide Bit, Pick, Code;
    if s == Reset {
      RowBits(0x0001, target, 1, 0, 0, 0, 0, 0, 0, 0, 0, 0, 0, 0, 0, 0, 0, 0);
    } else if s == Idle {
      RowBits(0xFFFD, target, 1, 0, 1, 1, 1, 1, 1, 1, 1, 1, 1, 1, 1, 1, 1, 1);
    } else if s == DrSelect {
      RowBits(0xFE01, target, 1, 0, 0, 0, 0, 0, 0, 0, 0, 1, 1, 1, 1, 1, 1, 1);
    } else if s == DrCapture {
      RowBits(0xFFE7, target, 1, 1, 1, 0, 0, 1, 1, 1, 1, 1, 1, 1, 1, 1, 1, 1);
    } else if s == DrShift {
      RowBits(0xFFEF, target, 1, 1, 1, 1, 0, 1, 1, 1, 1, 1, 1, 1, 1, 1, 1, 1);
    } else {
      RowBits(0xFF0F, target, 1, 1, 1, 1, 0, 0, 0, 0, 1, 1, 1, 1, 1, 1, 1, 1);
    }
  }

  lemma MiddleTmsWrittenOut(s: State, target: State)
    requires s in [DrPause, DrExit2, DrUpdate, IrSelect, IrCapture]
    ensures TmsTowards(s, target) == (Tms(s, target) == 1)
  {
    hide Bit, Pick, Code;
    if s == DrPause {
      RowBits(0xFFBF, target, 1, 1, 1, 1, 1, 1, 0, 1, 1, 1, 1, 1, 1, 1, 1, 1);
    } else if s == DrExit2 {
      RowBits(0xFFFF, target, 1, 1, 1, 1, 1, 1, 1, 1, 1, 1, 1, 1, 1, 1, 1, 1);
    } else if s == DrUpdate {
      RowBits(0xFEFD, target, 1, 0, 1, 1, 1, 1, 1, 1, 0, 1, 1, 1, 1, 1, 1, 1);
    } else if s == IrSelect {
      RowBits(0x0001, target, 1, 0, 0, 0, 0, 0, 0, 0, 0, 0, 0, 0, 0, 0, 0, 0);
    } else {
      RowBits(0xF3FF, target, 1, 1, 1, 1, 1, 1, 1, 1, 1, 1, 0, 0, 1, 1, 1, 1);
    }
  }

  lemma LateTmsWrittenOut(s: State, target: State)
    requires s in [IrShift, IrExit1, IrPause, IrExit2, IrUpdate]
    ensures TmsTowards(s, target) == (Tms(s, target) == 1)
  {
    hide Bit, Pick, Code;
    if s == IrShift {
      RowBits(0xF7FF, target, 1, 1, 1, 1, 1, 1, 1, 1, 1, 1, 1, 0, 1, 1, 1, 1);
    } else if s == IrExit1 {
      RowBits(0x87FF, target, 1, 1, 1, 1, 1, 1, 1, 1, 1, 1, 1, 0, 0, 0, 0, 1);
    } else if s == IrPause {
      RowBits(0xDFFF, target, 1, 1, 1, 1, 1, 1, 1, 1, 1, 1, 1, 1, 1, 0, 1, 1);
    } else if s == IrExit2 {
      RowBits(0xFFFF, target, 1, 1, 1, 1, 1, 1, 1, 1, 1, 1, 1, 1, 1, 1, 1, 1);
    } else {
      RowBits(0x7FFD, target, 1, 0, 1, 1, 1, 1, 1, 1, 1, 1, 1, 1, 1, 1, 1, 0);
    }
  }

  lemma TmsWrittenOut(s: State, target: State)
    ensures TmsTowards(s, target) == (Tms(s, target) == 1)
  {
    hide TmsTowards, Tms;
    if s in [Reset, Idle, DrSelect, DrCapture, DrShift, DrExit1] {
      EarlyTmsWrittenOut(s, target);
    } else if s in [DrPause, DrExit2, DrUpdate, IrSelect, IrCapture] {
      MiddleTmsWrittenOut(s, target);
    } else {
      LateTmsWrittenOut(s, target);
    }
  }

  /** One clock along the map is one clock nearer. */
  predicate Closer(s: State, target: State) {
    if s == target then Distance(s, target) == 0
    else Distance(s, target) == 1 + Distance(Clock(s, Tms(s, target) == 1), target) <= 8
  }

  lemma CloserFromReset(t: State)
    ensures Closer(Reset, t)
  {}

  lemma CloserFromIdle(t: State)
    ensures Closer(Idle, t)
  {}

  lemma CloserFromDrSelect(t: State)
    ensures Closer(DrSelect, t)
  {}

  lemma CloserFromDrCapture(t: State)
    ensures Closer(DrCapture, t)
  {}

  lemma CloserFromDrShift(t: State)
    ensures Closer(DrShift, t)
  {}

  lemma CloserFromDrExit1(t: State)
    ensures Closer(DrExit1, t)
  {}

  lemma CloserFromDrPause(t: State)
    ensures Closer(DrPause, t)
  {}

  lemma CloserFromDrExit2(t: State)
    ensures Closer(DrExit2, t)
  {}

  lemma CloserFromDrUpdate(t: State)
    ensures Closer(DrUpdate, t)
  {}

  lemma CloserFromIrSelect(t: State)
    ensures Closer(IrSelect, t)
  {}

  lemma CloserFromIrCapture(t: State)
    ensures Closer(IrCapture, t)
  {}

  lemma CloserFromIrShift(t: State)
    ensures Closer(IrShift, t)
  {}

  lemma CloserFromIrExit1(t: State)
    ensures Closer(IrExit1, t)
  {}

  lemma CloserFromIrPause(t: State)
    ensures Closer(IrPause, t)
  {}

  lemma CloserFromIrExit2(t: State)
    ensures Closer(IrExit2, t)
  {}

  lemma CloserFromIrUpdate(t: State)
    ensures Closer(IrUpdate, t)
  {}

  lemma StepIsCloser(s: State, target: State)
    ensures Closer(s, target)
  {
    hide Closer;
    match s
    case Reset => CloserFromReset(target);
    case Idle => CloserFromIdle(target);
    case DrSelect => CloserFromDrSelect(target);
    case DrCapture => CloserFromDrCapture(target);
    case DrShift => CloserFromDrShift(target);
    case DrExit1 => CloserFromDrExit1(target);
    case DrPause => CloserFromDrPause(target);
    case DrExit2 => CloserFromDrExit2(target);
    case DrUpdate => CloserFromDrUpdate(target);
    case IrSelect => CloserFromIrSelect(target);
    case IrCapture => CloserFromIrCapture(target);
    case IrShift => CloserFromIrShift(target);
    case IrExit1 => CloserFromIrExit1(target);
    case IrPause => CloserFromIrPause(target);
    case IrExit2 => CloserFromIrExit2(target);
    case IrUpdate => CloserFromIrUpdate(target);
  }

  lemma StepDescends(s: State, target: State)
    ensures Distance(s, target) == 0 <==> s == target
    ensures s != target ==> Distance(Step(s, target), target) == Distance(s, target) - 1
    ensures s == target ==> Step(s, target) == s
    ensures Distance(s, target) <= 8
  {
    hide Distance, Tms, Clock, TmsTowards;
    StepIsCloser(s, target);
    TmsWrittenOut(s, target);
  }

  /** From every state, the path map leads to every target within eight clocks. */
  lemma {:induction false} PathsEnd(s: State, target: State, steps: nat)
    requires Distance(s, target) <= steps
    ensures Walk(s, target, steps) == target
    decreases steps
  {
    hide Distance, Step;
    StepDescends(s, target);
    if steps > 0 {
      PathsEnd(Step(s, target), target, steps - 1);
    }
  }

  // ----- the map shows the shortest ways -----

  /** A clock on the way to a target that neither resets the TAP, unless that is the target, nor goes
      back from an exit-2 state to the shift state. */
  predicate Fair(s: State, tms: bool, target: State) {
    (Clock(s, tms) == Reset ==> target == Reset) && (s in {DrExit2, IrExit2} ==> tms)
  }

  predicate FairWay(s: State, trace: seq<bool>, target: State) {
    forall k {:trigger trace[k]} :: 0 <= k < |trace| ==> Fair(Fold(s, trace[..k]), trace[k], target)
  }

  /** Every clock of the map is such. */
  lemma MapIsFair(s: State, target: State)
    requires s != target
    ensures Fair(s, TmsTowards(s, target), target)
  {
    hide TmsTowards;
    TmsWrittenOut(s, target);
  }

  /** The clocks of the map, less the two by which it goes through the pause state from exit-1 to shift. */
  function Least(s: State, target: State): int {
    Distance(s, target) - if (s == DrExit1 && target == DrShift) || (s == IrExit1 && target == IrShift) then 2 else 0
  }

  predicate NoNearer(s: State, target: State) {
    && (Fair(s, false, target) ==> Least(s, target) <= 1 + Least(Clock(s, false), target))
    && (Fair(s, true, target) ==> Least(s, target) <= 1 + Least(Clock(s, true), target))
  }

  lemma NoNearerFromReset(t: State)
    ensures NoNearer(Reset, t)
  {}

  lemma NoNearerFromIdle(t: State)
    ensures NoNearer(Idle, t)
  {}

  lemma NoNearerFromDrSelect(t: State)
    ensures NoNearer(DrSelect, t)
  {}

  lemma NoNearerFromDrCapture(t: State)
    ensures NoNearer(DrCapture, t)
  {}

  lemma NoNearerFromDrShift(t: State)
    ensures NoNearer(DrShift, t)
  {}

  lemma NoNearerFromDrExit1(t: State)
    ensures NoNearer(DrExit1, t)
  {}

  lemma NoNearerFromDrPause(t: State)
    ensures NoNearer(DrPause, t)
  {}

  lemma NoNearerFromDrExit2(t: State)
    ensures NoNearer(DrExit2, t)
  {}

  lemma NoNearerFromDrUpdate(t: State)
    ensures NoNearer(DrUpdate, t)
  {}

  lemma NoNearerFromIrSelect(t: State)
    ensures NoNearer(IrSelect, t)
  {}

  lemma NoNearerFromIrCapture(t: State)
    ensures NoNearer(IrCapture, t)
  {}

  lemma NoNearerFromIrShift(t: State)
    ensures NoNearer(IrShift, t)
  {}

  lemma NoNearerFromIrExit1(t: State)
    ensures NoNearer(IrExit1, t)
  {}

  lemma NoNearerFromIrPause(t: State)
    ensures NoNearer(IrPause, t)
  {}

  lemma NoNearerFromIrExit2(t: State)
    ensures NoNearer(IrExit2, t)
  {}

  lemma NoNearerFromIrUpdate(t: State)
    ensures NoNearer(IrUpdate, t)
  {}

  /** No such clock comes more than one nearer. */
  lemma ClockNoNearer(s: State, tms: bool, target: State)
    requires Fair(s, tms, target)
    ensures Least(s, target) <= 1 + Least(Clock(s, tms), target)
  {
    hide Least, Clock, Fair;
    assert NoNearer(s, target) by {
      hide NoNearer;
      match s
      case Reset => NoNearerFromReset(target);
      case Idle => NoNearerFromIdle(target);
      case DrSelect => NoNearerFromDrSelect(target);
      case DrCapture => NoNearerFromDrCapture(target);
      case DrShift => NoNearerFromDrShift(target);
      case DrExit1 => NoNearerFromDrExit1(target);
      case DrPause => NoNearerFromDrPause(target);
      case DrExit2 => NoNearerFromDrExit2(target);
      case DrUpdate => NoNearerFromDrUpdate(target);
      case IrSelect => NoNearerFromIrSelect(target);
      case IrCapture => NoNearerFromIrCapture(target);
      case IrShift => NoNearerFromIrShift(target);
      case IrExit1 => NoNearerFromIrExit1(target);
      case IrPause => NoNearerFromIrPause(target);
      case IrExit2 => NoNearerFromIrExit2(target);
      case IrUpdate => NoNearerFromIrUpdate(target);
    }
  }

  /** Among all ways that do so, that of the map is a shortest one, but for two clocks from exit-1 to shift. */
  lemma {:induction false} MapIsShortest(s: State, trace: seq<bool>, target: State)
    requires FairWay(s, trace, target) && Fold(s, trace) == target
    ensures Least(s, target) <= |trace|
  {
    ShortestFrom(s, trace, target, |trace|);
    assert trace[..|trace|] == trace;
    StepDescends(target, target);
  }

  lemma {:induction false} ShortestFrom(s: State, trace: seq<bool>, target: State, k: nat)
    requires FairWay(s, trace, target) && k <= |trace|
    ensures Least(s, target) <= k + Least(Fold(s, trace[..k]), target)
    decreases k
  {
    hide Least, Clock, Fair;
    if k == 0 {
      assert trace[..0] == [];
    } else {
      ShortestFrom(s, trace, target, k - 1);
      assert trace[..k][..k - 1] == trace[..k - 1] && trace[..k][k - 1] == trace[k - 1];
      ClockNoNearer(Fold(s, trace[..k - 1]), trace[k - 1], target);
    }
  }
}

/** The three command layers of the c6 driver as one state machine: the DSP commander, the MCE
    commander above it, and the character device on top.  Every interrupt, timer, tasklet and
    blocking system call is one atomic step. */
module MceProtocol {

  /** An MCE reply packet, with the number of the MCE command it answers, which the driver never sees. */
  datatype Packet = Packet(answers: int, contents: int)

  /** The cleared buffer. */
  const NO_PACKET := Packet(-1, 0)

  type Client = int

  /** What the PCI registers answer when a command is written to the card: taken, `-EAGAIN`, `-EIO`. */
  datatype Hardware = Accepts | Blocked | Broken

  datatype Code = CON | HST | QTS | Internal(n: int)

  /** The registered DSP callback: who waits for the reply. */
  datatype Owner = Nobody | ForCon | ForHst | ForData | ForWait | ForGrant

  datatype Request = Normal | Reserve | Priority

  /** What a DSP callback is given: a reply, or NULL with a (negative) time-out. */
  datatype Message = TimedOut | Msg(code: Code, ack: bool)

  datatype Error =
    | IntTimeout | IntUnknown | IntProto | IntFailure | IntSurprise | Timeout
    | Active | IntBusy | NotActive | NoError

  datatype Outcome = Reply(packet: Packet) | Failed(error: Error)

  datatype SendResult = Sent | Again | IoError | InProgress

  datatype MceState = Idle | Con | ConOk | Nfy | Hst

  datatype OpsState = OpsIdle | OpsCmd | OpsRep | OpsErr

  /** struct dsp_dev_t; `servedFor` is the number of the MCE command that the DSP command serves. */
  datatype Dsp = Dsp(cmd: bool, reserve: bool, inform: bool, rpc: bool, dspInt: bool,
                     owner: Owner, last: Code, informTail: int, scheduled: bool,
                     localCmd: bool, localRep: bool, localCode: Code, servedFor: int)

  /** struct mce_control */
  datatype Mce = Mce(state: MceState, armed: bool, hstScheduled: bool, tries: nat, dhst: bool, buffer: Packet)

  /** struct mce_ops_t */
  datatype Ops = Ops(state: OpsState, commander: Client, cmdError: Error, rep: Packet)

  /** The properties of the open files. */
  datatype Files = Files(closedChannel: set<Client>, closeCleanly: set<Client>)

  /** One card, with the history of callbacks made, commands accepted and frames counted. */
  datatype State = State(dsp: Dsp, mce: Mce, ops: Ops, files: Files,
                         log: seq<Outcome>, accepted: nat, frames: nat)

  const INITIAL: State := State(
    Dsp(false, false, false, false, false, Nobody, QTS, 0, false, false, false, QTS, 0),
    Mce(Idle, false, false, 0, false, NO_PACKET), Ops(OpsIdle, 0, NoError, NO_PACKET), Files({}, {}),
    [], 0, 0)

  // ----- the DSP commander -----

  predicate Pending(d: Dsp) { d.inform || d.rpc || d.dspInt }

  /** `dsp_send_command`: refused while a command, a reservation or (for ordinary callers) a
      priority task is pending. */
  function Send(d: Dsp, code: Code, owner: Owner, request: Request, serve: int, hw: Hardware): (Dsp, SendResult) {
    if d.cmd || d.reserve || (Pending(d) && request != Priority) then (d, Again)
    else
      match hw
      case Blocked => (d.(last := code), Again)
      case Broken => (d.(last := code), IoError)
      case Accepts =>
        (d.(last := code, cmd := true, reserve := request == Reserve, owner := owner, servedFor := serve), Sent)
  }

  /** `dsp_reply_handler`: the callback runs, then the command is over.  The card writes the packet to
      the reply buffer before it acknowledges the HST command. */
  function DspReply(s: State, code: Code, ack: bool, packet: Packet): State {
    if !s.dsp.cmd then s
    else
      var s1 := if s.dsp.owner == ForHst && ack then s.(mce := s.mce.(buffer := packet)) else s;
      var s2 := Callback(s1, Msg(code, ack));
      s2.(dsp := s2.dsp.(cmd := false))
  }

  /** `dsp_timeout`: the command is over, then the callback runs. */
  function DspTimeout(s: State): State {
    if s.dsp.cmd then Callback(s.(dsp := s.dsp.(cmd := false)), TimedOut) else s
  }

  function Callback(s: State, m: Message): State {
    match s.dsp.owner
    case ForCon => OnCon(s, m)
    case ForHst => OnHst(s, m)
    case ForData => OnData(s, m)
    case ForWait =>
      if s.dsp.localCmd && !s.dsp.localRep then s.(dsp := s.dsp.(localRep := true)) else s
    case _ => s
  }

  /** The command of an urgent task; only a refusal leaves the task pending. */
  function Urgent(d: Dsp, code: Code, owner: Owner, hw: Hardware): Dsp {
    var (t, r) := Send(d, code, owner, Priority, 0, hw);
    if r.Again? then t else if owner == ForWait then t.(dspInt := false) else t.(inform := false)
  }

  /** The most urgent task. */
  function OneTask(d: Dsp, hw: Hardware): Dsp {
    if d.rpc then (if d.cmd || hw.Blocked? then d else d.(rpc := false)) // a vector, sent without data
    else if d.dspInt then Urgent(d, d.localCode, ForWait, hw)
    else if d.inform then Urgent(d, QTS, ForGrant, hw)
    else d
  }

  /** `dsp_priority_task`: one urgent task, and again while any is left. */
  function PriorityTask(d: Dsp, hw: Hardware): Dsp {
    var t := OneTask(d.(scheduled := false), hw);
    t.(scheduled := Pending(t))
  }

  // ----- the MCE commander -----

  /** `mce_command_do_callback` */
  function Complete(s: State, o: Outcome): State {
    var s1 := if s.mce.armed then s.(log := s.log + [o], ops := WriteCallback(s.ops, o)) else s;
    s1.(mce := s.mce.(state := Idle, armed := false, buffer := NO_PACKET))
  }

  function Unreserve(s: State): State { s.(dsp := s.dsp.(reserve := false)) }

  /** `mce_CON_dsp_callback`.  The driver compares the error with the positive time-out code, but is
      given the negative one: every time-out counts as unknown. */
  function OnCon(s: State, m: Message): State {
    if s.mce.state != Con then s
    else if m.TimedOut? then Unreserve(Complete(s, Failed(IntUnknown)))
    else if m.code != CON then Complete(s, Failed(IntProto))
    else if !m.ack then Unreserve(Complete(s, Failed(IntFailure)))
    else s.(mce := s.mce.(state := ConOk))
  }

  /** `mce_HST_dsp_callback` */
  function OnHst(s: State, m: Message): State {
    if s.mce.state != Hst then s
    else if m.TimedOut? then Complete(s, Failed(IntUnknown))
    else if m.code != HST then Complete(s, Failed(IntProto))
    else if !m.ack then Complete(s, Failed(IntFailure))
    else Complete(s, Reply(s.mce.buffer))
  }

  /** `mce_do_HST_or_schedule` */
  function DoHst(s: State, hw: Hardware): State {
    if s.mce.state != Nfy then s
    else
      var (d, r) := Send(s.dsp, HST, ForHst, Normal, s.accepted - 1, hw);
      var t := s.(dsp := d);
      match r
      case IoError => Complete(t, Failed(IntFailure))
      case Sent => t.(mce := s.mce.(state := Hst))
      case _ => t.(mce := s.mce.(tries := s.mce.tries + 1, hstScheduled := true))
  }

  /** `mce_NFY_RP_handler` */
  function NotifyRP(s: State, error: bool, hw: Hardware): State {
    if error then Unreserve(Complete(s, Failed(IntSurprise)))
    else if s.mce.state != ConOk then s
    else DoHst(Unreserve(s.(mce := s.mce.(state := Nfy, tries := 0))), hw)
  }

  /** `mce_NFY_RPQ_handler`, after the card has written the packet to the reply buffer. */
  function NotifyRPQ(s: State, error: bool, packet: Packet): State {
    var s0 := s.(mce := s.mce.(buffer := packet));
    if error then Unreserve(Complete(s0, Failed(IntSurprise)))
    else if s.mce.state != ConOk then s0
    else
      var s1 := Complete(s0, Reply(packet));
      s1.(dsp := s.dsp.(rpc := true, scheduled := true, reserve := false))
  }

  /** `mce_send_command_timer` */
  function MceTimer(s: State): State {
    if s.mce.state == Idle then s else Complete(Unreserve(s), Failed(Timeout))
  }

  /** `mce_send_command` */
  function SendMce(s: State, hw: Hardware): (State, SendResult) {
    if s.mce.state != Idle then (s, InProgress)
    else
      var (d, r) := Send(s.dsp, CON, ForCon, Reserve, s.accepted, hw);
      var t := s.(dsp := d);
      if r.Sent? then (t.(mce := s.mce.(armed := true, state := Con), accepted := s.accepted + 1), Sent)
      else (t.(mce := s.mce.(armed := false)), r)
  }

  // ----- data frames -----

  /** `mce_da_hst_callback`.  On an error the driver clears the wrong bit, so the flag stays. */
  function OnData(s: State, m: Message): State {
    if m.TimedOut? || !s.mce.dhst then s
    else s.(frames := s.frames + 1, mce := s.mce.(dhst := false))
  }

  /** `mce_da_hst_now` */
  function NotifyDA(s: State, sizeOk: bool, hw: Hardware): State {
    if !sizeOk then s
    else
      var (d, r) := Send(s.dsp, HST, ForData, Normal, 0, hw);
      if r.Sent? then s.(dsp := d, mce := s.mce.(dhst := true)) else s.(dsp := d)
  }

  // ----- the character device -----

  /** `mce_write_callback` */
  function WriteCallback(ops: Ops, o: Outcome): Ops {
    if ops.state != OpsCmd then ops
    else
      match o
      case Failed(e) => ops.(rep := NO_PACKET, state := OpsErr, cmdError := e)
      case Reply(p) => ops.(rep := p, state := OpsRep, cmdError := NoError)
  }

  const MAX_BUSY_TRIES: nat := 10000

  /** The retry loop of `mce_write`. */
  function WriteTries(s: State, hw: nat -> Hardware, busy: nat): (State, SendResult)
    requires busy <= MAX_BUSY_TRIES
    decreases MAX_BUSY_TRIES - busy
  {
    var (t, r) := SendMce(s, hw(busy));
    if r.Again? && busy < MAX_BUSY_TRIES then WriteTries(t, hw, busy + 1) else (t, r)
  }

  /** `mce_write` of a blocking client, once the device is idle. */
  function Write(s: State, c: Client, sizeOk: bool, copyOk: bool, hw: nat -> Hardware): State {
    if s.ops.state != OpsIdle || !sizeOk || !copyOk then s
    else
      var (t, r) := WriteTries(s.(ops := s.ops.(state := OpsCmd, commander := c)), hw, 0);
      if r.Sent? then t else t.(ops := t.ops.(state := OpsIdle))
  }

  datatype WriteResult = Waits | BadSize | NotCopied | Refused(error: SendResult) | Written

  /** What `mce_write` tells its caller: -EPROTO, the bytes not copied, 0, or the whole count. */
  function WriteAnswer(s: State, c: Client, sizeOk: bool, copyOk: bool, hw: nat -> Hardware): WriteResult {
    if s.ops.state != OpsIdle then Waits
    else if !sizeOk then BadSize
    else if !copyOk then NotCopied
    else
      var r := WriteTries(s.(ops := s.ops.(state := OpsCmd, commander := c)), hw, 0).1;
      if r.Sent? then Written else Refused(r)
  }

  /** A busy closed channel looks idle to everyone but its commander. */
  predicate Hidden(s: State, c: Client) {
    s.ops.state == OpsIdle || (s.ops.commander in s.files.closedChannel && c != s.ops.commander)
  }

  datatype ReadResult = Blocks | Nothing(error: Error) | Got(packet: Packet)

  /** `mce_read` of a blocking client. */
  function Read(s: State, c: Client): (State, ReadResult) {
    if Hidden(s, c) then (s, Nothing(NotActive))
    else if s.ops.state == OpsCmd then (s, Blocks)
    else (s.(ops := s.ops.(state := OpsIdle)),
          if s.ops.state == OpsRep then Got(s.ops.rep) else Nothing(s.ops.cmdError))
  }

  /** `mce_release` */
  function Release(s: State, c: Client): State {
    if c in s.files.closeCleanly && s.ops.state != OpsIdle && s.ops.commander == c
    then s.(ops := s.ops.(state := OpsIdle)) else s
  }

  // ----- runs -----

  datatype Event =
    | DoWrite(c: Client, sizeOk: bool, copyOk: bool, hws: nat -> Hardware)
    | DoRead(c: Client)
    | DoRelease(c: Client)
    | DoSetProperties(c: Client, closed: bool, cleanly: bool)
    | GotDspReply(code: Code, ack: bool, packet: Packet)
    | GotDspTimeout
    | GotNotifyRP(error: bool, hw: Hardware)
    | GotNotifyRPQ(error: bool, packet: Packet)
    | GotNotifyDA(sizeOk: bool, hw: Hardware)
    | GotMceTimer
    | RunHstTasklet(hw: Hardware)
    | RunPriorityTask(hw: Hardware)
    | AskGrant(tail: int)
    | BeginInternal(code: Code)
    | EndInternal

  /** What the environment may do: a reply to the outstanding command echoes it; a scheduled
      tasklet may run; a second internal command waits for the first. An internal command is
      answered in time: on a time-out its callback copies from a message that is not there
      (driver_c6/dsp_driver.c:621), and no run here goes on after that. */
  predicate Enabled(s: State, e: Event) {
    match e
    case GotDspReply(code, ack, packet) => s.dsp.cmd ==> code == s.dsp.last
    case GotDspTimeout => !(s.dsp.cmd && s.dsp.owner == ForWait)
    case RunHstTasklet(hw) => s.mce.hstScheduled
    case RunPriorityTask(hw) => s.dsp.scheduled
    case BeginInternal(code) => !s.dsp.localCmd && code.Internal?
    case _ => true
  }

  function Step(s: State, e: Event): State {
    match e
    case DoWrite(c, sizeOk, copyOk, hws) => Write(s, c, sizeOk, copyOk, hws)
    case DoRead(c) => Read(s, c).0
    case DoRelease(c) => Release(s, c)
    case DoSetProperties(c, closed, cleanly) =>
      s.(files := Files(if closed then s.files.closedChannel + {c} else s.files.closedChannel - {c},
                        if cleanly then s.files.closeCleanly + {c} else s.files.closeCleanly - {c}))
    case GotDspReply(code, ack, packet) => DspReply(s, code, ack, packet)
    case GotDspTimeout => DspTimeout(s)
    case GotNotifyRP(error, hw) => NotifyRP(s, error, hw)
    case GotNotifyRPQ(error, packet) => NotifyRPQ(s, error, packet)
    case GotNotifyDA(sizeOk, hw) => NotifyDA(s, sizeOk, hw)
    case GotMceTimer => MceTimer(s)
    case RunHstTasklet(hw) => DoHst(s.(mce := s.mce.(hstScheduled := false)), hw)
    case RunPriorityTask(hw) => s.(dsp := PriorityTask(s.dsp, hw))
    case AskGrant(tail) => s.(dsp := s.dsp.(inform := true, informTail := tail, scheduled := true))
    case BeginInternal(code) =>
      s.(dsp := s.dsp.(dspInt := true, scheduled := true, localCmd := true, localRep := false, localCode := code))
    case EndInternal => s.(dsp := s.dsp.(localCmd := false, localRep := false))
  }

  /** What a system call tells its caller. */
  datatype Answer = NoAnswer | ToWriter(w: WriteResult) | ToReader(r: ReadResult)

  function AnswerTo(s: State, e: Event): Answer {
    match e
    case DoWrite(c, sizeOk, copyOk, hws) => ToWriter(WriteAnswer(s, c, sizeOk, copyOk, hws))
    case DoRead(c) => ToReader(Read(s, c).1)
    case _ => NoAnswer
  }

  ghost predicate Possible(s: State, events: seq<Event>)
    decreases |events|
  {
    events == [] || (Enabled(s, events[0]) && Possible(Step(s, events[0]), events[1..]))
  }

  function Run(s: State, events: seq<Event>): State
    decreases |events|
  {
    if events == [] then s else Run(Step(s, events[0]), events[1..])
  }

  // ----- the invariant, across the layers -----

  /** The outstanding command is what its callback expects. */
  predicate Echo(d: Dsp) {
    && (d.cmd && d.owner == ForCon ==> d.last == CON)
    && (d.cmd && d.owner in {ForHst, ForData} ==> d.last == HST)
  }

  /** No priority task is forgotten. */
  predicate DspInv(d: Dsp) {
    Echo(d) && (d.scheduled <==> Pending(d))
  }

  /** The reservation is exactly the time between sending a command and its notification; in states
      CON and HST the outstanding DSP command is that of the current MCE command. */
  predicate Linked(d: Dsp, state: MceState, accepted: nat) {
    && (d.reserve <==> state in {Con, ConOk})
    && (state == Con ==> d.cmd && d.owner == ForCon && d.servedFor + 1 == accepted)
    && (state == Hst ==> d.cmd && d.owner == ForHst && d.servedFor + 1 == accepted)
  }

  function Open(state: MceState): nat { if state == Idle then 0 else 1 }

  /** Each accepted command gets one callback, at its end; the device waits only for an open command,
      and holds only the outcome of the last one. */
  predicate Upper(m: Mce, ops: Ops, log: seq<Outcome>, accepted: nat) {
    && (m.armed <==> m.state != Idle)
    && |log| + Open(m.state) == accepted
    && (ops.state == OpsCmd ==> m.state != Idle)
    && (ops.state == OpsRep ==> m.state == Idle && log != [] && log[|log| - 1] == Reply(ops.rep))
    && (ops.state == OpsErr ==> m.state == Idle && log != [] && log[|log| - 1] == Failed(ops.cmdError))
  }

  /** A notified command is not forgotten while the DSP is busy. */
  predicate Tasked(m: Mce) { m.state == Nfy ==> m.hstScheduled }

  /** No command fails as a protocol error, or with the code that the driver means for DSP time-outs. */
  predicate Sane(log: seq<Outcome>) {
    forall o :: o in log ==> o != Failed(IntProto) && o != Failed(IntTimeout)
  }

  predicate Inv(s: State) {
    && DspInv(s.dsp) && Linked(s.dsp, s.mce.state, s.accepted)
    && Upper(s.mce, s.ops, s.log, s.accepted) && Tasked(s.mce) && Sane(s.log)
  }

  lemma CompleteKeeps(s: State, o: Outcome)
    requires Upper(s.mce, s.ops, s.log, s.accepted) && Sane(s.log)
    requires o != Failed(IntProto) && o != Failed(IntTimeout)
    ensures var t := Complete(s, o);
      Upper(t.mce, t.ops, t.log, t.accepted) && Sane(t.log) && t.mce.state == Idle &&
      t.dsp == s.dsp && t.accepted == s.accepted
  {}

  lemma SendKeeps(d: Dsp, code: Code, owner: Owner, request: Request, serve: int, hw: Hardware)
    requires DspInv(d) && (owner == ForCon ==> code == CON) && (owner in {ForHst, ForData} ==> code == HST)
    ensures var (t, r) := Send(d, code, owner, request, serve, hw);
      DspInv(t) &&
      (if r.Sent? then !d.cmd && !d.reserve && t.cmd && t.owner == owner && t.servedFor == serve &&
                       t.reserve == (request == Reserve)
       else !r.InProgress? && t == d.(last := t.last))
  {}

  lemma DoHstKeeps(s: State, hw: Hardware)
    requires DspInv(s.dsp) && Linked(s.dsp, s.mce.state, s.accepted) && Sane(s.log)
    requires Upper(s.mce, s.ops, s.log, s.accepted)
    ensures Inv(DoHst(s, hw))
  {
    hide Complete, Send, DspInv, Sane;
    SendKeeps(s.dsp, HST, ForHst, Normal, s.accepted - 1, hw);
    CompleteKeeps(s.(dsp := Send(s.dsp, HST, ForHst, Normal, s.accepted - 1, hw).0), Failed(IntFailure));
  }

  lemma EventsKeepInv(s: State, e: Event)
    requires Inv(s) && Enabled(s, e)
    requires e.DoRead? || e.DoRelease? || e.DoSetProperties? || e.AskGrant? || e.BeginInternal? || e.EndInternal?
    ensures Inv(Step(s, e))
  {}

  /** Changing only the contents of the reply buffer disturbs nothing. */
  lemma BufferFree(m: Mce, packet: Packet, ops: Ops, log: seq<Outcome>, accepted: nat)
    requires Upper(m, ops, log, accepted)
    ensures Upper(m.(buffer := packet), ops, log, accepted)
  {}

  function Done(s: State): State { s.(dsp := s.dsp.(cmd := false)) }

  lemma OnConKeeps(s: State, m: Message)
    requires Inv(s) && s.dsp.cmd && s.dsp.owner == ForCon && (m.Msg? ==> m.code == CON)
    ensures Inv(Done(OnCon(s, m)))
  {
    hide Complete, Upper, Sane;
    CompleteKeeps(s, Failed(IntUnknown));
    CompleteKeeps(s, Failed(IntFailure));
    if s.mce.state == Con {
      OkKeeps(s.mce, s.ops, s.log, s.accepted);
    }
  }

  lemma OkKeeps(m: Mce, ops: Ops, log: seq<Outcome>, accepted: nat)
    requires Upper(m, ops, log, accepted) && m.state == Con
    ensures Upper(m.(state := ConOk), ops, log, accepted)
    ensures Upper(m.(state := Nfy, tries := 0), ops, log, accepted)
  {}

  lemma OnHstKeeps(s: State, m: Message)
    requires Inv(s) && s.dsp.cmd && s.dsp.owner == ForHst && (m.Msg? ==> m.code == HST)
    ensures Inv(Done(OnHst(s, m)))
  {
    hide Complete, Upper, Sane;
    CompleteKeeps(s, Failed(IntUnknown));
    CompleteKeeps(s, Failed(IntFailure));
    CompleteKeeps(s, Reply(s.mce.buffer));
  }

  lemma OnDataKeeps(m: Mce, ops: Ops, log: seq<Outcome>, accepted: nat)
    requires Upper(m, ops, log, accepted)
    ensures Upper(m.(dhst := false), ops, log, accepted) && Upper(m.(dhst := true), ops, log, accepted)
  {}

  lemma CallbackKeeps(s: State, m: Message)
    requires Inv(s) && s.dsp.cmd && (m.Msg? ==> m.code == s.dsp.last)
    ensures Inv(Done(Callback(s, m)))
  {
    hide OnCon, OnHst, Complete, Upper, Sane;
    if s.dsp.owner == ForCon {
      OnConKeeps(s, m);
    } else if s.dsp.owner == ForHst {
      OnHstKeeps(s, m);
    } else {
      OnDataKeeps(s.mce, s.ops, s.log, s.accepted);
    }
  }

  /** The wrong-command branches of the callbacks are never taken: a reply echoes its command. */
  lemma ReplyKeepsInv(s: State, code: Code, ack: bool, packet: Packet)
    requires Inv(s) && (s.dsp.cmd ==> code == s.dsp.last)
    ensures Inv(DspReply(s, code, ack, packet))
  {
    hide Callback, Upper, Sane, DspInv, Linked;
    if s.dsp.cmd {
      var s1 := if s.dsp.owner == ForHst && ack then s.(mce := s.mce.(buffer := packet)) else s;
      BufferFree(s.mce, packet, s.ops, s.log, s.accepted);
      CallbackKeeps(s1, Msg(code, ack));
    }
  }

  lemma CompleteDone(s: State, o: Outcome)
    ensures Complete(Done(s), o) == Done(Complete(s, o))
  {}

  lemma HandlersDone(s: State)
    ensures OnCon(Done(s), TimedOut) == Done(OnCon(s, TimedOut))
    ensures OnHst(Done(s), TimedOut) == Done(OnHst(s, TimedOut))
    ensures OnData(Done(s), TimedOut) == Done(OnData(s, TimedOut))
  {
    hide Complete;
    CompleteDone(s, Failed(IntUnknown));
  }

  lemma DoneEarlier(s: State)
    ensures Callback(Done(s), TimedOut) == Done(Callback(s, TimedOut))
  {
    hide OnCon, OnHst, OnData;
    HandlersDone(s);
  }

  lemma TimeoutKeepsInv(s: State)
    requires Inv(s)
    ensures Inv(DspTimeout(s))
  {
    hide Callback, Upper, Sane, DspInv, Linked;
    if s.dsp.cmd {
      CallbackKeeps(s, TimedOut);
      DoneEarlier(s);
    }
  }

  lemma NotifyKeepsInv(s: State, error: bool, packet: Packet, hw: Hardware)
    requires Inv(s)
    ensures Inv(NotifyRP(s, error, hw)) && Inv(NotifyRPQ(s, error, packet))
  {
    hide DoHst, Complete, Sane;
    var s0 := s.(mce := s.mce.(buffer := packet));
    CompleteKeeps(s, Failed(IntSurprise));
    CompleteKeeps(s0, Failed(IntSurprise));
    CompleteKeeps(s0, Reply(packet));
    if !error && s.mce.state == ConOk {
      DoHstKeeps(Unreserve(s.(mce := s.mce.(state := Nfy, tries := 0))), hw);
    }
  }

  lemma TimerKeepsInv(s: State)
    requires Inv(s)
    ensures Inv(MceTimer(s)) && MceTimer(s).mce.state == Idle && !MceTimer(s).dsp.reserve
  {
    hide Complete, Upper, Sane;
    CompleteKeeps(Unreserve(s), Failed(Timeout));
  }

  lemma DataKeepsInv(s: State, sizeOk: bool, hw: Hardware)
    requires Inv(s)
    ensures Inv(NotifyDA(s, sizeOk, hw))
  {
    hide Send, Upper, Sane, DspInv;
    SendKeeps(s.dsp, HST, ForData, Normal, 0, hw);
    OnDataKeeps(s.mce, s.ops, s.log, s.accepted);
  }

  lemma PriorityKeepsInv(s: State, hw: Hardware)
    requires Inv(s)
    ensures Inv(s.(dsp := PriorityTask(s.dsp, hw)))
  {
    hide Upper, Sane, Send;
    SendDuringTask(s.dsp, s.dsp.localCode, ForWait, hw);
    SendDuringTask(s.dsp, QTS, ForGrant, hw);
  }

  lemma SendDuringTask(d: Dsp, code: Code, owner: Owner, hw: Hardware)
    requires Echo(d) && owner in {ForWait, ForGrant}
    ensures var (t, r) := Send(d.(scheduled := false), code, owner, Priority, 0, hw);
      Echo(t) && t.reserve == d.reserve &&
      (d.cmd ==> t.cmd && t.owner == d.owner && t.servedFor == d.servedFor)
  {}

  lemma SendMceKeeps(s: State, hw: Hardware)
    requires DspInv(s.dsp) && Linked(s.dsp, s.mce.state, s.accepted) && Sane(s.log)
    requires Upper(s.mce, s.ops.(state := OpsIdle), s.log, s.accepted) && s.ops.state == OpsCmd && Tasked(s.mce)
    ensures var (t, r) := SendMce(s, hw);
      if r.Sent? then Inv(t) && t.accepted == s.accepted + 1
      else DspInv(t.dsp) && Linked(t.dsp, t.mce.state, t.accepted) && Sane(t.log) && t.ops == s.ops &&
           Upper(t.mce, t.ops.(state := OpsIdle), t.log, t.accepted) && Tasked(t.mce)
  {
    hide Send, DspInv, Sane;
    SendKeeps(s.dsp, CON, ForCon, Reserve, s.accepted, hw);
  }

  lemma {:induction false} WriteTriesKeeps(s: State, hw: nat -> Hardware, busy: nat)
    requires busy <= MAX_BUSY_TRIES
    requires DspInv(s.dsp) && Linked(s.dsp, s.mce.state, s.accepted) && Sane(s.log)
    requires Upper(s.mce, s.ops.(state := OpsIdle), s.log, s.accepted) && s.ops.state == OpsCmd && Tasked(s.mce)
    ensures var (t, r) := WriteTries(s, hw, busy);
      if r.Sent? then Inv(t)
      else DspInv(t.dsp) && Linked(t.dsp, t.mce.state, t.accepted) && Sane(t.log) && t.ops == s.ops &&
           Upper(t.mce, t.ops.(state := OpsIdle), t.log, t.accepted) && Tasked(t.mce)
    decreases MAX_BUSY_TRIES - busy
  {
    hide SendMce, DspInv, Linked, Sane, Upper;
    SendMceKeeps(s, hw(busy));
    var (t, r) := SendMce(s, hw(busy));
    if r.Again? && busy < MAX_BUSY_TRIES {
      WriteTriesKeeps(t, hw, busy + 1);
    }
  }

  lemma WriteKeepsInv(s: State, c: Client, sizeOk: bool, copyOk: bool, hw: nat -> Hardware)
    requires Inv(s)
    ensures Inv(Write(s, c, sizeOk, copyOk, hw))
  {
    hide WriteTries, DspInv, Linked, Sane;
    if s.ops.state == OpsIdle {
      WriteTriesKeeps(s.(ops := s.ops.(state := OpsCmd, commander := c)), hw, 0);
    }
  }

  /** Every step of every layer keeps the invariant. */
  lemma StepKeepsInv(s: State, e: Event)
    requires Inv(s) && Enabled(s, e)
    ensures Inv(Step(s, e))
  {
    hide Inv, Write, Read, Release, DspReply, DspTimeout, NotifyRP, NotifyRPQ, NotifyDA, MceTimer, DoHst, PriorityTask;
    match e
    case DoWrite(c, sizeOk, copyOk, hws) => WriteKeepsInv(s, c, sizeOk, copyOk, hws);
    case GotDspReply(code, ack, packet) => ReplyKeepsInv(s, code, ack, packet);
    case GotDspTimeout => TimeoutKeepsInv(s);
    case GotNotifyRP(error, hw) => NotifyKeepsInv(s, error, NO_PACKET, hw);
    case GotNotifyRPQ(error, packet) => NotifyKeepsInv(s, error, packet, Accepts);
    case GotNotifyDA(sizeOk, hw) => DataKeepsInv(s, sizeOk, hw);
    case GotMceTimer => TimerKeepsInv(s);
    case RunHstTasklet(hw) => TaskletKeepsInv(s, hw);
    case RunPriorityTask(hw) => PriorityKeepsInv(s, hw);
    case _ => EventsKeepInv(s, e);
  }

  lemma TaskletKeepsInv(s: State, hw: Hardware)
    requires Inv(s)
    ensures Inv(DoHst(s.(mce := s.mce.(hstScheduled := false)), hw))
  {
    hide DoHst, Sane, DspInv, Linked;
    DoHstKeeps(s.(mce := s.mce.(hstScheduled := false)), hw);
  }

  // ----- theorems over every run in which no internal DSP command times out -----

  lemma {:induction false} RunKeepsInv(s: State, events: seq<Event>)
    requires Inv(s) && Possible(s, events)
    ensures Inv(Run(s, events))
    decreases |events|
  {
    hide Inv, Step;
    if events != [] {
      StepKeepsInv(s, events[0]);
      RunKeepsInv(Step(s, events[0]), events[1..]);
    }
  }

  lemma InitialInv()
    ensures Inv(INITIAL)
  {}

  /** Across the layers, after any run: the DSP is reserved exactly while a command has been sent and
      its reply is not notified; and an MCE command that waits for the DSP waits for its own DSP command. */
  lemma CrossLayer(events: seq<Event>)
    requires Possible(INITIAL, events)
    ensures var s := Run(INITIAL, events);
      (s.dsp.reserve <==> s.mce.state in {Con, ConOk}) &&
      (s.mce.state == Con ==> s.dsp.cmd && s.dsp.owner == ForCon && s.dsp.last == CON &&
                              s.dsp.servedFor == s.accepted - 1) &&
      (s.mce.state == Hst ==> s.dsp.cmd && s.dsp.owner == ForHst && s.dsp.last == HST &&
                              s.dsp.servedFor == s.accepted - 1)
  {
    InitialInv();
    RunKeepsInv(INITIAL, events);
  }

  /** Callbacks are never taken back, and a step makes at most one. */
  lemma CompleteExtends(s: State, o: Outcome)
    ensures s.log <= Complete(s, o).log && |Complete(s, o).log| <= |s.log| + 1
    ensures Complete(s, o).accepted == s.accepted
  {}

  lemma {:induction false} WriteExtends(s: State, hw: nat -> Hardware, busy: nat)
    requires busy <= MAX_BUSY_TRIES
    ensures WriteTries(s, hw, busy).0.log == s.log && s.accepted <= WriteTries(s, hw, busy).0.accepted
    decreases MAX_BUSY_TRIES - busy
  {
    hide Send;
    var (t, r) := SendMce(s, hw(busy));
    if r.Again? && busy < MAX_BUSY_TRIES {
      WriteExtends(t, hw, busy + 1);
    }
  }

  lemma CallbackExtends(s: State, m: Message)
    ensures s.log <= Callback(s, m).log && |Callback(s, m).log| <= |s.log| + 1
    ensures Callback(s, m).accepted == s.accepted
  {
    hide Complete;
    CompleteExtends(s, Failed(IntUnknown));
    CompleteExtends(s, Failed(IntProto));
    CompleteExtends(s, Failed(IntFailure));
    CompleteExtends(s, Reply(s.mce.buffer));
  }

  lemma DoHstExtends(s: State, hw: Hardware)
    ensures s.log <= DoHst(s, hw).log && |DoHst(s, hw).log| <= |s.log| + 1
    ensures DoHst(s, hw).accepted == s.accepted
  {
    hide Complete, Send;
    CompleteExtends(s.(dsp := Send(s.dsp, HST, ForHst, Normal, s.accepted - 1, hw).0), Failed(IntFailure));
  }

  lemma StepExtends(s: State, e: Event)
    ensures s.log <= Step(s, e).log && |Step(s, e).log| <= |s.log| + 1
    ensures s.accepted <= Step(s, e).accepted
  {
    hide Callback, Complete, DoHst, Send, WriteTries, PriorityTask;
    match e
    case DoWrite(c, sizeOk, copyOk, hws) =>
      WriteExtends(s.(ops := s.ops.(state := OpsCmd, commander := c)), hws, 0);
    case GotDspReply(code, ack, packet) =>
      CallbackExtends(if s.dsp.owner == ForHst && ack then s.(mce := s.mce.(buffer := packet)) else s, Msg(code, ack));
    case GotDspTimeout => CallbackExtends(Done(s), TimedOut);
    case GotNotifyRP(error, hw) =>
      CompleteExtends(s, Failed(IntSurprise));
      DoHstExtends(Unreserve(s.(mce := s.mce.(state := Nfy, tries := 0))), hw);
    case GotNotifyRPQ(error, packet) =>
      CompleteExtends(s.(mce := s.mce.(buffer := packet)), Failed(IntSurprise));
      CompleteExtends(s.(mce := s.mce.(buffer := packet)), Reply(packet));
    case GotMceTimer => CompleteExtends(Unreserve(s), Failed(Timeout));
    case RunHstTasklet(hw) => DoHstExtends(s.(mce := s.mce.(hstScheduled := false)), hw);
    case _ =>
  }

  lemma {:induction false} RunExtends(s: State, events: seq<Event>)
    ensures s.log <= Run(s, events).log && s.accepted <= Run(s, events).accepted
    decreases |events|
  {
    hide Step;
    if events != [] {
      StepExtends(s, events[0]);
      RunExtends(Step(s, events[0]), events[1..]);
    }
  }

  lemma {:induction false} RunConcat(s: State, a: seq<Event>, b: seq<Event>)
    requires Possible(s, a + b)
    ensures Run(s, a + b) == Run(Run(s, a), b) && Possible(s, a)
    decreases |a|
  {
    hide Step, Enabled;
    if a == [] {
      assert a + b == b;
    } else {
      assert (a + b)[1..] == a[1..] + b && (a + b)[0] == a[0];
      RunConcat(Step(s, a[0]), a[1..], b);
    }
  }

  /** Exactly-once completion: after any run, command number `n` has had its one callback, with outcome
      `log[n]`, unless it is the last and still open; and no later step changes that outcome. */
  lemma ExactlyOnce(events: seq<Event>, more: seq<Event>)
    requires Possible(INITIAL, events + more)
    ensures var s := Run(INITIAL, events);
      s.accepted == |s.log| + (if s.mce.state == Idle then 0 else 1) &&
      s.log <= Run(INITIAL, events + more).log
  {
    hide Step;
    RunConcat(INITIAL, events, more);
    InitialInv();
    RunKeepsInv(INITIAL, events);
    RunExtends(Run(INITIAL, events), more);
  }

  // ----- whose reply a client reads -----

  /** The step completes the open command with a packet. */
  predicate Delivers(s: State, e: Event) {
    match e
    case GotNotifyRPQ(error, packet) => !error && s.mce.state == ConOk
    case GotDspReply(code, ack, packet) => s.dsp.cmd && s.dsp.owner == ForHst && ack && s.mce.state == Hst
    case _ => false
  }

  /** It does so with a packet that answers another command. */
  predicate Stray(s: State, e: Event) {
    Delivers(s, e) && e.packet.answers != s.accepted - 1
  }

  /** A stray packet comes while command `n` is the current one. */
  ghost predicate StrayFor(s: State, events: seq<Event>, n: int)
    decreases |events|
  {
    events != [] && ((s.accepted == n + 1 && Stray(s, events[0])) || StrayFor(Step(s, events[0]), events[1..], n))
  }

  lemma DeliversReply(s: State, e: Event)
    requires Inv(s) && Enabled(s, e) && Delivers(s, e)
    ensures Step(s, e).log == s.log + [Reply(e.packet)]
    ensures |s.log| == s.accepted - 1
  {
    hide Send, PriorityTask, Sane;
  }

  /** A reply packet is the one the card delivered in the very step that completed the command. */
  lemma ReplyWasDelivered(s: State, e: Event, packet: Packet)
    requires Inv(s) && Enabled(s, e) && Step(s, e).log == s.log + [Reply(packet)]
    ensures Delivers(s, e) && e.packet == packet
  {
    hide Send, PriorityTask, Upper, Sane;
    LastOf(s.log, Reply(packet));
    if e.DoWrite? {
      WriteExtends(s.(ops := s.ops.(state := OpsCmd, commander := e.c)), e.hws, 0);
    }
  }

  /** Once a command is complete, no packet is taken for it. */
  lemma {:induction false} NoneStrayLater(s: State, events: seq<Event>, n: nat)
    requires Inv(s) && Possible(s, events) && n < |s.log|
    ensures !StrayFor(s, events, n)
    decreases |events|
  {
    hide Inv, Step, Delivers;
    if events != [] {
      var e := events[0];
      if Delivers(s, e) {
        DeliversReply(s, e);
      }
      StepKeepsInv(s, e);
      StepExtends(s, e);
      NoneStrayLater(Step(s, e), events[1..], n);
    }
  }

  /** Command `n`, if a packet completed it, has its own reply exactly when no packet answering
      another command came while it was the current one. */
  lemma {:induction false} OwnReplyExactly(s: State, events: seq<Event>, n: nat)
    requires Inv(s) && Possible(s, events)
    requires |s.log| <= n < |Run(s, events).log| && Run(s, events).log[n].Reply?
    ensures Run(s, events).log[n].packet.answers == n <==> !StrayFor(s, events, n)
    decreases |events|
  {
    hide Inv, Step, Delivers;
    var e, rest := events[0], events[1..];
    var t := Step(s, e);
    StepKeepsInv(s, e);
    StepExtends(s, e);
    RunExtends(t, rest);
    if Delivers(s, e) {
      DeliversReply(s, e);
    }
    if |t.log| <= n {
      OwnReplyExactly(t, rest, n);
    } else {
      NoneStrayLater(t, rest, n);
      var o := t.log[n];
      assert Run(s, events).log[n] == o && t.log == s.log + [o];
      ReplyWasDelivered(s, e, o.packet);
    }
  }

  /** A packet that any client reads completed the last accepted command; and it answers that command
      exactly when no packet answering another one came while it was the current one. */
  lemma ReadIsOwnReply(events: seq<Event>, c: Client)
    requires Possible(INITIAL, events)
    ensures var s := Run(INITIAL, events);
            var r := Read(s, c).1;
      r.Got? ==>
        && s.mce.state == Idle && 0 < s.accepted == |s.log| && s.log[s.accepted - 1] == Reply(r.packet)
        && (r.packet.answers == s.accepted - 1 <==> !StrayFor(INITIAL, events, s.accepted - 1))
  {
    hide Step, StrayFor;
    InitialInv();
    RunKeepsInv(INITIAL, events);
    var s := Run(INITIAL, events);
    if Read(s, c).1.Got? {
      OwnReplyExactly(INITIAL, events, s.accepted - 1);
    }
  }

  lemma {:induction false} PossibleConcat(s: State, a: seq<Event>, b: seq<Event>)
    requires Possible(s, a) && Possible(Run(s, a), b)
    ensures Possible(s, a + b) && Run(s, a + b) == Run(Run(s, a), b)
    decreases |a|
  {
    hide Step, Enabled;
    if a == [] {
      assert a + b == b;
    } else {
      assert (a + b)[1..] == a[1..] + b;
      PossibleConcat(Step(s, a[0]), a[1..], b);
    }
  }

  lemma RunOne(s: State, e: Event)
    ensures Run(s, [e]) == Step(s, e) && (Enabled(s, e) ==> Possible(s, [e]))
  {
    hide Step, Enabled;
    assert [e][1..] == [];
  }

  lemma RunThen(s: State, events: seq<Event>, e: Event)
    requires Possible(s, events) && Enabled(Run(s, events), e)
    ensures Possible(s, events + [e]) && Run(s, events + [e]) == Step(Run(s, events), e)
  {
    hide Step, Enabled;
    RunOne(Run(s, events), e);
    PossibleConcat(s, events, [e]);
  }

  /** A client writes, the card takes CON, and the timer runs out; the client reads the error. */
  function TimedOutCommand(c: Client): seq<Event> {
    [DoWrite(c, true, true, _ => Accepts), GotDspReply(CON, true, NO_PACKET), GotMceTimer, DoRead(c)]
  }

  function AfterTimeout(c: Client): State {
    State(Dsp(false, false, false, false, false, ForCon, CON, 0, false, false, false, QTS, 0),
          Mce(Idle, false, false, 0, false, NO_PACKET), Ops(OpsIdle, c, Timeout, NO_PACKET), Files({}, {}),
          [Failed(Timeout)], 1, 0)
  }

  lemma TimedOutSteps(c: Client)
    ensures Possible(INITIAL, TimedOutCommand(c)) && Run(INITIAL, TimedOutCommand(c)) == AfterTimeout(c)
  {
    var e := TimedOutCommand(c);
    assert e == [e[0]] + [e[1]] + [e[2]] + [e[3]];
    RunOne(INITIAL, e[0]);
    RunThen(INITIAL, [e[0]], e[1]);
    RunThen(INITIAL, [e[0]] + [e[1]], e[2]);
    hide Run, Possible;
    RunThen(INITIAL, [e[0]] + [e[1]] + [e[2]], e[3]);
    assert [] + [Failed(Timeout)] == [Failed(Timeout)];
  }

  /** The next command, and in its place the late answer to the first. */
  function LateAnswer(c: Client, late: Packet): seq<Event> {
    [DoWrite(c, true, true, _ => Accepts), GotDspReply(CON, true, NO_PACKET), GotNotifyRPQ(false, late)]
  }

  lemma LateAnswerSteps(c: Client, late: Packet)
    ensures Possible(AfterTimeout(c), LateAnswer(c, late))
    ensures var s := Run(AfterTimeout(c), LateAnswer(c, late)); s.accepted == 2 && Read(s, c).1 == Got(late)
  {
    var e, s := LateAnswer(c, late), AfterTimeout(c);
    assert e == [e[0]] + [e[1]] + [e[2]];
    RunOne(s, e[0]);
    RunThen(s, [e[0]], e[1]);
    hide Run, Possible;
    RunThen(s, [e[0]] + [e[1]], e[2]);
  }

  /** The driver cannot tell: the answer to a command that timed out, coming while its successor
      awaits one, is read as the answer to the successor. */
  lemma LateAnswerIsRead(c: Client, late: Packet)
    requires late.answers == 0
    ensures var events := TimedOutCommand(c) + LateAnswer(c, late);
            var s := Run(INITIAL, events);
            && Possible(INITIAL, events) && s.accepted == 2 && Read(s, c).1 == Got(late)
            && StrayFor(INITIAL, events, 1)
  {
    hide Run, Possible, StrayFor, Read;
    TimedOutSteps(c);
    LateAnswerSteps(c, late);
    PossibleConcat(INITIAL, TimedOutCommand(c), LateAnswer(c, late));
    ReadIsOwnReply(TimedOutCommand(c) + LateAnswer(c, late), c);
  }

  // ----- the flag of data frames -----

  /** A frame transfer is under way. */
  predicate Outstanding(d: Dsp) { d.cmd && d.owner == ForData }

  /** Has a frame transfer timed out since the flag was last set or cleared? */
  function Stuck(s: State, e: Event, late: bool): bool {
    match e
    case GotDspTimeout => late || Outstanding(s.dsp)
    case GotNotifyDA(sizeOk, hw) => late && !(sizeOk && Send(s.dsp, HST, ForData, Normal, 0, hw).1.Sent?)
    case GotDspReply(code, ack, packet) => late && !(Outstanding(s.dsp) && s.mce.dhst)
    case _ => late
  }

  function TimedOutSince(s: State, events: seq<Event>, late: bool): bool
    decreases |events|
  {
    if events == [] then late else TimedOutSince(Step(s, events[0]), events[1..], Stuck(s, events[0], late))
  }

  predicate FlagExplained(s: State, late: bool) {
    (s.mce.dhst <==> Outstanding(s.dsp) || late) && !(Outstanding(s.dsp) && late)
  }

  /** Neither the flag nor the transfer is touched. */
  predicate SameData(s: State, t: State) {
    t.mce.dhst == s.mce.dhst && Outstanding(t.dsp) == Outstanding(s.dsp)
  }

  lemma DoHstKeepsData(s: State, hw: Hardware)
    ensures SameData(s, DoHst(s, hw))
  {}

  lemma NotifyKeepsData(s: State, error: bool, packet: Packet, hw: Hardware)
    ensures SameData(s, NotifyRP(s, error, hw)) && SameData(s, NotifyRPQ(s, error, packet))
  {
    hide DoHst, WriteCallback;
    DoHstKeepsData(Unreserve(s.(mce := s.mce.(state := Nfy, tries := 0))), hw);
  }

  lemma UrgentKeepsData(d: Dsp, code: Code, owner: Owner, hw: Hardware)
    requires owner != ForData
    ensures Outstanding(Urgent(d, code, owner, hw)) == Outstanding(d)
  {}

  lemma PriorityKeepsData(s: State, hw: Hardware)
    ensures SameData(s, s.(dsp := PriorityTask(s.dsp, hw)))
  {
    hide Urgent;
    UrgentKeepsData(s.dsp.(scheduled := false), s.dsp.localCode, ForWait, hw);
    UrgentKeepsData(s.dsp.(scheduled := false), QTS, ForGrant, hw);
  }

  lemma TimeoutExplained(s: State, late: bool)
    requires FlagExplained(s, late)
    ensures FlagExplained(DspTimeout(s), late || Outstanding(s.dsp))
  {
    hide WriteCallback;
  }

  lemma ReplyExplained(s: State, code: Code, ack: bool, packet: Packet, late: bool)
    requires FlagExplained(s, late)
    ensures FlagExplained(DspReply(s, code, ack, packet), late && !(Outstanding(s.dsp) && s.mce.dhst))
  {
    hide WriteCallback;
  }

  lemma FlagStaysExplained(s: State, e: Event, late: bool)
    requires FlagExplained(s, late)
    ensures FlagExplained(Step(s, e), Stuck(s, e, late))
  {
    hide WriteTries, WriteCallback, DoHst, NotifyRP, NotifyRPQ, PriorityTask, DspTimeout, DspReply;
    match e
    case DoWrite(c, sizeOk, copyOk, hws) => WriteKeepsData(s.(ops := s.ops.(state := OpsCmd, commander := c)), hws, 0);
    case GotDspReply(code, ack, packet) => ReplyExplained(s, code, ack, packet, late);
    case GotDspTimeout => TimeoutExplained(s, late);
    case GotNotifyRP(error, hw) => NotifyKeepsData(s, error, NO_PACKET, hw);
    case GotNotifyRPQ(error, packet) => NotifyKeepsData(s, error, packet, Accepts);
    case RunHstTasklet(hw) => DoHstKeepsData(s.(mce := s.mce.(hstScheduled := false)), hw);
    case RunPriorityTask(hw) => PriorityKeepsData(s, hw);
    case _ =>
  }

  lemma {:induction false} WriteKeepsData(s: State, hw: nat -> Hardware, busy: nat)
    requires busy <= MAX_BUSY_TRIES
    ensures SameData(s, WriteTries(s, hw, busy).0)
    decreases MAX_BUSY_TRIES - busy
  {
    var (t, r) := SendMce(s, hw(busy));
    if r.Again? && busy < MAX_BUSY_TRIES {
      WriteKeepsData(t, hw, busy + 1);
    }
  }

  lemma {:induction false} RunKeepsFlagExplained(s: State, events: seq<Event>, late: bool)
    requires FlagExplained(s, late)
    ensures FlagExplained(Run(s, events), TimedOutSince(s, events, late))
    decreases |events|
  {
    hide FlagExplained, Step, Stuck;
    if events != [] {
      FlagStaysExplained(s, events[0], late);
      RunKeepsFlagExplained(Step(s, events[0]), events[1..], Stuck(s, events[0], late));
    }
  }

  /** After any run, a transfer under way has its flag set; and the flag says that one is under way
      exactly if none has timed out since it was last set or cleared.  Otherwise it is stuck: the
      driver, which should clear it on the error, clears another bit. */
  lemma DataFlagExactly(events: seq<Event>)
    ensures var s := Run(INITIAL, events);
            && (Outstanding(s.dsp) ==> s.mce.dhst)
            && ((s.mce.dhst <==> Outstanding(s.dsp)) <==> !TimedOutSince(INITIAL, events, false))
  {
    hide Run, TimedOutSince;
    RunKeepsFlagExplained(INITIAL, events, false);
  }

  lemma LastOf(log: seq<Outcome>, o: Outcome)
    ensures log != log + [o] && (log + [o])[|log|] == o
  {
    assert |log + [o]| == |log| + 1;
  }

  /** A client that closes early makes the device idle; until its command ends, no write is accepted,
      and the late callback leaves the device alone. */
  lemma ForcedIdle(s: State, c: Client, hw: nat -> Hardware, o: Outcome)
    requires Inv(s) && s.ops.state == OpsIdle && s.mce.state != Idle
    ensures Write(s, c, true, true, hw).accepted == s.accepted
    ensures Write(s, c, true, true, hw).ops.state == OpsIdle
    ensures Complete(s, o).ops == s.ops
  {}

  /** The MCE timer frees both layers, whatever the state. */
  lemma TimerFrees(s: State)
    requires Inv(s)
    ensures MceTimer(s).mce.state == Idle && !MceTimer(s).dsp.reserve
    ensures s.mce.state != Idle ==> MceTimer(s).log == s.log + [Failed(Timeout)]
  {}
}

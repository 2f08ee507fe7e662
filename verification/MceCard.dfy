/** The c6 driver's handlers as they update their structures in place, each proved to take exactly the
    step that `MceProtocol` gives it. */
module MceCard {
  import opened MceProtocol
  import opened MceProgress

  /** struct dsp_dev_t: the bits of `state`, and the rest. */
  class DspDev {
    var cmd: bool
    var reserve: bool
    var inform: bool
    var rpc: bool
    var dspInt: bool
    var owner: Owner
    var last: Code
    var informTail: int
    var scheduled: bool
    var localCmd: bool
    var localRep: bool
    var localCode: Code
    ghost var servedFor: int

    ghost function View(): Dsp
      reads this
    {
      Dsp(cmd, reserve, inform, rpc, dspInt, owner, last, informTail, scheduled,
          localCmd, localRep, localCode, servedFor)
    }

    constructor ()
      ensures View() == INITIAL.dsp
    {
      cmd, reserve, inform, rpc, dspInt := false, false, false, false, false;
      owner, last, informTail, scheduled := Nobody, QTS, 0, false;
      localCmd, localRep, localCode, servedFor := false, false, QTS, 0;
    }

    /** `dsp_send_command`, with the answer of the PCI registers. */
    method SendCommand(code: Code, who: Owner, request: Request, ghost serve: int, hw: Hardware) returns (r: SendResult)
      modifies this`cmd, this`reserve, this`owner, this`last, this`servedFor
      ensures View() == Send(old(View()), code, who, request, serve, hw).0
      ensures r == Send(old(View()), code, who, request, serve, hw).1
    {
      if cmd || reserve || ((inform || rpc || dspInt) && request != Priority) {
        return Again;
      }
      last := code;
      match hw {
        case Blocked => return Again;
        case Broken => return IoError;
        case Accepts =>
          cmd := true;
          if request == Reserve {
            reserve := true;
          }
          owner, servedFor := who, serve;
          return Sent;
      }
    }

    /** `dsp_unreserve` */
    method Unreserve()
      modifies this`reserve
      ensures View() == old(View()).(reserve := false)
    {
      reserve := false;
    }

    /** `dsp_priority_task` */
    method PriorityTask(hw: Hardware)
      modifies this
      ensures View() == MceProtocol.PriorityTask(old(View()), hw)
    {
      hide MceProtocol.OneTask;
      scheduled := false;
      assert View() == old(View()).(scheduled := false);
      OneTask(hw);
      ghost var after := View();
      assert !after.scheduled;
      if inform || rpc || dspInt {
        scheduled := true;
        assert View() == after.(scheduled := true);
      }
    }

    method OneTask(hw: Hardware)
      modifies this`cmd, this`reserve, this`owner, this`last, this`servedFor, this`rpc, this`dspInt, this`inform
      ensures View() == MceProtocol.OneTask(old(View()), hw)
    {
      hide Urgent;
      if rpc {
        if !cmd && hw != Blocked {
          rpc := false;
        }
      } else if dspInt {
        SendUrgent(localCode, ForWait, hw);
      } else if inform {
        SendUrgent(QTS, ForGrant, hw);
      }
    }

    /** Send the command of an urgent task; only `-EAGAIN` leaves the task pending. */
    method SendUrgent(code: Code, who: Owner, hw: Hardware)
      requires who in {ForWait, ForGrant}
      modifies this`cmd, this`reserve, this`owner, this`last, this`servedFor, this`dspInt, this`inform
      ensures View() == Urgent(old(View()), code, who, hw)
    {
      hide Send;
      var err := SendCommand(code, who, Priority, 0, hw);
      ghost var after := View();
      if err != Again {
        if who == ForWait {
          dspInt := false;
          assert View() == after.(dspInt := false);
        } else {
          inform := false;
          assert View() == after.(inform := false);
        }
      }
    }

    /** `dsp_request_grant` */
    method RequestGrant(tail: int)
      requires scheduled <==> Pending(View())
      modifies this`scheduled, this`inform, this`informTail
      ensures View() == old(View()).(inform := true, informTail := tail, scheduled := true)
    {
      if !(inform || rpc || dspInt) {
        scheduled := true;
      }
      inform, informTail := true, tail;
    }

    /** `dsp_send_command_wait` hands its command to the priority task. */
    method BeginInternal(code: Code)
      modifies this`dspInt, this`scheduled, this`localCmd, this`localRep, this`localCode
      ensures View() == old(View()).(dspInt := true, scheduled := true, localCmd := true, localRep := false,
                                     localCode := code)
    {
      localCmd, localRep, localCode := true, false, code;
      dspInt, scheduled := true, true;
    }

    /** It has waited for the reply. */
    method EndInternal()
      modifies this`localCmd, this`localRep
      ensures View() == old(View()).(localCmd := false, localRep := false)
    {
      localCmd, localRep := false, false;
    }

    /** `dsp_request_clear_RP` */
    method RequestClearRP()
      requires scheduled <==> Pending(View())
      modifies this`scheduled, this`rpc
      ensures View() == old(View()).(rpc := true, scheduled := true)
    {
      if !(inform || rpc || dspInt) {
        scheduled := true;
      }
      rpc := true;
    }
  }

  /** struct mce_ops_t, and the properties of the open files. */
  class MceOps {
    var state: OpsState
    var commander: Client
    var cmdError: Error
    var rep: Packet
    var files: Files

    ghost function View(): Ops
      reads this
    {
      Ops(state, commander, cmdError, rep)
    }

    constructor ()
      ensures View() == INITIAL.ops && files == INITIAL.files
    {
      state, commander, cmdError, rep, files := OpsIdle, 0, NoError, NO_PACKET, Files({}, {});
    }

    /** `mce_ioctl` on the properties of a file. */
    method SetProperties(c: Client, closed: bool, cleanly: bool)
      modifies this`files
      ensures View() == old(View())
      ensures var f := old(files);
              files == Files(if closed then f.closedChannel + {c} else f.closedChannel - {c},
                             if cleanly then f.closeCleanly + {c} else f.closeCleanly - {c})
    {
      files := Files(if closed then files.closedChannel + {c} else files.closedChannel - {c},
                     if cleanly then files.closeCleanly + {c} else files.closeCleanly - {c});
    }

    /** `mce_write_callback` */
    method WriteDone(o: Outcome)
      modifies this`state, this`cmdError, this`rep
      ensures View() == WriteCallback(old(View()), o)
    {
      if state != OpsCmd {
        return;
      }
      match o {
        case Failed(e) => rep, state, cmdError := NO_PACKET, OpsErr, e;
        case Reply(p) => rep, state, cmdError := p, OpsRep, NoError;
      }
    }
  }

  /** struct mce_control, with the two structures it works on. */
  class MceControl {
    const dsp: DspDev
    const ops: MceOps
    var state: MceState
    var armed: bool
    var hstScheduled: bool
    var tries: nat
    var dhst: bool
    var buffer: Packet
    // history
    ghost var log: seq<Outcome>
    ghost var accepted: nat
    var frames: nat

    ghost function View(): State
      reads this, dsp, ops
    {
      State(dsp.View(), Mce(state, armed, hstScheduled, tries, dhst, buffer), ops.View(), ops.files,
            log, accepted, frames)
    }

    constructor ()
      ensures View() == INITIAL && fresh(dsp) && fresh(ops)
    {
      dsp := new DspDev();
      ops := new MceOps();
      state, armed, hstScheduled, tries, dhst, buffer := Idle, false, false, 0, false, NO_PACKET;
      log, accepted, frames := [], 0, 0;
    }

    /** `dsp_reply_handler` */
    method ReplyHandler(code: Code, ack: bool, packet: Packet)
      modifies this, dsp, ops
      ensures View() == DspReply(old(View()), code, ack, packet)
    {
      hide Callback, DspReply, MceControl.View;
      ghost var s := View();
      var callback := TakeReply(ack, packet);
      ghost var s1 := View();
      RunCallback(callback, Msg(code, ack));
      ghost var s2 := View();
      EndCommand();
      ReplySteps(s, s1, s2, code, ack, packet);
    }

    method TakeReply(ack: bool, packet: Packet) returns (callback: Owner)
      modifies this`buffer
      ensures callback == if dsp.cmd then dsp.owner else Nobody
      ensures dsp.cmd == old(View()).dsp.cmd && dsp.owner == old(View()).dsp.owner
      ensures var s := old(View());
              View() == if s.dsp.cmd && s.dsp.owner == ForHst && ack then s.(mce := s.mce.(buffer := packet)) else s
    {
      callback := Nobody;
      if dsp.cmd {
        callback := dsp.owner;
        if dsp.owner == ForHst && ack {
          buffer := packet;
        }
      }
    }

    method EndCommand()
      modifies dsp`cmd
      ensures var s := old(View()); View() == s.(dsp := s.dsp.(cmd := false))
    {
      dsp.cmd := false;
    }

    /** `dsp_timeout` */
    method TimeoutHandler()
      modifies this, dsp, ops
      ensures View() == DspTimeout(old(View()))
    {
      if dsp.cmd {
        dsp.cmd := false;
        RunCallback(dsp.owner, TimedOut);
      }
    }

    method RunCallback(callback: Owner, m: Message)
      requires callback == dsp.owner || callback == Nobody
      modifies this, dsp, ops
      ensures View() == if callback == Nobody then old(View()) else Callback(old(View()), m)
    {
      match callback {
        case ForCon => ConCallback(m);
        case ForHst => HstCallback(m);
        case ForData => DataCallback(m);
        case ForWait =>
          if dsp.localCmd && !dsp.localRep {
            dsp.localRep := true;
          }
        case _ =>
      }
    }

    // ----- mce_driver.c -----

    /** `mce_command_do_callback` */
    method DoCallback(o: Outcome)
      modifies this, dsp, ops
      ensures View() == Complete(old(View()), o)
    {
      state := Idle;
      if armed {
        ops.WriteDone(o);
        log := log + [o];
      }
      buffer := NO_PACKET;
      armed := false;
    }

    /** `mce_CON_dsp_callback` */
    method ConCallback(m: Message)
      modifies this, dsp, ops
      ensures View() == OnCon(old(View()), m)
    {
      if state != Con {
        return;
      }
      if m.TimedOut? {
        DoCallback(Failed(IntUnknown));
        dsp.Unreserve();
        return;
      }
      if m.code != CON {
        DoCallback(Failed(IntProto));
        return;
      }
      if !m.ack {
        DoCallback(Failed(IntFailure));
        dsp.Unreserve();
        return;
      }
      state := ConOk;
    }

    /** `mce_NFY_RP_handler` */
    method RpHandler(error: bool, hw: Hardware)
      modifies this, dsp, ops
      ensures View() == NotifyRP(old(View()), error, hw)
    {
      if error {
        DoCallback(Failed(IntSurprise));
        dsp.Unreserve();
        return;
      }
      if state != ConOk {
        return;
      }
      state, tries := Nfy, 0;
      dsp.Unreserve();
      DoHstOrSchedule(hw);
    }

    /** `mce_do_HST_or_schedule` */
    method DoHstOrSchedule(hw: Hardware)
      modifies this, dsp, ops
      ensures View() == DoHst(old(View()), hw)
    {
      if state != Nfy {
        return;
      }
      var err := dsp.SendCommand(HST, ForHst, Normal, accepted - 1, hw);
      if err != Sent {
        if err == Again {
          tries := tries + 1;
          hstScheduled := true;
        } else {
          DoCallback(Failed(IntFailure));
        }
      } else {
        state := Hst;
      }
    }

    /** `mce_HST_dsp_callback` */
    method HstCallback(m: Message)
      modifies this, dsp, ops
      ensures View() == OnHst(old(View()), m)
    {
      if state != Hst {
        return;
      }
      if m.TimedOut? {
        DoCallback(Failed(IntUnknown));
        return;
      }
      if m.code != HST {
        DoCallback(Failed(IntProto));
        return;
      }
      if !m.ack {
        DoCallback(Failed(IntFailure));
        return;
      }
      DoCallback(Reply(buffer));
    }

    /** `mce_NFY_RPQ_handler`, once the packet is in the reply buffer. */
    method RpqHandler(error: bool, packet: Packet)
      requires Inv(View())
      modifies this, dsp, ops
      ensures View() == NotifyRPQ(old(View()), error, packet)
    {
      buffer := packet;
      if error {
        DoCallback(Failed(IntSurprise));
        dsp.Unreserve();
        return;
      }
      if state != ConOk {
        return;
      }
      DoCallback(Reply(buffer));
      state := Idle;
      dsp.RequestClearRP();
      dsp.Unreserve();
    }

    /** `mce_send_command_timer` */
    method CommandTimer()
      modifies this, dsp, ops
      ensures View() == MceTimer(old(View()))
    {
      if state != Idle {
        dsp.Unreserve();
        DoCallback(Failed(Timeout));
      }
    }

    /** `mce_send_command` */
    method SendCommand(hw: Hardware) returns (r: SendResult)
      modifies this, dsp, ops
      ensures (View(), r) == SendMce(old(View()), hw)
    {
      if state != Idle {
        return InProgress;
      }
      r := dsp.SendCommand(CON, ForCon, Reserve, accepted, hw);
      if r != Sent {
        armed := false;
      } else {
        armed := true;
        state := Con;
        accepted := accepted + 1;
      }
    }

    /** `mce_da_hst_callback` */
    method DataCallback(m: Message)
      modifies this`frames, this`dhst
      ensures View() == OnData(old(View()), m)
    {
      if m.TimedOut? {
        return;
      }
      if !dhst {
        return;
      }
      frames := frames + 1;
      dhst := false;
    }

    /** `mce_int_handler` for a data packet, and `mce_da_hst_now` */
    method DataHandler(sizeOk: bool, hw: Hardware)
      modifies this, dsp, ops
      ensures View() == NotifyDA(old(View()), sizeOk, hw)
    {
      if !sizeOk {
        return;
      }
      var err := dsp.SendCommand(HST, ForData, Normal, 0, hw);
      if err == Sent {
        dhst := true;
      }
    }

    // ----- mce_ops.c -----

    /** `mce_write`, once the device is idle; `hw` gives the card's answer to each try. */
    method WriteDevice(c: Client, sizeOk: bool, copyOk: bool, hw: nat -> Hardware) returns (w: WriteResult)
      requires ops.state == OpsIdle
      modifies this, dsp, ops
      ensures View() == Write(old(View()), c, sizeOk, copyOk, hw)
      ensures w == WriteAnswer(old(View()), c, sizeOk, copyOk, hw)
    {
      if !sizeOk {
        return BadSize;
      }
      if !copyOk {
        return NotCopied;
      }
      hide WriteTries;
      ops.state := OpsCmd;
      ops.commander := c;
      var err := SendRetrying(hw);
      w := Written;
      if err != Sent {
        ops.state := OpsIdle;
        w := Refused(err);
      }
    }

    /** The retry loop of `mce_write`. */
    method SendRetrying(hw: nat -> Hardware) returns (err: SendResult)
      modifies this, dsp, ops
      ensures (View(), err) == WriteTries(old(View()), hw, 0)
    {
      hide SendMce, View;
      var busyTries: nat := 0;
      err := SendCommand(hw(0));
      while err == Again && busyTries < MAX_BUSY_TRIES
        invariant busyTries <= MAX_BUSY_TRIES
        invariant WriteTries(old(View()), hw, 0) ==
                  if err == Again && busyTries < MAX_BUSY_TRIES then WriteTries(View(), hw, busyTries + 1)
                  else (View(), err)
        decreases MAX_BUSY_TRIES - busyTries
      {
        busyTries := busyTries + 1;
        err := SendCommand(hw(busyTries));
      }
    }

    /** `mce_read`; a client that has to wait for the reply is told so. */
    method ReadDevice(c: Client) returns (r: ReadResult)
      modifies ops`state
      ensures (View(), r) == Read(old(View()), c)
    {
      if ops.state == OpsIdle {
        return Nothing(NotActive);
      }
      if ops.commander in ops.files.closedChannel && c != ops.commander {
        return Nothing(NotActive);
      }
      if ops.state == OpsCmd {
        return Blocks;
      }
      if ops.state == OpsRep {
        r := Got(ops.rep);
      } else {
        r := Nothing(ops.cmdError);
      }
      ops.state := OpsIdle;
    }

    /** `mce_release` */
    method ReleaseDevice(c: Client)
      modifies ops`state
      ensures View() == Release(old(View()), c)
    {
      if c in ops.files.closeCleanly && ops.state != OpsIdle && ops.commander == c {
        ops.state := OpsIdle;
      }
    }

    // ----- all of it -----

    /** The tasklet of `mce_do_HST_or_schedule`. */
    method HstTasklet(hw: Hardware)
      modifies this, dsp, ops
      ensures View() == DoHst(old(View()).(mce := old(View()).mce.(hstScheduled := false)), hw)
    {
      hstScheduled := false;
      DoHstOrSchedule(hw);
    }

    /** Every interrupt, timer, tasklet and system call is a step of the machine, and keeps the invariant. */
    method Handle(e: Event) returns (answer: Answer)
      requires Inv(View()) && Enabled(View(), e)
      modifies this, dsp, ops
      ensures View() == Step(old(View()), e) && Inv(View())
      ensures Follows(old(View()), View(), Moved(old(View()), e))
      ensures answer == AnswerTo(old(View()), e)
    {
      hide Inv, Write, Read, Release, DspReply, DspTimeout, NotifyRP, NotifyRPQ, NotifyDA, MceTimer, DoHst, WriteAnswer;
      hide MceProtocol.PriorityTask, Moved, Follows;
      StepKeepsInv(View(), e);
      MovesExactly(View(), e);
      TasksScheduled(View());
      answer := NoAnswer;
      match e {
        case DoWrite(c, sizeOk, copyOk, hws) =>
          var w := WriteOrWait(c, sizeOk, copyOk, hws);
          answer := ToWriter(w);
        case DoRead(c) =>
          var r := ReadDevice(c);
          answer := ToReader(r);
        case DoRelease(c) => ReleaseDevice(c);
        case DoSetProperties(c, closed, cleanly) => ops.SetProperties(c, closed, cleanly);
        case GotDspReply(code, ack, packet) => ReplyHandler(code, ack, packet);
        case GotDspTimeout => TimeoutHandler();
        case GotNotifyRP(error, hw) => RpHandler(error, hw);
        case GotNotifyRPQ(error, packet) => RpqHandler(error, packet);
        case GotNotifyDA(sizeOk, hw) => DataHandler(sizeOk, hw);
        case GotMceTimer => CommandTimer();
        case RunHstTasklet(hw) => HstTasklet(hw);
        case RunPriorityTask(hw) => dsp.PriorityTask(hw);
        case AskGrant(tail) => dsp.RequestGrant(tail);
        case BeginInternal(code) => dsp.BeginInternal(code);
        case EndInternal => dsp.EndInternal();
      }
    }

    method WriteOrWait(c: Client, sizeOk: bool, copyOk: bool, hw: nat -> Hardware) returns (w: WriteResult)
      modifies this, dsp, ops
      ensures View() == Write(old(View()), c, sizeOk, copyOk, hw)
      ensures w == WriteAnswer(old(View()), c, sizeOk, copyOk, hw)
    {
      hide WriteTries;
      w := Waits;
      if ops.state == OpsIdle {
        w := WriteDevice(c, sizeOk, copyOk, hw);
      }
    }

    /** Over any run of the handlers: the machine's run, hence its invariant; the reservation and the
        outstanding command are those of the MCE command; each accepted command has had its one
        callback but the open one, and no earlier outcome has changed; and whoever reads gets the
        packet that completed the last one. */
    method Run(events: seq<Event>)
      requires Inv(View()) && Possible(View(), events)
      modifies this, dsp, ops
      ensures View() == MceProtocol.Run(old(View()), events) && Inv(View())
      ensures dsp.reserve <==> state in {Con, ConOk}
      ensures state == Con ==> dsp.cmd && dsp.owner == ForCon && dsp.last == CON && dsp.servedFor == accepted - 1
      ensures state == Hst ==> dsp.cmd && dsp.owner == ForHst && dsp.last == HST && dsp.servedFor == accepted - 1
      ensures accepted == |log| + (if state == Idle then 0 else 1) && old(log) <= log
      ensures forall c :: Read(View(), c).1.Got? ==>
                state == Idle && accepted > 0 && log[accepted - 1] == Reply(Read(View(), c).1.packet)
    {
      hide Inv, Step, Enabled;
      ghost var start := View();
      assert events[0..] == events;
      for i := 0 to |events|
        invariant Inv(View()) && Possible(View(), events[i..])
        invariant MceProtocol.Run(View(), events[i..]) == MceProtocol.Run(start, events)
      {
        assert events[i..][0] == events[i] && events[i..][1..] == events[i + 1..];
        var _ := Handle(events[i]);
      }
      RunExtends(start, events);
      InvMeans(View());
    }
  }

  /** What the invariant says of one state. */
  lemma InvMeans(s: State)
    requires Inv(s)
    ensures s.dsp.reserve <==> s.mce.state in {Con, ConOk}
    ensures s.mce.state == Con ==>
              s.dsp.cmd && s.dsp.owner == ForCon && s.dsp.last == CON && s.dsp.servedFor == s.accepted - 1
    ensures s.mce.state == Hst ==>
              s.dsp.cmd && s.dsp.owner == ForHst && s.dsp.last == HST && s.dsp.servedFor == s.accepted - 1
    ensures s.accepted == |s.log| + (if s.mce.state == Idle then 0 else 1)
    ensures forall c :: Read(s, c).1.Got? ==>
              s.mce.state == Idle && s.accepted > 0 && s.log[s.accepted - 1] == Reply(Read(s, c).1.packet)
  {}

  lemma TasksScheduled(s: State)
    requires Inv(s)
    ensures s.dsp.scheduled <==> Pending(s.dsp)
  {}

  lemma ReplySteps(s: State, s1: State, s2: State, code: Code, ack: bool, packet: Packet)
    requires s1 == if s.dsp.cmd && s.dsp.owner == ForHst && ack then s.(mce := s.mce.(buffer := packet)) else s
    requires s2 == if !s.dsp.cmd || s.dsp.owner == Nobody then s1 else Callback(s1, Msg(code, ack))
    ensures s2.(dsp := s2.dsp.(cmd := false)) == DspReply(s, code, ack, packet)
  {
    hide OnCon, OnHst, OnData;
  }
}

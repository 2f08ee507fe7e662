/** What must happen in the c6 driver: how each state of a command is left, what the client then reads,
    and the ways through to a reply. */
module MceProgress {
  import opened MceProtocol

  // ----- how a command goes on, state by state -----

  /** Where an event leads a command, and with what outcome it ends it. */
  datatype Move = Stay | To(state: MceState) | End(outcome: Outcome)

  /** An urgent task waits for the DSP. */
  predicate Urged(d: Dsp) { d.rpc || d.dspInt || d.inform }

  /** Sending HST for the reply: sent, put off while the DSP is busy, or failed. */
  function Fetching(d: Dsp, hw: Hardware): Move {
    if d.cmd || Urged(d) || hw == Blocked then To(Nfy)
    else if hw == Accepts then To(Hst)
    else End(Failed(IntFailure))
  }

  /** In every state but Idle, a notification with an error and the timer end the command. */
  function Anyhow(e: Event): Move {
    match e
    case GotNotifyRP(error, _) => if error then End(Failed(IntSurprise)) else Stay
    case GotNotifyRPQ(error, _) => if error then End(Failed(IntSurprise)) else Stay
    case GotMceTimer => End(Failed(Timeout))
    case _ => Stay
  }

  /** The card takes CON at some try, after it was busy at the earlier ones: 10001 in all. */
  ghost predicate Taken(hws: nat -> Hardware) {
    exists k :: 0 <= k <= 10000 && hws(k) == Accepts && forall j :: 0 <= j < k ==> hws(j) == Blocked
  }

  ghost function Moved(s: State, e: Event): Move {
    match s.mce.state
    case Idle =>
      if e.DoWrite? && s.ops.state == OpsIdle && e.sizeOk && e.copyOk && !s.dsp.cmd && !Urged(s.dsp) && Taken(e.hws)
      then To(Con) else Stay
    case Con =>
      (match e
       case GotDspReply(_, ack, _) => if ack then To(ConOk) else End(Failed(IntFailure))
       case GotDspTimeout => End(Failed(IntUnknown))
       case _ => Anyhow(e))
    case ConOk =>
      (match e
       case GotNotifyRP(error, hw) => if error then Anyhow(e) else Fetching(s.dsp, hw)
       case GotNotifyRPQ(error, packet) => if error then Anyhow(e) else End(Reply(packet))
       case _ => Anyhow(e))
    case Nfy =>
      (match e
       case RunHstTasklet(hw) => Fetching(s.dsp, hw)
       case _ => Anyhow(e))
    case Hst =>
      (match e
       case GotDspReply(_, ack, packet) => if ack then End(Reply(packet)) else End(Failed(IntFailure))
       case GotDspTimeout => End(Failed(IntUnknown))
       case _ => Anyhow(e))
  }

  /** What the device is told when a command ends: a packet or an error, if it waits for one. */
  function Told(ops: Ops, o: Outcome): Ops {
    if ops.state != OpsCmd then ops
    else
      match o
      case Reply(packet) => Ops(OpsRep, ops.commander, NoError, packet)
      case Failed(error) => Ops(OpsErr, ops.commander, error, NO_PACKET)
  }

  /** The state is as moved, and a callback is made, and the device told, just if the command ends. */
  ghost predicate Follows(s: State, t: State, m: Move) {
    match m
    case Stay => t.mce.state == s.mce.state && t.log == s.log
    case To(state) => t.mce.state == state && t.log == s.log
    case End(o) => t.mce.state == Idle && t.log == s.log + [o] && t.ops == Told(s.ops, o)
  }

  lemma CompleteFollows(s: State, o: Outcome)
    requires Upper(s.mce, s.ops, s.log, s.accepted)
    ensures s.mce.state != Idle ==> Follows(s, Complete(s, o), End(o))
    ensures s.mce.state == Idle ==> Follows(s, Complete(s, o), Stay)
  {}

  lemma SendRefused(d: Dsp, code: Code, owner: Owner, request: Request, serve: int, hw: Hardware)
    requires d.cmd || d.reserve || (Urged(d) && request != Priority)
    ensures Send(d, code, owner, request, serve, hw) == (d, Again)
  {}

  lemma SendTried(d: Dsp, code: Code, owner: Owner, request: Request, serve: int, hw: Hardware)
    requires !d.cmd && !d.reserve && (Urged(d) ==> request == Priority)
    ensures Send(d, code, owner, request, serve, hw) ==
            match hw
            case Blocked => (d.(last := code), Again)
            case Broken => (d.(last := code), IoError)
            case Accepts =>
              (d.(last := code, cmd := true, reserve := request == Reserve, owner := owner, servedFor := serve), Sent)
  {}

  lemma SendTaken(d: Dsp, code: Code, owner: Owner, request: Request, serve: int, hw: Hardware)
    requires !d.reserve && request != Priority
    ensures var r := Send(d, code, owner, request, serve, hw).1;
            if d.cmd || Urged(d) || hw == Blocked then r == Again else if hw == Accepts then r == Sent else r == IoError
  {
    hide Send;
    if d.cmd || Urged(d) {
      SendRefused(d, code, owner, request, serve, hw);
    } else {
      SendTried(d, code, owner, request, serve, hw);
    }
  }

  lemma FetchFollows(s: State, hw: Hardware)
    requires s.mce.state == Nfy && !s.dsp.reserve && Upper(s.mce, s.ops, s.log, s.accepted)
    ensures Follows(s, DoHst(s, hw), Fetching(s.dsp, hw))
  {
    hide Send, Complete, Upper;
    SendTaken(s.dsp, HST, ForHst, Normal, s.accepted - 1, hw);
    CompleteFollows(s.(dsp := Send(s.dsp, HST, ForHst, Normal, s.accepted - 1, hw).0), Failed(IntFailure));
  }

  lemma ReplyFollows(s: State, code: Code, ack: bool, packet: Packet)
    requires Inv(s) && (s.dsp.cmd ==> code == s.dsp.last)
    ensures Follows(s, DspReply(s, code, ack, packet), Moved(s, GotDspReply(code, ack, packet)))
  {
    hide Complete, Upper, Sane, Taken;
    var s1 := if s.dsp.owner == ForHst && ack then s.(mce := s.mce.(buffer := packet)) else s;
    BufferFree(s.mce, packet, s.ops, s.log, s.accepted);
    CompleteFollows(s1, Failed(IntFailure));
    CompleteFollows(s1, Reply(packet));
  }

  lemma TimeoutFollows(s: State)
    requires Inv(s)
    ensures Follows(s, DspTimeout(s), Moved(s, GotDspTimeout))
  {
    hide Complete, Upper, Sane, Taken;
    CompleteFollows(s.(dsp := s.dsp.(cmd := false)), Failed(IntUnknown));
  }

  lemma NotifyFollows(s: State, error: bool, hw: Hardware)
    requires Inv(s)
    ensures Follows(s, NotifyRP(s, error, hw), Moved(s, GotNotifyRP(error, hw)))
  {
    hide Complete, DoHst, Upper, Sane, Taken;
    if error {
      CompleteFollows(s, Failed(IntSurprise));
    } else if s.mce.state == ConOk {
      StillOpen(s.mce, s.ops, s.log, s.accepted);
      FetchFollows(Unreserve(s.(mce := s.mce.(state := Nfy, tries := 0))), hw);
    }
  }

  lemma QuietFollows(s: State, error: bool, packet: Packet)
    requires Inv(s)
    ensures Follows(s, NotifyRPQ(s, error, packet), Moved(s, GotNotifyRPQ(error, packet)))
  {
    hide Complete, Upper, Sane, Taken;
    BufferFree(s.mce, packet, s.ops, s.log, s.accepted);
    CompleteFollows(s.(mce := s.mce.(buffer := packet)), if error then Failed(IntSurprise) else Reply(packet));
  }

  lemma StillOpen(m: Mce, ops: Ops, log: seq<Outcome>, accepted: nat)
    requires Upper(m, ops, log, accepted) && m.state == ConOk
    ensures Upper(m.(state := Nfy, tries := 0), ops, log, accepted)
  {}

  lemma TimerFollows(s: State)
    requires Inv(s)
    ensures Follows(s, MceTimer(s), Moved(s, GotMceTimer))
  {
    hide Complete, Upper, Sane, Taken;
    CompleteFollows(Unreserve(s), Failed(Timeout));
  }

  lemma TaskletFollows(s: State, hw: Hardware)
    requires Inv(s)
    ensures Follows(s, DoHst(s.(mce := s.mce.(hstScheduled := false)), hw), Moved(s, RunHstTasklet(hw)))
  {
    hide DoHst, Sane, Taken;
    if s.mce.state == Nfy {
      FetchFollows(s.(mce := s.mce.(hstScheduled := false)), hw);
    } else {
      IdleTasklet(s.(mce := s.mce.(hstScheduled := false)), hw);
    }
  }

  lemma IdleTasklet(s: State, hw: Hardware)
    requires s.mce.state != Nfy
    ensures DoHst(s, hw) == s
  {}

  // ----- writing -----

  /** From try `k` on. */
  ghost predicate TakenFrom(hws: nat -> Hardware, k: nat) {
    exists j :: k <= j <= 10000 && hws(j) == Accepts && forall i :: k <= i < j ==> hws(i) == Blocked
  }

  lemma TakenNext(hws: nat -> Hardware, k: nat)
    requires k <= 10000
    ensures TakenFrom(hws, k) <==> hws(k) == Accepts || (hws(k) == Blocked && TakenFrom(hws, k + 1))
  {
    if hws(k) == Blocked && TakenFrom(hws, k + 1) {
      var j :| k + 1 <= j <= 10000 && hws(j) == Accepts && forall i :: k + 1 <= i < j ==> hws(i) == Blocked;
      assert forall i :: k <= i < j ==> hws(i) == Blocked;
    }
    if TakenFrom(hws, k) && hws(k) != Accepts {
      var j :| k <= j <= 10000 && hws(j) == Accepts && forall i :: k <= i < j ==> hws(i) == Blocked;
      assert k + 1 <= j && forall i :: k + 1 <= i < j ==> hws(i) == Blocked;
    }
  }

  /** What is left of a state that a refused CON has touched. */
  predicate Untouched(s: State, t: State) {
    && t.log == s.log && t.accepted == s.accepted && t.mce.state == s.mce.state && t.ops == s.ops
    && t.frames == s.frames && t.dsp == s.dsp.(last := t.dsp.last)
  }

  lemma SendMceTaken(s: State, hw: Hardware)
    requires !s.dsp.reserve || s.mce.state != Idle
    ensures var (t, r) := SendMce(s, hw);
            if s.mce.state != Idle then r == InProgress && t == s
            else if s.dsp.cmd || Urged(s.dsp) || hw == Blocked then r == Again && Untouched(s, t)
            else if hw == Accepts then
              && r == Sent && t.mce.state == Con && t.log == s.log && t.accepted == s.accepted + 1 && t.ops == s.ops
              && t.dsp.cmd && t.dsp.reserve && Urged(t.dsp) == Urged(s.dsp)
            else r == IoError && Untouched(s, t)
  {
    hide Send;
    if s.dsp.cmd || s.dsp.reserve || Urged(s.dsp) {
      SendRefused(s.dsp, CON, ForCon, Reserve, s.accepted, hw);
    } else {
      SendTried(s.dsp, CON, ForCon, Reserve, s.accepted, hw);
    }
  }

  /** The retries end with the card's first answer other than busy, or after 10001 busy ones. */
  lemma {:induction false} TriesEnd(s: State, hws: nat -> Hardware, k: nat)
    requires k <= 10000 && (!s.dsp.reserve || s.mce.state != Idle)
    ensures var (t, r) := WriteTries(s, hws, k);
            if s.mce.state != Idle then r == InProgress && t == s
            else if s.dsp.cmd || Urged(s.dsp) then r == Again && Untouched(s, t)
            else if TakenFrom(hws, k) then
              && r == Sent && t.mce.state == Con && t.log == s.log && t.accepted == s.accepted + 1 && t.ops == s.ops
              && t.dsp.cmd && t.dsp.reserve && Urged(t.dsp) == Urged(s.dsp)
            else r in [Again, IoError] && Untouched(s, t)
                 && (r == Again <==> forall j :: k <= j <= 10000 ==> hws(j) == Blocked)
    decreases 10000 - k
  {
    hide SendMce, TakenFrom;
    SendMceTaken(s, hws(k));
    TakenNext(hws, k);
    var (t, r) := SendMce(s, hws(k));
    if r.Again? && k < 10000 {
      TriesEnd(t, hws, k + 1);
    } else if k == 10000 {
      NeverTaken(hws);
    }
  }

  lemma NeverTaken(hws: nat -> Hardware)
    ensures !TakenFrom(hws, 10001)
  {}

  /** A write is accepted if and only if the device and the MCE are idle, the command is whole, the DSP is
      free, and the card takes CON within 10001 tries; the client is told so, and otherwise what went wrong,
      with the device idle again. */
  lemma WriteExactly(s: State, c: Client, sizeOk: bool, copyOk: bool, hws: nat -> Hardware)
    requires Inv(s)
    ensures var t := Write(s, c, sizeOk, copyOk, hws);
            var w := WriteAnswer(s, c, sizeOk, copyOk, hws);
            if s.ops.state != OpsIdle then w == Waits && t == s
            else if !sizeOk then w == BadSize && t == s
            else if !copyOk then w == NotCopied && t == s
            else if s.mce.state != Idle then
              w == Refused(InProgress) && t.ops.state == OpsIdle && t.accepted == s.accepted
            else if s.dsp.cmd || Urged(s.dsp) then
              w == Refused(Again) && t.ops.state == OpsIdle && t.accepted == s.accepted
            else if Taken(hws) then
              && w == Written && t.ops.state == OpsCmd && t.ops.commander == c && t.accepted == s.accepted + 1
              && t.mce.state == Con && t.log == s.log && t.dsp.cmd && t.dsp.reserve && !Urged(t.dsp)
            else
              && w == (if forall j :: 0 <= j <= 10000 ==> hws(j) == Blocked then Refused(Again) else Refused(IoError))
              && t.ops.state == OpsIdle && t.accepted == s.accepted
  {
    hide WriteTries, TakenFrom, Upper, Sane, DspInv;
    if s.ops.state == OpsIdle && sizeOk && copyOk {
      TriesEnd(s.(ops := s.ops.(state := OpsCmd, commander := c)), hws, 0);
      SameTaken(hws);
    }
  }

  lemma SameTaken(hws: nat -> Hardware)
    ensures Taken(hws) == TakenFrom(hws, 0)
  {}

  lemma WriteFollows(s: State, c: Client, sizeOk: bool, copyOk: bool, hws: nat -> Hardware)
    requires Inv(s)
    ensures Follows(s, Write(s, c, sizeOk, copyOk, hws), Moved(s, DoWrite(c, sizeOk, copyOk, hws)))
  {
    hide WriteTries, Taken, TakenFrom, Upper, Sane, DspInv;
    if s.ops.state == OpsIdle && sizeOk && copyOk {
      TriesEnd(s.(ops := s.ops.(state := OpsCmd, commander := c)), hws, 0);
      SameTaken(hws);
    }
  }

  /** In every state, every event moves the command as written above, and no other way. */
  lemma MovesExactly(s: State, e: Event)
    requires Inv(s) && Enabled(s, e)
    ensures Follows(s, Step(s, e), Moved(s, e))
  {
    hide Inv, Write, Read, Release, DspReply, DspTimeout, NotifyRP, NotifyRPQ, MceTimer, DoHst, Taken;
    match e
    case DoWrite(c, sizeOk, copyOk, hws) => WriteFollows(s, c, sizeOk, copyOk, hws);
    case DoRead(c) => ReadFollows(s, c);
    case DoRelease(c) => ReadFollows(s, c);
    case GotDspReply(code, ack, packet) => ReplyFollows(s, code, ack, packet);
    case GotDspTimeout => TimeoutFollows(s);
    case GotNotifyRP(error, hw) => NotifyFollows(s, error, hw);
    case GotNotifyRPQ(error, packet) => QuietFollows(s, error, packet);
    case GotMceTimer => TimerFollows(s);
    case RunHstTasklet(hw) => TaskletFollows(s, hw);
    case _ =>
  }

  lemma ReadFollows(s: State, c: Client)
    ensures Read(s, c).0.mce == s.mce && Read(s, c).0.log == s.log
    ensures Release(s, c).mce == s.mce && Release(s, c).log == s.log
  {}

  /** From CONOK, a notification without error always lets the DSP go. If DSP and card are free, HST for this
      very command is outstanding; if either is busy, the tasklet is to run; a broken card ends the command. */
  lemma NotificationFetches(s: State, hw: Hardware)
    requires Inv(s) && s.mce.state == ConOk
    ensures var t := Step(s, GotNotifyRP(false, hw));
            !t.dsp.reserve &&
            if s.dsp.cmd || Urged(s.dsp) || hw == Blocked then
              t.mce.state == Nfy && t.mce.hstScheduled && Enabled(t, RunHstTasklet(hw))
            else if hw == Accepts then
              && t.mce.state == Hst
              && t.dsp.cmd && t.dsp.owner == ForHst && t.dsp.last == HST && t.dsp.servedFor == t.accepted - 1
            else t.mce.state == Idle && t.log == s.log + [Failed(IntFailure)]
  {
    hide NotifyRP, Upper, Sane;
    MovesExactly(s, GotNotifyRP(false, hw));
    StepKeepsInv(s, GotNotifyRP(false, hw));
  }

  // ----- what a client reads -----

  /** When a command ends while the device waits for it, every client that may see the device reads just its
      outcome, once: the packet, or the error and nothing. On a closed channel the others see nothing. */
  lemma OutcomeIsRead(s: State, e: Event, c: Client)
    requires Inv(s) && Enabled(s, e) && Moved(s, e).End? && s.ops.state == OpsCmd
    ensures var t, o := Step(s, e), Moved(s, e).outcome;
            var (u, r) := Read(t, c);
            if s.ops.commander in s.files.closedChannel && c != s.ops.commander then
              r == Nothing(NotActive) && u == t && Read(s, c) == (s, Nothing(NotActive))
            else
              && Read(s, c) == (s, Blocks)
              && r == (match o case Reply(packet) => Got(packet) case Failed(error) => Nothing(error))
              && u.ops.state == OpsIdle && u.log == t.log && Read(u, c).1 == Nothing(NotActive)
  {
    hide Inv, Enabled, Step, Moved;
    MovesExactly(s, e);
    EndsNoFile(s, e);
  }

  lemma EndsNoFile(s: State, e: Event)
    requires Inv(s) && Moved(s, e).End?
    ensures Step(s, e).files == s.files
  {
    hide Inv, Complete, Taken;
    match e
    case GotDspReply(code, ack, packet) =>
      if s.dsp.cmd {
        ReplyFrees(s, code, ack, packet);
      }
    case GotDspTimeout => CallbackUrges(s.(dsp := s.dsp.(cmd := false)), TimedOut);
    case GotNotifyRP(error, hw) => NotifyFiles(s, error, NO_PACKET, hw);
    case GotNotifyRPQ(error, packet) => NotifyFiles(s, error, packet, Accepts);
    case GotMceTimer => KeptByComplete(Unreserve(s), Failed(Timeout));
    case RunHstTasklet(hw) => HstFiles(s.(mce := s.mce.(hstScheduled := false)), hw);
    case _ =>
  }

  lemma HstFiles(s: State, hw: Hardware)
    ensures DoHst(s, hw).files == s.files
  {}

  lemma NotifyFiles(s: State, error: bool, packet: Packet, hw: Hardware)
    ensures NotifyRP(s, error, hw).files == s.files && NotifyRPQ(s, error, packet).files == s.files
  {
    hide WriteCallback, DoHst;
    HstFiles(Unreserve(s.(mce := s.mce.(state := Nfy, tries := 0))), hw);
  }

  /** A client that has asked to close cleanly and closes while its command is open gives up the outcome: the
      command ends as before, but no client reads anything. Otherwise closing changes nothing. */
  lemma ClosingDrops(s: State, c: Client, closed: bool, cleanly: bool, e: Event, d: Client)
    requires Inv(s) && s.ops.state == OpsCmd && s.ops.commander == c
    requires var t := Step(Step(s, DoSetProperties(c, closed, cleanly)), DoRelease(c));
             Enabled(t, e) && Moved(t, e).End?
    ensures var t := Step(Step(s, DoSetProperties(c, closed, cleanly)), DoRelease(c));
            var u, o := Step(t, e), Moved(t, e).outcome;
            && u.log == s.log + [o]
            && Read(u, d).1 == if cleanly || (closed && d != c) then Nothing(NotActive)
                               else match o case Reply(packet) => Got(packet) case Failed(error) => Nothing(error)
  {
    hide Inv, Enabled, Moved;
    var s0 := Step(s, DoSetProperties(c, closed, cleanly));
    var t := Step(s0, DoRelease(c));
    SettingEnabled(s, c, closed, cleanly);
    StepKeepsInv(s, DoSetProperties(c, closed, cleanly));
    StepKeepsInv(s0, DoRelease(c));
    hide Step;
    MovesExactly(t, e);
    EndsNoFile(t, e);
  }

  lemma SettingEnabled(s: State, c: Client, closed: bool, cleanly: bool)
    ensures Enabled(s, DoSetProperties(c, closed, cleanly))
    ensures Enabled(Step(s, DoSetProperties(c, closed, cleanly)), DoRelease(c))
  {}

  // ----- the ways through -----

  /** A command of client `c` has come as far as `state`; it is number `n`, after the outcomes of `log`. No
      urgent task waits, and the DSP is busy only with the command itself. */
  ghost predicate At(s: State, c: Client, state: MceState, n: nat, log: seq<Outcome>) {
    && Inv(s) && s.mce.state == state && s.ops.state == OpsCmd && s.ops.commander == c
    && s.accepted == n + 1 && s.log == log && !Urged(s.dsp) && (s.dsp.cmd <==> state in {Con, Hst})
  }

  lemma KeptByComplete(s: State, o: Outcome)
    ensures Complete(s, o).dsp == s.dsp && Complete(s, o).accepted == s.accepted && Complete(s, o).files == s.files
  {}

  /** The same tasks are urgent, the same commands accepted, and the same files open. */
  predicate AsUrgent(s: State, t: State) {
    && t.dsp.rpc == s.dsp.rpc && t.dsp.dspInt == s.dsp.dspInt && t.dsp.inform == s.dsp.inform
    && t.accepted == s.accepted && t.files == s.files
  }

  lemma ConUrges(s: State, m: Message)
    ensures AsUrgent(s, OnCon(s, m))
    ensures m == Msg(CON, true) ==> OnCon(s, m).ops == s.ops
  {
    hide Complete;
    if s.mce.state == Con && m != Msg(CON, true) {
      var error := if m.TimedOut? then IntUnknown else if m.code != CON then IntProto else IntFailure;
      KeptByComplete(s, Failed(error));
    }
  }

  lemma HstUrges(s: State, m: Message)
    ensures AsUrgent(s, OnHst(s, m))
  {
    hide Complete;
    if s.mce.state == Hst {
      var error := if m.TimedOut? then IntUnknown else if m.code != HST then IntProto else IntFailure;
      KeptByComplete(s, if m == Msg(HST, true) then Reply(s.mce.buffer) else Failed(error));
    }
  }

  lemma CallbackUrges(s: State, m: Message)
    ensures AsUrgent(s, Callback(s, m))
    ensures s.dsp.owner == ForCon && m == Msg(CON, true) ==> Callback(s, m).ops == s.ops
  {
    hide OnCon, OnHst;
    ConUrges(s, m);
    HstUrges(s, m);
  }

  /** A reply ends the DSP command, and urges nothing. */
  lemma ReplyFrees(s: State, code: Code, ack: bool, packet: Packet)
    requires s.dsp.cmd
    ensures AsUrgent(s, DspReply(s, code, ack, packet)) && !DspReply(s, code, ack, packet).dsp.cmd
    ensures s.dsp.owner == ForCon && ack && code == CON ==> DspReply(s, code, ack, packet).ops == s.ops
  {
    hide Callback;
    CallbackUrges(if s.dsp.owner == ForHst && ack then s.(mce := s.mce.(buffer := packet)) else s, Msg(code, ack));
  }

  lemma WrittenAt(s: State, c: Client, hws: nat -> Hardware)
    requires Inv(s) && s.mce.state == Idle && s.ops.state == OpsIdle && !s.dsp.cmd && !Urged(s.dsp) && Taken(hws)
    ensures At(Step(s, DoWrite(c, true, true, hws)), c, Con, s.accepted, s.log)
    ensures WriteAnswer(s, c, true, true, hws) == Written
  {
    hide Inv, Write, WriteAnswer, Taken;
    WriteExactly(s, c, true, true, hws);
    StepKeepsInv(s, DoWrite(c, true, true, hws));
  }

  lemma ConnectedAt(s: State, c: Client, n: nat, log: seq<Outcome>, any: Packet)
    requires At(s, c, Con, n, log)
    ensures Enabled(s, GotDspReply(CON, true, any))
    ensures At(Step(s, GotDspReply(CON, true, any)), c, ConOk, n, log)
  {
    hide DspReply, Moved, Upper, Sane;
    var e := GotDspReply(CON, true, any);
    assert s.dsp.cmd && s.dsp.owner == ForCon && s.dsp.last == CON;
    MovesExactly(s, e);
    assert Moved(s, e) == To(ConOk) by { MovedFromCon(s, any); }
    StepKeepsInv(s, e);
    ReplyFrees(s, CON, true, any);
  }

  lemma MovedFromCon(s: State, any: Packet)
    requires s.mce.state == Con
    ensures Moved(s, GotDspReply(CON, true, any)) == To(ConOk)
  {}

  lemma FetchKeeps(s: State, hw: Hardware)
    requires s.mce.state == Nfy && hw != Broken
    ensures var t := DoHst(s, hw);
            && t.ops == s.ops && t.accepted == s.accepted && t.files == s.files && t.log == s.log
            && Urged(t.dsp) == Urged(s.dsp) && (t.dsp.cmd <==> s.dsp.cmd || t.mce.state == Hst)
  {}

  /** Told of the reply, the driver lets the DSP go and sends HST for its own command; if the DSP or the card is
      busy, a tasklet is to try again. */
  lemma NotifiedAt(s: State, c: Client, n: nat, log: seq<Outcome>, hw: Hardware)
    requires At(s, c, ConOk, n, log) && hw != Broken
    ensures var t := Step(s, GotNotifyRP(false, hw));
            && At(t, c, if hw == Accepts then Hst else Nfy, n, log) && !t.dsp.reserve
            && (hw == Accepts ==> t.dsp.owner == ForHst && t.dsp.last == HST && t.dsp.servedFor == n)
            && (hw == Blocked ==> Enabled(t, RunHstTasklet(hw)))
  {
    hide DoHst, Moved, Upper, Sane;
    var e := GotNotifyRP(false, hw);
    MovesExactly(s, e);
    assert Moved(s, e) == To(if hw == Accepts then Hst else Nfy) by { MovedFromConOk(s, hw); }
    StepKeepsInv(s, e);
    FetchKeeps(Unreserve(s.(mce := s.mce.(state := Nfy, tries := 0))), hw);
  }

  lemma MovedFromConOk(s: State, hw: Hardware)
    requires s.mce.state == ConOk && !s.dsp.cmd && !Urged(s.dsp) && hw != Broken
    ensures Moved(s, GotNotifyRP(false, hw)) == To(if hw == Accepts then Hst else Nfy)
  {}

  lemma TriedAt(s: State, c: Client, n: nat, log: seq<Outcome>, hw: Hardware)
    requires At(s, c, Nfy, n, log) && hw != Broken
    ensures Enabled(s, RunHstTasklet(hw))
    ensures At(Step(s, RunHstTasklet(hw)), c, if hw == Accepts then Hst else Nfy, n, log)
  {
    hide DoHst, Moved, Upper, Sane;
    var e := RunHstTasklet(hw);
    MovesExactly(s, e);
    assert Moved(s, e) == To(if hw == Accepts then Hst else Nfy) by { MovedFromNfy(s, hw); }
    StepKeepsInv(s, e);
    FetchKeeps(s.(mce := s.mce.(hstScheduled := false)), hw);
  }

  lemma MovedFromNfy(s: State, hw: Hardware)
    requires s.mce.state == Nfy && !s.dsp.cmd && !Urged(s.dsp) && hw != Broken
    ensures Moved(s, RunHstTasklet(hw)) == To(if hw == Accepts then Hst else Nfy)
  {}

  /** The reply has been fetched: the command is over, and its client reads the packet. */
  predicate Replied(t: State, c: Client, n: nat, log: seq<Outcome>, packet: Packet) {
    && t.mce.state == Idle && t.accepted == n + 1 && t.log == log + [Reply(packet)]
    && Read(t, c).1 == Got(packet) && Read(t, c).0.ops.state == OpsIdle
  }

  lemma FetchedAt(s: State, c: Client, n: nat, log: seq<Outcome>, packet: Packet)
    requires At(s, c, Hst, n, log)
    ensures Enabled(s, GotDspReply(HST, true, packet))
    ensures Replied(Step(s, GotDspReply(HST, true, packet)), c, n, log, packet)
  {
    hide DspReply, Moved, Upper, Sane, Read;
    var e := GotDspReply(HST, true, packet);
    assert s.dsp.cmd && s.dsp.owner == ForHst && s.dsp.last == HST;
    assert Moved(s, e) == End(Reply(packet)) by { MovedFromHst(s, packet); }
    MovesExactly(s, e);
    OutcomeIsRead(s, e, c);
    ReplyFrees(s, HST, true, packet);
  }

  lemma MovedFromHst(s: State, packet: Packet)
    requires s.mce.state == Hst
    ensures Moved(s, GotDspReply(HST, true, packet)) == End(Reply(packet))
  {}

  /** After CON: the notification, as many tasklet runs as the card is busy for, and the reply to HST. */
  function Fetch(busy: nat, packet: Packet): seq<Event> {
    (if busy == 0 then [GotNotifyRP(false, Accepts)]
     else [GotNotifyRP(false, Blocked)] + Trying(busy - 1)) + [GotDspReply(HST, true, packet)]
  }

  function Trying(busy: nat): seq<Event> {
    if busy == 0 then [RunHstTasklet(Accepts)] else [RunHstTasklet(Blocked)] + Trying(busy - 1)
  }

  lemma {:induction false} TryingAt(s: State, c: Client, n: nat, log: seq<Outcome>, busy: nat)
    requires At(s, c, Nfy, n, log)
    ensures Possible(s, Trying(busy)) && At(Run(s, Trying(busy)), c, Hst, n, log)
    decreases busy
  {
    hide At, Step, Enabled;
    if busy == 0 {
      TriedAt(s, c, n, log, Accepts);
      RunOne(s, RunHstTasklet(Accepts));
    } else {
      TriedAt(s, c, n, log, Blocked);
      RunOne(s, RunHstTasklet(Blocked));
      TryingAt(Step(s, RunHstTasklet(Blocked)), c, n, log, busy - 1);
      PossibleConcat(s, [RunHstTasklet(Blocked)], Trying(busy - 1));
    }
  }

  lemma FetchAt(s: State, c: Client, n: nat, log: seq<Outcome>, busy: nat, packet: Packet)
    requires At(s, c, ConOk, n, log)
    ensures Possible(s, Fetch(busy, packet)) && Replied(Run(s, Fetch(busy, packet)), c, n, log, packet)
  {
    hide At, Step, Enabled, Run, Possible, Replied, Trying;
    var hw := if busy == 0 then Accepts else Blocked;
    var first, last := GotNotifyRP(false, hw), GotDspReply(HST, true, packet);
    NotifiedAt(s, c, n, log, hw);
    AnyNotification(s, hw);
    RunOne(s, first);
    if busy == 0 {
      FetchedAt(Run(s, [first]), c, n, log, packet);
      RunThen(s, [first], last);
    } else {
      TryingAt(Run(s, [first]), c, n, log, busy - 1);
      PossibleConcat(s, [first], Trying(busy - 1));
      FetchedAt(Run(s, [first] + Trying(busy - 1)), c, n, log, packet);
      RunThen(s, [first] + Trying(busy - 1), last);
    }
  }

  lemma AnyNotification(s: State, hw: Hardware)
    ensures Enabled(s, GotNotifyRP(false, hw))
  {}

  /** From any idle state: a client writes a command, the card takes it, acknowledges CON, notifies of the reply,
      is busy for any number of tries, and then acknowledges HST with a packet. The client reads that packet. */
  lemma WayThrough(s: State, c: Client, hws: nat -> Hardware, busy: nat, any: Packet, packet: Packet)
    requires Inv(s) && s.mce.state == Idle && s.ops.state == OpsIdle && !s.dsp.cmd && !Urged(s.dsp) && Taken(hws)
    ensures var events := [DoWrite(c, true, true, hws), GotDspReply(CON, true, any)] + Fetch(busy, packet);
            Possible(s, events) && Replied(Run(s, events), c, s.accepted, s.log, packet)
  {
    hide Inv, Step, Enabled, Run, Possible, Taken, At, Fetch, Replied;
    Connected(s, c, hws, any);
    var start := [DoWrite(c, true, true, hws), GotDspReply(CON, true, any)];
    FetchAt(Run(s, start), c, s.accepted, s.log, busy, packet);
    PossibleConcat(s, start, Fetch(busy, packet));
  }

  lemma Connected(s: State, c: Client, hws: nat -> Hardware, any: Packet)
    requires Inv(s) && s.mce.state == Idle && s.ops.state == OpsIdle && !s.dsp.cmd && !Urged(s.dsp) && Taken(hws)
    ensures var start := [DoWrite(c, true, true, hws), GotDspReply(CON, true, any)];
            Possible(s, start) && At(Run(s, start), c, ConOk, s.accepted, s.log)
  {
    hide Inv, Step, Run, Possible, Taken, At;
    var write, ack := DoWrite(c, true, true, hws), GotDspReply(CON, true, any);
    WrittenAt(s, c, hws);
    RunOne(s, write);
    ConnectedAt(Run(s, [write]), c, s.accepted, s.log, any);
    RunThen(s, [write], ack);
    assert [write, ack] == [write] + [ack];
  }

  /** Or the card puts the reply into the buffer itself: the client reads it as soon as it is notified, and the
      card's buffer is cleared when the priority task runs. */
  lemma QuietWay(s: State, c: Client, hws: nat -> Hardware, any: Packet, packet: Packet, hw: Hardware)
    requires Inv(s) && s.mce.state == Idle && s.ops.state == OpsIdle && !s.dsp.cmd && !Urged(s.dsp) && Taken(hws)
    requires hw != Blocked
    ensures var events := [DoWrite(c, true, true, hws), GotDspReply(CON, true, any), GotNotifyRPQ(false, packet)];
            var t := Run(s, events);
            && Possible(s, events) && Replied(t, c, s.accepted, s.log, packet)
            && t.dsp.rpc && !t.dsp.reserve && Enabled(t, RunPriorityTask(hw))
            && !Urged(Step(t, RunPriorityTask(hw)).dsp) && !Step(t, RunPriorityTask(hw)).dsp.scheduled
  {
    hide Inv, Step, Run, Possible, Taken, At, Replied;
    var start, last := [DoWrite(c, true, true, hws), GotDspReply(CON, true, any)], GotNotifyRPQ(false, packet);
    Connected(s, c, hws, any);
    QuietAt(Run(s, start), c, s.accepted, s.log, packet, hw);
    RunThen(s, start, last);
    assert start + [last] == [start[0], start[1], last];
  }

  lemma QuietAt(s: State, c: Client, n: nat, log: seq<Outcome>, packet: Packet, hw: Hardware)
    requires At(s, c, ConOk, n, log) && hw != Blocked
    ensures var t := Step(s, GotNotifyRPQ(false, packet));
            && Replied(t, c, n, log, packet) && t.dsp.rpc && !t.dsp.reserve && t.dsp.scheduled
            && !Urged(Step(t, RunPriorityTask(hw)).dsp) && !Step(t, RunPriorityTask(hw)).dsp.scheduled
  {
    hide Complete, Upper, Sane, Moved, Read;
    var e := GotNotifyRPQ(false, packet);
    assert Moved(s, e) == End(Reply(packet)) by { MovedQuietly(s, packet); }
    MovesExactly(s, e);
    OutcomeIsRead(s, e, c);
    KeptByComplete(s.(mce := s.mce.(buffer := packet)), Reply(packet));
  }

  lemma MovedQuietly(s: State, packet: Packet)
    requires s.mce.state == ConOk
    ensures Moved(s, GotNotifyRPQ(false, packet)) == End(Reply(packet))
  {}

  // ----- frames -----

  /** A frame is counted just when its transfer is acknowledged and the flag is set; a notification starts
      a transfer, and sets the flag, just if the size is right and the DSP and the card are free; otherwise
      the frame is dropped. */
  lemma FramesCounted(s: State, e: Event)
    requires Inv(s) && Enabled(s, e)
    ensures Step(s, e).frames == s.frames + if e.GotDspReply? && Outstanding(s.dsp) && s.mce.dhst then 1 else 0
    ensures e.GotNotifyDA? ==>
              var t := Step(s, e);
              if e.sizeOk && !s.dsp.cmd && !s.dsp.reserve && !Urged(s.dsp) && e.hw == Accepts
              then Outstanding(t.dsp) && t.mce.dhst && t.dsp.last == HST
              else t.mce == s.mce && t.dsp == s.dsp.(last := t.dsp.last)
  {
    hide Inv, Write, Read, Release, WriteCallback, NotifyRP, NotifyRPQ, MceTimer, DoHst, PriorityTask;
    match e
    case DoWrite(c, sizeOk, copyOk, hws) => WriteFrames(s, c, sizeOk, copyOk, hws);
    case DoRead(c) => ReadFrames(s, c);
    case DoRelease(c) => ReadFrames(s, c);
    case GotNotifyRP(error, hw) => NotifyFrames(s, error, NO_PACKET, hw);
    case GotNotifyRPQ(error, packet) => NotifyFrames(s, error, packet, Accepts);
    case GotMceTimer => NotifyFrames(s, true, NO_PACKET, Accepts);
    case RunHstTasklet(hw) => HstFrames(s.(mce := s.mce.(hstScheduled := false)), hw);
    case _ =>
  }

  lemma ReadFrames(s: State, c: Client)
    ensures Read(s, c).0.frames == s.frames && Release(s, c).frames == s.frames
  {}

  lemma HstFrames(s: State, hw: Hardware)
    ensures DoHst(s, hw).frames == s.frames
  {}

  lemma NotifyFrames(s: State, error: bool, packet: Packet, hw: Hardware)
    ensures NotifyRP(s, error, hw).frames == s.frames && NotifyRPQ(s, error, packet).frames == s.frames
    ensures MceTimer(s).frames == s.frames
  {
    hide WriteCallback, DoHst;
    HstFrames(Unreserve(s.(mce := s.mce.(state := Nfy, tries := 0))), hw);
  }

  lemma WriteFrames(s: State, c: Client, sizeOk: bool, copyOk: bool, hws: nat -> Hardware)
    requires Inv(s)
    ensures Write(s, c, sizeOk, copyOk, hws).frames == s.frames
  {
    hide WriteTries, TakenFrom, Upper, Sane, DspInv;
    TryFrames(s.(ops := s.ops.(state := OpsCmd, commander := c)), hws, 0);
  }

  lemma {:induction false} TryFrames(s: State, hws: nat -> Hardware, k: nat)
    requires k <= 10000
    ensures WriteTries(s, hws, k).0.frames == s.frames
    decreases 10000 - k
  {
    var (t, r) := SendMce(s, hws(k));
    if r.Again? && k < 10000 {
      TryFrames(t, hws, k + 1);
    }
  }

  // ----- urgent tasks -----

  /** A task that sends a command: left as it is, sent, or given up. */
  lemma UrgentSent(d: Dsp, code: Code, owner: Owner, hw: Hardware)
    requires owner in {ForWait, ForGrant}
    ensures var t := Urgent(d, code, owner, hw);
            var done := if owner == ForWait then d.(dspInt := false) else d.(inform := false);
            if d.cmd || d.reserve then t == d
            else
              match hw
              case Blocked => t == d.(last := code)
              case Broken => t == done.(last := code)
              case Accepts => t == done.(last := code, cmd := true, owner := owner, servedFor := 0)
  {
    hide Send;
    if d.cmd || d.reserve {
      SendRefused(d, code, owner, Priority, 0, hw);
    } else {
      SendTried(d, code, owner, Priority, 0, hw);
    }
  }

  /** One run of the priority task does one thing: it clears the card's reply buffer, as long as no command is
      outstanding; else it sends the internal command, or else the grant, as long as the DSP is free. The card
      being busy leaves the task as it is; an error gives it up. It runs again if and only if one is left. */
  lemma TasksInTurn(d: Dsp, hw: Hardware)
    ensures var t := PriorityTask(d, hw);
            var free := !d.cmd && !d.reserve;
            && t.scheduled == Urged(t)
            && (d.rpc ==> t == d.(rpc := d.cmd || hw == Blocked, scheduled := t.scheduled))
            && (!d.rpc && d.dspInt ==>
                  && t.dspInt == (!free || hw == Blocked) && t.inform == d.inform && !t.rpc
                  && (if free && hw == Accepts then t.cmd && t.owner == ForWait && t.last == d.localCode
                      else t.cmd == d.cmd && t.owner == d.owner))
            && (!d.rpc && !d.dspInt && d.inform ==>
                  && t.inform == (!free || hw == Blocked) && !t.dspInt && !t.rpc
                  && (if free && hw == Accepts then t.cmd && t.owner == ForGrant && t.last == QTS
                      else t.cmd == d.cmd && t.owner == d.owner))
            && (!Urged(d) ==> t == d.(scheduled := false))
  {
    hide Urgent;
    UrgentSent(d.(scheduled := false), d.localCode, ForWait, hw);
    UrgentSent(d.(scheduled := false), QTS, ForGrant, hw);
  }
}

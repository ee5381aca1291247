/** The command exchange with its link made of the node's mailbox: interrupts, double buffers and all. */
module MailboxExchange {
  import opened Bytes
  import opened Codec
  import opened RetryQueue
  import opened Mailbox
  import opened MailboxSafety
  import Exchange = CommandExchange

  type Packet = Exchange.Packet

  const NO_PACKET := Exchange.Packet([], None)

  /**
   * Both ends (the controller, the node's sequence number and the history of the exchange) and the
   * node's mailbox. The packets say which message the waiting mail, the frame being published, the
   * frame last published and each finished read are copies of; no step of the code depends on them.
   */
  datatype Bench = Bench(
    ends: Exchange.System, world: World, mail: Packet, sending: Packet, current: Packet, served: seq<Packet>)

  /**
   * The controller sends, and takes the result of some finished read, or of a bus error; the handler
   * runs, at the end of a write of `packet`; the node polls and answers, or beats, and then copies and commits.
   */
  datatype Action =
    | Send(now: Word)
    | Receive(read: Option<nat>)
    | Interrupted(irq: Interrupt, packet: Packet)
    | PollAndAnswer
    | Beat(uptime: Word)
    | CopyNext
    | Finish

  function PowerOn(start: Word): Bench {
    Bench(Exchange.Setup(start), START, NO_PACKET, NO_PACKET, NO_PACKET, [])
  }

  /** Mail is a copy of the packet, or damage that its checks reveal. */
  predicate Carries(commands: set<Packet>, packet: Packet, mail: seq<Byte>) {
    (packet in commands && mail == packet.bytes) || Decode(mail).Err?
  }

  predicate HandsOver(w: World, irq: Interrupt) {
    !w.box.rxReady && OnIrq(w, irq).box.rxReady
  }

  /** The bus loses, repeats, delays, reorders and damages, but does not forge. */
  predicate Can(b: Bench, a: Action) {
    match a
    case Send(_) => b.ends.inLoop.None?
    case Receive(read) => b.ends.inLoop.Some? && (read.Some? ==> read.value < |b.world.log.finished| == |b.served|)
    case Interrupted(irq, packet) =>
      HandsOver(b.world, irq) ==> Carries(b.ends.commands, packet, Unread(OnIrq(b.world, irq).box)[0])
    case PollAndAnswer => b.world.main.Free?
    case Beat(_) => b.world.main.Free?
    case CopyNext => true
    case Finish => true
  }

  /** The bytes the controller gets. */
  function BytesRead(b: Bench, read: Option<nat>): seq<Byte>
    requires Can(b, Receive(read))
  {
    match read case None => [] case Some(i) => b.world.log.finished[i].bytes
  }

  /** The message they are of, if they are of one. */
  function MessageRead(b: Bench, read: Option<nat>): Option<Packet>
    requires Can(b, Receive(read))
  {
    match read
    case None => None
    case Some(i) =>
      var r := b.world.log.finished[i];
      if r.lead == 0 && r.source.Some? then Some(b.served[i]) else None
  }

  function OnReceived(b: Bench, read: Option<nat>): Exchange.System
    requires Can(b, Receive(read))
  {
    var c, now, bytes := b.ends.controller, b.ends.inLoop.value, BytesRead(b, read);
    var (c', resolution) := Exchange.MaybeReceive(c, now, bytes);
    b.ends.(controller := c', inLoop := None, readAt := b.ends.readAt + Exchange.ReadTick(c, now),
      arrivals := b.ends.arrivals
        + Exchange.Witnessed(c, b.ends.newest, now, MessageRead(b, read), |bytes|, resolution))
  }

  function OnInterrupted(b: Bench, irq: Interrupt, packet: Packet): Bench {
    var w := OnIrq(b.world, irq);
    var n := |w.log.finished| - |b.world.log.finished|;
    b.(world := w, mail := if HandsOver(b.world, irq) then packet else b.mail,
       served := b.served + seq(if n < 0 then 0 else n, _ => b.current))
  }

  function Begin(b: Bench, f: Frame, about: Option<nat>): Bench {
    var packet := Exchange.Packet(Encode(f), about);
    b.(world := Next(b.world, BeginPublish(f)), sending := packet,
       ends := b.ends.(replies := b.ends.replies + {packet}))
  }

  /** What `poll` takes, if there is mail. */
  function Taken(b: Bench): Option<seq<Byte>> {
    TakeMail(b.world.box).1
  }

  function Answer(b: Bench): (Byte, Option<Frame>) {
    Exchange.NodeTurn(b.ends.response, Taken(b))
  }

  function OnTaken(b: Bench): Bench {
    var good := Taken(b).Some? && Decode(Taken(b).value).Ok? && b.mail.about.Some?;
    b.(world := Next(b.world, Poll), ends := b.ends.(response := Answer(b).0,
      polled := b.ends.polled + if good then {b.mail.about.value} else {}))
  }

  /** The poll and its answer, as in the node's main loop. */
  function OnPolled(b: Bench): Bench {
    match Answer(b).1 case None => OnTaken(b) case Some(ack) => Begin(OnTaken(b), ack, b.mail.about)
  }

  function Counted(b: Bench): Bench {
    b.(ends := b.ends.(response := (b.ends.response + 1) % 256))
  }

  /** A heartbeat uses up a sequence number. */
  function OnBeat(b: Bench, uptime: Word): Bench {
    Begin(Counted(b), Exchange.HeartbeatFrame(b.ends.response, uptime), None)
  }

  function OnFinished(b: Bench): Bench {
    var m := b.world.main;
    var succeeds := m.Copying? && m.next == |Encode(m.frame)| && b.world.box.txIndex == 0;
    b.(world := Next(b.world, Commit), current := if succeeds then b.sending else b.current)
  }

  function Perform(b: Bench, a: Action): Bench
    requires Can(b, a)
  {
    match a
    case Send(now) => b.(ends := Exchange.Happen(b.ends, Exchange.LoopSend(now)))
    case Receive(read) => b.(ends := OnReceived(b, read))
    case Interrupted(irq, packet) => OnInterrupted(b, irq, packet)
    case PollAndAnswer => OnPolled(b)
    case Beat(uptime) => OnBeat(b, uptime)
    case CopyNext => b.(world := Next(b.world, CopyByte))
    case Finish => OnFinished(b)
  }

  /** Any sequence of actions; one that cannot happen now changes nothing. */
  function PerformAll(start: Word, actions: seq<Action>): Bench {
    if actions == [] then PowerOn(start)
    else
      var b, a := PerformAll(start, actions[..|actions| - 1]), actions[|actions| - 1];
      if Can(b, a) then Perform(b, a) else b
  }

  // ---------------------------------------------------------------- invariant

  /** The packet is a reply of the node, and carries this frame. */
  ghost predicate IsReply(replies: set<Packet>, p: Packet, f: Option<Frame>) {
    f.Some? ==> p in replies && p.bytes == Encode(f.value)
  }

  ghost predicate MailInv(b: Bench) {
    b.world.box.rxReady ==> Carries(b.ends.commands, b.mail, Unread(b.world.box)[0])
  }

  ghost predicate ServedInv(b: Bench) {
    && |b.served| == |b.world.log.finished|
    && forall i | 0 <= i < |b.served| :: IsReply(b.ends.replies, b.served[i], b.world.log.finished[i].source)
  }

  ghost predicate PublishInv(b: Bench) {
    && IsReply(b.ends.replies, b.current, b.world.log.published)
    && IsReply(b.ends.replies, b.sending, if b.world.main.Copying? then Some(b.world.main.frame) else None)
  }

  ghost predicate BenchInv(b: Bench) {
    WorldInv(b.world) && MailInv(b) && ServedInv(b) && PublishInv(b)
  }

  // ---------------------------------------------------------------- what the mailbox serves, the link delivers

  /** To the controller, a read of the mailbox is a read of one reply of the link, or of nothing. */
  lemma MailboxReadIsLinkRead(c: Exchange.Controller, r: Read)
    requires Clean(r)
    ensures Exchange.ReceiveAcknowledgement(c, r.bytes) ==
      if r.lead == 0 && r.source.Some? then
        Exchange.ReceiveAcknowledgement(c, Stretch(Encode(r.source.value), |r.bytes|))
      else (c, NotFound)
  {
    ControllerReadsExactly(r);
    if r.lead == 0 && r.source.Some? {
      assert r.bytes == Stretch(Encode(r.source.value), |r.bytes|);
    }
  }

  lemma ReceiveIsLinkEvent(b: Bench, read: Option<nat>)
    requires BenchInv(b) && Can(b, Receive(read))
    ensures var e := Exchange.LoopReceive(MessageRead(b, read), |BytesRead(b, read)|);
      Exchange.Possible(b.ends, e) && OnReceived(b, read) == Exchange.Happen(b.ends, e)
  {
    var c := b.ends.controller.(lastReceiveMs := b.ends.inLoop.value);
    var reply, bytes := MessageRead(b, read), BytesRead(b, read);
    Exchange.EmptyReadResolvesNothing(c);
    if read.Some? {
      MailboxReadIsLinkRead(c, b.world.log.finished[read.value]);
    }
    assert Exchange.ReceiveAcknowledgement(c, bytes)
        == Exchange.ReceiveAcknowledgement(c, Exchange.ReadOf(reply, |bytes|));
  }

  lemma GoodMailIsCommand(b: Bench)
    requires BenchInv(b) && Taken(b).Some? && Decode(Taken(b).value).Ok?
    ensures b.mail in b.ends.commands && b.mail.bytes == Taken(b).value
  {
  }

  /** The poll of a good mail is the link's delivery of a command; of a damaged one, nothing. */
  lemma PollIsLinkEvent(b: Bench)
    requires BenchInv(b) && b.world.main.Free?
    ensures if Taken(b).Some? && Decode(Taken(b).value).Ok? then
        && Exchange.Possible(b.ends, Exchange.NodePoll(b.mail))
        && OnPolled(b).ends == Exchange.Happen(b.ends, Exchange.NodePoll(b.mail))
      else OnPolled(b).ends == b.ends
  {
    if Taken(b).Some? && Decode(Taken(b).value).Ok? {
      GoodMailIsCommand(b);
    }
  }

  // ---------------------------------------------------------------- every action keeps it

  /** All reads finished since `base`, and the current one, are of the frame published then. */
  ghost predicate FinishedSince(base: Log, log: Log) {
    && log.published == base.published && base.finished <= log.finished
    && (log.reading.source.Some? ==> log.reading.source == base.published)
    && forall i | |base.finished| <= i < |log.finished| && log.finished[i].source.Some? ::
         log.finished[i].source == base.published
  }

  lemma ServeFinishes(base: Log, w: World)
    requires FinishedSince(base, w.log)
    ensures FinishedSince(base, OnServe(w).log)
  {
  }

  lemma StopFinishes(base: Log, w: World)
    requires FinishedSince(base, w.log)
    ensures FinishedSince(base, OnStop(w).log)
  {
  }

  lemma AbortFinishes(base: Log, w: World)
    requires FinishedSince(base, w.log)
    ensures FinishedSince(base, OnAbort(w).log)
  {
  }

  /** The reads that one run of the handler finishes are of the frame published before it. */
  lemma InterruptFinishes(w: World, irq: Interrupt)
    requires w.log.reading.source.Some? ==> w.log.reading.source == w.log.published
    ensures FinishedSince(w.log, OnIrq(w, irq).log)
  {
    var w1 := if irq.rxFull then OnReceive(w, irq.data) else w;
    ServeFinishes(w.log, w1);
    var w2 := if irq.rdReq then OnServe(w1) else w1;
    StopFinishes(w.log, w2);
    var w3 := if irq.stopDet then OnStop(w2) else w2;
    AbortFinishes(w.log, w3);
  }

  lemma InterruptKeepsMail(b: Bench, irq: Interrupt, packet: Packet)
    requires BenchInv(b) && Can(b, Interrupted(irq, packet))
    ensures MailInv(OnInterrupted(b, irq, packet))
  {
    if b.world.box.rxReady {
      IrqKeepsUnread(b.world, irq);
    }
  }

  lemma InterruptKeepsInvariant(b: Bench, irq: Interrupt, packet: Packet)
    requires BenchInv(b) && Can(b, Interrupted(irq, packet))
    ensures BenchInv(OnInterrupted(b, irq, packet))
  {
    IrqKeepsTx(b.world, irq);
    IrqKeepsRx(b.world, irq);
    InterruptKeepsMail(b, irq, packet);
    InterruptFinishes(b.world, irq);
  }

  lemma MainKeepsWorld(w: World, step: Step)
    requires WorldInv(w) && !step.Irq?
    ensures WorldInv(Next(w, step))
    ensures Next(w, step).log.finished == w.log.finished
    ensures !step.Poll? ==> Next(w, step).box.rxReady == w.box.rxReady && Unread(Next(w, step).box) == Unread(w.box)
  {
    MainKeepsTx(w, step);
    MainKeepsRx(w, step);
    if step.CopyByte? || step.Commit? {
      PublishSparesRx(w, step);
    }
  }

  lemma BeginKeepsInvariant(b: Bench, f: Frame, about: Option<nat>)
    requires BenchInv(b) && b.world.main.Free?
    ensures BenchInv(Begin(b, f, about))
  {
    MainKeepsWorld(b.world, BeginPublish(f));
  }

  /** Both ends may act on their own, as long as no message is forgotten. */
  lemma EndsMayGrow(b: Bench, ends: Exchange.System)
    requires BenchInv(b) && b.ends.commands <= ends.commands && b.ends.replies <= ends.replies
    ensures BenchInv(b.(ends := ends))
  {
  }

  lemma PollOnlyTakes(w: World)
    requires w.main.Free?
    ensures var w' := Next(w, Poll); w'.main == w.main && !w'.box.rxReady && w'.log == w.log.(taken := w'.log.taken)
  {
  }

  lemma TakenKeepsInvariant(b: Bench)
    requires BenchInv(b) && b.world.main.Free?
    ensures BenchInv(OnTaken(b)) && OnTaken(b).world.main.Free?
  {
    var w := Next(b.world, Poll);
    MainKeepsWorld(b.world, Poll);
    PollOnlyTakes(b.world);
    assert BenchInv(b.(world := w));
    EndsMayGrow(b.(world := w), OnTaken(b).ends);
  }

  lemma BeatKeepsInvariant(b: Bench, uptime: Word)
    requires BenchInv(b) && b.world.main.Free?
    ensures BenchInv(OnBeat(b, uptime))
  {
    EndsMayGrow(b, Counted(b).ends);
    BeginKeepsInvariant(Counted(b), Exchange.HeartbeatFrame(b.ends.response, uptime), None);
  }

  lemma CopyKeepsInvariant(b: Bench)
    requires BenchInv(b)
    ensures BenchInv(b.(world := Next(b.world, CopyByte)))
  {
    MainKeepsWorld(b.world, CopyByte);
  }

  lemma FinishedIsPublished(w: World)
    ensures var m, w' := w.main, Next(w, Commit);
      if m.Copying? && m.next == |Encode(m.frame)| then
        && w'.main.Free?
        && w'.log.published == if w.box.txIndex == 0 then Some(m.frame) else w.log.published
      else w' == w
  {
  }

  lemma FinishKeepsInvariant(b: Bench)
    requires BenchInv(b)
    ensures BenchInv(OnFinished(b))
  {
    MainKeepsWorld(b.world, Commit);
    FinishedIsPublished(b.world);
  }

  lemma PerformKeepsInvariant(b: Bench, a: Action)
    requires BenchInv(b) && Can(b, a)
    ensures BenchInv(Perform(b, a))
  {
    match a
    case Send(_) => EndsMayGrow(b, Perform(b, a).ends);
    case Receive(read) => EndsMayGrow(b, OnReceived(b, read));
    case Interrupted(irq, packet) => InterruptKeepsInvariant(b, irq, packet);
    case PollAndAnswer =>
      TakenKeepsInvariant(b);
      if Answer(b).1.Some? {
        BeginKeepsInvariant(OnTaken(b), Answer(b).1.value, b.mail.about);
      }
    case Beat(uptime) => BeatKeepsInvariant(b, uptime);
    case CopyNext => CopyKeepsInvariant(b);
    case Finish => FinishKeepsInvariant(b);
  }

  /** The event of the exchange that an action performs, if any. */
  function EventOf(b: Bench, a: Action): Option<Exchange.Event>
    requires Can(b, a)
  {
    match a
    case Send(now) => Some(Exchange.LoopSend(now))
    case Receive(read) => Some(Exchange.LoopReceive(MessageRead(b, read), |BytesRead(b, read)|))
    case Interrupted(_, _) => None
    case PollAndAnswer =>
      if Taken(b).Some? && Decode(Taken(b).value).Ok? then Some(Exchange.NodePoll(b.mail)) else None
    case Beat(uptime) => Some(Exchange.NodeHeartbeat(uptime))
    case CopyNext => None
    case Finish => None
  }

  lemma PerformIsLinkEvent(b: Bench, a: Action)
    requires BenchInv(b) && Can(b, a)
    ensures match EventOf(b, a)
            case None => Perform(b, a).ends == b.ends
            case Some(e) => Exchange.Possible(b.ends, e) && Perform(b, a).ends == Exchange.Happen(b.ends, e)
  {
    match a
    case Receive(read) => ReceiveIsLinkEvent(b, read);
    case PollAndAnswer => PollIsLinkEvent(b);
    case _ =>
  }

  // ---------------------------------------------------------------- main results

  lemma PowerOnIsGood(start: Word)
    ensures BenchInv(PowerOn(start))
  {
  }

  /** MAIN: every run over the mailbox is, for both ends, a run over the unreliable link. */
  lemma {:induction false} MailboxRefinesLink(start: Word, actions: seq<Action>) returns (events: seq<Exchange.Event>)
    ensures BenchInv(PerformAll(start, actions))
    ensures PerformAll(start, actions).ends == Exchange.After(start, events)
  {
    if actions == [] {
      events := [];
      PowerOnIsGood(start);
    } else {
      events := MailboxRefinesLink(start, actions[..|actions| - 1]);
      var b, a := PerformAll(start, actions[..|actions| - 1]), actions[|actions| - 1];
      if Can(b, a) {
        PerformKeepsInvariant(b, a);
        PerformIsLinkEvent(b, a);
        if EventOf(b, a).Some? {
          var e := EventOf(b, a).value;
          assert (events + [e])[..|events|] == events;
          events := events + [e];
        }
      }
    }
  }

  /**
   * MAIN: so, whatever the interrupts, a read of the mailbox resolves a command as accepted, fewer than
   * 256 commands away from the one it answers, exactly when it answers that command, which the node has polled.
   */
  lemma NoFalseAcceptanceOverMailbox(start: Word, actions: seq<Action>, i: nat)
    requires i < |PerformAll(start, actions).ends.arrivals|
    requires var a := PerformAll(start, actions).ends.arrivals[i];
             a.pending.Some? ==> -256 < a.pending.value - a.madeFor < 256
    ensures var s := PerformAll(start, actions).ends;
      var a := s.arrivals[i];
      && (a.resolution == ResolvedAccepted <==> a.pending == Some(a.madeFor))
      && (a.resolution == ResolvedAccepted ==> a.pending.value in s.polled)
  {
    var events := MailboxRefinesLink(start, actions);
    Exchange.NoFalseAcceptance(start, events, i);
  }
}

/** The command sketch and the Pico node as a stop-and-wait protocol over an unreliable link. */
module CommandExchange {
  import opened Bytes
  import opened Codec
  import opened RetryQueue
  import opened RetryRuns
  import RetryDrive
  import opened MailboxSafety

  const NODE_ID: Byte := 0
  const TIMEOUT: Word := 250
  const ATTEMPTS: Byte := 3
  const COMMAND_INTERVAL: Word := 5000
  const RECEIVE_INTERVAL: Word := 20

  // ---------------------------------------------------------------- the controller sketch

  datatype Controller = Controller(queue: Queue<Word>, sequenceNumber: Byte, lastCommandMs: Word, lastReceiveMs: Word)

  function CommandFrame(sequence: Byte): Frame {
    Frame(COMMAND, 0, NODE_ID, sequence, Padded([0x01, 0x01]), 2)
  }

  function EnqueueCommand(c: Controller, now: Word): (Controller, QueueResult) {
    var (q, r) := Enqueue(c.queue, CommandFrame(c.sequenceNumber), WordClock(now, TIMEOUT));
    (c.(queue := q, sequenceNumber := (c.sequenceNumber + 1) % 256), r)
  }

  /** The bytes handed to the transport, if any. */
  function TransmitDue(c: Controller, now: Word): (Controller, Option<seq<Byte>>) {
    var (q, d) := NextDue(c.queue, WordClock(now, TIMEOUT));
    (c.(queue := q), if d.Send? then Some(Encode(d.frame)) else None)
  }

  /** What one read resolved: `NotFound` also when it holds no acknowledgement. */
  function ReceiveAcknowledgement(c: Controller, read: seq<Byte>): (Controller, AckResolution) {
    match Decode(Trim(read))
    case Err(_) => (c, NotFound)
    case Ok(f) =>
      if f.kind != ACKNOWLEDGEMENT then (c, NotFound)
      else
        match ParseAckFrame(f)
        case None => (c, NotFound)
        case Some(ack) =>
          var (q, r) := Acknowledge(c.queue, f.nodeId, ack.sequence, ack.status);
          (c.(queue := q), r)
  }

  // `loop`, in its three parts.

  predicate CommandIsDue(c: Controller, now: Word) {
    ActiveCount(c.queue.slots) == 0 && (now - c.lastCommandMs) % WORD >= COMMAND_INTERVAL
  }

  function MaybeCommand(c: Controller, now: Word): Controller {
    if CommandIsDue(c, now) then EnqueueCommand(c.(lastCommandMs := now), now).0 else c
  }

  predicate ReceiveIsDue(c: Controller, now: Word) {
    (now - c.lastReceiveMs) % WORD >= RECEIVE_INTERVAL
  }

  function MaybeReceive(c: Controller, now: Word, read: seq<Byte>): (Controller, AckResolution) {
    if ReceiveIsDue(c, now) then ReceiveAcknowledgement(c.(lastReceiveMs := now), read) else (c, NotFound)
  }

  datatype LoopResult = LoopResult(controller: Controller, sent: Option<seq<Byte>>, resolution: AckResolution)

  function Loop(c: Controller, now: Word, read: seq<Byte>): LoopResult {
    var (c2, sent) := TransmitDue(MaybeCommand(c, now), now);
    var (c3, resolution) := MaybeReceive(c2, now, read);
    LoopResult(c3, sent, resolution)
  }

  // ---------------------------------------------------------------- the Pico node

  /** Poll, then acknowledge what asks for it: the next response sequence and the frame published. */
  function NodeReply(response: Byte, polled: DecodeResult): (Byte, Option<Frame>) {
    if polled.Ok? && polled.frame.flags % 2 == 1 then
      ((response + 1) % 256, Some(MakeAckFrame(NODE_ID, response, polled.frame.sequence, Accepted)))
    else (response, None)
  }

  /** The same, for the mail taken, if any. */
  function NodeTurn(response: Byte, mail: Option<seq<Byte>>): (Byte, Option<Frame>) {
    match mail case None => (response, None) case Some(bytes) => NodeReply(response, Decode(bytes))
  }

  function HeartbeatFrame(response: Byte, uptime: Word): Frame {
    Frame(HEARTBEAT, 0, NODE_ID, response,
      Padded([uptime % 256, uptime / 256 % 256, uptime / 0x1_0000 % 256, uptime / 0x100_0000 % 256]), 4)
  }

  /** The receiver of a heartbeat finds the uptime in four payload bytes, least significant first. */
  lemma HeartbeatCarriesUptime(response: Byte, uptime: Word)
    ensures Decode(Encode(HeartbeatFrame(response, uptime))).Ok?
    ensures var f := Decode(Encode(HeartbeatFrame(response, uptime))).frame;
      var p := f.payload[..f.payloadLength];
      && f.kind == 0x01 && f.flags == 0 && f.nodeId == 0 && f.sequence == response
      && |p| == 4
      && p[0] as int + p[1] as int * 0x100 + p[2] as int * 0x1_0000 + p[3] as int * 0x100_0000 == uptime
  {
    RoundTrip(HeartbeatFrame(response, uptime));
    assert uptime / 0x100 / 0x100 == uptime / 0x1_0000 && uptime / 0x1_0000 / 0x100 == uptime / 0x100_0000;
  }

  // ---------------------------------------------------------------- the system

  /** A message on the link, with the number of the command it carries or answers (none for heartbeats). */
  datatype Packet = Packet(bytes: seq<Byte>, about: Option<nat>)

  /** One acknowledgement read completely by the controller: what was pending, what it was made for, what it did. */
  datatype Arrival = Arrival(pending: Option<nat>, madeFor: nat, resolution: AckResolution)

  /**
   * Packets are never removed from the link, so any of them may arrive late, often, in any order or
   * never. `inLoop` is the tick of a loop that has transmitted and not yet read. The rest is history:
   * the number of the newest command, how often each was transmitted, which the node polled, the
   * acknowledgements read, and the ticks at which the loop issued a command and at which it read.
   */
  datatype System = System(
    controller: Controller, inLoop: Option<Word>, response: Byte, commands: set<Packet>, replies: set<Packet>,
    newest: nat, transmitted: multiset<nat>, polled: set<nat>, arrivals: seq<Arrival>,
    issuedAt: seq<Word>, readAt: seq<Word>)

  /** The controller loop in two events, so that the node and the link can act before its read. */
  datatype Event =
    | LoopSend(now: Word)
    | LoopReceive(reply: Option<Packet>, length: nat)
    | NodePoll(command: Packet)
    | NodeHeartbeat(uptime: Word)

  /** The globals of the sketch after `setup`, which queues the first command at once. */
  function AfterSetup(now: Word): Controller {
    EnqueueCommand(Controller(EmptyQueue<Word>(0, ATTEMPTS), 0, 0, 0), now).0
  }

  function Setup(now: Word): System {
    System(AfterSetup(now), None, 0, {}, {}, 0, multiset{}, {}, [], [], [])
  }

  /** The command the controller is waiting for: the newest one, while the queue holds it. */
  function Pending(c: Controller, newest: nat): Option<nat> {
    if ActiveCount(c.queue.slots) == 0 then None else Some(newest)
  }

  predicate Possible(s: System, e: Event) {
    match e
    case LoopSend(_) => s.inLoop.None?
    case LoopReceive(reply, _) => s.inLoop.Some? && (reply.Some? ==> reply.value in s.replies)
    case NodePoll(p) => p in s.commands
    case NodeHeartbeat(_) => true
  }

  /** A read long enough for the acknowledgement it returns. */
  predicate IsCompleteAnswer(reply: Option<Packet>, length: nat) {
    reply.Some? && reply.value.about.Some? && length >= |reply.value.bytes|
  }

  /** A read returns one reply, cut or padded to the length the controller asks for. */
  function ReadOf(reply: Option<Packet>, length: nat): seq<Byte> {
    match reply case None => [] case Some(p) => Stretch(p.bytes, length)
  }

  function NewestAfter(s: System, now: Word): nat {
    if CommandIsDue(s.controller, now) then s.newest + 1 else s.newest
  }

  /** What a transmission puts on the link. */
  function OnLink(sent: Option<seq<Byte>>, newest: nat): set<Packet> {
    match sent case None => {} case Some(bytes) => {Packet(bytes, Some(newest))}
  }

  /** What a read adds to the history. */
  function Witnessed(c: Controller, newest: nat, now: Word, reply: Option<Packet>, length: nat, r: AckResolution)
    : seq<Arrival>
  {
    if ReceiveIsDue(c, now) && IsCompleteAnswer(reply, length) then
      [Arrival(Pending(c, newest), reply.value.about.value, r)]
    else []
  }

  function ReadTick(c: Controller, now: Word): seq<Word> {
    if ReceiveIsDue(c, now) then [now] else []
  }

  function Happen(s: System, e: Event): System
    requires Possible(s, e)
  {
    match e
    case LoopSend(now) =>
      var (c, sent) := TransmitDue(MaybeCommand(s.controller, now), now);
      var newest := NewestAfter(s, now);
      s.(controller := c, inLoop := Some(now), newest := newest, commands := s.commands + OnLink(sent, newest),
         transmitted := s.transmitted + (if sent.Some? then multiset{newest} else multiset{}),
         issuedAt := s.issuedAt + if newest != s.newest then [now] else [])
    case LoopReceive(reply, length) =>
      var c, now := s.controller, s.inLoop.value;
      var (c', resolution) := MaybeReceive(c, now, ReadOf(reply, length));
      s.(controller := c', inLoop := None, readAt := s.readAt + ReadTick(c, now),
         arrivals := s.arrivals + Witnessed(c, s.newest, now, reply, length, resolution))
    case NodePoll(p) =>
      var (response, ack) := NodeReply(s.response, Decode(p.bytes));
      s.(response := response,
         polled := s.polled + if Decode(p.bytes).Ok? && p.about.Some? then {p.about.value} else {},
         replies := s.replies + if ack.Some? then {Packet(Encode(ack.value), p.about)} else {})
    case NodeHeartbeat(uptime) =>
      s.(response := (s.response + 1) % 256,
         replies := s.replies + {Packet(Encode(HeartbeatFrame(s.response, uptime)), None)})
  }

  /** Any sequence of events; one that cannot happen now changes nothing. */
  function RunFrom(s: System, events: seq<Event>): System {
    if events == [] then s
    else
      var s', e := RunFrom(s, events[..|events| - 1]), events[|events| - 1];
      if Possible(s', e) then Happen(s', e) else s'
  }

  function After(start: Word, events: seq<Event>): System {
    RunFrom(Setup(start), events)
  }

  predicate OfNode(e: Event) {
    e.NodePoll? || e.NodeHeartbeat?
  }

  lemma {:induction false} NodeSparesController(s: System, events: seq<Event>)
    requires forall i | 0 <= i < |events| :: OfNode(events[i])
    ensures var s' := RunFrom(s, events);
      s' == s.(response := s'.response, polled := s'.polled, replies := s'.replies)
  {
    if events == [] {
    } else {
      NodeSparesController(s, events[..|events| - 1]);
    }
  }

  /** Whatever the node does in between, the two events are one call of `loop`: state, transmission and resolution. */
  lemma HappenIsLoop(s: System, now: Word, between: seq<Event>, reply: Option<Packet>, length: nat)
    requires s.inLoop.None? && forall i | 0 <= i < |between| :: OfNode(between[i])
    requires reply.Some? ==> reply.value in RunFrom(Happen(s, LoopSend(now)), between).replies
    ensures var s' := RunFrom(Happen(s, LoopSend(now)), between);
      var loop := Loop(s.controller, now, ReadOf(reply, length));
      && Possible(s', LoopReceive(reply, length))
      && var s'' := Happen(s', LoopReceive(reply, length));
         && s''.controller == loop.controller && s''.inLoop.None?
         && s''.commands == s.commands + OnLink(loop.sent, s''.newest)
         && s''.arrivals == s.arrivals + Witnessed(s'.controller, s'.newest, now, reply, length, loop.resolution)
  {
    NodeSparesController(Happen(s, LoopSend(now)), between);
  }

  // ---------------------------------------------------------------- invariant

  /** Command `n` as the queue holds and sends it. */
  function Flagged(n: nat): Frame {
    CommandFrame(n % 256).(flags := 1)
  }

  /** The bytes of a command on the wire, up to its checksum. */
  lemma CommandOnTheWire(n: nat)
    ensures |Encode(Flagged(n))| == 10
    ensures Encode(Flagged(n))[..9] == [0xB7, 1, 0x10, 1, 0, n % 256, 2, 1, 1]
  {
    WireLayout(Flagged(n));
  }

  ghost predicate Waiting(c: Controller, newest: nat) {
    && QueueInv(c.queue) && c.queue.maxAttempts == ATTEMPTS
    && c.sequenceNumber == (newest + 1) % 256
    && forall i | 0 <= i < CAPACITY && c.queue.slots[i].active :: c.queue.slots[i].frame == Flagged(newest)
  }

  /** The queue counts the transmissions of the newest command, and none has had too many. */
  ghost predicate Budgeted(q: Queue<Word>, newest: nat, transmitted: multiset<nat>) {
    && (forall n | n in transmitted :: n <= newest && transmitted[n] <= ATTEMPTS)
    && forall i | 0 <= i < |q.slots| && q.slots[i].active :: q.slots[i].attempts == transmitted[newest]
  }

  ghost predicate GoodCommand(p: Packet, transmitted: multiset<nat>) {
    p.about.Some? && p.about.value in transmitted && p.bytes == Encode(Flagged(p.about.value))
  }

  ghost predicate GoodReply(p: Packet, polled: set<nat>) {
    match p.about
    case None => exists r, u :: p.bytes == Encode(HeartbeatFrame(r, u))
    case Some(n) => n in polled && exists r :: p.bytes == Encode(MakeAckFrame(NODE_ID, r, n % 256, Accepted))
  }

  /** An acknowledgement is taken exactly when the pending command has the same number modulo 256. */
  ghost predicate GoodArrival(a: Arrival, polled: set<nat>) {
    && a.madeFor in polled
    && a.resolution ==
       if a.pending.Some? && a.pending.value % 256 == a.madeFor % 256 then ResolvedAccepted else NotFound
  }

  ghost predicate ControllerInv(s: System) {
    Waiting(s.controller, s.newest) && Budgeted(s.controller.queue, s.newest, s.transmitted)
  }

  ghost predicate LinkInv(s: System) {
    && (forall p | p in s.commands :: GoodCommand(p, s.transmitted))
    && (forall p | p in s.replies :: GoodReply(p, s.polled))
    && (forall n | n in s.polled :: n in s.transmitted)
  }

  ghost predicate HistoryInv(s: System) {
    forall i | 0 <= i < |s.arrivals| :: GoodArrival(s.arrivals[i], s.polled)
  }

  ghost predicate SystemInv(s: System) {
    ControllerInv(s) && LinkInv(s) && HistoryInv(s)
  }

  // ---------------------------------------------------------------- the parts of the loop keep it

  lemma NextLow(n: nat)
    ensures (n % 256 + 1) % 256 == (n + 1) % 256
  {
  }

  lemma FlaggedCommand(n: nat)
    ensures CommandFrame(n % 256).(flags := WithAckFlag(CommandFrame(n % 256).flags)) == Flagged(n)
  {
    assert WithAckFlag(0) == 1;
  }

  /** Issuing only when nothing is pending, the queue always accepts, and holds the one newest command. */
  lemma CommandKeepsWaiting(c: Controller, newest: nat, now: Word)
    requires Waiting(c, newest)
    ensures CommandIsDue(c, now) ==> EnqueueCommand(c, now).1 == Queued
    ensures Waiting(MaybeCommand(c, now), if CommandIsDue(c, now) then newest + 1 else newest)
  {
    if CommandIsDue(c, now) {
      RetryDrive.NoneActive(c.queue.slots);
      StepKeepsInvariant(c.queue, Submit(CommandFrame(c.sequenceNumber)), WordClock(now, TIMEOUT));
      FlaggedCommand(newest + 1);
      NextLow(newest + 1);
    }
  }

  lemma CommandKeepsBudget(c: Controller, newest: nat, transmitted: multiset<nat>, now: Word)
    requires Waiting(c, newest) && Budgeted(c.queue, newest, transmitted)
    ensures Budgeted(MaybeCommand(c, now).queue, if CommandIsDue(c, now) then newest + 1 else newest, transmitted)
  {
    if CommandIsDue(c, now) {
      RetryDrive.NoneActive(c.queue.slots);
    }
  }

  lemma TransmitKeepsWaiting(c: Controller, newest: nat, now: Word)
    requires Waiting(c, newest)
    ensures var (c', sent) := TransmitDue(c, now);
      Waiting(c', newest) && (sent.Some? ==> sent.value == Encode(Flagged(newest)))
  {
    StepKeepsInvariant(c.queue, Tick, WordClock(now, TIMEOUT));
  }

  lemma OneActive(c: Controller, newest: nat, i: nat)
    requires Waiting(c, newest) && i < CAPACITY && c.queue.slots[i].active
    ensures forall j | 0 <= j < CAPACITY && j != i :: !c.queue.slots[j].active
  {
    forall j | 0 <= j < CAPACITY && j != i ensures !c.queue.slots[j].active {
      assert !SameKey(c.queue.slots[if i < j then i else j], c.queue.slots[if i < j then j else i]);
    }
  }

  lemma TransmitKeepsBudget(c: Controller, newest: nat, transmitted: multiset<nat>, now: Word)
    requires Waiting(c, newest) && Budgeted(c.queue, newest, transmitted)
    ensures var (c', sent) := TransmitDue(c, now);
      Budgeted(c'.queue, newest, transmitted + if sent.Some? then multiset{newest} else multiset{})
  {
    var i := FirstIndex(c.queue.slots, Due(WordClock(now, TIMEOUT)));
    if i < CAPACITY {
      OneActive(c, newest, i);
    }
  }

  /** A pending command is sent when it is due and has been sent less than three times, then waits 250 ticks. */
  lemma TransmitsExactly(c: Controller, newest: nat, now: Word, i: nat)
    requires Waiting(c, newest) && i < CAPACITY && c.queue.slots[i].active
    ensures var (c', sent) := TransmitDue(c, now);
      var before, after := c.queue.slots[i], c'.queue.slots[i];
      var due := (now - before.deadline) % WORD < HALF_WORD;
      && (sent.Some? <==> due && before.attempts < 3)
      && (sent.Some? ==> after.active && after.attempts == before.attempts + 1 && after.deadline == (now + 250) % WORD)
      && (due && before.attempts == 3 ==> !after.active)
      && (!due ==> c' == c)
  {
    OneActive(c, newest, i);
    if DeadlineReached(now, c.queue.slots[i].deadline) {
      assert Due(WordClock(now, TIMEOUT))(c.queue.slots[i]);
    } else {
      forall j | 0 <= j < CAPACITY ensures !Due(WordClock(now, TIMEOUT))(c.queue.slots[j]) {}
    }
  }

  /** A newly issued command is due at once. */
  lemma IssuedIsDue(c: Controller, newest: nat, now: Word, i: nat)
    requires Waiting(c, newest) && CommandIsDue(c, now) && i < CAPACITY && MaybeCommand(c, now).queue.slots[i].active
    ensures MaybeCommand(c, now).queue.slots[i].deadline == now && MaybeCommand(c, now).queue.slots[i].attempts == 0
  {
    RetryDrive.NoneActive(c.queue.slots);
  }

  lemma EmptyReadResolvesNothing(c: Controller)
    ensures ReceiveAcknowledgement(c, []) == (c, NotFound)
  {
  }

  lemma HeartbeatResolvesNothing(c: Controller, p: Packet, polled: set<nat>, length: nat)
    requires GoodReply(p, polled) && p.about.None?
    ensures ReceiveAcknowledgement(c, Stretch(p.bytes, length)) == (c, NotFound)
  {
    var r, u :| p.bytes == Encode(HeartbeatFrame(r, u));
    StretchedFrameDecodes(HeartbeatFrame(r, u), length);
  }

  /** Any complete acknowledgement, of any node and status, is applied to the key it names; a cut one to none. */
  lemma AnswerIsUnderstood(c: Controller, node: Byte, r: Byte, n: Byte, status: AckStatus, length: nat)
    ensures var s := Encode(MakeAckFrame(node, r, n, status));
      ReceiveAcknowledgement(c, Stretch(s, length)) ==
      if length >= |s| then
        var (q, resolution) := Acknowledge(c.queue, node, n, status); (c.(queue := q), resolution)
      else (c, NotFound)
  {
    var f := MakeAckFrame(node, r, n, status);
    StretchedFrameDecodes(f, length);
    AckRoundTrip(node, r, n, status);
    RoundTrip(f);
  }

  /** No other read resolves anything. */
  lemma OtherReadsResolveNothing(c: Controller, read: seq<Byte>)
    requires Decode(Trim(read)).Ok? ==>
      var f := Decode(Trim(read)).frame; f.kind != 0x11 || f.payloadLength != 2 || f.payload[1] > 4
    ensures ReceiveAcknowledgement(c, read) == (c, NotFound)
  {
  }

  lemma AcknowledgeExactly(c: Controller, newest: nat, n: nat)
    requires Waiting(c, newest)
    ensures var (q, resolution) := Acknowledge(c.queue, NODE_ID, n % 256, Accepted);
      var c', pending := c.(queue := q), Pending(c, newest);
      && Waiting(c', newest)
      && resolution == (if pending.Some? && pending.value % 256 == n % 256 then ResolvedAccepted else NotFound)
      && Pending(c', newest) == (if resolution == NotFound then pending else None)
  {
    var q := Remove(c.queue, NODE_ID, n % 256).0;
    RemoveKeepsInvariant(c.queue, NODE_ID, n % 256);
    RetryDrive.NoneActive(c.queue.slots);
    RetryDrive.NoneActive(q.slots);
    var i := FirstIndex(c.queue.slots, Holds(NODE_ID, n % 256));
    if i < CAPACITY {
      OneActive(c, newest, i);
    } else {
      forall j | 0 <= j < CAPACITY && c.queue.slots[j].active ensures newest % 256 != n % 256 {
        assert !Holds<Word>(NODE_ID, n % 256)(c.queue.slots[j]);
      }
    }
  }

  /** A complete answer resolves the pending command exactly when the numbers agree modulo 256; a cut one nothing. */
  lemma AnswerResolvesExactly(c: Controller, newest: nat, polled: set<nat>, p: Packet, length: nat)
    requires Waiting(c, newest) && GoodReply(p, polled) && p.about.Some?
    ensures var (c', resolution) := ReceiveAcknowledgement(c, Stretch(p.bytes, length));
      if length >= |p.bytes| then
        var n, pending := p.about.value, Pending(c, newest);
        && Waiting(c', newest) && c' == c.(queue := c'.queue)
        && resolution == (if pending.Some? && pending.value % 256 == n % 256 then ResolvedAccepted else NotFound)
        && Pending(c', newest) == (if resolution == NotFound then pending else None)
      else c' == c && resolution == NotFound
  {
    var n := p.about.value;
    var r :| p.bytes == Encode(MakeAckFrame(NODE_ID, r, n % 256, Accepted));
    AnswerIsUnderstood(c, NODE_ID, r, n % 256, Accepted, length);
    AcknowledgeExactly(c, newest, n);
  }

  /** What any read of any good reply does to the controller. */
  lemma ReceiveExactly(c: Controller, newest: nat, polled: set<nat>, reply: Option<Packet>, length: nat)
    requires Waiting(c, newest) && (reply.Some? ==> GoodReply(reply.value, polled))
    ensures var (c', resolution) := ReceiveAcknowledgement(c, ReadOf(reply, length));
      if IsCompleteAnswer(reply, length) then
        var n, pending := reply.value.about.value, Pending(c, newest);
        && Waiting(c', newest) && c' == c.(queue := c'.queue)
        && resolution == (if pending.Some? && pending.value % 256 == n % 256 then ResolvedAccepted else NotFound)
        && Pending(c', newest) == (if resolution == NotFound then pending else None)
      else c' == c && resolution == NotFound
  {
    if reply.None? {
      EmptyReadResolvesNothing(c);
    } else if reply.value.about.None? {
      HeartbeatResolvesNothing(c, reply.value, polled, length);
    } else {
      AnswerResolvesExactly(c, newest, polled, reply.value, length);
    }
  }

  lemma ReceiveKeepsBudget(c: Controller, newest: nat, transmitted: multiset<nat>, read: seq<Byte>)
    requires Waiting(c, newest) && Budgeted(c.queue, newest, transmitted)
    ensures Budgeted(ReceiveAcknowledgement(c, read).0.queue, newest, transmitted)
  {
  }

  // ---------------------------------------------------------------- every event keeps it

  lemma SendKeepsController(s: System, now: Word)
    requires SystemInv(s) && s.inLoop.None?
    ensures ControllerInv(Happen(s, LoopSend(now)))
    ensures var sent := TransmitDue(MaybeCommand(s.controller, now), now).1;
      sent.Some? ==> sent.value == Encode(Flagged(NewestAfter(s, now)))
  {
    var c, newest := MaybeCommand(s.controller, now), NewestAfter(s, now);
    CommandKeepsWaiting(s.controller, s.newest, now);
    CommandKeepsBudget(s.controller, s.newest, s.transmitted, now);
    TransmitKeepsWaiting(c, newest, now);
    TransmitKeepsBudget(c, newest, s.transmitted, now);
  }

  lemma SendKeepsLink(s: System, now: Word)
    requires SystemInv(s) && s.inLoop.None?
    ensures LinkInv(Happen(s, LoopSend(now)))
  {
    SendKeepsController(s, now);
    var s' := Happen(s, LoopSend(now));
    forall p | p in s'.commands ensures GoodCommand(p, s'.transmitted) {
      assert p in s.commands ==> GoodCommand(p, s.transmitted);
    }
  }

  lemma ReadWhenDue(c: Controller, now: Word, read: seq<Byte>)
    requires ReceiveIsDue(c, now)
    ensures MaybeReceive(c, now, read) == ReceiveAcknowledgement(c.(lastReceiveMs := now), read)
  {
  }

  lemma ReceiveKeepsController(s: System, reply: Option<Packet>, length: nat)
    requires SystemInv(s) && Possible(s, LoopReceive(reply, length))
    ensures ControllerInv(Happen(s, LoopReceive(reply, length)))
  {
    var c := s.controller.(lastReceiveMs := s.inLoop.value);
    ReceiveExactly(c, s.newest, s.polled, reply, length);
    ReceiveKeepsBudget(c, s.newest, s.transmitted, ReadOf(reply, length));
  }

  lemma WitnessIsGood(
    c: Controller, newest: nat, polled: set<nat>, now: Word, reply: Option<Packet>, length: nat)
    requires Waiting(c, newest) && (reply.Some? ==> GoodReply(reply.value, polled))
    ensures var resolution := MaybeReceive(c, now, ReadOf(reply, length)).1;
      forall a | a in Witnessed(c, newest, now, reply, length, resolution) :: GoodArrival(a, polled)
  {
    if ReceiveIsDue(c, now) {
      var c1 := c.(lastReceiveMs := now);
      ReadWhenDue(c, now, ReadOf(reply, length));
      ReceiveExactly(c1, newest, polled, reply, length);
      assert Pending(c1, newest) == Pending(c, newest);
    }
  }

  lemma ReceiveKeepsHistory(s: System, reply: Option<Packet>, length: nat)
    requires SystemInv(s) && Possible(s, LoopReceive(reply, length))
    ensures HistoryInv(Happen(s, LoopReceive(reply, length)))
  {
    WitnessIsGood(s.controller, s.newest, s.polled, s.inLoop.value, reply, length);
  }

  /** Nothing that cannot be decoded or does not ask for it is answered, and no sequence number is used. */
  lemma NodeIgnoresTheRest(response: Byte, mail: Option<seq<Byte>>)
    requires mail.Some? && Decode(mail.value).Ok? ==> Decode(mail.value).frame.flags % 2 == 0
    ensures NodeTurn(response, mail) == (response, None)
  {
  }

  /** Everything else is, with its own sequence, whatever it is. */
  lemma NodeAnswersTheFlagged(response: Byte, f: Frame)
    requires f.flags % 2 == 1
    ensures NodeTurn(response, Some(Encode(f)))
         == ((response + 1) % 256, Some(MakeAckFrame(0, response, f.sequence, Accepted)))
  {
    RoundTrip(f);
  }

  /** A polled command is always answered, with its own sequence. */
  lemma NodeReplyToCommand(n: nat, response: Byte)
    ensures Decode(Encode(Flagged(n))).Ok?
    ensures NodeReply(response, Decode(Encode(Flagged(n))))
         == ((response + 1) % 256, Some(MakeAckFrame(NODE_ID, response, n % 256, Accepted)))
  {
  }

  lemma PollKeepsInvariant(s: System, p: Packet)
    requires SystemInv(s) && p in s.commands
    ensures SystemInv(Happen(s, NodePoll(p)))
  {
    var n := p.about.value;
    NodeReplyToCommand(n, s.response);
    var polled := s.polled + {n};
    assert Happen(s, NodePoll(p)).polled == polled;
    forall r | r in s.replies ensures GoodReply(r, polled) {}
  }

  lemma HeartbeatKeepsInvariant(s: System, uptime: Word)
    requires SystemInv(s)
    ensures SystemInv(Happen(s, NodeHeartbeat(uptime)))
  {
  }

  lemma HappenKeepsInvariant(s: System, e: Event)
    requires SystemInv(s) && Possible(s, e)
    ensures SystemInv(Happen(s, e))
  {
    match e
    case LoopSend(now) =>
      SendKeepsController(s, now);
      SendKeepsLink(s, now);
    case LoopReceive(reply, length) =>
      ReceiveKeepsController(s, reply, length);
      ReceiveKeepsHistory(s, reply, length);
    case NodePoll(p) => PollKeepsInvariant(s, p);
    case NodeHeartbeat(uptime) => HeartbeatKeepsInvariant(s, uptime);
  }

  lemma SetupKeepsInvariant(start: Word)
    ensures SystemInv(Setup(start))
  {
    StepKeepsInvariant(EmptyQueue<Word>(0, ATTEMPTS), Submit(CommandFrame(0)), WordClock(start, TIMEOUT));
    FlaggedCommand(0);
  }

  lemma {:induction false} RunKeepsInvariant(start: Word, events: seq<Event>)
    ensures SystemInv(After(start, events))
  {
    if events == [] {
      SetupKeepsInvariant(start);
    } else {
      RunKeepsInvariant(start, events[..|events| - 1]);
      var s, e := After(start, events[..|events| - 1]), events[|events| - 1];
      if Possible(s, e) {
        HappenKeepsInvariant(s, e);
      }
    }
  }

  // ---------------------------------------------------------------- main results

  /**
   * MAIN: in every run with a losing, duplicating, reordering link, an acknowledgement made for a
   * command fewer than 256 commands away from the pending one is taken exactly when it was made for
   * the pending command; and then the node has polled that very command.
   */
  lemma NoFalseAcceptance(start: Word, events: seq<Event>, i: nat)
    requires i < |After(start, events).arrivals|
    requires var a := After(start, events).arrivals[i];
             a.pending.Some? ==> -256 < a.pending.value - a.madeFor < 256
    ensures var s := After(start, events);
      var a := s.arrivals[i];
      && (a.resolution == ResolvedAccepted <==> a.pending == Some(a.madeFor))
      && (a.resolution != ResolvedAccepted ==> a.resolution == NotFound)
      && (a.resolution == ResolvedAccepted ==> a.pending.value in s.polled)
  {
    RunKeepsInvariant(start, events);
    var a := After(start, events).arrivals[i];
    if a.pending.Some? {
      Congruent(a.pending.value, a.madeFor);
    }
  }

  /** The exact exception, without any hypothesis: a multiple of 256 commands apart. */
  lemma FalseAcceptanceExactly(start: Word, events: seq<Event>, i: nat)
    requires i < |After(start, events).arrivals|
    ensures var a := After(start, events).arrivals[i];
      a.resolution == ResolvedAccepted && a.pending != Some(a.madeFor) <==>
      a.pending.Some? && a.pending.value != a.madeFor && a.pending.value % 256 == a.madeFor % 256
  {
    RunKeepsInvariant(start, events);
  }

  lemma Congruent(p: nat, n: nat)
    requires -256 < p - n < 256
    ensures p % 256 == n % 256 <==> p == n
  {
  }

  /** MAIN: in every run each command is transmitted at most three times, and the node polls only those that were. */
  lemma TransmissionsAreBounded(start: Word, events: seq<Event>, n: nat)
    ensures var s := After(start, events);
      && s.transmitted[n] <= 3
      && (n in s.polled ==> 1 <= s.transmitted[n])
  {
    RunKeepsInvariant(start, events);
  }

  // ---------------------------------------------------------------- pacing

  /** The last of these ticks, counting from 0 when there is none yet. */
  function LastTick(ticks: seq<Word>): Word {
    if ticks == [] then 0 else ticks[|ticks| - 1]
  }

  /** Every tick is at least `gap` after the one before it, modulo 2^32. */
  ghost predicate Spaced(ticks: seq<Word>, gap: Word) {
    ticks != [] ==>
      var before := ticks[..|ticks| - 1];
      Spaced(before, gap) && (ticks[|ticks| - 1] - LastTick(before)) % WORD >= gap
  }

  lemma {:induction false} SpacedMeans(ticks: seq<Word>, gap: Word, i: nat)
    requires Spaced(ticks, gap) && i < |ticks|
    ensures (ticks[i] - if i == 0 then 0 else ticks[i - 1]) % WORD >= gap
  {
    if i == |ticks| - 1 {
    } else {
      SpacedMeans(ticks[..|ticks| - 1], gap, i);
    }
  }

  ghost predicate PaceInv(s: System) {
    && s.controller.lastCommandMs == LastTick(s.issuedAt) && s.controller.lastReceiveMs == LastTick(s.readAt)
    && |s.issuedAt| == s.newest && Spaced(s.issuedAt, 5000) && Spaced(s.readAt, 20)
  }

  lemma SpacedGrows(ticks: seq<Word>, gap: Word, now: Word)
    requires Spaced(ticks, gap) && (now - LastTick(ticks)) % WORD >= gap
    ensures Spaced(ticks + [now], gap) && LastTick(ticks + [now]) == now
  {
    assert (ticks + [now])[..|ticks|] == ticks;
  }

  lemma SendTicks(c: Controller, now: Word)
    ensures var c' := TransmitDue(MaybeCommand(c, now), now).0;
      && c'.lastCommandMs == (if CommandIsDue(c, now) then now else c.lastCommandMs)
      && c'.lastReceiveMs == c.lastReceiveMs
  {
  }

  lemma ReceiveTicks(c: Controller, now: Word, read: seq<Byte>)
    ensures var c' := MaybeReceive(c, now, read).0;
      && c'.lastReceiveMs == (if ReceiveIsDue(c, now) then now else c.lastReceiveMs)
      && c'.lastCommandMs == c.lastCommandMs
  {
  }

  lemma SendKeepsPace(s: System, now: Word)
    requires PaceInv(s) && s.inLoop.None?
    ensures PaceInv(Happen(s, LoopSend(now)))
  {
    SendTicks(s.controller, now);
    if CommandIsDue(s.controller, now) {
      SpacedGrows(s.issuedAt, 5000, now);
    } else {
      assert Happen(s, LoopSend(now)).issuedAt == s.issuedAt;
    }
  }

  lemma ReceiveKeepsPace(s: System, reply: Option<Packet>, length: nat)
    requires PaceInv(s) && Possible(s, LoopReceive(reply, length))
    ensures PaceInv(Happen(s, LoopReceive(reply, length)))
  {
    var now := s.inLoop.value;
    ReceiveTicks(s.controller, now, ReadOf(reply, length));
    if ReceiveIsDue(s.controller, now) {
      SpacedGrows(s.readAt, 20, now);
    } else {
      assert Happen(s, LoopReceive(reply, length)).readAt == s.readAt;
    }
  }

  lemma HappenKeepsPace(s: System, e: Event)
    requires PaceInv(s) && Possible(s, e)
    ensures PaceInv(Happen(s, e))
  {
    match e
    case LoopSend(now) => SendKeepsPace(s, now);
    case LoopReceive(reply, length) => ReceiveKeepsPace(s, reply, length);
    case _ =>
  }

  /** MAIN: in every run, commands are issued at least 5000 ticks apart and reads are at least 20 ticks apart. */
  lemma {:induction false} LoopIsPaced(start: Word, events: seq<Event>)
    ensures var s := After(start, events);
      && |s.issuedAt| == s.newest && Spaced(s.issuedAt, 5000) && Spaced(s.readAt, 20)
      && s.controller.lastCommandMs == LastTick(s.issuedAt) && s.controller.lastReceiveMs == LastTick(s.readAt)
  {
    if events == [] {
    } else {
      LoopIsPaced(start, events[..|events| - 1]);
      var s, e := After(start, events[..|events| - 1]), events[|events| - 1];
      if Possible(s, e) {
        HappenKeepsPace(s, e);
      }
    }
  }

  lemma SendIssuesExactly(s: System, now: Word)
    requires PaceInv(s) && s.inLoop.None?
    ensures var s' := Happen(s, LoopSend(now));
      if (forall slot | slot in s.controller.queue.slots :: !slot.active)
         && (now - LastTick(s.issuedAt)) % WORD >= 5000
      then s'.newest == s.newest + 1 && s'.issuedAt == s.issuedAt + [now]
      else s'.newest == s.newest && s'.issuedAt == s.issuedAt
  {
    NonePending(s.controller.queue.slots);
  }

  /** A loop issues a command exactly when nothing is pending and 5000 ticks have passed since the last one. */
  lemma IssuesExactly(start: Word, events: seq<Event>, now: Word)
    requires After(start, events).inLoop.None?
    ensures var s := After(start, events);
      var s' := Happen(s, LoopSend(now));
      if (forall slot | slot in s.controller.queue.slots :: !slot.active)
         && (now - LastTick(s.issuedAt)) % WORD >= 5000
      then s'.newest == s.newest + 1 && s'.issuedAt == s.issuedAt + [now]
      else s'.newest == s.newest && s'.issuedAt == s.issuedAt
  {
    LoopIsPaced(start, events);
    SendIssuesExactly(After(start, events), now);
  }

  lemma NonePending(slots: seq<Slot<Word>>)
    ensures ActiveCount(slots) == 0 <==> forall slot | slot in slots :: !slot.active
  {
    RetryDrive.NoneActive(slots);
  }

  /** A loop reads exactly when 20 ticks have passed since the last read; otherwise its second part does nothing. */
  lemma ReadsExactly(start: Word, events: seq<Event>, reply: Option<Packet>, length: nat)
    requires Possible(After(start, events), LoopReceive(reply, length))
    ensures var s := After(start, events);
      var s' := Happen(s, LoopReceive(reply, length));
      if (s.inLoop.value - LastTick(s.readAt)) % WORD >= 20 then s'.readAt == s.readAt + [s.inLoop.value]
      else s' == s.(inLoop := None)
  {
    LoopIsPaced(start, events);
  }
}

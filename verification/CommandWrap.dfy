/** A run of the command exchange in which a late acknowledgement is taken for the wrong command. */
module CommandWrap {
  import opened Bytes
  import opened Codec
  import opened RetryQueue
  import opened RetryRuns
  import RetryDrive
  import opened CommandExchange

  function CommandPacket(n: nat): Packet {
    Packet(Encode(Flagged(n)), Some(n))
  }

  function AckPacket(n: nat): Packet {
    Packet(Encode(MakeAckFrame(NODE_ID, n % 256, n % 256, Accepted)), Some(n))
  }

  /** The tick of the loop that sends command `n` and reads its acknowledgement. */
  function TickOf(n: nat): Word
    requires n <= 256
  {
    COMMAND_INTERVAL * (n + 1)
  }

  // ---------------------------------------------------------------- the controller, one command at a time

  /** Command `n` has been sent and is pending; it is time to read. */
  ghost predicate Sent(c: Controller, n: nat) {
    && n <= 256 && Waiting(c, n) && Pending(c, n) == Some(n)
    && c.lastCommandMs <= TickOf(n) && c.lastReceiveMs + COMMAND_INTERVAL <= TickOf(n)
  }

  /** Commands 0 .. n - 1 have been acknowledged. */
  ghost predicate Settled(c: Controller, n: nat) {
    && 1 <= n <= 257 && Waiting(c, n - 1) && Pending(c, n - 1) == None
    && c.lastCommandMs <= TickOf(n - 1) && c.lastReceiveMs <= TickOf(n - 1)
  }

  /** A frame alone in the queue is sent as soon as it is due, and stays. */
  lemma LoneFrameIsSent(q: Queue<Word>, f: Frame, now: Word, later: Word)
    requires QueueInv(q) && ActiveCount(q.slots) == 0 && f.payloadLength <= MAX_PAYLOAD && DeadlineReached(later, now)
    ensures var (q', d) := NextDue(Enqueue(q, f, WordClock(now, TIMEOUT)).0, WordClock(later, TIMEOUT));
            d.Send? && ActiveCount(q'.slots) != 0
  {
    RetryDrive.NoneActive(q.slots);
    var q1 := Enqueue(q, f, WordClock(now, TIMEOUT)).0;
    var q2 := NextDue(q1, WordClock(later, TIMEOUT)).0;
    assert q1.slots[0].active && q1.slots[0].deadline == now && q1.slots[0].attempts == 0;
    assert q2.slots[0].active;
    RetryDrive.NoneActive(q2.slots);
  }

  lemma Elapsed(now: Word, last: Word, interval: Word)
    requires last + interval <= now
    ensures (now - last) % WORD >= interval
  {
  }

  lemma FirstIsSent()
    ensures var c := AfterSetup(0);
      && !CommandIsDue(c, TickOf(0))
      && var (c', sent) := TransmitDue(c, TickOf(0)); sent == Some(Encode(Flagged(0))) && Sent(c', 0)
  {
    var q := EmptyQueue<Word>(0, ATTEMPTS);
    SetupKeepsInvariant(0);
    RetryDrive.NoneActive(q.slots);
    LoneFrameIsSent(q, CommandFrame(0), 0, TickOf(0));
    RetryDrive.NoneActive(AfterSetup(0).queue.slots);
    TransmitKeepsWaiting(AfterSetup(0), 0, TickOf(0));
  }

  lemma NextIsDue(c: Controller, n: nat)
    requires Settled(c, n) && n <= 256
    ensures CommandIsDue(c, TickOf(n))
  {
    Elapsed(TickOf(n), c.lastCommandMs, COMMAND_INTERVAL);
  }

  /** With nothing pending, a due command is issued and sent in the same loop. */
  lemma NextIsSent(c: Controller, newest: nat, now: Word)
    requires Waiting(c, newest) && CommandIsDue(c, now)
    ensures var (c', sent) := TransmitDue(MaybeCommand(c, now), now);
      && sent == Some(Encode(Flagged(newest + 1)))
      && Waiting(c', newest + 1) && Pending(c', newest + 1) == Some(newest + 1)
      && c'.lastCommandMs == now && c'.lastReceiveMs == c.lastReceiveMs
  {
    CommandKeepsWaiting(c, newest, now);
    LoneFrameIsSent(c.queue, CommandFrame(c.sequenceNumber), now, now);
    TransmitKeepsWaiting(MaybeCommand(c, now), newest + 1, now);
  }

  lemma AckIsGood(m: nat)
    ensures GoodReply(AckPacket(m), {m}) && IsCompleteAnswer(Some(AckPacket(m)), MAX_ENCODED)
  {
  }

  lemma AnswerResolves(c: Controller, n: nat, m: nat)
    requires Waiting(c, n) && Pending(c, n) == Some(n) && m % 256 == n % 256
    ensures var (c', resolution) := ReceiveAcknowledgement(c, ReadOf(Some(AckPacket(m)), MAX_ENCODED));
      && resolution == ResolvedAccepted && c' == c.(queue := c'.queue)
      && Waiting(c', n) && Pending(c', n) == None
  {
    AckIsGood(m);
    ReceiveExactly(c, n, {m}, Some(AckPacket(m)), MAX_ENCODED);
  }

  /** An acknowledgement with the pending sequence is taken. */
  lemma AnswerIsTaken(c: Controller, n: nat, m: nat)
    requires Sent(c, n) && m % 256 == n % 256
    ensures IsCompleteAnswer(Some(AckPacket(m)), MAX_ENCODED) && ReceiveIsDue(c, TickOf(n))
    ensures var (c', resolution) := MaybeReceive(c, TickOf(n), ReadOf(Some(AckPacket(m)), MAX_ENCODED));
      resolution == ResolvedAccepted && Settled(c', n + 1)
  {
    AckIsGood(m);
    Elapsed(TickOf(n), c.lastReceiveMs, COMMAND_INTERVAL);
    var c1, read := c.(lastReceiveMs := TickOf(n)), ReadOf(Some(AckPacket(m)), MAX_ENCODED);
    ReadWhenDue(c, TickOf(n), read);
    AnswerResolves(c1, n, m);
  }

  // ---------------------------------------------------------------- the system, one round at a time

  /** In the loop that sent command `n`, before its read. */
  ghost predicate RoundOpen(s: System, n: nat) {
    && Sent(s.controller, n) && s.newest == n && s.response == n % 256 && s.inLoop == Some(TickOf(n))
    && CommandPacket(n) in s.commands && (n > 0 ==> AckPacket(0) in s.replies)
  }

  ghost predicate RoundDone(s: System, n: nat) {
    && Settled(s.controller, n) && s.newest == n - 1 && s.response == n % 256 && s.inLoop == None
    && AckPacket(0) in s.replies
  }

  lemma FirstOpens()
    ensures RoundOpen(Happen(Setup(0), LoopSend(TickOf(0))), 0)
  {
    FirstIsSent();
  }

  lemma NextOpens(s: System, n: nat)
    requires RoundDone(s, n) && n <= 256
    ensures RoundOpen(Happen(s, LoopSend(TickOf(n))), n) && Happen(s, LoopSend(TickOf(n))).polled == s.polled
  {
    NextIsDue(s.controller, n);
    NextIsSent(s.controller, n - 1, TickOf(n));
  }

  lemma NodeAnswers(s: System, n: nat)
    requires CommandPacket(n) in s.commands && s.response == n % 256 && (n > 0 ==> AckPacket(0) in s.replies)
    ensures var s' := Happen(s, NodePoll(CommandPacket(n)));
      && s' == s.(response := (n + 1) % 256, polled := s'.polled, replies := s'.replies)
      && AckPacket(n) in s'.replies && AckPacket(0) in s'.replies
  {
    NodeReplyToCommand(n, s.response);
    NextLow(n);
    assert Happen(s, NodePoll(CommandPacket(n))).replies == s.replies + {AckPacket(n)};
  }

  lemma AnswerArrives(s: System, n: nat, m: nat)
    requires Sent(s.controller, n) && s.newest == n && s.inLoop == Some(TickOf(n))
    requires m % 256 == n % 256 && AckPacket(m) in s.replies
    ensures var s' := Happen(s, LoopReceive(Some(AckPacket(m)), MAX_ENCODED));
      && Settled(s'.controller, n + 1)
      && s' == s.(controller := s'.controller, inLoop := None, readAt := s'.readAt,
                  arrivals := s.arrivals + [Arrival(Some(n), m, ResolvedAccepted)])
  {
    var c, reply := s.controller, Some(AckPacket(m));
    AnswerIsTaken(c, n, m);
    assert Witnessed(c, n, TickOf(n), reply, MAX_ENCODED, ResolvedAccepted) == [Arrival(Some(n), m, ResolvedAccepted)];
  }

  lemma Append(events: seq<Event>, e: Event)
    requires Possible(After(0, events), e)
    ensures After(0, events + [e]) == Happen(After(0, events), e)
  {
  }

  lemma OpenFirst() returns (events: seq<Event>)
    ensures RoundOpen(After(0, events), 0)
  {
    Append([], LoopSend(TickOf(0)));
    FirstOpens();
    events := [] + [LoopSend(TickOf(0))];
  }

  lemma OpenNext(before: seq<Event>, n: nat) returns (events: seq<Event>)
    requires n <= 256 && RoundDone(After(0, before), n)
    ensures RoundOpen(After(0, events), n) && After(0, events).polled == After(0, before).polled
  {
    Append(before, LoopSend(TickOf(n)));
    NextOpens(After(0, before), n);
    events := before + [LoopSend(TickOf(n))];
  }

  lemma FinishRound(events: seq<Event>, n: nat) returns (events': seq<Event>)
    requires RoundOpen(After(0, events), n)
    ensures RoundDone(After(0, events'), n + 1)
  {
    var polled := events + [NodePoll(CommandPacket(n))];
    Append(events, NodePoll(CommandPacket(n)));
    NodeAnswers(After(0, events), n);
    Append(polled, LoopReceive(Some(AckPacket(n)), MAX_ENCODED));
    AnswerArrives(After(0, polled), n, n);
    events' := polled + [LoopReceive(Some(AckPacket(n)), MAX_ENCODED)];
  }

  lemma {:induction false} Rounds(n: nat) returns (events: seq<Event>)
    requires 1 <= n <= 256
    ensures RoundDone(After(0, events), n)
  {
    var sent;
    if n == 1 {
      sent := OpenFirst();
    } else {
      var before := Rounds(n - 1);
      sent := OpenNext(before, n - 1);
    }
    events := FinishRound(sent, n - 1);
  }

  /** A command that has not been sent cannot have been polled. */
  lemma NotYetPolled(events: seq<Event>, n: nat)
    requires After(0, events).newest < n
    ensures n !in After(0, events).polled
  {
    RunKeepsInvariant(0, events);
  }

  /**
   * MAIN: the window of 256 is needed. After 256 acknowledged commands, a late copy of the first
   * acknowledgement is taken for command 256, which the node has never polled.
   */
  lemma FalseAcceptanceHappens() returns (events: seq<Event>)
    ensures var s := After(0, events);
      && |s.arrivals| >= 1
      && s.arrivals[|s.arrivals| - 1] == Arrival(Some(256), 0, ResolvedAccepted)
      && 256 !in s.polled
  {
    var before := Rounds(256);
    NotYetPolled(before, 256);
    var sent := OpenNext(before, 256);
    Append(sent, LoopReceive(Some(AckPacket(0)), MAX_ENCODED));
    AnswerArrives(After(0, sent), 256, 0);
    events := sent + [LoopReceive(Some(AckPacket(0)), MAX_ENCODED)];
  }
}

/** Draining the queue: fairness at one tick, fairness over time, and the drive loop of the link simulator. */
module RetryDrive {
  import opened Bytes
  import opened Codec
  import opened RetryQueue
  import opened RetryRuns
  import opened RetryKeys

  // ---------------------------------------------------------------- repeating next_due at one tick

  /** Calls `next_due` at one instant until it returns nothing; the budget makes this end. */
  ghost function Drain<D>(q: Queue<D>, c: Clock<D>): (r: (Queue<D>, seq<TxDecision>))
    requires QueueInv(q)
    ensures |r.1| + Potential(r.0) == Potential(q)
    ensures QueueInv(r.0) && NextDue(r.0, c).1.Idle?
    decreases Potential(q)
  {
    var (q', d) := NextDue(q, c);
    StepBudget(q, Tick, c);
    StepKeepsInvariant(q, Tick, c);
    if d.Idle? then (q, [])
    else var (q'', ds) := Drain(q', c); (q'', [d] + ds)
  }

  function Verdict<D>(s: Slot<D>, maxAttempts: Byte): TxDecision {
    if s.attempts >= maxAttempts then Exhausted(s.frame, s.attempts) else Send(s.frame, s.attempts + 1)
  }

  /** One decision for each due slot, in slot order. */
  function DueVerdicts<D>(slots: seq<Slot<D>>, maxAttempts: Byte, c: Clock<D>): seq<TxDecision> {
    if |slots| == 0 then []
    else (if Due(c)(slots[0]) then [Verdict(slots[0], maxAttempts)] else []) + DueVerdicts(slots[1..], maxAttempts, c)
  }

  lemma {:induction false} ServingRemovesFirstVerdict<D>(slots: seq<Slot<D>>, m: Byte, c: Clock<D>, s: Slot<D>)
    requires FirstIndex(slots, Due(c)) < |slots| && !Due(c)(s)
    ensures var i := FirstIndex(slots, Due(c));
            DueVerdicts(slots, m, c) == [Verdict(slots[i], m)] + DueVerdicts(slots[i := s], m, c)
  {
    var i := FirstIndex(slots, Due(c));
    if i == 0 {
      assert slots[i := s][1..] == slots[1..];
    } else {
      ServingRemovesFirstVerdict(slots[1..], m, c, s);
      assert slots[i := s][1..] == slots[1..][i - 1 := s];
    }
  }

  lemma {:induction false} NothingDueNoVerdicts<D>(slots: seq<Slot<D>>, m: Byte, c: Clock<D>)
    requires FirstIndex(slots, Due(c)) == |slots|
    ensures DueVerdicts(slots, m, c) == []
  {
    if |slots| == 0 {
    } else {
      NothingDueNoVerdicts(slots[1..], m, c);
    }
  }

  lemma NextDueServes<D>(q: Queue<D>, c: Clock<D>)
    requires QueueInv(q) && !c.reached(c.renewed) && !NextDue(q, c).1.Idle?
    ensures var i := FirstIndex(q.slots, Due(c));
            var (q', d) := NextDue(q, c);
            && i < CAPACITY && d == Verdict(q.slots[i], q.maxAttempts)
            && q' == q.(slots := q.slots[i := q'.slots[i]]) && !Due(c)(q'.slots[i])
  {
  }

  /** If a renewed deadline is not due at once, every due slot is served once, in order, and no other. */
  lemma {:induction false} DrainServesEachDueSlotOnce<D>(q: Queue<D>, c: Clock<D>)
    requires QueueInv(q) && !c.reached(c.renewed)
    ensures Drain(q, c).1 == DueVerdicts(q.slots, q.maxAttempts, c)
    ensures forall i | 0 <= i < CAPACITY && !Due(c)(q.slots[i]) :: Drain(q, c).0.slots[i] == q.slots[i]
    decreases Potential(q)
  {
    var (q', d) := NextDue(q, c);
    var i := FirstIndex(q.slots, Due(c));
    if d.Idle? {
      NothingDueNoVerdicts(q.slots, q.maxAttempts, c);
    } else {
      StepBudget(q, Tick, c);
      StepKeepsInvariant(q, Tick, c);
      NextDueServes(q, c);
      ServingRemovesFirstVerdict(q.slots, q.maxAttempts, c, q'.slots[i]);
      DrainServesEachDueSlotOnce(q', c);
      assert Drain(q, c) == (Drain(q', c).0, [d] + Drain(q', c).1);
      forall j | 0 <= j < CAPACITY && !Due(c)(q.slots[j]) ensures Drain(q, c).0.slots[j] == q.slots[j] {
        assert q'.slots[j] == q.slots[j];
      }
    }
  }

  /** In 32-bit time that hypothesis is exactly: the timeout is at least 1 and at most 2^31. */
  lemma RenewedIsNotDueExactly(now: Word, timeout: Word)
    ensures !DeadlineReached(now, (now + timeout) % WORD) <==> 1 <= timeout <= HALF_WORD
  {
  }

  lemma DrainAtOneTick(q: Queue<Word>, now: Word, timeout: Word)
    requires QueueInv(q) && 1 <= timeout <= HALF_WORD
    ensures Drain(q, WordClock(now, timeout)).1 == DueVerdicts(q.slots, q.maxAttempts, WordClock(now, timeout))
    ensures |Drain(q, WordClock(now, timeout)).1| <= Potential(q)
  {
    RenewedIsNotDueExactly(now, timeout);
    DrainServesEachDueSlotOnce(q, WordClock(now, timeout));
  }

  // ---------------------------------------------------------------- a due slot is not starved

  function Ticks(ops: seq<Timed>): nat {
    if ops == [] then 0 else (if ops[0].op.Tick? then 1 else 0) + Ticks(ops[1..])
  }

  /** Slot `j` is active, stays as it is throughout, and is due whenever `next_due` is called. */
  ghost predicate KeptWaiting<D>(q: Queue<D>, j: nat, ops: seq<Timed>, clocks: int -> Clock<D>)
    requires |q.slots| == CAPACITY && j < CAPACITY
    decreases |ops|
  {
    q.slots[j].active &&
    (ops != [] ==>
      var q' := Step(q, ops[0].op, clocks(ops[0].now)).0;
      && (ops[0].op.Tick? ==> clocks(ops[0].now).reached(q.slots[j].deadline))
      && q'.slots[j] == q.slots[j]
      && KeptWaiting(q', j, ops[1..], clocks))
  }

  /** MAIN: without new submissions, lower slots delay a due slot by at most their combined budget. */
  lemma {:induction false} DueSlotIsNotStarved<D>(q: Queue<D>, j: nat, ops: seq<Timed>, clocks: int -> Clock<D>)
    requires QueueInv(q) && j < CAPACITY && KeptWaiting(q, j, ops, clocks)
    requires forall i | 0 <= i < |ops| :: !ops[i].op.Submit?
    ensures Ticks(ops) <= Budget(q.slots[..j], q.maxAttempts)
    decreases |ops|
  {
    if ops == [] {
    } else {
      var c := clocks(ops[0].now);
      var q' := Step(q, ops[0].op, c).0;
      StepKeepsInvariant(q, ops[0].op, c);
      DueSlotIsNotStarved(q', j, ops[1..], clocks);
      LowerBudgetFalls(q, j, ops[0].op, c);
    }
  }

  lemma LowerBudgetFalls<D>(q: Queue<D>, j: nat, op: Op, c: Clock<D>)
    requires QueueInv(q) && j < CAPACITY && q.slots[j].active && !op.Submit?
    requires op.Tick? ==> c.reached(q.slots[j].deadline)
    requires Step(q, op, c).0.slots[j] == q.slots[j]
    ensures Budget(Step(q, op, c).0.slots[..j], q.maxAttempts) + (if op.Tick? then 1 else 0)
         <= Budget(q.slots[..j], q.maxAttempts)
  {
    var q' := Step(q, op, c).0;
    match op
    case Tick =>
      var i := FirstIndex(q.slots, Due(c));
      assert Due(c)(q.slots[j]);
      assert Healthy(q.slots[i], q.maxAttempts);
      assert i < j;
      assert q'.slots[..j] == q.slots[..j][i := q'.slots[i]];
      BudgetUpdate(q.slots[..j], i, q'.slots[i], q.maxAttempts);
    case Answer(n, s, _) => LowerBudgetAfterRemoval(q, j, n, s);
    case Withdraw(n, s) => LowerBudgetAfterRemoval(q, j, n, s);
    case Reset =>
  }

  lemma LowerBudgetAfterRemoval<D>(q: Queue<D>, j: nat, n: Byte, s: Byte)
    requires |q.slots| == CAPACITY && j < CAPACITY
    ensures Budget(Remove(q, n, s).0.slots[..j], q.maxAttempts) <= Budget(q.slots[..j], q.maxAttempts)
  {
    var i := FirstIndex(q.slots, Holds(n, s));
    var q' := Remove(q, n, s).0;
    if i < j {
      assert q'.slots[..j] == q.slots[..j][i := q'.slots[i]];
      BudgetUpdate(q.slots[..j], i, q'.slots[i], q.maxAttempts);
    } else {
      assert q'.slots[..j] == q.slots[..j];
    }
  }

  // ---------------------------------------------------------------- the drive loop

  datatype LinkAck = LinkAck(nodeId: Byte, sequence: Byte, status: AckStatus)

  function AnswerAll<D>(q: Queue<D>, acks: seq<LinkAck>): (q': Queue<D>)
    ensures q'.maxAttempts == q.maxAttempts
    decreases |acks|
  {
    if acks == [] then q
    else AnswerAll(Acknowledge(q, acks[0].nodeId, acks[0].sequence, acks[0].status).0, acks[1..])
  }

  /** One turn of the loop: one `next_due`, then the acknowledgements the link delivers. */
  function Round<D>(q: Queue<D>, c: Clock<D>, acks: seq<LinkAck>): (Queue<D>, TxDecision) {
    var (q', d) := NextDue(q, c);
    (AnswerAll(q', acks), d)
  }

  lemma {:induction false} AnswersOnlyRelease<D>(q: Queue<D>, acks: seq<LinkAck>)
    requires QueueInv(q)
    ensures QueueInv(AnswerAll(q, acks))
    ensures Potential(AnswerAll(q, acks)) <= Potential(q)
    ensures var q' := AnswerAll(q, acks);
            forall i | 0 <= i < CAPACITY && q'.slots[i].active :: q'.slots[i] == q.slots[i]
    decreases |acks|
  {
    if acks == [] {
    } else {
      RemovalBudget(q, acks[0].nodeId, acks[0].sequence);
      RemoveKeepsInvariant(q, acks[0].nodeId, acks[0].sequence);
      AnswersOnlyRelease(Acknowledge(q, acks[0].nodeId, acks[0].sequence, acks[0].status).0, acks[1..]);
    }
  }

  /** How far a deadline can be behind: one step for each unit of budget spent so far, less a tick. */
  ghost predicate Paced(q: Queue<int>, now: int, step: Word, total: nat) {
    && Potential(q) <= total
    && forall i | 0 <= i < |q.slots| && q.slots[i].active ::
         now - q.slots[i].deadline < (total - Potential(q) + 1) * step
  }

  const MAX_STEP: Word := 0x10_0000

  lemma LagAfterIdle(lag: int, total: int, p: int, step: Word)
    requires lag < 0 && p <= total
    ensures lag + step < (total - p + 1) * step
  {
  }

  lemma LagAfterDecision(lag: int, total: int, p: int, p': int, step: Word)
    requires lag < (total - p + 1) * step && p' + 1 <= p
    ensures lag + step < (total - p' + 1) * step
  {
    assert (total - p + 2) * step == (total - p + 1) * step + step;
    Scale(total - p + 2, total - p' + 1, step);
  }

  lemma LagAfterService(lag: int, total: int, p: int, step: Word)
    requires lag <= 0 && p < total && step >= 1
    ensures lag + step < (total - p + 1) * step
  {
  }

  lemma Scale(a: int, b: int, step: Word)
    requires a <= b
    ensures a * step <= b * step
  {
  }

  lemma LagIsSmall(lag: int, total: int, p: int, step: Word)
    requires lag < (total - p + 1) * step && 1 <= p && total <= CAPACITY * 256 && step <= MAX_STEP
    ensures lag < HALF_WORD
  {
    Scale(total - p + 1, CAPACITY * 256, step);
  }

  /** A paced queue is polled in time: 8 slots of at most 256 units, at most 2^20 ticks each. */
  lemma PacedIsInTime(q: Queue<int>, now: int, step: Word, total: nat)
    requires QueueInv(q) && Paced(q, now, step, total) && step <= MAX_STEP && total <= CAPACITY * 256
    ensures forall i | 0 <= i < CAPACITY && q.slots[i].active :: now - q.slots[i].deadline < HALF_WORD
  {
    forall i | 0 <= i < CAPACITY && q.slots[i].active ensures now - q.slots[i].deadline < HALF_WORD {
      assert Healthy(q.slots[i], q.maxAttempts);
      BudgetBounds(q.slots, q.maxAttempts);
      assert Worth(q.slots[i], q.maxAttempts) >= 1;
      LagIsSmall(now - q.slots[i].deadline, total, Potential(q), step);
    }
  }

  lemma PotentialIsSmall<D>(q: Queue<D>)
    requires QueueInv(q)
    ensures Potential(q) <= CAPACITY * 256
  {
    BudgetBounds(q.slots, q.maxAttempts);
    assert |q.slots| * (q.maxAttempts + 1) <= CAPACITY * 256;
  }

  lemma RoundSpends<D>(q: Queue<D>, c: Clock<D>, acks: seq<LinkAck>)
    requires QueueInv(q)
    ensures var (q', d) := Round(q, c, acks);
      && QueueInv(q') && q'.maxAttempts == q.maxAttempts
      && Potential(q') + (if d.Idle? then 0 else 1) <= Potential(q)
      && (forall i | 0 <= i < CAPACITY && q'.slots[i].active :: q'.slots[i] == NextDue(q, c).0.slots[i])
      && (d.Idle? ==> forall i | 0 <= i < CAPACITY && q.slots[i].active :: !c.reached(q.slots[i].deadline))
  {
    var (p, d) := NextDue(q, c);
    StepBudget(q, Tick, c);
    NextDueKeepsInvariant(q, c);
    AnswersOnlyRelease(p, acks);
    if d.Idle? {
      forall i | 0 <= i < CAPACITY && q.slots[i].active ensures !c.reached(q.slots[i].deadline) {
        assert !Due(c)(q.slots[i]);
      }
    }
  }

  /** One turn in ideal time keeps the pace. */
  lemma RoundKeepsPace(q: Queue<int>, now: int, timeout: Word, step: Word, total: nat, acks: seq<LinkAck>)
    requires QueueInv(q) && Paced(q, now, step, total) && step >= 1
    ensures Paced(Round(q, IdealClock(now, timeout), acks).0, now + step, step, total)
  {
    var q' := Round(q, IdealClock(now, timeout), acks).0;
    RoundSpends(q, IdealClock(now, timeout), acks);
    forall i | 0 <= i < CAPACITY && q'.slots[i].active
      ensures now + step - q'.slots[i].deadline < (total - Potential(q') + 1) * step
    {
      SlotKeepsPace(q, now, timeout, step, total, i, Potential(q'));
    }
  }

  /** One slot over one `next_due`: still ahead, renewed, or one step further behind for one unit spent. */
  lemma SlotKeepsPace(q: Queue<int>, now: int, timeout: Word, step: Word, total: nat, i: nat, potential: nat)
    requires QueueInv(q) && Paced(q, now, step, total) && step >= 1 && i < CAPACITY
    requires var (p, d) := NextDue(q, IdealClock(now, timeout));
      p.slots[i].active && potential + (if d.Idle? then 0 else 1) <= Potential(q)
    ensures now + step - NextDue(q, IdealClock(now, timeout)).0.slots[i].deadline < (total - potential + 1) * step
  {
    var c := IdealClock(now, timeout);
    var (p, d) := NextDue(q, c);
    var lag := now - p.slots[i].deadline;
    if d.Idle? {
      assert !Due(c)(q.slots[i]);
      LagAfterIdle(lag, total, potential, step);
    } else if p.slots[i] == q.slots[i] {
      LagAfterDecision(lag, total, Potential(q), potential, step);
    } else {
      assert p.slots[i].deadline == now + timeout;
      LagAfterService(lag, total, potential, step);
    }
  }

  /** The tick of turn `n`: the start, advanced by one step a turn. */
  ghost function Instant(start: int, step: Word, n: nat): int {
    if n == 0 then start else Instant(start, step, n - 1) + step
  }

  lemma {:induction false} InstantIs(start: int, step: Word, n: nat)
    ensures Instant(start, step, n) == start + n * step
  {
    if n == 0 {
    } else {
      InstantIs(start, step, n - 1);
      assert n * step == (n - 1) * step + step;
    }
  }

  /** The queue after `n` turns in ideal time. */
  ghost function After(
    q: Queue<int>, start: int, timeout: Word, step: Word, link: nat -> seq<LinkAck>, n: nat): Queue<int>
  {
    if n == 0 then q
    else
      var now := Instant(start, step, n - 1);
      Round(After(q, start, timeout, step, link, n - 1), IdealClock(now, timeout), link(n - 1)).0
  }

  /** Frames just enqueued at `start`. */
  ghost predicate JustEnqueued<D>(q: Queue<D>, start: D) {
    && QueueInv(q)
    && forall i | 0 <= i < CAPACITY && q.slots[i].active :: q.slots[i].attempts == 0 && q.slots[i].deadline == start
  }

  /** Submitting frames one after the other at one instant. */
  function SubmitAll<D>(q: Queue<D>, frames: seq<Frame>, c: Clock<D>): Queue<D> {
    if frames == [] then q
    else Enqueue(SubmitAll(q, frames[..|frames| - 1], c), frames[|frames| - 1], c).0
  }

  /** Submissions at one tick start a drive; of at most eight, every well-formed one gets its place. */
  lemma {:induction false} SubmittedIsJustEnqueued<D>(zero: D, maxAttempts: Byte, frames: seq<Frame>, c: Clock<D>)
    ensures var q := SubmitAll(EmptyQueue(zero, maxAttempts), frames, c);
      && JustEnqueued(q, c.present) && q.maxAttempts == AttemptLimit(maxAttempts)
      && ActiveCount(q.slots) <= |frames|
      && (|frames| <= CAPACITY ==>
            forall i | 0 <= i < |frames| && frames[i].payloadLength <= MAX_PAYLOAD :: Lookup(q, KeyOf(frames[i])).Some?)
  {
    if frames == [] {
      NoneActive(EmptyQueue(zero, maxAttempts).slots);
    } else {
      var n := |frames| - 1;
      SubmittedIsJustEnqueued(zero, maxAttempts, frames[..n], c);
      var q := SubmitAll(EmptyQueue(zero, maxAttempts), frames[..n], c);
      SubmissionHasPlace(q, frames[n], c);
      forall i | |frames| <= CAPACITY && 0 <= i < |frames| && frames[i].payloadLength <= MAX_PAYLOAD
        ensures Lookup(Enqueue(q, frames[n], c).0, KeyOf(frames[i])).Some?
      {
        EnqueueOnKeys(q, frames[n], c, KeyOf(frames[i]));
        assert i < n ==> frames[..n][i] == frames[i];
      }
    }
  }

  lemma SubmissionHasPlace<D>(q: Queue<D>, f: Frame, c: Clock<D>)
    requires JustEnqueued(q, c.present)
    ensures var (q', r) := Enqueue(q, f, c);
      && JustEnqueued(q', c.present) && q'.maxAttempts == q.maxAttempts
      && ActiveCount(q'.slots) <= ActiveCount(q.slots) + 1
      && (ActiveCount(q.slots) < CAPACITY ==> r != Full)
  {
    var (q', r) := Enqueue(q, f, c);
    EnqueueKeepsInvariant(q, f, c);
    FullMeansNoFreeSlot(q.slots);
    if r == Queued {
      ActiveCountUpdate(q.slots, FirstIndex(q.slots, Free()), q'.slots[FirstIndex(q.slots, Free())]);
    }
  }

  lemma {:induction false} ActiveCountUpdate<D>(slots: seq<Slot<D>>, i: nat, s: Slot<D>)
    requires i < |slots|
    ensures ActiveCount(slots[i := s]) <= ActiveCount(slots) + 1
  {
    var n := |slots| - 1;
    if i == n {
      assert slots[i := s][..n] == slots[..n];
    } else {
      assert slots[i := s][..n] == slots[..n][i := s];
      ActiveCountUpdate(slots[..n], i, s);
    }
  }

  // ---------------------------------------------------------------- the order of service

  /** A submission is queued exactly when it is well formed, its key is new and a place is free; it takes the lowest. */
  lemma EnqueueTakesLowestPlace<D>(q: Queue<D>, f: Frame, c: Clock<D>)
    requires QueueInv(q)
    ensures var (q', r) := Enqueue(q, f, c);
      && (r == Queued <==>
            && f.payloadLength <= 32 && Lookup(q, KeyOf(f)).None?
            && exists i | 0 <= i < CAPACITY :: !q.slots[i].active)
      && (r == Queued ==> exists i | 0 <= i < CAPACITY ::
            && !q.slots[i].active && (forall j | 0 <= j < i :: q.slots[j].active)
            && q'.slots == q.slots[i := Slot(f.(flags := WithAckFlag(f.flags)), c.present, 0, true)])
      && (r != Queued ==> q' == q)
  {
    var i := FirstIndex(q.slots, Free());
    assert i < CAPACITY ==> Free()(q.slots[i]);
    forall j | 0 <= j < CAPACITY && j < i ensures q.slots[j].active {
      assert !Free()(q.slots[j]);
    }
  }

  /** The first `n` slots hold these frames, freshly submitted, and the others are free. */
  ghost predicate Filled<D>(slots: seq<Slot<D>>, frames: seq<Frame>, present: D) {
    && |frames| <= |slots|
    && (forall i | 0 <= i < |frames| ::
          slots[i] == Slot(frames[i].(flags := WithAckFlag(frames[i].flags)), present, 0, true))
    && forall i | |frames| <= i < |slots| :: !slots[i].active
  }

  /** At most eight well-formed frames with different keys. */
  ghost predicate Submittable(frames: seq<Frame>) {
    && |frames| <= CAPACITY
    && (forall i | 0 <= i < |frames| :: frames[i].payloadLength <= 32)
    && forall i, j | 0 <= i < j < |frames| :: KeyOf(frames[i]) != KeyOf(frames[j])
  }

  lemma {:induction false} SubmissionsFill<D>(zero: D, maxAttempts: Byte, frames: seq<Frame>, c: Clock<D>)
    requires Submittable(frames)
    ensures Filled(SubmitAll(EmptyQueue(zero, maxAttempts), frames, c).slots, frames, c.present)
    ensures |SubmitAll(EmptyQueue(zero, maxAttempts), frames, c).slots| == CAPACITY
  {
    if frames == [] {
    } else {
      var n := |frames| - 1;
      SubmissionsFill(zero, maxAttempts, frames[..n], c);
      SubmissionFillsNext(SubmitAll(EmptyQueue(zero, maxAttempts), frames[..n], c), frames[..n], frames[n], c);
      assert frames[..n] + [frames[n]] == frames;
    }
  }

  lemma SubmissionFillsNext<D>(q: Queue<D>, frames: seq<Frame>, f: Frame, c: Clock<D>)
    requires |q.slots| == CAPACITY && Filled(q.slots, frames, c.present) && Submittable(frames + [f])
    ensures Filled(Enqueue(q, f, c).0.slots, frames + [f], c.present)
    ensures |Enqueue(q, f, c).0.slots| == CAPACITY
  {
    NewKeyIsNotHeld(q.slots, frames, f, c.present);
    FirstFreeIsNext(q.slots, frames, c.present);
    assert (frames + [f])[|frames|] == f;
  }

  lemma NewKeyIsNotHeld<D>(slots: seq<Slot<D>>, frames: seq<Frame>, f: Frame, present: D)
    requires Filled(slots, frames, present) && Submittable(frames + [f])
    ensures FirstIndex(slots, Holds(f.nodeId, f.sequence)) == |slots|
  {
    forall i | 0 <= i < |slots| ensures !Holds(f.nodeId, f.sequence)(slots[i]) {
      if i < |frames| {
        assert KeyOf((frames + [f])[i]) != KeyOf((frames + [f])[|frames|]);
      }
    }
  }

  lemma FirstFreeIsNext<D>(slots: seq<Slot<D>>, frames: seq<Frame>, present: D)
    requires Filled(slots, frames, present) && |frames| < |slots|
    ensures FirstIndex(slots, Free()) == |frames|
  {
    assert Free()(slots[|frames|]);
  }

  /** One first attempt for each frame, in their order. */
  function FirstSends(frames: seq<Frame>): seq<TxDecision> {
    if frames == [] then []
    else [Send(frames[0].(flags := WithAckFlag(frames[0].flags)), 1)] + FirstSends(frames[1..])
  }

  lemma {:induction false} FreeSlotsNoVerdicts<D>(slots: seq<Slot<D>>, m: Byte, c: Clock<D>)
    requires forall i | 0 <= i < |slots| :: !slots[i].active
    ensures DueVerdicts(slots, m, c) == []
  {
    if slots == [] {
    } else {
      FreeSlotsNoVerdicts(slots[1..], m, c);
    }
  }

  lemma {:induction false} FilledVerdicts<D>(slots: seq<Slot<D>>, frames: seq<Frame>, m: Byte, c: Clock<D>)
    requires Filled(slots, frames, c.present) && m >= 1 && c.reached(c.present)
    ensures DueVerdicts(slots, m, c) == FirstSends(frames)
  {
    if frames == [] {
      FreeSlotsNoVerdicts(slots, m, c);
    } else {
      assert Filled(slots[1..], frames[1..], c.present);
      assert Due(c)(slots[0]) && Verdict(slots[0], m) == FirstSends(frames)[0];
      FilledVerdicts(slots[1..], frames[1..], m, c);
      assert DueVerdicts(slots, m, c) == [Verdict(slots[0], m)] + DueVerdicts(slots[1..], m, c);
    }
  }

  /** MAIN: frames submitted to an empty queue at one tick are sent at that tick, once each, in order of submission. */
  lemma SubmissionsAreServedInOrder<D>(zero: D, maxAttempts: Byte, frames: seq<Frame>, c: Clock<D>)
    requires Submittable(frames) && c.reached(c.present) && !c.reached(c.renewed)
    ensures var q := SubmitAll(EmptyQueue(zero, maxAttempts), frames, c);
      QueueInv(q) && Drain(q, c).1 == FirstSends(frames)
  {
    var q := SubmitAll(EmptyQueue(zero, maxAttempts), frames, c);
    SubmittedIsJustEnqueued(zero, maxAttempts, frames, c);
    SubmissionsFill(zero, maxAttempts, frames, c);
    DrainServesEachDueSlotOnce(q, c);
    FilledVerdicts(q.slots, frames, q.maxAttempts, c);
  }

  /** The same for the 32-bit queue, with the timeouts that make it so. */
  lemma FirmwareServesInOrder(maxAttempts: Byte, frames: seq<Frame>, now: Word, timeout: Word)
    requires Submittable(frames) && 1 <= timeout <= HALF_WORD
    ensures var q := SubmitAll(EmptyQueue<Word>(0, maxAttempts), frames, WordClock(now, timeout));
      QueueInv(q) && Drain(q, WordClock(now, timeout)).1 == FirstSends(frames)
  {
    RenewedIsNotDueExactly(now, timeout);
    SubmissionsAreServedInOrder<Word>(0, maxAttempts, frames, WordClock(now, timeout));
  }

  // ---------------------------------------------------------------- the drive loop, over all its turns

  /** The decision of turn `n`: it is taken before the acknowledgements of that turn arrive. */
  ghost function DecisionOf(
    q: Queue<int>, start: int, timeout: Word, step: Word, link: nat -> seq<LinkAck>, n: nat): TxDecision
  {
    NextDue(After(q, start, timeout, step, link, n), IdealClock(Instant(start, step, n), timeout)).1
  }

  /** It depends on the acknowledgements of earlier turns only. */
  lemma {:induction false} DecisionsPrecedeAnswers(
    q: Queue<int>, start: int, timeout: Word, step: Word, link: nat -> seq<LinkAck>, other: nat -> seq<LinkAck>, n: nat)
    requires forall i: nat | i < n :: link(i) == other(i)
    ensures After(q, start, timeout, step, link, n) == After(q, start, timeout, step, other, n)
    ensures DecisionOf(q, start, timeout, step, link, n) == DecisionOf(q, start, timeout, step, other, n)
  {
    if n == 0 {
    } else {
      DecisionsPrecedeAnswers(q, start, timeout, step, link, other, n - 1);
    }
  }

  ghost predicate Answered(acks: seq<LinkAck>, k: Key) {
    exists i | 0 <= i < |acks| :: Key(acks[i].nodeId, acks[i].sequence) == k
  }

  ghost predicate Concerns(d: TxDecision, k: Key) {
    !d.Idle? && KeyOf(d.frame) == k
  }

  /** Acknowledged keys leave the queue, and what has left does not return. */
  lemma {:induction false} AnswersRemove<D>(q: Queue<D>, acks: seq<LinkAck>, k: Key)
    requires QueueInv(q) && (Lookup(q, k).None? || Answered(acks, k))
    ensures Lookup(AnswerAll(q, acks), k).None?
    decreases |acks|
  {
    if acks == [] {
    } else {
      RemoveOnKeys(q, acks[0].nodeId, acks[0].sequence, k);
      RemoveKeepsInvariant(q, acks[0].nodeId, acks[0].sequence);
      var q' := Acknowledge(q, acks[0].nodeId, acks[0].sequence, acks[0].status).0;
      if Lookup(q', k).Some? {
        var i :| 0 <= i < |acks| && Key(acks[i].nodeId, acks[i].sequence) == k;
        assert acks[1..][i - 1] == acks[i];
      }
      AnswersRemove(q', acks[1..], k);
    }
  }

  lemma RoundRemoves<D>(q: Queue<D>, c: Clock<D>, acks: seq<LinkAck>, k: Key)
    requires QueueInv(q) && (Lookup(q, k).None? || Answered(acks, k))
    ensures Lookup(Round(q, c, acks).0, k).None?
  {
    NextDueKeepsInvariant(q, c);
    NextDueOnKeys(q, c, k);
    AnswersRemove(NextDue(q, c).0, acks, k);
  }

  lemma {:induction false} DriveKeepsInvariant(
    q: Queue<int>, start: int, timeout: Word, step: Word, link: nat -> seq<LinkAck>, n: nat)
    requires QueueInv(q)
    ensures QueueInv(After(q, start, timeout, step, link, n))
  {
    if n == 0 {
    } else {
      DriveKeepsInvariant(q, start, timeout, step, link, n - 1);
      var clock := IdealClock(Instant(start, step, n - 1), timeout);
      RoundSpends(After(q, start, timeout, step, link, n - 1), clock, link(n - 1));
    }
  }

  ghost predicate Gone(
    q: Queue<int>, start: int, timeout: Word, step: Word, link: nat -> seq<LinkAck>, n: nat, k: Key)
  {
    Lookup(After(q, start, timeout, step, link, n), k).None?
  }

  lemma TurnRemoves(
    q: Queue<int>, start: int, timeout: Word, step: Word, link: nat -> seq<LinkAck>, m: nat, k: Key)
    requires QueueInv(q) && m >= 1
    requires Gone(q, start, timeout, step, link, m - 1, k) || Answered(link(m - 1), k)
    ensures Gone(q, start, timeout, step, link, m, k)
  {
    var b, now := After(q, start, timeout, step, link, m - 1), Instant(start, step, m - 1);
    DriveKeepsInvariant(q, start, timeout, step, link, m - 1);
    RoundRemoves(b, IdealClock(now, timeout), link(m - 1), k);
  }

  lemma {:induction false} AnsweredStaysGone(
    q: Queue<int>, start: int, timeout: Word, step: Word, link: nat -> seq<LinkAck>, n: nat, m: nat, k: Key)
    requires QueueInv(q) && n < m && Answered(link(n), k)
    ensures Gone(q, start, timeout, step, link, m, k)
  {
    if n == m - 1 {
      TurnRemoves(q, start, timeout, step, link, m, k);
    } else {
      AnsweredStaysGone(q, start, timeout, step, link, n, m - 1, k);
      TurnRemoves(q, start, timeout, step, link, m, k);
    }
  }

  /** After its acknowledgement a frame is neither sent nor given up. */
  lemma AnsweredIsSilent(
    q: Queue<int>, start: int, timeout: Word, step: Word, link: nat -> seq<LinkAck>, n: nat, m: nat, k: Key)
    requires QueueInv(q) && n < m && Answered(link(n), k)
    ensures !Concerns(DecisionOf(q, start, timeout, step, link, m), k)
  {
    AnsweredStaysGone(q, start, timeout, step, link, n, m, k);
    DriveKeepsInvariant(q, start, timeout, step, link, m);
    NextDueOnKeys(After(q, start, timeout, step, link, m), IdealClock(Instant(start, step, m), timeout), k);
  }

  /** MAIN: the loop never lets any deadline fall 2^31 ticks behind, however many turns it takes. */
  lemma DriveStaysInWindow(
    q: Queue<int>, start: int, timeout: Word, step: Word, link: nat -> seq<LinkAck>, n: nat)
    requires JustEnqueued(q, start) && 1 <= step <= MAX_STEP
    ensures var a := After(q, start, timeout, step, link, n);
      && QueueInv(a) && Paced(a, Instant(start, step, n), step, Potential(q))
      && forall i | 0 <= i < CAPACITY && a.slots[i].active :: Instant(start, step, n) - a.slots[i].deadline < HALF_WORD
  {
    DriveKeepsPace(q, start, timeout, step, link, n);
    PotentialIsSmall(q);
    PacedIsInTime(After(q, start, timeout, step, link, n), Instant(start, step, n), step, Potential(q));
  }

  lemma {:induction false} DriveKeepsPace(
    q: Queue<int>, start: int, timeout: Word, step: Word, link: nat -> seq<LinkAck>, n: nat)
    requires JustEnqueued(q, start) && 1 <= step <= MAX_STEP
    ensures QueueInv(After(q, start, timeout, step, link, n))
    ensures Paced(After(q, start, timeout, step, link, n), Instant(start, step, n), step, Potential(q))
  {
    if n == 0 {
    } else {
      DriveKeepsPace(q, start, timeout, step, link, n - 1);
      var b, now := After(q, start, timeout, step, link, n - 1), Instant(start, step, n - 1);
      RoundSpends(b, IdealClock(now, timeout), link(n - 1));
      RoundKeepsPace(b, now, timeout, step, Potential(q), link(n - 1));
      assert After(q, start, timeout, step, link, n) == Round(b, IdealClock(now, timeout), link(n - 1)).0;
      assert Instant(start, step, n) == now + step;
    }
  }

  function Sends(log: seq<TxDecision>, k: Key): nat {
    if log == [] then 0
    else
      var last := log[|log| - 1];
      Sends(log[..|log| - 1], k) + if last.Send? && KeyOf(last.frame) == k then 1 else 0
  }

  function Exhaustions(log: seq<TxDecision>, k: Key): nat {
    if log == [] then 0
    else
      var last := log[|log| - 1];
      Exhaustions(log[..|log| - 1], k) + if last.Exhausted? && KeyOf(last.frame) == k then 1 else 0
  }

  ghost predicate NeverAnswered(link: nat -> seq<LinkAck>, k: Key) {
    forall n: nat, i | 0 <= i < |link(n)| :: Key(link(n)[i].nodeId, link(n)[i].sequence) != k
  }

  /** The log so far accounts for the attempts of a key that is never answered. */
  ghost predicate Accounted<D>(q: Queue<D>, log: seq<TxDecision>, k: Key) {
    match Lookup(q, k)
    case Some(s) => Sends(log, k) == s.attempts && Exhaustions(log, k) == 0
    case None => Sends(log, k) == q.maxAttempts && Exhaustions(log, k) == 1
  }

  lemma {:induction false} AnswersSpare<D>(q: Queue<D>, acks: seq<LinkAck>, k: Key)
    requires QueueInv(q) && forall i | 0 <= i < |acks| :: Key(acks[i].nodeId, acks[i].sequence) != k
    ensures Lookup(AnswerAll(q, acks), k) == Lookup(q, k)
    decreases |acks|
  {
    if acks == [] {
    } else {
      RemoveOnKeys(q, acks[0].nodeId, acks[0].sequence, k);
      RemoveKeepsInvariant(q, acks[0].nodeId, acks[0].sequence);
      AnswersSpare(Acknowledge(q, acks[0].nodeId, acks[0].sequence, acks[0].status).0, acks[1..], k);
    }
  }

  lemma RoundIsAccounted<D>(q: Queue<D>, c: Clock<D>, acks: seq<LinkAck>, log: seq<TxDecision>, k: Key)
    requires QueueInv(q) && Accounted(q, log, k)
    requires forall i | 0 <= i < |acks| :: Key(acks[i].nodeId, acks[i].sequence) != k
    ensures var (q', d) := Round(q, c, acks); Accounted(q', log + [d], k)
  {
    var (p, d) := NextDue(q, c);
    StepKeepsInvariant(q, Tick, c);
    NextDueOnKeys(q, c, k);
    AnswersSpare(p, acks, k);
    assert (log + [d])[..|log|] == log;
  }

  lemma {:induction false} NoneActive<D>(slots: seq<Slot<D>>)
    ensures ActiveCount(slots) == 0 <==> forall i | 0 <= i < |slots| :: !slots[i].active
  {
    if |slots| == 0 {
    } else {
      NoneActive(slots[..|slots| - 1]);
      assert forall i | 0 <= i < |slots| - 1 :: slots[i] == slots[..|slots| - 1][i];
    }
  }

  lemma {:induction false} WrappedAnswers(q: Queue<int>, acks: seq<LinkAck>)
    ensures AnswerAll(Wrapped(q), acks) == Wrapped(AnswerAll(q, acks))
    decreases |acks|
  {
    if acks == [] {
    } else {
      WordRemoveRefinesIdeal(q, acks[0].nodeId, acks[0].sequence);
      WrappedAnswers(Remove(q, acks[0].nodeId, acks[0].sequence).0, acks[1..]);
    }
  }

  method DeliverAll(queue: ReliableQueue, acks: seq<LinkAck>)
    requires queue.Valid()
    modifies queue.slots
    ensures queue.Value() == AnswerAll(old(queue.Value()), acks)
  {
    for i := 0 to |acks|
      invariant AnswerAll(queue.Value(), acks[i..]) == AnswerAll(old(queue.Value()), acks)
    {
      assert acks[i..][1..] == acks[i + 1..];
      var _ := queue.AcknowledgeFrame(acks[i].nodeId, acks[i].sequence, acks[i].status);
    }
  }

  method Turn(queue: ReliableQueue, nowMs: Word, acks: seq<LinkAck>) returns (decision: TxDecision, pending: nat)
    requires queue.Valid()
    modifies queue.slots
    ensures (queue.Value(), decision) == Round(old(queue.Value()), WordClock(nowMs, queue.timeoutMs), acks)
    ensures pending == ActiveCount(queue.Value().slots)
  {
    decision := queue.NextDueAt(nowMs);
    DeliverAll(queue, acks);
    pending := queue.PendingCount();
  }

  lemma WrappedIsAsEmpty(q: Queue<int>)
    ensures ActiveCount(Wrapped(q).slots) == 0 <==> ActiveCount(q.slots) == 0
  {
    NoneActive(q.slots);
    NoneActive(Wrapped(q).slots);
    assert forall i | 0 <= i < |q.slots| :: q.slots[i].active <==> Wrapped(q).slots[i].active;
  }

  /** The queue with its ticks read as integers. */
  ghost function Unwrapped(w: Queue<Word>): (q: Queue<int>)
    ensures Wrapped(q) == w
  {
    var q := Queue(seq(|w.slots|, i requires 0 <= i < |w.slots| =>
      Slot<int>.Slot(w.slots[i].frame, w.slots[i].deadline, w.slots[i].attempts, w.slots[i].active)), w.maxAttempts);
    assert Wrapped(q).slots == w.slots;
    q
  }

  method AdvanceTick(nowMs: Word, stepMs: Word, ghost now: int) returns (next: Word)
    requires nowMs == WordAt(now)
    ensures next == WordAt(now + stepMs)
  {
    next := (nowMs + stepMs) % WORD;
  }

  /** The loop's configuration, and where it is after some turns, in ideal time. */
  datatype Drive = Drive(origin: Queue<int>, start: int, timeout: Word, step: Word, link: nat -> seq<LinkAck>)
  {
    ghost function Now(turn: nat): int {
      Instant(start, step, turn)
    }

    ghost predicate Legal() {
      JustEnqueued(origin, start) && timeout <= HALF_WORD && 1 <= step <= MAX_STEP
    }

    ghost predicate Decided(log: seq<TxDecision>) {
      forall i | 0 <= i < |log| :: log[i] == DecisionOf(origin, start, timeout, step, link, i)
    }

    ghost predicate Reached(turn: nat, q: Queue<int>, horizon: int, log: seq<TxDecision>) {
      && q == After(origin, start, timeout, step, link, turn)
      && DeadlinesWithin(q, horizon) && horizon <= Now(turn) + timeout
      && |log| == turn && Decided(log)
      && forall k | Lookup(origin, k).Some? && NeverAnswered(link, k) :: Accounted(q, log, k)
    }
  }

  lemma DriveBegins(d: Drive)
    requires d.Legal()
    ensures d.Reached(0, d.origin, d.start, [])
  {
  }

  lemma RoundKeepsHorizon(q: Queue<int>, now: int, timeout: Word, horizon: int, acks: seq<LinkAck>)
    requires QueueInv(q) && DeadlinesWithin(q, horizon) && horizon <= now + timeout
    ensures var (q', decision) := Round(q, IdealClock(now, timeout), acks);
            DeadlinesWithin(q', if decision.Idle? then horizon else now + timeout)
  {
    var p := NextDue(q, IdealClock(now, timeout)).0;
    StepKeepsInvariant(q, Tick, IdealClock(now, timeout));
    AnswersOnlyRelease(p, acks);
  }

  lemma DecidedGrows(d: Drive, turn: nat, q: Queue<int>, horizon: int, log: seq<TxDecision>)
    requires d.Reached(turn, q, horizon, log)
    ensures d.Decided(log + [NextDue(q, IdealClock(d.Now(turn), d.timeout)).1])
  {
  }

  lemma AllAccounted(d: Drive, turn: nat, q: Queue<int>, horizon: int, log: seq<TxDecision>)
    requires QueueInv(q) && d.Reached(turn, q, horizon, log)
    ensures var (q', decision) := Round(q, IdealClock(d.Now(turn), d.timeout), d.link(turn));
            forall k | Lookup(d.origin, k).Some? && NeverAnswered(d.link, k) :: Accounted(q', log + [decision], k)
  {
    var clock, acks := IdealClock(d.Now(turn), d.timeout), d.link(turn);
    var (q', decision) := Round(q, clock, acks);
    forall k | Lookup(d.origin, k).Some? && NeverAnswered(d.link, k) ensures Accounted(q', log + [decision], k) {
      RoundIsAccounted(q, clock, acks, log, k);
    }
  }

  /** One turn: the 32-bit queue follows the ideal one, the bookkeeping holds, and the measure falls. */
  lemma DriveAdvances(d: Drive, turn: nat, q: Queue<int>, horizon: int, log: seq<TxDecision>)
    returns (q': Queue<int>, horizon': int, decision: TxDecision)
    requires d.Legal() && d.Reached(turn, q, horizon, log)
    ensures Round(Wrapped(q), WordClock(WordAt(d.Now(turn)), d.timeout), d.link(turn)) == (Wrapped(q'), decision)
    ensures d.Reached(turn + 1, q', horizon', log + [decision])
    ensures Potential(q') < Potential(q) ||
      (Potential(q') == Potential(q) && horizon' == horizon
       && (ActiveCount(Wrapped(q).slots) != 0 ==> d.Now(turn) < horizon) && d.Now(turn) < d.Now(turn + 1))
  {
    var now := d.Now(turn);
    var clock, acks := IdealClock(now, d.timeout), d.link(turn);
    var p := NextDue(q, clock).0;
    decision := NextDue(q, clock).1;
    q' := AnswerAll(p, acks);
    horizon' := if decision.Idle? then horizon else now + d.timeout;
    DriveStaysInWindow(d.origin, d.start, d.timeout, d.step, d.link, turn);
    WordStepRefinesIdeal(q, Tick, now, d.timeout);
    WrappedAnswers(p, acks);
    RoundSpends(q, clock, acks);
    RoundKeepsHorizon(q, now, d.timeout, horizon, acks);
    DecidedGrows(d, turn, q, horizon, log);
    AllAccounted(d, turn, q, horizon, log);
    WrappedIsAsEmpty(q);
    NoneActive(q.slots);
  }

  lemma AnsweredAreSilent(d: Drive, log: seq<TxDecision>)
    requires d.Legal() && d.Decided(log)
    ensures forall n: nat, m, k | n < m < |log| && Answered(d.link(n), k) :: !Concerns(log[m], k)
  {
    forall n: nat, m, k | n < m < |log| && Answered(d.link(n), k) ensures !Concerns(log[m], k) {
      AnsweredIsSilent(d.origin, d.start, d.timeout, d.step, d.link, n, m, k);
    }
  }

  lemma DriveEnds(d: Drive, w: Queue<Word>, turn: nat, q: Queue<int>, horizon: int, log: seq<TxDecision>)
    requires d.origin == Unwrapped(w) && d.Reached(turn, q, horizon, log)
    requires ActiveCount(Wrapped(q).slots) == 0
    ensures forall k | Lookup(w, k).Some? && NeverAnswered(d.link, k) ::
              Sends(log, k) == q.maxAttempts && Exhaustions(log, k) == 1
  {
    WrappedIsAsEmpty(q);
    NoneActive(q.slots);
    forall k | Lookup(w, k).Some? && NeverAnswered(d.link, k)
      ensures Sends(log, k) == q.maxAttempts && Exhaustions(log, k) == 1
    {
      FirstIndexAgrees(d.origin.slots, Holds(k.nodeId, k.sequence), w.slots, Holds(k.nodeId, k.sequence));
    }
  }

  /** The loop body; the ghost parameters follow it in ideal time. */
  method DriveTurn(
    queue: ReliableQueue, nowMs: Word, stepMs: Word, turn: nat, acks: seq<LinkAck>, log: seq<TxDecision>,
    ghost d: Drive, ghost q: Queue<int>, ghost horizon: int)
    returns (nextMs: Word, log': seq<TxDecision>, pending: nat, ghost q': Queue<int>, ghost horizon': int)
    requires queue.Valid() && queue.timeoutMs == d.timeout && stepMs == d.step && acks == d.link(turn)
    requires queue.Value() == Wrapped(q) && nowMs == WordAt(d.Now(turn))
    requires d.Legal() && d.Reached(turn, q, horizon, log)
    modifies queue.slots
    ensures queue.Value() == Wrapped(q') && nextMs == WordAt(d.Now(turn + 1))
    ensures d.Reached(turn + 1, q', horizon', log')
    ensures pending == ActiveCount(Wrapped(q').slots)
    ensures Potential(q') < Potential(q) ||
      (Potential(q') == Potential(q) && horizon' == horizon
       && (ActiveCount(Wrapped(q).slots) != 0 ==> d.Now(turn) < horizon) && d.Now(turn) < d.Now(turn + 1))
  {
    ghost var expected;
    q', horizon', expected := DriveAdvances(d, turn, q, horizon, log);
    var decision;
    decision, pending := Turn(queue, nowMs, acks);
    log' := log + [decision];
    nextMs := AdvanceTick(nowMs, stepMs, d.Now(turn));
  }

  /**
   * MAIN: the drive loop of examples/lossy_link_simulator.cpp on the 32-bit queue, for any frames
   * enqueued at the start and any acknowledgements: it ends, with an empty queue, and every frame
   * that was never acknowledged was sent exactly `maxAttempts` times and then given up once. Each turn
   * decides at its own tick, and an acknowledged frame is not heard of in any later turn.
   */
  method DriveUntilIdle(queue: ReliableQueue, startMs: Word, stepMs: Word, link: nat -> seq<LinkAck>)
    returns (log: seq<TxDecision>)
    requires queue.Valid() && queue.timeoutMs <= HALF_WORD && 1 <= stepMs <= MAX_STEP
    requires JustEnqueued(queue.Value(), startMs)
    modifies queue.slots
    ensures ActiveCount(queue.Value().slots) == 0
    ensures forall k | old(Lookup(queue.Value(), k)).Some? && NeverAnswered(link, k) ::
              Sends(log, k) == queue.maxAttempts && Exhaustions(log, k) == 1
    ensures forall i | 0 <= i < |log| ::
              log[i] == DecisionOf(Unwrapped(old(queue.Value())), startMs, queue.timeoutMs, stepMs, link, i)
    ensures forall n: nat, m, k | n < m < |log| && Answered(link(n), k) :: !Concerns(log[m], k)
  {
    ghost var d := Drive(Unwrapped(queue.Value()), startMs, queue.timeoutMs, stepMs, link);
    ghost var q, horizon: int := d.origin, startMs;
    DriveBegins(d);
    log := [];
    var nowMs, turn := startMs, 0;
    var pending := queue.PendingCount();
    while pending != 0
      invariant queue.Value() == Wrapped(q) && nowMs == WordAt(d.Now(turn))
      invariant pending == ActiveCount(Wrapped(q).slots)
      invariant d.Reached(turn, q, horizon, log)
      decreases Potential(q), if horizon > d.Now(turn) then horizon - d.Now(turn) else 0
    {
      nowMs, log, pending, q, horizon := DriveTurn(queue, nowMs, stepMs, turn, link(turn), log, d, q, horizon);
      turn := turn + 1;
    }
    AnsweredAreSilent(d, log);
    DriveEnds(d, old(queue.Value()), turn, q, horizon, log);
  }

  /** The submissions before the loop. */
  method SubmitFrames(queue: ReliableQueue, frames: seq<Frame>, nowMs: Word)
    requires queue.Valid()
    modifies queue.slots
    ensures queue.Value() == SubmitAll(old(queue.Value()), frames, WordClock(nowMs, queue.timeoutMs))
  {
    for i := 0 to |frames|
      invariant queue.Value() == SubmitAll(old(queue.Value()), frames[..i], WordClock(nowMs, queue.timeoutMs))
    {
      assert frames[..i + 1][..i] == frames[..i];
      var _ := queue.EnqueueFrame(frames[i], nowMs);
    }
    assert frames[..|frames|] == frames;
  }

  /**
   * MAIN: the whole program, for any frames, times and acknowledgements: it ends, and each of up to
   * eight well-formed frames that is never acknowledged is sent as often as the policy says (once, if
   * it says never) and given up once; an acknowledged one is not heard of again.
   */
  method Simulate(
    frames: seq<Frame>, timeoutMs: Word, maxAttempts: Byte, startMs: Word, stepMs: Word, link: nat -> seq<LinkAck>)
    returns (log: seq<TxDecision>)
    requires timeoutMs <= HALF_WORD && 1 <= stepMs <= MAX_STEP
    ensures |frames| <= CAPACITY ==>
      forall i | 0 <= i < |frames| && frames[i].payloadLength <= MAX_PAYLOAD && NeverAnswered(link, KeyOf(frames[i])) ::
        && Sends(log, KeyOf(frames[i])) == (if maxAttempts >= 1 then maxAttempts else 1)
        && Exhaustions(log, KeyOf(frames[i])) == 1
    ensures forall n: nat, m, k | n < m < |log| && Answered(link(n), k) :: !Concerns(log[m], k)
  {
    var queue := new ReliableQueue(timeoutMs, maxAttempts);
    ghost var empty := EmptyQueue<Word>(0, maxAttempts);
    ghost var clock := WordClock(startMs, timeoutMs);
    assert queue.Value() == empty;
    SubmitFrames(queue, frames, startMs);
    SubmittedIsJustEnqueued<Word>(0, maxAttempts, frames, clock);
    log := DriveUntilIdle(queue, startMs, stepMs, link);
  }
}

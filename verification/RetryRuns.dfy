/** Runs of the retry queue: invariant, 32-bit time against unbounded time, and the attempt budget. */
module RetryRuns {
  import opened Bytes
  import opened Codec
  import opened RetryQueue

  datatype Op =
    | Submit(frame: Frame)
    | Tick
    | Answer(nodeId: Byte, sequence: Byte, status: AckStatus)
    | Withdraw(nodeId: Byte, sequence: Byte)
    | Reset

  datatype Reply =
    | Admission(result: QueueResult)
    | Decision(decision: TxDecision)
    | Resolution(resolution: AckResolution)
    | Withdrawal(found: bool)
    | Done

  function Step<D>(q: Queue<D>, op: Op, c: Clock<D>): (Queue<D>, Reply) {
    match op
    case Submit(frame) => var (q', r) := Enqueue(q, frame, c); (q', Admission(r))
    case Tick => var (q', d) := NextDue(q, c); (q', Decision(d))
    case Answer(n, s, status) => var (q', r) := Acknowledge(q, n, s, status); (q', Resolution(r))
    case Withdraw(n, s) => var (q', found) := Remove(q, n, s); (q', Withdrawal(found))
    case Reset => (Clear(q, c.zero), Done)
  }

  // ---------------------------------------------------------------- invariant

  ghost predicate Healthy<D>(s: Slot<D>, maxAttempts: Byte) {
    s.active ==> s.attempts <= maxAttempts && s.frame.flags % 2 == 1 && s.frame.payloadLength <= MAX_PAYLOAD
  }

  ghost predicate SameKey<D>(s: Slot<D>, t: Slot<D>) {
    s.active && t.active && s.frame.nodeId == t.frame.nodeId && s.frame.sequence == t.frame.sequence
  }

  ghost predicate QueueInv<D>(q: Queue<D>) {
    && |q.slots| == CAPACITY && q.maxAttempts >= 1
    && (forall i | 0 <= i < CAPACITY :: Healthy(q.slots[i], q.maxAttempts))
    && (forall i, j | 0 <= i < j < CAPACITY :: !SameKey(q.slots[i], q.slots[j]))
  }

  /** Every operation keeps the invariant, whatever the clock. */
  lemma StepKeepsInvariant<D>(q: Queue<D>, op: Op, c: Clock<D>)
    requires QueueInv(q)
    ensures QueueInv(Step(q, op, c).0) && Step(q, op, c).0.maxAttempts == q.maxAttempts
  {
    match op
    case Submit(f) => EnqueueKeepsInvariant(q, f, c);
    case Tick => NextDueKeepsInvariant(q, c);
    case Answer(n, s, _) => RemoveKeepsInvariant(q, n, s);
    case Withdraw(n, s) => RemoveKeepsInvariant(q, n, s);
    case Reset =>
  }

  lemma EnqueueKeepsInvariant<D>(q: Queue<D>, f: Frame, c: Clock<D>)
    requires QueueInv(q)
    ensures QueueInv(Enqueue(q, f, c).0)
  {
  }

  lemma NextDueKeepsInvariant<D>(q: Queue<D>, c: Clock<D>)
    requires QueueInv(q)
    ensures QueueInv(NextDue(q, c).0)
  {
  }

  lemma RemoveKeepsInvariant<D>(q: Queue<D>, n: Byte, s: Byte)
    requires QueueInv(q)
    ensures QueueInv(Remove(q, n, s).0)
  {
  }

  /** What `next_due` hands out is an active frame of the queue, and it survives the wire. */
  lemma SendSurvivesTheWire<D>(q: Queue<D>, c: Clock<D>)
    requires QueueInv(q) && NextDue(q, c).1.Send?
    ensures var d := NextDue(q, c).1;
            && 1 <= d.attempts <= q.maxAttempts
            && (exists i | 0 <= i < CAPACITY :: q.slots[i].active && q.slots[i].frame == d.frame)
            && Decode(Encode(d.frame)).Ok?
            && var g := Decode(Encode(d.frame)).frame;
               && g.(payload := d.frame.payload) == d.frame
               && g.payload[..g.payloadLength] == d.frame.payload[..d.frame.payloadLength]
               && g.flags % 2 == 1
  {
  }

  // ---------------------------------------------------------------- 32-bit time refines integer time

  datatype Timed = At(now: int, op: Op)

  /** A run of timed operations; `clocks` says how the queue sees each instant. */
  ghost function Run<D>(q: Queue<D>, ops: seq<Timed>, clocks: int -> Clock<D>): (Queue<D>, seq<Reply>)
    decreases |ops|
  {
    if ops == [] then (q, [])
    else
      var (q', r) := Step(q, ops[0].op, clocks(ops[0].now));
      var (q'', rs) := Run(q', ops[1..], clocks);
      (q'', [r] + rs)
  }

  lemma RunUnfolds<D>(q: Queue<D>, ops: seq<Timed>, clocks: int -> Clock<D>)
    requires ops != []
    ensures var (q', r) := Step(q, ops[0].op, clocks(ops[0].now));
            var (q'', rs) := Run(q', ops[1..], clocks);
            Run(q, ops, clocks) == (q'', [r] + rs)
  {
  }

  /** The 32-bit reading of an instant. */
  function WordAt(now: int): Word {
    now % WORD
  }

  function IdealTime(timeout: Word): int -> Clock<int> {
    now => IdealClock(now, timeout)
  }

  function WordTime(timeout: Word): int -> Clock<Word> {
    now => WordClock(WordAt(now), timeout)
  }

  /** The firmware's view of an ideal queue: every deadline reduced modulo 2^32. */
  ghost function Wrapped(q: Queue<int>): (w: Queue<Word>)
    ensures |w.slots| == |q.slots|
  {
    Queue(seq(|q.slots|, i requires 0 <= i < |q.slots| => WrapSlot(q.slots[i])), q.maxAttempts)
  }

  ghost function WrapSlot(s: Slot<int>): Slot<Word> {
    Slot(s.frame, WordAt(s.deadline), s.attempts, s.active)
  }

  /** The exact reach of the wrapping comparison, one half range back and almost a full range ahead. */
  lemma DeadlineReachedExactly(now: int, deadline: int)
    requires -HALF_WORD <= now - deadline < WORD
    ensures (DeadlineReached(WordAt(now), WordAt(deadline)) <==> deadline <= now)
       <==> now - deadline < HALF_WORD
  {
  }

  ghost predicate InWindow(q: Queue<int>, now: int) {
    forall i | 0 <= i < |q.slots| && q.slots[i].active :: -HALF_WORD <= now - q.slots[i].deadline < HALF_WORD
  }

  lemma FirstIndexAgrees<S, T>(s: seq<S>, p: S -> bool, t: seq<T>, r: T -> bool)
    requires |s| == |t| && forall i | 0 <= i < |s| :: p(s[i]) == r(t[i])
    ensures FirstIndex(s, p) == FirstIndex(t, r)
  {
  }

  /** One operation: same reply, and the same queue up to reduction modulo 2^32. */
  lemma WordStepRefinesIdeal(q: Queue<int>, op: Op, now: int, timeout: Word)
    requires op.Tick? ==> InWindow(q, now)
    ensures var (q', r) := Step(q, op, IdealClock(now, timeout));
            Step(Wrapped(q), op, WordClock(WordAt(now), timeout)) == (Wrapped(q'), r)
  {
    match op
    case Submit(f) => WordEnqueueRefinesIdeal(q, f, now, timeout);
    case Tick => WordNextDueRefinesIdeal(q, now, timeout);
    case Answer(n, s, status) => WordRemoveRefinesIdeal(q, n, s);
    case Withdraw(n, s) => WordRemoveRefinesIdeal(q, n, s);
    case Reset => assert Clear(Wrapped(q), 0).slots == Wrapped(Clear(q, 0)).slots;
  }

  lemma WordEnqueueRefinesIdeal(q: Queue<int>, f: Frame, now: int, timeout: Word)
    ensures var (q', r) := Enqueue(q, f, IdealClock(now, timeout));
            Enqueue(Wrapped(q), f, WordClock(WordAt(now), timeout)) == (Wrapped(q'), r)
  {
    var w := Wrapped(q);
    FirstIndexAgrees(q.slots, Holds(f.nodeId, f.sequence), w.slots, Holds(f.nodeId, f.sequence));
    FirstIndexAgrees(q.slots, Free(), w.slots, Free());
    assert Enqueue(w, f, WordClock(WordAt(now), timeout)).0.slots
        == Wrapped(Enqueue(q, f, IdealClock(now, timeout)).0).slots;
  }

  lemma WordNextDueRefinesIdeal(q: Queue<int>, now: int, timeout: Word)
    requires InWindow(q, now)
    ensures var (q', r) := NextDue(q, IdealClock(now, timeout));
            NextDue(Wrapped(q), WordClock(WordAt(now), timeout)) == (Wrapped(q'), r)
  {
    var w, c, d := Wrapped(q), IdealClock(now, timeout), WordClock(WordAt(now), timeout);
    WordDueRefinesIdeal(q, now, timeout);
    WordAdvance(now, timeout);
    assert NextDue(w, d).0.slots == Wrapped(NextDue(q, c).0).slots;
  }

  lemma WordDueRefinesIdeal(q: Queue<int>, now: int, timeout: Word)
    requires InWindow(q, now)
    ensures FirstIndex(q.slots, Due(IdealClock(now, timeout)))
         == FirstIndex(Wrapped(q).slots, Due(WordClock(WordAt(now), timeout)))
  {
    var w, c, d := Wrapped(q), IdealClock(now, timeout), WordClock(WordAt(now), timeout);
    forall i | 0 <= i < |q.slots| ensures Due(c)(q.slots[i]) == Due(d)(w.slots[i]) {
      if q.slots[i].active {
        DeadlineReachedExactly(now, q.slots[i].deadline);
      }
    }
    FirstIndexAgrees(q.slots, Due(c), w.slots, Due(d));
  }

  lemma WordAdvance(now: int, timeout: Word)
    ensures (WordAt(now) + timeout) % WORD == WordAt(now + timeout)
  {
  }

  lemma WordRemoveRefinesIdeal(q: Queue<int>, n: Byte, s: Byte)
    ensures var (q', found) := Remove(q, n, s); Remove(Wrapped(q), n, s) == (Wrapped(q'), found)
  {
    FirstIndexAgrees(q.slots, Holds(n, s), Wrapped(q).slots, Holds(n, s));
    assert Remove(Wrapped(q), n, s).0.slots == Wrapped(Remove(q, n, s).0).slots;
  }

  /** Time never runs backwards. */
  ghost predicate Ordered(last: int, ops: seq<Timed>)
    decreases |ops|
  {
    ops == [] || (last <= ops[0].now && Ordered(ops[0].now, ops[1..]))
  }

  /** No active slot of the ideal queue is overdue by 2^31 ticks or more at any `next_due`. */
  ghost predicate PolledInTime(q: Queue<int>, ops: seq<Timed>, timeout: Word)
    decreases |ops|
  {
    ops != [] ==>
      && (ops[0].op.Tick? ==>
            forall i | 0 <= i < |q.slots| && q.slots[i].active :: ops[0].now - q.slots[i].deadline < HALF_WORD)
      && PolledInTime(Step(q, ops[0].op, IdealClock(ops[0].now, timeout)).0, ops[1..], timeout)
  }

  ghost predicate DeadlinesWithin(q: Queue<int>, horizon: int) {
    forall i | 0 <= i < |q.slots| && q.slots[i].active :: q.slots[i].deadline <= horizon
  }

  /** A deadline is set to the present or one timeout later, never further. */
  lemma StepKeepsHorizon(q: Queue<int>, op: Op, last: int, now: int, timeout: Word)
    requires last <= now && DeadlinesWithin(q, last + timeout)
    ensures DeadlinesWithin(Step(q, op, IdealClock(now, timeout)).0, now + timeout)
  {
  }

  /** What one operation of a run that is polled in time needs, and what it leaves for the rest. */
  lemma StepInTime(q: Queue<int>, last: int, ops: seq<Timed>, timeout: Word)
    requires ops != [] && timeout <= HALF_WORD && Ordered(last, ops)
    requires DeadlinesWithin(q, last + timeout) && PolledInTime(q, ops, timeout)
    ensures var At(now, op) := ops[0];
      var q' := Step(q, op, IdealClock(now, timeout)).0;
      && (op.Tick? ==> InWindow(q, now))
      && Ordered(now, ops[1..]) && DeadlinesWithin(q', now + timeout) && PolledInTime(q', ops[1..], timeout)
  {
    StepKeepsHorizon(q, ops[0].op, last, ops[0].now, timeout);
  }

  /** MAIN: over every run, across any number of wraps, the 32-bit queue answers like the ideal one. */
  lemma {:induction false} WordRunRefinesIdeal(q: Queue<int>, last: int, ops: seq<Timed>, timeout: Word)
    requires timeout <= HALF_WORD && Ordered(last, ops)
    requires DeadlinesWithin(q, last + timeout) && PolledInTime(q, ops, timeout)
    ensures var (q', rs) := Run(q, ops, IdealTime(timeout));
            Run(Wrapped(q), ops, WordTime(timeout)) == (Wrapped(q'), rs)
    decreases |ops|
  {
    if ops == [] {
    } else {
      var At(now, op) := ops[0];
      StepInTime(q, last, ops, timeout);
      WordStepRefinesIdeal(q, op, now, timeout);
      WordRunRefinesIdeal(Step(q, op, IdealClock(now, timeout)).0, now, ops[1..], timeout);
      RunUnfolds(q, ops, IdealTime(timeout));
      RunUnfolds(Wrapped(q), ops, WordTime(timeout));
    }
  }

  /** From power-on: the firmware queue and the ideal queue give the same replies. */
  lemma FirmwareRunRefinesIdeal(maxAttempts: Byte, last: int, ops: seq<Timed>, timeout: Word)
    requires timeout <= HALF_WORD && Ordered(last, ops)
    requires PolledInTime(EmptyQueue(0, maxAttempts), ops, timeout)
    ensures Run(EmptyQueue<Word>(0, maxAttempts), ops, WordTime(timeout)).1
         == Run(EmptyQueue(0, maxAttempts), ops, IdealTime(timeout)).1
  {
    WordRunRefinesIdeal(EmptyQueue(0, maxAttempts), last, ops, timeout);
    assert Wrapped(EmptyQueue(0, maxAttempts)).slots == EmptyQueue<Word>(0, maxAttempts).slots;
  }

  // ---------------------------------------------------------------- the attempt budget

  /** Decisions a slot can still cause: its remaining sends and its exhaustion. */
  function Worth<D>(s: Slot<D>, maxAttempts: Byte): nat {
    if s.active && s.attempts <= maxAttempts then maxAttempts + 1 - s.attempts else 0
  }

  function Budget<D>(slots: seq<Slot<D>>, maxAttempts: Byte): nat {
    if |slots| == 0 then 0
    else Budget(slots[..|slots| - 1], maxAttempts) + Worth(slots[|slots| - 1], maxAttempts)
  }

  function Potential<D>(q: Queue<D>): nat {
    Budget(q.slots, q.maxAttempts)
  }

  lemma {:induction false} BudgetUpdate<D>(slots: seq<Slot<D>>, i: nat, s: Slot<D>, m: Byte)
    requires i < |slots|
    ensures Budget(slots[i := s], m) == Budget(slots, m) - Worth(slots[i], m) + Worth(s, m)
  {
    var n := |slots| - 1;
    if i == n {
      assert slots[i := s][..n] == slots[..n];
    } else {
      assert slots[i := s][..n] == slots[..n][i := s];
      BudgetUpdate(slots[..n], i, s, m);
    }
  }

  lemma {:induction false} BudgetBounds<D>(slots: seq<Slot<D>>, m: Byte)
    ensures Budget(slots, m) <= |slots| * (m + 1)
    ensures (forall i | 0 <= i < |slots| :: !slots[i].active) ==> Budget(slots, m) == 0
    ensures forall i | 0 <= i < |slots| :: Worth(slots[i], m) <= Budget(slots, m)
  {
    if |slots| == 0 {
    } else {
      var n := |slots| - 1;
      BudgetBounds(slots[..n], m);
      assert (n + 1) * (m + 1) == n * (m + 1) + (m + 1);
      forall i | 0 <= i < |slots| ensures Worth(slots[i], m) <= Budget(slots, m) {
        if i < n {
          assert slots[..n][i] == slots[i];
        }
      }
    }
  }

  /** What an acknowledgement, a cancellation or a clear gives back. */
  function Released<D>(q: Queue<D>, op: Op): nat {
    match op
    case Answer(n, s, _) => WorthOfKey(q, n, s)
    case Withdraw(n, s) => WorthOfKey(q, n, s)
    case Reset => Potential(q)
    case _ => 0
  }

  function WorthOfKey<D>(q: Queue<D>, nodeId: Byte, sequence: Byte): nat {
    var i := FirstIndex(q.slots, Holds(nodeId, sequence));
    if i < |q.slots| then Worth(q.slots[i], q.maxAttempts) else 0
  }

  function Spent(r: Reply): nat {
    if r.Decision? && !r.decision.Idle? then 1 else 0
  }

  function Admitted(r: Reply): nat {
    if r == Admission(Queued) then 1 else 0
  }

  /** Each decision costs one unit; each admission brings max_attempts + 1; nothing else moves. */
  lemma StepBudget<D>(q: Queue<D>, op: Op, c: Clock<D>)
    requires QueueInv(q)
    ensures var (q', r) := Step(q, op, c);
            Potential(q') + Spent(r) + Released(q, op)
            == Potential(q) + if Admitted(r) == 1 then q.maxAttempts + 1 else 0
  {
    var (q', r) := Step(q, op, c);
    var m := q.maxAttempts;
    match op
    case Submit(f) =>
      var i := FirstIndex(q.slots, Free());
      if r == Admission(Queued) {
        BudgetUpdate(q.slots, i, q'.slots[i], m);
      }
    case Tick =>
      var i := FirstIndex(q.slots, Due(c));
      if i < |q.slots| {
        assert Healthy(q.slots[i], m);
        BudgetUpdate(q.slots, i, q'.slots[i], m);
      }
    case Answer(n, s, _) => RemovalBudget(q, n, s);
    case Withdraw(n, s) => RemovalBudget(q, n, s);
    case Reset => BudgetBounds(q'.slots, m);
  }

  lemma RemovalBudget<D>(q: Queue<D>, n: Byte, s: Byte)
    ensures Potential(Remove(q, n, s).0) + WorthOfKey(q, n, s) == Potential(q)
  {
    var i := FirstIndex(q.slots, Holds(n, s));
    if i < |q.slots| {
      BudgetUpdate(q.slots, i, q.slots[i].(active := false), q.maxAttempts);
    }
  }

  ghost function TotalReleased<D>(q: Queue<D>, ops: seq<Timed>, clocks: int -> Clock<D>): nat
    decreases |ops|
  {
    if ops == [] then 0
    else Released(q, ops[0].op) + TotalReleased(Step(q, ops[0].op, clocks(ops[0].now)).0, ops[1..], clocks)
  }

  function TotalSpent(rs: seq<Reply>): nat {
    if rs == [] then 0 else Spent(rs[0]) + TotalSpent(rs[1..])
  }

  function TotalAdmitted(rs: seq<Reply>): nat {
    if rs == [] then 0 else Admitted(rs[0]) + TotalAdmitted(rs[1..])
  }

  /** What the admissions of a run bring: for each, its sends and its exhaustion. */
  function TotalGranted(rs: seq<Reply>, maxAttempts: Byte): nat {
    if rs == [] then 0
    else (if Admitted(rs[0]) == 1 then maxAttempts + 1 else 0) + TotalGranted(rs[1..], maxAttempts)
  }

  lemma {:induction false} GrantsAreAdmissions(rs: seq<Reply>, maxAttempts: Byte)
    ensures TotalGranted(rs, maxAttempts) == (maxAttempts + 1) * TotalAdmitted(rs)
  {
    if rs == [] {
    } else {
      GrantsAreAdmissions(rs[1..], maxAttempts);
      Distribute(maxAttempts + 1, Admitted(rs[0]), TotalAdmitted(rs[1..]));
    }
  }

  lemma Distribute(k: int, a: int, b: int)
    ensures k * (a + b) == k * a + k * b
  {
  }

  lemma TotalsUnfold<D>(q: Queue<D>, ops: seq<Timed>, clocks: int -> Clock<D>)
    requires ops != []
    ensures var (q', r) := Step(q, ops[0].op, clocks(ops[0].now));
      var (all, rest) := (Run(q, ops, clocks), Run(q', ops[1..], clocks));
      && all.0 == rest.0
      && TotalSpent(all.1) == Spent(r) + TotalSpent(rest.1)
      && TotalGranted(all.1, q.maxAttempts)
         == (if Admitted(r) == 1 then q.maxAttempts + 1 else 0) + TotalGranted(rest.1, q.maxAttempts)
      && TotalReleased(q, ops, clocks) == Released(q, ops[0].op) + TotalReleased(q', ops[1..], clocks)
  {
  }

  lemma {:induction false} BudgetTelescopes<D>(q: Queue<D>, ops: seq<Timed>, clocks: int -> Clock<D>)
    requires QueueInv(q)
    ensures var (q', rs) := Run(q, ops, clocks);
            && QueueInv(q')
            && TotalSpent(rs) + TotalReleased(q, ops, clocks) + Potential(q')
               == Potential(q) + TotalGranted(rs, q.maxAttempts)
    decreases |ops|
  {
    if ops == [] {
    } else {
      var c := clocks(ops[0].now);
      StepKeepsInvariant(q, ops[0].op, c);
      StepBudget(q, ops[0].op, c);
      BudgetTelescopes(Step(q, ops[0].op, c).0, ops[1..], clocks);
      TotalsUnfold(q, ops, clocks);
    }
  }

  /** MAIN: attempts are conserved over every run, under any clock, wrapping or not. */
  lemma BudgetIsConserved<D>(q: Queue<D>, ops: seq<Timed>, clocks: int -> Clock<D>)
    requires QueueInv(q)
    ensures var (q', rs) := Run(q, ops, clocks);
            && QueueInv(q')
            && TotalSpent(rs) + TotalReleased(q, ops, clocks) + Potential(q')
               == Potential(q) + (q.maxAttempts + 1) * TotalAdmitted(rs)
  {
    BudgetTelescopes(q, ops, clocks);
    GrantsAreAdmissions(Run(q, ops, clocks).1, q.maxAttempts);
  }

  /** From an empty queue: everything spent, given back or still owed was brought in by an admission. */
  lemma BudgetFromEmpty<D>(zero: D, maxAttempts: Byte, ops: seq<Timed>, clocks: int -> Clock<D>)
    ensures var q := EmptyQueue(zero, maxAttempts);
            var (q', rs) := Run(q, ops, clocks);
            TotalSpent(rs) + TotalReleased(q, ops, clocks) + Potential(q')
            == (if maxAttempts >= 1 then maxAttempts + 1 else 2) * TotalAdmitted(rs)
  {
    var q := EmptyQueue(zero, maxAttempts);
    BudgetBounds(q.slots, q.maxAttempts);
    BudgetIsConserved(q, ops, clocks);
  }
}

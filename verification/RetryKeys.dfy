/** The slot array as a finite map from (node, sequence) keys, and the life of one key. */
module RetryKeys {
  import opened Bytes
  import opened Codec
  import opened RetryQueue
  import opened RetryRuns

  datatype Key = Key(nodeId: Byte, sequence: Byte)

  function KeyOf(f: Frame): Key {
    Key(f.nodeId, f.sequence)
  }

  function Lookup<D>(q: Queue<D>, k: Key): Option<Slot<D>> {
    var i := FirstIndex(q.slots, Holds(k.nodeId, k.sequence));
    if i < |q.slots| then Some(q.slots[i]) else None
  }

  // ---------------------------------------------------------------- what each operation does to each key

  lemma LookupFinds<D>(q: Queue<D>, i: nat)
    requires QueueInv(q) && i < CAPACITY && q.slots[i].active
    ensures FirstIndex(q.slots, Holds(q.slots[i].frame.nodeId, q.slots[i].frame.sequence)) == i
    ensures Lookup(q, KeyOf(q.slots[i].frame)) == Some(q.slots[i])
  {
  }

  /** Replacing one slot changes at most the key it held and the key it holds now. */
  lemma LookupUpdate<D>(q: Queue<D>, i: nat, s: Slot<D>, k: Key)
    requires QueueInv(q) && i < CAPACITY && QueueInv(q.(slots := q.slots[i := s]))
    ensures Lookup(q.(slots := q.slots[i := s]), k) ==
      if s.active && KeyOf(s.frame) == k then Some(s)
      else if q.slots[i].active && KeyOf(q.slots[i].frame) == k then None
      else Lookup(q, k)
  {
    var q' := q.(slots := q.slots[i := s]);
    var p := Holds<D>(k.nodeId, k.sequence);
    var j, j' := FirstIndex(q.slots, p), FirstIndex(q'.slots, p);
    if s.active && KeyOf(s.frame) == k {
      LookupFinds(q', i);
    } else if q.slots[i].active && KeyOf(q.slots[i].frame) == k {
      assert j' < CAPACITY ==> SameKey(q.slots[i], q.slots[j']);
    } else {
      assert j' < CAPACITY ==> p(q.slots[j']);
      assert j < CAPACITY ==> p(q'.slots[j]);
    }
  }

  lemma EnqueueOnKeys<D>(q: Queue<D>, f: Frame, c: Clock<D>, k: Key)
    requires QueueInv(q)
    ensures var (q', r) := Enqueue(q, f, c);
      && (r == Invalid <==> f.payloadLength > MAX_PAYLOAD || Lookup(q, KeyOf(f)).Some?)
      && Lookup(q', k) ==
         if r == Queued && k == KeyOf(f) then Some(Slot(f.(flags := WithAckFlag(f.flags)), c.present, 0, true))
         else Lookup(q, k)
  {
    var (q', r) := Enqueue(q, f, c);
    StepKeepsInvariant(q, Submit(f), c);
    if r == Queued {
      var i := FirstIndex(q.slots, Free());
      LookupUpdate(q, i, q'.slots[i], k);
    }
  }

  lemma NextDueOnKeys<D>(q: Queue<D>, c: Clock<D>, k: Key)
    requires QueueInv(q)
    ensures var (q', d) := NextDue(q, c);
      match d
      case Idle => q' == q && (Lookup(q, k).Some? ==> !c.reached(Lookup(q, k).value.deadline))
      case Send(f, attempts) =>
        && Lookup(q, KeyOf(f)).Some?
        && var s := Lookup(q, KeyOf(f)).value;
           && s.active && s.frame == f && c.reached(s.deadline)
           && attempts == s.attempts + 1 <= q.maxAttempts
           && Lookup(q', k) ==
              if k == KeyOf(f) then Some(s.(attempts := attempts, deadline := c.renewed)) else Lookup(q, k)
      case Exhausted(f, attempts) =>
        && Lookup(q, KeyOf(f)).Some?
        && var s := Lookup(q, KeyOf(f)).value;
           && s.active && s.frame == f && c.reached(s.deadline)
           && attempts == s.attempts == q.maxAttempts
           && Lookup(q', k) == if k == KeyOf(f) then None else Lookup(q, k)
  {
    var (q', d) := NextDue(q, c);
    var i := FirstIndex(q.slots, Due(c));
    if i < CAPACITY {
      StepKeepsInvariant(q, Tick, c);
      LookupFinds(q, i);
      LookupUpdate(q, i, q'.slots[i], k);
    } else {
      var j := FirstIndex(q.slots, Holds(k.nodeId, k.sequence));
      assert j < CAPACITY ==> !Due(c)(q.slots[j]);
    }
  }

  lemma RemoveOnKeys<D>(q: Queue<D>, n: Byte, s: Byte, k: Key)
    requires QueueInv(q)
    ensures var (q', found) := Remove(q, n, s);
      && (found <==> Lookup(q, Key(n, s)).Some?)
      && Lookup(q', k) == if k == Key(n, s) then None else Lookup(q, k)
  {
    var i := FirstIndex(q.slots, Holds(n, s));
    if i < CAPACITY {
      LookupUpdate(q, i, q.slots[i].(active := false), k);
    }
  }

  lemma ClearOnKeys<D>(q: Queue<D>, zero: D, k: Key)
    ensures Lookup(Clear(q, zero), k) == None
  {
  }

  // ---------------------------------------------------------------- the finite map

  ghost function Keys<D>(slots: seq<Slot<D>>): set<Key> {
    set i | 0 <= i < |slots| && slots[i].active :: KeyOf(slots[i].frame)
  }

  ghost function Table<D>(q: Queue<D>): map<Key, Slot<D>> {
    map k | k in Keys(q.slots) && Lookup(q, k).Some? :: Lookup(q, k).value
  }

  lemma TableIsLookup<D>(q: Queue<D>, k: Key)
    requires QueueInv(q)
    ensures k in Keys(q.slots) <==> Lookup(q, k).Some?
    ensures k in Table(q) <==> Lookup(q, k).Some?
    ensures k in Table(q) ==> Table(q)[k] == Lookup(q, k).value
  {
  }

  /** Distinct keys: counting active slots counts the map. */
  lemma {:induction false} ActiveCountIsKeyCount<D>(slots: seq<Slot<D>>)
    requires forall i, j | 0 <= i < j < |slots| :: !SameKey(slots[i], slots[j])
    ensures |Keys(slots)| == ActiveCount(slots)
  {
    if |slots| == 0 {
    } else {
      var n := |slots| - 1;
      ActiveCountIsKeyCount(slots[..n]);
      KeysOfLast(slots);
      if slots[n].active {
        LastKeyIsNew(slots);
      }
    }
  }

  lemma LastKeyIsNew<D>(slots: seq<Slot<D>>)
    requires |slots| > 0 && slots[|slots| - 1].active
    requires forall i | 0 <= i < |slots| - 1 :: !SameKey(slots[i], slots[|slots| - 1])
    ensures KeyOf(slots[|slots| - 1].frame) !in Keys(slots[..|slots| - 1])
  {
  }

  lemma KeysOfLast<D>(slots: seq<Slot<D>>)
    requires |slots| > 0
    ensures var n := |slots| - 1;
      Keys(slots) == Keys(slots[..n]) + if slots[n].active then {KeyOf(slots[n].frame)} else {}
  {
  }

  lemma {:induction false} FullMeansNoFreeSlot<D>(slots: seq<Slot<D>>)
    ensures ActiveCount(slots) == |slots| <==> FirstIndex(slots, Free()) == |slots|
  {
    if |slots| == 0 {
    } else {
      var n := |slots| - 1;
      FullMeansNoFreeSlot(slots[..n]);
      var i, j := FirstIndex(slots, Free()), FirstIndex(slots[..n], Free());
      assert j < n ==> Free()(slots[j]);
      assert i < n ==> Free()(slots[..n][i]);
    }
  }

  /** The queue as its documentation describes it: at most eight frames keyed by node and sequence. */
  ghost predicate TableStep<D(!new)>(
    m: map<Key, Slot<D>>, op: Op, r: Reply, m': map<Key, Slot<D>>, maxAttempts: Byte, c: Clock<D>)
  {
    match (op, r)
    case (Submit(f), Admission(Invalid)) => (f.payloadLength > MAX_PAYLOAD || KeyOf(f) in m) && m' == m
    case (Submit(f), Admission(Full)) =>
      f.payloadLength <= MAX_PAYLOAD && KeyOf(f) !in m && |m| == CAPACITY && m' == m
    case (Submit(f), Admission(Queued)) =>
      f.payloadLength <= MAX_PAYLOAD && KeyOf(f) !in m && |m| < CAPACITY
      && m' == m[KeyOf(f) := Slot(f.(flags := WithAckFlag(f.flags)), c.present, 0, true)]
    case (Tick, Decision(Idle)) => (forall k | k in m :: !c.reached(m[k].deadline)) && m' == m
    case (Tick, Decision(Send(f, a))) =>
      && KeyOf(f) in m && m[KeyOf(f)].frame == f && c.reached(m[KeyOf(f)].deadline)
      && a == m[KeyOf(f)].attempts + 1 <= maxAttempts
      && m' == m[KeyOf(f) := m[KeyOf(f)].(attempts := a, deadline := c.renewed)]
    case (Tick, Decision(Exhausted(f, a))) =>
      && KeyOf(f) in m && m[KeyOf(f)].frame == f && c.reached(m[KeyOf(f)].deadline)
      && a == m[KeyOf(f)].attempts == maxAttempts
      && m' == m - {KeyOf(f)}
    case (Answer(n, s, status), Resolution(v)) =>
      && v == (if Key(n, s) !in m then NotFound else if status == Accepted then ResolvedAccepted else ResolvedRejected)
      && m' == m - {Key(n, s)}
    case (Withdraw(n, s), Withdrawal(found)) => (found <==> Key(n, s) in m) && m' == m - {Key(n, s)}
    case (Reset, Done) => m' == map[]
    case _ => false
  }

  /** When only `k0` changed its entry, so did the map. */
  lemma TableFollows<D>(q: Queue<D>, q': Queue<D>, k0: Key, v: Option<Slot<D>>)
    requires QueueInv(q) && QueueInv(q')
    requires forall k :: Lookup(q', k) == if k == k0 then v else Lookup(q, k)
    ensures Table(q') == if v.Some? then Table(q)[k0 := v.value] else Table(q) - {k0}
  {
    var m, m' := Table(q), Table(q');
    forall k ensures (k in m' <==> if k == k0 then v.Some? else k in m)
      && (k in m' ==> m'[k] == if k == k0 then v.value else m[k])
    {
      TableIsLookup(q, k);
      TableIsLookup(q', k);
    }
    MapFollows(m, m', k0, v);
  }

  lemma MapFollows<K, V>(m: map<K, V>, m': map<K, V>, k0: K, v: Option<V>)
    requires forall k :: k in m' <==> if k == k0 then v.Some? else k in m
    requires forall k | k in m' :: m'[k] == if k == k0 then v.value else m[k]
    ensures m' == if v.Some? then m[k0 := v.value] else m - {k0}
  {
  }

  /** MAIN: the slot array with first-match search refines the finite map, operation by operation. */
  lemma SlotsRefineTable<D(!new)>(q: Queue<D>, op: Op, c: Clock<D>)
    requires QueueInv(q)
    ensures var (q', r) := Step(q, op, c);
      && |Table(q)| == ActiveCount(q.slots) <= CAPACITY
      && TableStep(Table(q), op, r, Table(q'), q.maxAttempts, c)
  {
    TableSize(q);
    StepKeepsInvariant(q, op, c);
    match op
    case Submit(f) => SubmitOnTable(q, f, c);
    case Tick => TickOnTable(q, c);
    case Answer(n, s, _) => RemoveOnTable(q, n, s);
    case Withdraw(n, s) => RemoveOnTable(q, n, s);
    case Reset => assert Keys(Clear(q, c.zero).slots) == {};
  }

  lemma SubmitOnTable<D(!new)>(q: Queue<D>, f: Frame, c: Clock<D>)
    requires QueueInv(q)
    ensures var (q', r) := Enqueue(q, f, c);
            TableStep(Table(q), Submit(f), Admission(r), Table(q'), q.maxAttempts, c)
  {
    var (q', r) := Enqueue(q, f, c);
    StepKeepsInvariant(q, Submit(f), c);
    TableSize(q);
    FullMeansNoFreeSlot(q.slots);
    EnqueueOnKeys(q, f, c, KeyOf(f));
    TableIsLookup(q, KeyOf(f));
    if r == Queued {
      forall k ensures Lookup(q', k) == if k == KeyOf(f) then Lookup(q', KeyOf(f)) else Lookup(q, k) {
        EnqueueOnKeys(q, f, c, k);
      }
      TableFollows(q, q', KeyOf(f), Lookup(q', KeyOf(f)));
    }
  }

  lemma TickOnTable<D(!new)>(q: Queue<D>, c: Clock<D>)
    requires QueueInv(q)
    ensures var (q', d) := NextDue(q, c);
            TableStep(Table(q), Tick, Decision(d), Table(q'), q.maxAttempts, c)
  {
    var (q', d) := NextDue(q, c);
    StepKeepsInvariant(q, Tick, c);
    if d.Idle? {
      forall k | k in Table(q) ensures !c.reached(Table(q)[k].deadline) {
        TableIsLookup(q, k);
        NextDueOnKeys(q, c, k);
      }
    } else {
      var k0 := KeyOf(d.frame);
      NextDueOnKeys(q, c, k0);
      TableIsLookup(q, k0);
      forall k ensures Lookup(q', k) == if k == k0 then Lookup(q', k0) else Lookup(q, k) {
        NextDueOnKeys(q, c, k);
      }
      TableFollows(q, q', k0, Lookup(q', k0));
    }
  }

  lemma RemoveOnTable<D>(q: Queue<D>, n: Byte, s: Byte)
    requires QueueInv(q)
    ensures var (q', found) := Remove(q, n, s);
            (found <==> Key(n, s) in Table(q)) && Table(q') == Table(q) - {Key(n, s)}
  {
    var q' := Remove(q, n, s).0;
    RemoveKeepsInvariant(q, n, s);
    TableIsLookup(q, Key(n, s));
    RemoveOnKeys(q, n, s, Key(n, s));
    forall k ensures Lookup(q', k) == if k == Key(n, s) then None else Lookup(q, k) {
      RemoveOnKeys(q, n, s, k);
    }
    TableFollows(q, q', Key(n, s), None);
  }

  lemma TableSize<D>(q: Queue<D>)
    requires QueueInv(q)
    ensures |Table(q)| == ActiveCount(q.slots)
  {
    ActiveCountIsKeyCount(q.slots);
    forall k: Key ensures k in Table(q) <==> k in Keys(q.slots) {
      TableIsLookup(q, k);
    }
    assert Table(q).Keys == Keys(q.slots);
  }

  // ---------------------------------------------------------------- the life of one key

  /** An observer of one key who sees the calls and the replies, but not the queue. */
  datatype Watch = Absent | Live(frame: Frame, born: int, sends: seq<int>)

  function DueAt(w: Watch, timeout: Word): int
    requires w.Live?
  {
    if w.sends == [] then w.born else w.sends[|w.sends| - 1] + timeout
  }

  /** The life a key may lead; `None` when a reply contradicts it. */
  function Observe(k: Key, w: Watch, t: Timed, r: Reply, timeout: Word, maxAttempts: Byte): Option<Watch> {
    match (t.op, r)
    case (Submit(f), Admission(result)) =>
      if KeyOf(f) != k then Some(w)
      else if result == Invalid then
        (if w.Live? || f.payloadLength > MAX_PAYLOAD then Some(w) else None)
      else if w.Live? || f.payloadLength > MAX_PAYLOAD then None
      else if result == Full then Some(w)
      else Some(Live(f.(flags := WithAckFlag(f.flags)), t.now, []))
    case (Tick, Decision(Idle)) =>
      if w.Live? && DueAt(w, timeout) <= t.now then None else Some(w)
    case (Tick, Decision(Send(f, a))) =>
      if KeyOf(f) != k then Some(w)
      else if w.Live? && f == w.frame && a == |w.sends| + 1 <= maxAttempts && DueAt(w, timeout) <= t.now then
        Some(w.(sends := w.sends + [t.now]))
      else None
    case (Tick, Decision(Exhausted(f, a))) =>
      if KeyOf(f) != k then Some(w)
      else if w.Live? && f == w.frame && a == |w.sends| == maxAttempts && DueAt(w, timeout) <= t.now then Some(Absent)
      else None
    case (Answer(n, s, status), Resolution(v)) =>
      if Key(n, s) != k then Some(w)
      else if v == (if w.Absent? then NotFound
                    else if status == Accepted then ResolvedAccepted else ResolvedRejected) then Some(Absent)
      else None
    case (Withdraw(n, s), Withdrawal(found)) =>
      if Key(n, s) != k then Some(w) else if found == w.Live? then Some(Absent) else None
    case (Reset, Done) => Some(Absent)
    case _ => None
  }

  ghost function ObserveAll(
    k: Key, w: Watch, ops: seq<Timed>, rs: seq<Reply>, timeout: Word, maxAttempts: Byte): Option<Watch>
    requires |ops| == |rs|
    decreases |ops|
  {
    if ops == [] then Some(w)
    else
      match Observe(k, w, ops[0], rs[0], timeout, maxAttempts)
      case None => None
      case Some(w') => ObserveAll(k, w', ops[1..], rs[1..], timeout, maxAttempts)
  }

  ghost predicate Tracks(k: Key, w: Watch, q: Queue<int>, timeout: Word) {
    match Lookup(q, k)
    case None => w.Absent?
    case Some(s) => w.Live? && s.frame == w.frame && s.attempts == |w.sends| && s.deadline == DueAt(w, timeout)
  }

  lemma StepIsObserved(k: Key, w: Watch, q: Queue<int>, t: Timed, timeout: Word)
    requires QueueInv(q) && Tracks(k, w, q, timeout)
    ensures var (q', r) := Step(q, t.op, IdealClock(t.now, timeout));
            var o := Observe(k, w, t, r, timeout, q.maxAttempts);
            o.Some? && Tracks(k, o.value, q', timeout)
  {
    var c := IdealClock(t.now, timeout);
    match t.op
    case Submit(f) => EnqueueOnKeys(q, f, c, k);
    case Tick => TickIsObserved(k, w, q, t, timeout);
    case Answer(n, s, _) => RemoveOnKeys(q, n, s, k);
    case Withdraw(n, s) => RemoveOnKeys(q, n, s, k);
    case Reset => ClearOnKeys(q, c.zero, k);
  }

  lemma TickIsObserved(k: Key, w: Watch, q: Queue<int>, t: Timed, timeout: Word)
    requires QueueInv(q) && Tracks(k, w, q, timeout) && t.op.Tick?
    ensures var (q', d) := NextDue(q, IdealClock(t.now, timeout));
            var o := Observe(k, w, t, Decision(d), timeout, q.maxAttempts);
            o.Some? && Tracks(k, o.value, q', timeout)
  {
    NextDueOnKeys(q, IdealClock(t.now, timeout), k);
  }

  /** MAIN: over every run, each key lives exactly the life its observer allows. */
  lemma {:induction false} RunIsObserved(k: Key, w: Watch, q: Queue<int>, ops: seq<Timed>, timeout: Word)
    requires QueueInv(q) && Tracks(k, w, q, timeout)
    ensures var (q', rs) := Run(q, ops, IdealTime(timeout));
            && |rs| == |ops|
            && var o := ObserveAll(k, w, ops, rs, timeout, q.maxAttempts);
               o.Some? && Tracks(k, o.value, q', timeout)
    decreases |ops|
  {
    if ops == [] {
    } else {
      var c := IdealClock(ops[0].now, timeout);
      var (q', r) := Step(q, ops[0].op, c);
      StepKeepsInvariant(q, ops[0].op, c);
      StepIsObserved(k, w, q, ops[0], timeout);
      var w' := Observe(k, w, ops[0], r, timeout, q.maxAttempts).value;
      RunIsObserved(k, w', q', ops[1..], timeout);
      var rs := Run(q', ops[1..], IdealTime(timeout)).1;
      assert ([r] + rs)[1..] == rs;
    }
  }

  /** What such a life guarantees: gap-free attempts (by length), spacing, and a late enough deadline. */
  ghost predicate GoodLife(w: Watch, timeout: Word, maxAttempts: Byte) {
    w.Live? ==>
      && |w.sends| <= maxAttempts
      && (w.sends != [] ==> w.born <= w.sends[0])
      && (forall i | 0 < i < |w.sends| :: w.sends[i] >= w.sends[i - 1] + timeout)
      && DueAt(w, timeout) >= w.born + |w.sends| * timeout
  }

  lemma ObservedLivesAreGood(k: Key, w: Watch, t: Timed, r: Reply, timeout: Word, maxAttempts: Byte)
    requires GoodLife(w, timeout, maxAttempts)
    requires Observe(k, w, t, r, timeout, maxAttempts).Some?
    ensures GoodLife(Observe(k, w, t, r, timeout, maxAttempts).value, timeout, maxAttempts)
  {
    if w.Live? {
      assert (|w.sends| + 1) * timeout == |w.sends| * timeout + timeout;
    }
  }

  lemma {:induction false} ObservedRunsAreGood(
    k: Key, w: Watch, ops: seq<Timed>, rs: seq<Reply>, timeout: Word, maxAttempts: Byte)
    requires |ops| == |rs| && GoodLife(w, timeout, maxAttempts)
    requires ObserveAll(k, w, ops, rs, timeout, maxAttempts).Some?
    ensures GoodLife(ObserveAll(k, w, ops, rs, timeout, maxAttempts).value, timeout, maxAttempts)
    decreases |ops|
  {
    if ops == [] {
    } else {
      ObservedLivesAreGood(k, w, ops[0], rs[0], timeout, maxAttempts);
      ObservedRunsAreGood(
        k, Observe(k, w, ops[0], rs[0], timeout, maxAttempts).value, ops[1..], rs[1..], timeout, maxAttempts);
    }
  }

  /** MAIN: the firmware's replies, from power-on, under the timing conditions of the refinement. */
  lemma FirmwareLifeCycle(k: Key, maxAttempts: Byte, last: int, ops: seq<Timed>, timeout: Word)
    requires timeout <= HALF_WORD && Ordered(last, ops)
    requires PolledInTime(EmptyQueue(0, maxAttempts), ops, timeout)
    ensures var rs := Run(EmptyQueue<Word>(0, maxAttempts), ops, WordTime(timeout)).1;
            && |rs| == |ops|
            && forall m: Byte | m == maxAttempts >= 1 || (m == 1 && maxAttempts == 0) ::
                 var o := ObserveAll(k, Absent, ops, rs, timeout, m);
                 o.Some? && GoodLife(o.value, timeout, m)
  {
    FirmwareRunRefinesIdeal(maxAttempts, last, ops, timeout);
    RunIsObserved(k, Absent, EmptyQueue(0, maxAttempts), ops, timeout);
    var rs := Run(EmptyQueue(0, maxAttempts), ops, IdealTime(timeout)).1;
    ObservedRunsAreGood(k, Absent, ops, rs, timeout, AttemptLimit(maxAttempts));
  }
}

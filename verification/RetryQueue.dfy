/** The eight-slot retry queue and the acknowledgement helpers of src/reliability.cpp. */
module RetryQueue {
  import opened Bytes
  import opened Codec

  const CAPACITY := 8

  // ---------------------------------------------------------------- acknowledgement frames

  datatype AckStatus = Accepted | Rejected | Busy | Unsupported | Malformed

  function StatusCode(status: AckStatus): Byte {
    match status
    case Accepted => 0 case Rejected => 1 case Busy => 2 case Unsupported => 3 case Malformed => 4
  }

  /** `make_ack_frame`. */
  function MakeAckFrame(nodeId: Byte, response: Byte, acknowledged: Byte, status: AckStatus): Frame {
    Frame(ACKNOWLEDGEMENT, 0, nodeId, response, Padded([acknowledged, StatusCode(status)]), 2)
  }

  datatype Ack = Ack(sequence: Byte, status: AckStatus)

  /** `parse_ack_frame`. */
  function ParseAckFrame(f: Frame): Option<Ack> {
    if f.kind != ACKNOWLEDGEMENT || f.payloadLength != 2 then None
    else if f.payload[1] > StatusCode(Malformed) then None
    else Some(Ack(f.payload[0],
      if f.payload[1] == 0 then Accepted
      else if f.payload[1] == 1 then Rejected
      else if f.payload[1] == 2 then Busy
      else if f.payload[1] == 3 then Unsupported
      else Malformed))
  }

  /** An acknowledgement says the same thing to the receiver as to the sender, over the wire. */
  lemma AckRoundTrip(nodeId: Byte, response: Byte, acknowledged: Byte, status: AckStatus)
    ensures var f := MakeAckFrame(nodeId, response, acknowledged, status);
            && Decode(Encode(f)) == Ok(f)
            && ParseAckFrame(f) == Some(Ack(acknowledged, status))
            && f.nodeId == nodeId && f.sequence == response && f.flags == 0
  {
  }

  /** The bytes of an acknowledgement on the wire, up to its checksum. */
  lemma AckOnTheWire(nodeId: Byte, response: Byte, acknowledged: Byte, status: AckStatus)
    ensures var s := Encode(MakeAckFrame(nodeId, response, acknowledged, status));
      && |s| == 10
      && s[..8] == [0xB7, 1, 0x11, 0, nodeId, response, 2, acknowledged]
      && s[8] == (match status
                  case Accepted => 0 case Rejected => 1 case Busy => 2 case Unsupported => 3 case Malformed => 4)
  {
    WireLayout(MakeAckFrame(nodeId, response, acknowledged, status));
  }

  /** Exactly the two-byte acknowledgement payloads with a known status code are understood. */
  lemma AckParsedExactly(f: Frame, ack: Ack)
    ensures ParseAckFrame(f) == Some(ack) <==>
      && f.kind == ACKNOWLEDGEMENT && f.payloadLength == 2
      && f.payload[..2] == [ack.sequence, StatusCode(ack.status)]
  {
  }

  // ---------------------------------------------------------------- queue state

  /** `D` is the type of deadlines: 32-bit ticks in the firmware, integers in the ideal queue. */
  datatype Slot<+D> = Slot(frame: Frame, deadline: D, attempts: Byte, active: bool)

  datatype Queue<+D> = Queue(slots: seq<Slot<D>>, maxAttempts: Byte)

  /** How a queue sees time at one instant. */
  datatype Clock<!D> = Clock(zero: D, present: D, renewed: D, reached: D -> bool)

  /** `deadline_reached`: the 32-bit difference, read as two's complement, is not negative. */
  predicate DeadlineReached(now: Word, deadline: Word) {
    (now - deadline) % WORD < HALF_WORD
  }

  function WordClock(now: Word, timeout: Word): Clock<Word> {
    Clock<Word>.Clock(0, now, (now + timeout) % WORD, (deadline: Word) => DeadlineReached(now, deadline))
  }

  /** Time as an integer that never wraps. */
  function IdealClock(now: int, timeout: Word): Clock<int> {
    Clock(0, now, now + timeout, deadline => deadline <= now)
  }

  datatype QueueResult = Queued | Full | Invalid
  datatype TxDecision = Idle | Send(frame: Frame, attempts: Byte) | Exhausted(frame: Frame, attempts: Byte)
  datatype AckResolution = NotFound | ResolvedAccepted | ResolvedRejected

  const BLANK_FRAME := Frame(HEARTBEAT, 0, 0, 0, Zeros(MAX_PAYLOAD), 0)

  /** A zero attempt limit is normalised to one. */
  function AttemptLimit(maxAttempts: Byte): Byte {
    if maxAttempts == 0 then 1 else maxAttempts
  }

  function EmptyQueue<D>(zero: D, maxAttempts: Byte): (q: Queue<D>)
    ensures |q.slots| == CAPACITY
  {
    Queue(seq(CAPACITY, _ => Slot(BLANK_FRAME, zero, 0, false)), AttemptLimit(maxAttempts))
  }

  /** `flags | kFlagAckRequired`: bit 0 is set and the other bits stay. */
  function WithAckFlag(flags: Byte): (r: Byte)
    ensures r % 2 == 1 && r / 2 == flags / 2
  {
    if flags % 2 == 0 then flags + 1 else flags
  }

  // ---------------------------------------------------------------- specification of the operations

  function FirstIndex<T>(s: seq<T>, p: T -> bool): (i: nat)
    ensures i <= |s|
    ensures forall j | 0 <= j < i :: !p(s[j])
    ensures i < |s| ==> p(s[i])
  {
    if |s| == 0 || p(s[0]) then 0 else 1 + FirstIndex(s[1..], p)
  }

  function Holds<D>(nodeId: Byte, sequence: Byte): Slot<D> -> bool {
    (s: Slot<D>) => s.active && s.frame.nodeId == nodeId && s.frame.sequence == sequence
  }

  function Free<D>(): Slot<D> -> bool {
    (s: Slot<D>) => !s.active
  }

  function Due<D>(c: Clock<D>): Slot<D> -> bool {
    (s: Slot<D>) => s.active && c.reached(s.deadline)
  }

  function Enqueue<D>(q: Queue<D>, input: Frame, c: Clock<D>): (Queue<D>, QueueResult) {
    if input.payloadLength > MAX_PAYLOAD then (q, Invalid)
    else if FirstIndex(q.slots, Holds(input.nodeId, input.sequence)) < |q.slots| then (q, Invalid)
    else
      var i := FirstIndex(q.slots, Free());
      if i == |q.slots| then (q, Full)
      else
        var s := Slot(input.(flags := WithAckFlag(input.flags)), c.present, 0, true);
        (q.(slots := q.slots[i := s]), Queued)
  }

  function NextDue<D>(q: Queue<D>, c: Clock<D>): (Queue<D>, TxDecision) {
    var i := FirstIndex(q.slots, Due(c));
    if i == |q.slots| then (q, Idle)
    else
      var s := q.slots[i];
      if s.attempts >= q.maxAttempts then
        (q.(slots := q.slots[i := s.(active := false)]), Exhausted(s.frame, s.attempts))
      else
        var t := s.(attempts := s.attempts + 1, deadline := c.renewed);
        (q.(slots := q.slots[i := t]), Send(t.frame, t.attempts))
  }

  function Remove<D>(q: Queue<D>, nodeId: Byte, sequence: Byte): (Queue<D>, bool) {
    var i := FirstIndex(q.slots, Holds(nodeId, sequence));
    if i == |q.slots| then (q, false)
    else (q.(slots := q.slots[i := q.slots[i].(active := false)]), true)
  }

  function Acknowledge<D>(q: Queue<D>, nodeId: Byte, sequence: Byte, status: AckStatus): (Queue<D>, AckResolution) {
    var (q', found) := Remove(q, nodeId, sequence);
    (q', if !found then NotFound else if status == Accepted then ResolvedAccepted else ResolvedRejected)
  }

  function Clear<D>(q: Queue<D>, zero: D): Queue<D> {
    q.(slots := seq(|q.slots|, _ => Slot(BLANK_FRAME, zero, 0, false)))
  }

  function ActiveCount<D>(slots: seq<Slot<D>>): (n: nat)
    ensures n <= |slots|
  {
    if |slots| == 0 then 0
    else ActiveCount(slots[..|slots| - 1]) + if slots[|slots| - 1].active then 1 else 0
  }

  // ---------------------------------------------------------------- the code

  class ReliableQueue {
    const slots: array<Slot<Word>>
    const timeoutMs: Word
    const maxAttempts: Byte

    ghost predicate Valid()
    {
      slots.Length == CAPACITY && maxAttempts >= 1
    }

    ghost function Value(): (q: Queue<Word>)
      reads slots
    {
      Queue(slots[..], maxAttempts)
    }

    constructor (timeoutMs: Word, maxAttempts: Byte)
      ensures Valid() && fresh(slots)
      ensures this.timeoutMs == timeoutMs && Value() == EmptyQueue(0, maxAttempts)
      ensures maxAttempts >= 1 ==> this.maxAttempts == maxAttempts
      ensures maxAttempts == 0 ==> this.maxAttempts == 1
      ensures forall i | 0 <= i < slots.Length :: !slots[i].active
    {
      this.timeoutMs := timeoutMs;
      this.maxAttempts := if maxAttempts == 0 then 1 else maxAttempts;
      slots := new Slot<Word>[CAPACITY](_ => Slot(BLANK_FRAME, 0, 0, false));
    }

    method EnqueueFrame(input: Frame, nowMs: Word) returns (result: QueueResult)
      requires Valid()
      modifies slots
      ensures (Value(), result) == Enqueue(old(Value()), input, WordClock(nowMs, timeoutMs))
    {
      if input.payloadLength > MAX_PAYLOAD {
        return Invalid;
      }
      for i := 0 to slots.Length
        invariant forall j | 0 <= j < i :: !Holds(input.nodeId, input.sequence)(slots[..][j])
      {
        if slots[i].active && slots[i].frame.nodeId == input.nodeId && slots[i].frame.sequence == input.sequence {
          return Invalid;
        }
      }
      for i := 0 to slots.Length
        invariant forall j | 0 <= j < i :: slots[j].active
      {
        if !slots[i].active {
          slots[i] := Slot(input.(flags := WithAckFlag(input.flags)), nowMs, 0, true);
          return Queued;
        }
      }
      result := Full;
    }

    method NextDueAt(nowMs: Word) returns (decision: TxDecision)
      requires Valid()
      modifies slots
      ensures (Value(), decision) == NextDue(old(Value()), WordClock(nowMs, timeoutMs))
    {
      for i := 0 to slots.Length
        invariant forall j | 0 <= j < i :: !Due(WordClock(nowMs, timeoutMs))(slots[..][j])
      {
        var s := slots[i];
        if !s.active || !DeadlineReached(nowMs, s.deadline) {
          continue;
        }
        assert FirstIndex(slots[..], Due(WordClock(nowMs, timeoutMs))) == i;
        if s.attempts >= maxAttempts {
          slots[i] := s.(active := false);
          return Exhausted(s.frame, s.attempts);
        }
        slots[i] := s.(attempts := s.attempts + 1, deadline := (nowMs + timeoutMs) % WORD);
        return Send(s.frame, s.attempts + 1);
      }
      decision := Idle;
    }

    method AcknowledgeFrame(nodeId: Byte, sequence: Byte, status: AckStatus) returns (resolution: AckResolution)
      requires Valid()
      modifies slots
      ensures (Value(), resolution) == Acknowledge(old(Value()), nodeId, sequence, status)
    {
      for i := 0 to slots.Length
        invariant forall j | 0 <= j < i :: !Holds(nodeId, sequence)(slots[..][j])
      {
        if slots[i].active && slots[i].frame.nodeId == nodeId && slots[i].frame.sequence == sequence {
          slots[i] := slots[i].(active := false);
          return if status == Accepted then ResolvedAccepted else ResolvedRejected;
        }
      }
      resolution := NotFound;
    }

    method CancelFrame(nodeId: Byte, sequence: Byte) returns (found: bool)
      requires Valid()
      modifies slots
      ensures (Value(), found) == Remove(old(Value()), nodeId, sequence)
    {
      for i := 0 to slots.Length
        invariant forall j | 0 <= j < i :: !Holds(nodeId, sequence)(slots[..][j])
      {
        if slots[i].active && slots[i].frame.nodeId == nodeId && slots[i].frame.sequence == sequence {
          slots[i] := slots[i].(active := false);
          return true;
        }
      }
      found := false;
    }

    method PendingCount() returns (count: nat)
      requires Valid()
      ensures count == ActiveCount(Value().slots)
    {
      count := 0;
      for i := 0 to slots.Length
        invariant count == ActiveCount(slots[..i])
      {
        assert slots[..i + 1][..i] == slots[..i];
        if slots[i].active {
          count := count + 1;
        }
      }
      assert slots[..slots.Length] == slots[..];
    }

    method ClearAll()
      requires Valid()
      modifies slots
      ensures Value() == Clear(old(Value()), 0)
    {
      for i := 0 to slots.Length
        invariant forall j | 0 <= j < i :: slots[j] == Slot(BLANK_FRAME, 0, 0, false)
      {
        slots[i] := Slot(BLANK_FRAME, 0, 0, false);
      }
    }
  }
}

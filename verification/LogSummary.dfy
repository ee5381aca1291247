/** `NodeSummary.observe` of scripts/summarize_serial_log.py, and what its counters mean. */
module LogSummary {
  import opened Bytes
  import opened SequenceTracking

  datatype Observation = Observation(sequence: int, messageType: int)

  datatype Summary = Summary(
    frames: nat, first: Option<Byte>, last: Option<Byte>,
    duplicates: nat, forward: nat, wraparounds: nat, stale: nat, messageTypes: map<int, nat>)

  const BLANK := Summary(0, None, None, 0, 0, 0, 0, map[])

  function Tally(counts: map<int, nat>, key: int): map<int, nat> {
    counts[key := (if key in counts then counts[key] else 0) + 1]
  }

  function Record(s: Summary, o: Observation): Summary {
    var sequence := Low(o.sequence);
    var s := s.(frames := s.frames + 1, messageTypes := Tally(s.messageTypes, o.messageType));
    if s.first.None? then s.(first := Some(sequence), last := Some(sequence))
    else
      var l := s.last.GetOr(0);
      var distance := (sequence - l) % 256;
      if distance == 0 then s.(duplicates := s.duplicates + 1)
      else if distance < 128 then
        s.(forward := s.forward + 1, last := Some(sequence),
           wraparounds := s.wraparounds + if sequence < l then 1 else 0)
      else s.(stale := s.stale + 1)
  }

  class NodeSummary {
    var frames: nat
    var firstSequence: Option<Byte>
    var lastSequence: Option<Byte>
    var duplicates: nat
    var forwardSteps: nat
    var wraparounds: nat
    var staleOrBackward: nat
    var messageTypes: map<int, nat>

    /** The assertion of the original: a first sequence implies a last one. */
    ghost predicate Valid()
      reads this
    {
      firstSequence.Some? ==> lastSequence.Some?
    }

    ghost function Value(): Summary
      reads this
    {
      Summary(frames, firstSequence, lastSequence, duplicates, forwardSteps, wraparounds, staleOrBackward, messageTypes)
    }

    constructor ()
      ensures Valid() && Value() == BLANK
    {
      frames, firstSequence, lastSequence := 0, None, None;
      duplicates, forwardSteps, wraparounds, staleOrBackward := 0, 0, 0, 0;
      messageTypes := map[];
    }

    method Observe(sequence: int, messageType: int)
      requires Valid()
      modifies this
      ensures Valid() && Value() == Record(old(Value()), Observation(sequence, messageType))
    {
      var low: Byte := sequence % 256;
      frames := frames + 1;
      messageTypes := Tally(messageTypes, messageType);
      if firstSequence.None? {
        firstSequence := Some(low);
        lastSequence := Some(low);
        return;
      }
      var distance := (low - lastSequence.value) % 256;
      if distance == 0 {
        duplicates := duplicates + 1;
      } else if distance < 128 {
        forwardSteps := forwardSteps + 1;
        if low < lastSequence.value {
          wraparounds := wraparounds + 1;
        }
        lastSequence := Some(low);
      } else {
        staleOrBackward := staleOrBackward + 1;
      }
    }
  }

  // ---------------------------------------------------------------- what the counters mean

  /** The summary of a whole log. */
  ghost function Summarise(log: seq<Observation>): Summary {
    if log == [] then BLANK else Record(Summarise(log[..|log| - 1]), log[|log| - 1])
  }

  /** A number moved forward to the next one with this low byte, unless that is half a cycle away or more. */
  function Advance(u: nat, sequence: Byte): nat {
    var distance := (sequence - u) % 256;
    if distance < 128 then u + distance else u
  }

  /** The first sequence plus every accepted forward distance: a number that never wraps. */
  ghost function Unrolled(log: seq<Observation>): nat
    requires log != []
  {
    var n := |log| - 1;
    var sequence := Low(log[n].sequence);
    if n == 0 then sequence
    else Advance(Unrolled(log[..n]), sequence)
  }

  /** What the tracker says of the same log, for any valid node that has not been seen before. */
  ghost function Verdicts(log: seq<Observation>): (r: (Option<Byte>, seq<SequenceState>))
    ensures |r.1| == |log|
  {
    if log == [] then (None, [])
    else
      var (last, states) := Verdicts(log[..|log| - 1]);
      var (last', state) := SequenceTracking.Observe(last, Low(log[|log| - 1].sequence));
      (last', states + [state])
  }

  ghost function Count(states: seq<SequenceState>, state: SequenceState): nat {
    if states == [] then 0
    else Count(states[..|states| - 1], state) + if states[|states| - 1] == state then 1 else 0
  }

  ghost function CountType(log: seq<Observation>, messageType: int): nat {
    if log == [] then 0
    else CountType(log[..|log| - 1], messageType) + if log[|log| - 1].messageType == messageType then 1 else 0
  }

  /** Adding a forward distance to the unrolled number: its low byte, and when a cycle is completed. */
  lemma UnrollStep(u: nat, sequence: Byte)
    ensures var distance := (sequence - u % 256) % 256;
      && (sequence - u) % 256 == distance
      && (u + distance) % 256 == sequence
      && (u + distance) / 256 == u / 256 + if sequence < u % 256 then 1 else 0
  {
    var q, r := u / 256, u % 256;
    assert u == 256 * q + r;
    var distance := if sequence < r then sequence - r + 256 else sequence - r;
    assert u + distance == 256 * (if sequence < r then q + 1 else q) + sequence;
    LowDifference(sequence, u);
  }

  /** One observation moves the counters and the unrolled number together. */
  lemma RecordFollows(s: Summary, u: nat, o: Observation)
    requires s.first.Some? && s.last == Some(u % 256) && s.wraparounds == u / 256
    ensures var s', u' := Record(s, o), Advance(u, Low(o.sequence));
      && s'.frames == s.frames + 1 && s'.first == s.first
      && s'.duplicates + s'.forward + s'.stale == s.duplicates + s.forward + s.stale + 1
      && s'.last == Some(u' % 256) && s'.wraparounds == u' / 256
  {
    UnrollStep(u, Low(o.sequence));
  }

  lemma SummaryUnfolds(log: seq<Observation>)
    requires |log| > 1
    ensures var n := |log| - 1;
      && Summarise(log) == Record(Summarise(log[..n]), log[n])
      && Unrolled(log) == Advance(Unrolled(log[..n]), Low(log[n].sequence))
  {
  }

  lemma FirstSummary(log: seq<Observation>)
    requires |log| == 1
    ensures var s, low := Summarise(log), Low(log[0].sequence);
      && s == Summary(1, Some(low), Some(low), 0, 0, 0, 0, s.messageTypes)
      && Unrolled(log) == low && low % 256 == low && low / 256 == 0
  {
    assert log[..0] == [];
  }

  /** MAIN: last sequence and wraparounds are the remainder and the quotient of the unrolled number. */
  lemma {:induction false} SummaryArithmetic(log: seq<Observation>)
    requires log != []
    ensures var s, u := Summarise(log), Unrolled(log);
      && s.frames == |log| == 1 + s.duplicates + s.forward + s.stale
      && s.first == Some(Low(log[0].sequence))
      && s.last == Some(u % 256) && s.wraparounds == u / 256
  {
    var n := |log| - 1;
    if n == 0 {
      FirstSummary(log);
    } else {
      SummaryArithmetic(log[..n]);
      assert log[..n][0] == log[0];
      SummaryUnfolds(log);
      RecordFollows(Summarise(log[..n]), Unrolled(log[..n]), log[n]);
    }
  }

  lemma RecordAgrees(s: Summary, last: Option<Byte>, o: Observation)
    requires s.last == last && (s.first.Some? <==> last.Some?)
    ensures var s', (last', state) := Record(s, o), SequenceTracking.Observe(last, Low(o.sequence));
      && s'.last == last' && s'.first.Some? && last'.Some? && (state == First <==> last.None?)
      && s'.duplicates == s.duplicates + (if state == Duplicate then 1 else 0)
      && s'.forward == s.forward + (if state == Newer then 1 else 0)
      && s'.stale == s.stale + if state == Stale then 1 else 0
  {
  }

  lemma CountSnoc(states: seq<SequenceState>, last: SequenceState, state: SequenceState)
    ensures Count(states + [last], state) == Count(states, state) + if last == state then 1 else 0
  {
  }

  /** MAIN: every counter is the number of times the C++ tracker gives the matching verdict. */
  lemma {:induction false} SummaryAgreesWithTracker(log: seq<Observation>)
    ensures var s, v := Summarise(log), Verdicts(log);
      && s.last == v.0 && (s.first.Some? <==> v.0.Some?)
      && s.duplicates == Count(v.1, Duplicate) && s.forward == Count(v.1, Newer)
      && s.stale == Count(v.1, Stale) && Count(v.1, First) == (if log == [] then 0 else 1)
    decreases |log|
  {
    if log == [] {
    } else {
      var n := |log| - 1;
      SummaryAgreesWithTracker(log[..n]);
      var (last, states) := Verdicts(log[..n]);
      var state := SequenceTracking.Observe(last, Low(log[n].sequence)).1;
      RecordAgrees(Summarise(log[..n]), last, log[n]);
      forall x {
        CountSnoc(states, state, x);
      }
    }
  }

  lemma {:induction false} MessageTypesAreCounted(log: seq<Observation>, messageType: int)
    ensures var m := Summarise(log).messageTypes;
      && (messageType in m <==> CountType(log, messageType) > 0)
      && (messageType in m ==> m[messageType] == CountType(log, messageType))
  {
    if log == [] {
    } else {
      MessageTypesAreCounted(log[..|log| - 1], messageType);
    }
  }

  // ---------------------------------------------------------------- true numbers

  ghost predicate LogInHalfRange(log: seq<Observation>) {
    log != [] ==>
      LogInHalfRange(log[..|log| - 1]) && InHalfRange(Latest(log[..|log| - 1]), log[|log| - 1].sequence)
  }

  /** The greatest number so far, when the log holds true, unwrapped numbers. */
  ghost function Latest(log: seq<Observation>): Option<int> {
    if log == [] then None else Compare(Latest(log[..|log| - 1]), log[|log| - 1].sequence).0
  }

  /** MAIN: on such a log the unrolled number is the latest true one, less the cycles before the log. */
  lemma {:induction false} UnrolledIsTheTrueNumber(log: seq<Observation>)
    requires log != [] && LogInHalfRange(log)
    ensures Latest(log) == Some(Unrolled(log) + 256 * (log[0].sequence / 256))
  {
    var n := |log| - 1;
    if n == 0 {
    } else {
      UnrolledIsTheTrueNumber(log[..n]);
      assert log[..n][0] == log[0];
      UnrollFollows(Unrolled(log[..n]), log[0].sequence / 256, log[n].sequence);
    }
  }

  lemma UnrollFollows(u: nat, k: int, number: int)
    requires InHalfRange(Some(u + 256 * k), number)
    ensures Compare(Some(u + 256 * k), number).0 == Some(Advance(u, Low(number)) + 256 * k)
  {
  }
}

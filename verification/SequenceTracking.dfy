/** Modulo-256 sequence classification (src/sequence_tracker.cpp) against unbounded numbering. */
module SequenceTracking {
  import opened Bytes

  const MAX_NODES := 32

  datatype SequenceState = First | Newer | Duplicate | Stale | InvalidNode

  // ---------------------------------------------------------------- specification

  /** One node: what it last accepted, and a new sequence byte. */
  function Observe(last: Option<Byte>, sequence: Byte): (Option<Byte>, SequenceState) {
    match last
    case None => (Some(sequence), First)
    case Some(l) =>
      var delta := (sequence - l) % 256;
      if delta == 0 then (last, Duplicate)
      else if delta < 128 then (Some(sequence), Newer)
      else (last, Stale)
  }

  type Memory<T> = m: seq<Option<T>> | |m| == MAX_NODES witness seq(MAX_NODES, _ => None)

  function ObserveNode(m: Memory<Byte>, nodeId: Byte, sequence: Byte): (Memory<Byte>, SequenceState) {
    if nodeId >= MAX_NODES then (m, InvalidNode)
    else var (last, state) := Observe(m[nodeId], sequence); (m[nodeId := last], state)
  }

  // ---------------------------------------------------------------- the code

  class SequenceTracker {
    const lastSequence: array<Byte>
    const seen: array<bool>

    ghost predicate Valid() {
      lastSequence.Length == MAX_NODES && seen.Length == MAX_NODES
    }

    ghost function Value(): Memory<Byte>
      requires Valid()
      reads lastSequence, seen
    {
      seq(MAX_NODES, i requires 0 <= i < MAX_NODES reads lastSequence, seen =>
        if seen[i] then Some(lastSequence[i]) else None)
    }

    constructor ()
      ensures Valid() && fresh(lastSequence) && fresh(seen)
      ensures Value() == seq(MAX_NODES, _ => None)
    {
      lastSequence := new Byte[MAX_NODES](_ => 0);
      seen := new bool[MAX_NODES](_ => false);
    }

    method ObserveSequence(nodeId: Byte, sequence: Byte) returns (state: SequenceState)
      requires Valid()
      modifies lastSequence, seen
      ensures (Value(), state) == ObserveNode(old(Value()), nodeId, sequence)
    {
      if nodeId >= MAX_NODES {
        return InvalidNode;
      }
      if !seen[nodeId] {
        seen[nodeId] := true;
        lastSequence[nodeId] := sequence;
        assert Value() == old(Value())[nodeId := Some(sequence)];
        return First;
      }
      ghost var last := Value()[nodeId];
      assert last == Some(lastSequence[nodeId]) && Value() == Value()[nodeId := last];
      var delta := (sequence - lastSequence[nodeId]) % 256;
      if delta == 0 {
        return Duplicate;
      }
      if delta < 128 {
        lastSequence[nodeId] := sequence;
        assert Value() == old(Value())[nodeId := Some(sequence)];
        return Newer;
      }
      state := Stale;
    }

    method ResetNode(nodeId: Byte)
      requires Valid()
      modifies lastSequence, seen
      ensures Value() == if nodeId < MAX_NODES then old(Value())[nodeId := None] else old(Value())
    {
      if nodeId < MAX_NODES {
        seen[nodeId] := false;
        lastSequence[nodeId] := 0;
      }
    }

    method ResetAll()
      requires Valid()
      modifies lastSequence, seen
      ensures Value() == seq(MAX_NODES, _ => None)
    {
      for i := 0 to MAX_NODES
        invariant forall j | 0 <= j < i :: !seen[j]
      {
        seen[i] := false;
        lastSequence[i] := 0;
      }
    }
  }

  // ---------------------------------------------------------------- unbounded numbering

  /** The intended meaning: numbers that never wrap, compared as integers. */
  function Compare(last: Option<int>, number: int): (Option<int>, SequenceState) {
    match last
    case None => (Some(number), First)
    case Some(l) =>
      if number == l then (last, Duplicate)
      else if number > l then (Some(number), Newer)
      else (last, Stale)
  }

  function Low(number: int): Byte {
    number % 256
  }

  function LowOf(last: Option<int>): Option<Byte> {
    match last case None => None case Some(l) => Some(Low(l))
  }

  ghost predicate InHalfRange(last: Option<int>, number: int) {
    last.Some? ==> -128 <= number - last.value <= 127
  }

  lemma LowDifference(a: int, b: int)
    ensures (Low(a) - Low(b)) % 256 == (a - b) % 256
  {
  }

  /** Node numbers from 32 on are refused and remembered nowhere; the others never are. */
  lemma InvalidNodeExactly(m: Memory<Byte>, nodeId: Byte, sequence: Byte)
    ensures ObserveNode(m, nodeId, sequence).1 == InvalidNode <==> nodeId >= 32
    ensures nodeId >= 32 ==> ObserveNode(m, nodeId, sequence).0 == m
  {
  }

  /** Less than a full cycle apart, the byte comparison is right exactly in [last - 128, last + 127]. */
  lemma HalfRangeExactly(last: int, number: int)
    requires -255 <= number - last <= 255
    ensures Observe(Some(Low(last)), Low(number)).1 == Compare(Some(last), number).1
       <==> InHalfRange(Some(last), number)
  {
    LowDifference(number, last);
  }

  lemma ObserveRefinesCompare(last: Option<int>, number: int)
    requires InHalfRange(last, number)
    ensures var (last', state) := Compare(last, number); Observe(LowOf(last), Low(number)) == (LowOf(last'), state)
  {
    if last.Some? {
      LowDifference(number, last.value);
    }
  }

  /** A frame seen from a node, with the number the sender really meant. */
  datatype Sighting = Sighting(nodeId: Byte, number: int)

  ghost function Track(m: Memory<Byte>, run: seq<Sighting>): (Memory<Byte>, seq<SequenceState>)
    decreases |run|
  {
    if run == [] then (m, [])
    else
      var (m', state) := ObserveNode(m, run[0].nodeId, Low(run[0].number));
      var (m'', states) := Track(m', run[1..]);
      (m'', [state] + states)
  }

  function CompareNode(m: Memory<int>, s: Sighting): (Memory<int>, SequenceState) {
    if s.nodeId >= MAX_NODES then (m, InvalidNode)
    else var (last, state) := Compare(m[s.nodeId], s.number); (m[s.nodeId := last], state)
  }

  ghost function IdealTrack(m: Memory<int>, run: seq<Sighting>): (r: (Memory<int>, seq<SequenceState>))
    ensures |r.1| == |run|
    decreases |run|
  {
    if run == [] then (m, [])
    else
      var (m', state) := CompareNode(m, run[0]);
      var (m'', states) := IdealTrack(m', run[1..]);
      (m'', [state] + states)
  }

  ghost predicate RunInHalfRange(m: Memory<int>, run: seq<Sighting>)
    decreases |run|
  {
    run != [] ==>
      && (run[0].nodeId < MAX_NODES ==> InHalfRange(m[run[0].nodeId], run[0].number))
      && RunInHalfRange(CompareNode(m, run[0]).0, run[1..])
  }

  ghost function Lows(m: Memory<int>): Memory<Byte> {
    seq(MAX_NODES, i requires 0 <= i < MAX_NODES => LowOf(m[i]))
  }

  /** MAIN: over every run in half range, byte classification is integer comparison, node by node. */
  lemma {:induction false} TrackingRefinesNumbering(m: Memory<int>, run: seq<Sighting>)
    requires RunInHalfRange(m, run)
    ensures var (m', states) := IdealTrack(m, run); Track(Lows(m), run) == (Lows(m'), states)
    decreases |run|
  {
    if run == [] {
    } else {
      var s := run[0];
      var (m', state) := CompareNode(m, s);
      if s.nodeId < MAX_NODES {
        ObserveRefinesCompare(m[s.nodeId], s.number);
        assert Lows(m') == Lows(m)[s.nodeId := LowOf(m'[s.nodeId])];
      }
      TrackingRefinesNumbering(m', run[1..]);
    }
  }

  /** The numbers of one node that were classified first or newer, in order. */
  ghost function Accepted(nodeId: Byte, run: seq<Sighting>, states: seq<SequenceState>): seq<int>
    requires |run| == |states|
    decreases |run|
  {
    if run == [] then []
    else
      (if run[0].nodeId == nodeId && states[0] in {First, Newer} then [run[0].number] else [])
      + Accepted(nodeId, run[1..], states[1..])
  }

  ghost predicate StrictlyIncreasing(s: seq<int>) {
    forall i, j | 0 <= i < j < |s| :: s[i] < s[j]
  }

  lemma AcceptedUnfolds(nodeId: Byte, m: Memory<int>, run: seq<Sighting>)
    requires run != []
    ensures var (m', state) := CompareNode(m, run[0]);
      Accepted(nodeId, run, IdealTrack(m, run).1) ==
      (if run[0].nodeId == nodeId && state in {First, Newer} then [run[0].number] else [])
      + Accepted(nodeId, run[1..], IdealTrack(m', run[1..]).1)
  {
    var (m', state) := CompareNode(m, run[0]);
    assert IdealTrack(m, run).1[1..] == IdealTrack(m', run[1..]).1;
  }

  /** Accepted numbers of a node strictly increase past what it remembered, so none is accepted twice. */
  lemma {:induction false} AcceptedNumbersIncrease(nodeId: Byte, m: Memory<int>, run: seq<Sighting>)
    requires nodeId < MAX_NODES
    ensures var a := Accepted(nodeId, run, IdealTrack(m, run).1);
      && StrictlyIncreasing(a)
      && (m[nodeId].Some? ==> forall i | 0 <= i < |a| :: a[i] > m[nodeId].value)
    decreases |run|
  {
    if run == [] {
    } else {
      var (m', state) := CompareNode(m, run[0]);
      AcceptedNumbersIncrease(nodeId, m', run[1..]);
      AcceptedUnfolds(nodeId, m, run);
      if run[0].nodeId == nodeId && state in {First, Newer} {
        assert m'[nodeId] == Some(run[0].number);
      } else {
        assert m'[nodeId] == m[nodeId];
      }
    }
  }

  /** MAIN: so the byte tracker accepts, of each node, only numbers past the remembered one, and each at most once. */
  lemma TrackedNumbersIncrease(nodeId: Byte, m: Memory<int>, run: seq<Sighting>)
    requires nodeId < MAX_NODES && RunInHalfRange(m, run)
    ensures |Track(Lows(m), run).1| == |run|
    ensures var a := Accepted(nodeId, run, Track(Lows(m), run).1);
      && StrictlyIncreasing(a)
      && (m[nodeId].Some? ==> forall i | 0 <= i < |a| :: a[i] > m[nodeId].value)
  {
    TrackingRefinesNumbering(m, run);
    AcceptedNumbersIncrease(nodeId, m, run);
  }

  function Of(nodeId: Byte, run: seq<Sighting>): seq<Sighting> {
    if run == [] then [] else (if run[0].nodeId == nodeId then [run[0]] else []) + Of(nodeId, run[1..])
  }

  ghost function StatesOf(nodeId: Byte, run: seq<Sighting>, states: seq<SequenceState>): seq<SequenceState>
    requires |run| == |states|
    decreases |run|
  {
    if run == [] then []
    else (if run[0].nodeId == nodeId then [states[0]] else []) + StatesOf(nodeId, run[1..], states[1..])
  }

  /** What a node is told depends on its own frames only. */
  lemma {:induction false} NodesAreIndependent(nodeId: Byte, m: Memory<Byte>, m2: Memory<Byte>, run: seq<Sighting>)
    requires nodeId < MAX_NODES && m[nodeId] == m2[nodeId]
    ensures |Track(m, run).1| == |run|
    ensures StatesOf(nodeId, run, Track(m, run).1) == Track(m2, Of(nodeId, run)).1
    ensures Track(m, run).0[nodeId] == Track(m2, Of(nodeId, run)).0[nodeId]
    decreases |run|
  {
    if run == [] {
    } else {
      var s := run[0];
      var m' := ObserveNode(m, s.nodeId, Low(s.number)).0;
      assert Track(m, run).1[1..] == Track(m', run[1..]).1;
      if s.nodeId == nodeId {
        assert Of(nodeId, run)[1..] == Of(nodeId, run[1..]);
        NodesAreIndependent(nodeId, m', ObserveNode(m2, nodeId, Low(s.number)).0, run[1..]);
      } else {
        assert Of(nodeId, run) == Of(nodeId, run[1..]);
        NodesAreIndependent(nodeId, m', m2, run[1..]);
      }
    }
  }
}

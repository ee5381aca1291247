/** The incremental stream parser of src/stream_decoder.cpp, against a whole-stream parser. */
module StreamDecoding {
  import opened Bytes
  import opened Codec

  /** One result per byte; `Discarded` always carries `BadMagic` in the firmware. */
  datatype StreamResult =
    NeedMore | FrameReady(frame: Frame) | FrameError(error: DecodeError) | Discarded

  /** The bytes kept for the current candidate, and its length once the header is complete (else 0). */
  datatype State = State(held: seq<Byte>, expected: nat)

  const IDLE := State([], 0)

  // ---------------------------------------------------------------- specification of one byte

  function FailWith(error: DecodeError, last: Byte): (State, StreamResult) {
    (if last == FRAME_MAGIC then State([last], 0) else IDLE, FrameError(error))
  }

  function Feed(st: State, b: Byte): (r: (State, StreamResult))
    requires |st.held| <= MAX_ENCODED
    ensures |r.0.held| <= MAX_ENCODED
  {
    if st.held == [] then
      if b != FRAME_MAGIC then (st, Discarded) else (st.(held := [b]), NeedMore)
    else if |st.held| >= MAX_ENCODED then FailWith(LengthMismatch, b)
    else
      var held := st.held + [b];
      if |held| == 2 && held[1] != PROTOCOL_VERSION then FailWith(UnsupportedVersion, b)
      else if |held| == HEADER_SIZE && held[6] > MAX_PAYLOAD then FailWith(PayloadTooLarge, b)
      else
        var expected := if |held| == HEADER_SIZE then FRAME_OVERHEAD + held[6] else st.expected;
        if expected != 0 && |held| == expected then
          match Decode(held)
          case Ok(frame) => (IDLE, FrameReady(frame))
          case Err(error) => (IDLE, FrameError(error))
        else (State(held, expected), NeedMore)
  }

  // ---------------------------------------------------------------- the code

  class StreamDecoder {
    var buffer: array<Byte>
    var size: nat
    var expectedLength: nat

    ghost predicate Valid()
      reads this
    {
      buffer.Length == MAX_ENCODED && size <= MAX_ENCODED
    }

    ghost function Value(): (st: State)
      requires Valid()
      reads this, buffer
      ensures |st.held| <= MAX_ENCODED
    {
      State(buffer[..size], expectedLength)
    }

    constructor ()
      ensures Valid() && fresh(buffer) && Value() == IDLE
    {
      buffer := new Byte[MAX_ENCODED](_ => 0);
      size, expectedLength := 0, 0;
    }

    method Reset()
      requires Valid()
      modifies this
      ensures Valid() && buffer == old(buffer) && Value() == IDLE
    {
      size, expectedLength := 0, 0;
    }

    method Fail(error: DecodeError, last: Byte) returns (r: StreamResult)
      requires Valid()
      modifies this, buffer
      ensures Valid() && buffer == old(buffer)
      ensures (Value(), r) == FailWith(error, last)
    {
      Reset();
      if last == FRAME_MAGIC {
        buffer[0] := last;
        size := 1;
        assert buffer[..1] == [last];
      }
      r := FrameError(error);
    }

    method FeedByte(b: Byte) returns (r: StreamResult)
      requires Valid()
      modifies this, buffer
      ensures Valid() && buffer == old(buffer)
      ensures (Value(), r) == Feed(old(Value()), b)
    {
      if size == 0 {
        if b != FRAME_MAGIC {
          return Discarded;
        }
        buffer[size] := b;
        size := size + 1;
        assert buffer[..1] == [b];
        return NeedMore;
      }
      if size >= buffer.Length {
        r := Fail(LengthMismatch, b);
        return;
      }
      buffer[size] := b;
      size := size + 1;
      assert buffer[..size] == old(buffer[..size]) + [b];
      if size == 2 && buffer[1] != PROTOCOL_VERSION {
        r := Fail(UnsupportedVersion, b);
        return;
      }
      if size == HEADER_SIZE {
        var n: nat := buffer[6];
        if n > MAX_PAYLOAD {
          r := Fail(PayloadTooLarge, b);
          return;
        }
        expectedLength := FRAME_OVERHEAD + n;
      }
      if expectedLength != 0 && size == expectedLength {
        var decoded := DecodeFrame(buffer[..size]);
        Reset();
        return match decoded case Ok(frame) => FrameReady(frame) case Err(error) => FrameError(error);
      }
      r := NeedMore;
    }
  }

  // ---------------------------------------------------------------- reachable states

  /** What `held` can be between two bytes: a proper prefix of a frame with a good header so far. */
  ghost predicate Partial(s: seq<Byte>) {
    && |s| < MAX_ENCODED
    && (|s| >= 1 ==> s[0] == FRAME_MAGIC)
    && (|s| >= 2 ==> s[1] == PROTOCOL_VERSION)
    && (|s| >= HEADER_SIZE ==> s[6] <= MAX_PAYLOAD && |s| < FRAME_OVERHEAD + s[6])
  }

  function Holding(s: seq<Byte>): State {
    State(s, if |s| >= HEADER_SIZE then FRAME_OVERHEAD + s[6] else 0)
  }

  ghost predicate Reachable(st: State) {
    Partial(st.held) && st == Holding(st.held)
  }

  /** Every byte keeps the decoder reachable, so the buffer never fills up; only three errors can be reported. */
  lemma FeedKeepsReachable(st: State, b: Byte)
    requires Reachable(st)
    ensures |st.held| < MAX_ENCODED
    ensures Reachable(Feed(st, b).0)
    ensures Feed(st, b).1.FrameError? ==> Feed(st, b).1.error in {UnsupportedVersion, PayloadTooLarge, BadChecksum}
    ensures Feed(st, b).1.NeedMore? <==> Feed(st, b).0.held == st.held + [b]
    ensures !Feed(st, b).1.NeedMore? && b != FRAME_MAGIC ==> Feed(st, b).0 == IDLE
  {
  }

  // ---------------------------------------------------------------- whole streams

  datatype Parsed = Parsed(events: seq<StreamResult>, rest: State)

  /** Feeding a whole byte stream to the decoder, one byte at a time. */
  ghost function Run(st: State, s: seq<Byte>): (p: Parsed)
    requires Reachable(st)
    ensures |p.events| == |s| && Reachable(p.rest)
    decreases |s|
  {
    if s == [] then Parsed([], st)
    else
      FeedKeepsReachable(st, s[0]);
      var (st', e) := Feed(st, s[0]);
      var p := Run(st', s[1..]);
      Parsed([e] + p.events, p.rest)
  }

  lemma RunCons(st: State, b: Byte, t: seq<Byte>)
    requires Reachable(st)
    ensures Reachable(Feed(st, b).0)
    ensures var (st', e) := Feed(st, b); var p := Run(st', t);
            Run(st, [b] + t) == Parsed([e] + p.events, p.rest)
  {
  }

  lemma {:induction false} RunAppend(st: State, s: seq<Byte>, t: seq<Byte>)
    requires Reachable(st)
    ensures var p := Run(st, s); var q := Run(p.rest, t);
            Run(st, s + t) == Parsed(p.events + q.events, q.rest)
    decreases |s|
  {
    if s == [] {
      assert s + t == t;
    } else {
      var (st', e) := Feed(st, s[0]);
      assert [s[0]] + s[1..] == s && [s[0]] + (s[1..] + t) == s + t;
      RunCons(st, s[0], s[1..]);
      RunCons(st, s[0], s[1..] + t);
      RunAppend(st', s[1..], t);
      var p := Run(st', s[1..]);
      assert [e] + (p.events + Run(p.rest, t).events) == ([e] + p.events) + Run(p.rest, t).events;
    }
  }

  function Waiting(n: nat): (e: seq<StreamResult>)
    ensures |e| == n
  {
    seq(n, _ => NeedMore)
  }

  lemma HoldOne(s: seq<Byte>, k: nat)
    requires k < |s| && Partial(s) && Partial(s[..k])
    ensures Partial(s[..k + 1])
    ensures Feed(Holding(s[..k]), s[k]) == (Holding(s[..k + 1]), NeedMore)
  {
    var c := s[..k + 1];
    assert c == s[..k] + [s[k]];
    assert k == 0 ==> c == [s[0]];
    assert k >= 1 ==> c[1] == s[1];
    assert k >= 6 ==> c[6] == s[6];
    assert k >= 7 ==> s[..k][6] == s[6];
  }

  /** Bytes that only extend a candidate are kept, one `NeedMore` each. */
  lemma {:induction false} RunHolds(s: seq<Byte>, k: nat)
    requires k <= |s| && Partial(s) && Partial(s[..k])
    ensures Run(Holding(s[..k]), s[k..]) == Parsed(Waiting(|s| - k), Holding(s))
    decreases |s| - k
  {
    if k == |s| {
      assert s[..k] == s;
    } else {
      HoldOne(s, k);
      RunHolds(s, k + 1);
      assert s[k..][1..] == s[k + 1..];
    }
  }

  /** A candidate, then the rest of the stream `[b] + t` whose first byte decides about it. */
  lemma RunDecides(d: seq<Byte>, b: Byte, t: seq<Byte>)
    requires Partial(d)
    ensures Reachable(Feed(Holding(d), b).0)
    ensures var (st, e) := Feed(Holding(d), b);
            Run(IDLE, d + [b] + t) == Parsed(Waiting(|d|) + [e] + Run(st, t).events, Run(st, t).rest)
  {
    var (st, e) := Feed(Holding(d), b);
    RunCons(Holding(d), b, t);
    RunJoins(d, [b] + t, e, Run(st, t));
    assert d + [b] + t == d + ([b] + t);
  }

  lemma RunJoins(d: seq<Byte>, u: seq<Byte>, e: StreamResult, p: Parsed)
    requires Partial(d) && Run(Holding(d), u) == Parsed([e] + p.events, p.rest)
    ensures Run(IDLE, d + u) == Parsed(Waiting(|d|) + [e] + p.events, p.rest)
  {
    RunFrom(d, u);
    assert Waiting(|d|) + ([e] + p.events) == Waiting(|d|) + [e] + p.events;
  }

  lemma RunFrom(d: seq<Byte>, u: seq<Byte>)
    requires Partial(d)
    ensures var p := Run(Holding(d), u); Run(IDLE, d + u) == Parsed(Waiting(|d|) + p.events, p.rest)
  {
    assert d[..0] == [] && d[0..] == d;
    RunHolds(d, 0);
    RunAppend(IDLE, d, u);
  }

  /**
   * The reference: a recursive parser over the whole stream. `events` has one entry a byte.
   * A bad version or payload size ends the candidate at the offending byte, which starts the next
   * candidate when it is the magic byte (its own event then stays the error); a complete candidate
   * is consumed whether or not it decodes; an incomplete one is left over.
   */
  ghost function Parse(s: seq<Byte>): (p: Parsed)
    ensures |p.events| == |s|
    decreases |s|
  {
    if s == [] then Parsed([], IDLE)
    else if s[0] != FRAME_MAGIC then
      var p := Parse(s[1..]);
      Parsed([Discarded] + p.events, p.rest)
    else if |s| >= 2 && s[1] != PROTOCOL_VERSION then RestartAt(s, 1, UnsupportedVersion)
    else if |s| >= HEADER_SIZE && s[6] > MAX_PAYLOAD then RestartAt(s, 6, PayloadTooLarge)
    else if |s| < HEADER_SIZE || |s| < FRAME_OVERHEAD + s[6] then Parsed(Waiting(|s|), Holding(s))
    else
      var n := FRAME_OVERHEAD + s[6];
      var e := match Decode(s[..n]) case Ok(frame) => FrameReady(frame) case Err(error) => FrameError(error);
      var p := Parse(s[n..]);
      Parsed(Waiting(n - 1) + [e] + p.events, p.rest)
  }

  ghost function RestartAt(s: seq<Byte>, k: nat, error: DecodeError): (p: Parsed)
    requires 1 <= k < |s|
    ensures |p.events| == |s|
    decreases |s|, 0
  {
    var at := if s[k] == FRAME_MAGIC then k else k + 1;
    var p := Parse(s[at..]);
    Parsed(Waiting(k) + [FrameError(error)] + p.events[k + 1 - at..], p.rest)
  }

  /** MAIN: byte-by-byte feeding computes exactly the whole-stream parse, for every stream. */
  lemma {:induction false} DecoderRefinesParser(s: seq<Byte>)
    ensures Run(IDLE, s) == Parse(s)
    decreases |s|
  {
    if s == [] {
    } else if s[0] != FRAME_MAGIC {
      DecoderRefinesParser(s[1..]);
    } else if |s| >= 2 && s[1] != PROTOCOL_VERSION {
      RestartAgrees(s, 1, UnsupportedVersion);
    } else if |s| >= HEADER_SIZE && s[6] > MAX_PAYLOAD {
      RestartAgrees(s, 6, PayloadTooLarge);
    } else if |s| < HEADER_SIZE || |s| < FRAME_OVERHEAD + s[6] {
      assert s[..0] == [] && s[0..] == s;
      RunHolds(s, 0);
    } else {
      CandidateAgrees(s, FRAME_OVERHEAD + s[6]);
    }
  }

  lemma ParseCandidate(s: seq<Byte>, n: nat)
    requires HEADER_SIZE < n <= |s| && n == FRAME_OVERHEAD + s[6]
    requires s[0] == FRAME_MAGIC && s[1] == PROTOCOL_VERSION && s[6] <= MAX_PAYLOAD
    ensures var p := Parse(s[n..]);
      var e := match Decode(s[..n]) case Ok(frame) => FrameReady(frame) case Err(error) => FrameError(error);
      Parse(s) == Parsed(Waiting(n - 1) + [e] + p.events, p.rest)
  {
  }

  lemma {:induction false} CandidateAgrees(s: seq<Byte>, n: nat)
    requires HEADER_SIZE < n <= |s| && Partial(s[..n - 1]) && n == FRAME_OVERHEAD + s[6]
    ensures Run(IDLE, s) == Parse(s)
    decreases |s|, 0
  {
    var c := s[..n - 1];
    assert c + [s[n - 1]] + s[n..] == s;
    assert c + [s[n - 1]] == s[..n];
    assert c[0] == s[0] && c[1] == s[1] && c[6] == s[6];
    ParseCandidate(s, n);
    RunDecides(c, s[n - 1], s[n..]);
    DecoderRefinesParser(s[n..]);
  }

  lemma {:induction false} RestartAgrees(s: seq<Byte>, k: nat, error: DecodeError)
    requires 1 <= k < |s| && Partial(s[..k])
    requires Feed(Holding(s[..k]), s[k]) == FailWith(error, s[k])
    ensures Run(IDLE, s) == RestartAt(s, k, error)
    decreases |s|, 0
  {
    assert s[..k] + [s[k]] + s[k + 1..] == s;
    RunDecides(s[..k], s[k], s[k + 1..]);
    if s[k] == FRAME_MAGIC {
      DecoderRefinesParser(s[k..]);
      assert s[k..][1..] == s[k + 1..];
      assert Feed(IDLE, s[k]) == (State([s[k]], 0), NeedMore);
    } else {
      DecoderRefinesParser(s[k + 1..]);
    }
  }

  // ---------------------------------------------------------------- round trip through noise

  datatype Item = Noise(byte: Byte) | Message(frame: Frame)

  function Wire(item: Item): seq<Byte> {
    match item case Noise(b) => [b] case Message(f) => Encode(f)
  }

  function Report(item: Item): seq<StreamResult> {
    match item
    case Noise(b) => [Discarded]
    case Message(f) => Waiting(|Encode(f)| - 1) + [FrameReady(Normalise(f))]
  }

  function Stream(items: seq<Item>): seq<Byte> {
    if items == [] then [] else Wire(items[0]) + Stream(items[1..])
  }

  function Reports(items: seq<Item>): seq<StreamResult> {
    if items == [] then [] else Report(items[0]) + Reports(items[1..])
  }

  /**
   * MAIN: frames mixed with non-magic noise come out in order, each on its last byte, and the
   * decoder is idle after every item (take a prefix of `items`).
   */
  lemma {:induction false} StreamRoundTrip(items: seq<Item>)
    requires forall i | 0 <= i < |items| && items[i].Noise? :: items[i].byte != FRAME_MAGIC
    ensures Run(IDLE, Stream(items)) == Parsed(Reports(items), IDLE)
  {
    if items == [] {
    } else {
      StreamRoundTrip(items[1..]);
      ItemIsReported(items[0]);
      RunAppend(IDLE, Wire(items[0]), Stream(items[1..]));
    }
  }

  lemma ItemIsReported(item: Item)
    requires item.Noise? ==> item.byte != FRAME_MAGIC
    ensures Run(IDLE, Wire(item)) == Parsed(Report(item), IDLE)
  {
    match item
    case Noise(b) =>
      assert Run(IDLE, []) == Parsed([], IDLE);
    case Message(f) =>
      var s := Encode(f);
      RoundTrip(f);
      assert s[..|s|] == s && s[|s|..] == [];
      DecoderRefinesParser(s);
      assert Parse([]) == Parsed([], IDLE);
  }

  // ---------------------------------------------------------------- bounded resynchronisation

  /** At most 39 bytes in a row can be answered with `NeedMore`, from any reachable state. */
  lemma {:induction false} SilenceIsBounded(st: State, s: seq<Byte>)
    requires Reachable(st) && Run(st, s).events == Waiting(|s|)
    ensures |st.held| + |s| <= MAX_ENCODED - 1
    decreases |s|
  {
    if s == [] {
    } else {
      FeedKeepsReachable(st, s[0]);
      var p := Run(Feed(st, s[0]).0, s[1..]);
      assert Run(st, s).events[0] == NeedMore;
      assert p.events == Run(st, s).events[1..];
      SilenceIsBounded(Feed(st, s[0]).0, s[1..]);
    }
  }

  /** After 39 bytes without the magic value the decoder is idle, whatever it was doing. */
  lemma {:induction false} QuietLineResynchronises(st: State, s: seq<Byte>)
    requires Reachable(st) && FRAME_MAGIC !in s
    requires st == IDLE || |st.held| + |s| >= MAX_ENCODED
    ensures Run(st, s).rest == IDLE
    decreases |s|
  {
    if s == [] {
    } else {
      FeedKeepsReachable(st, s[0]);
      QuietLineResynchronises(Feed(st, s[0]).0, s[1..]);
    }
  }

  /** 39 is the least such bound: a full-size candidate survives 38 quiet bytes. */
  lemma QuietBoundIsTight()
    ensures exists s: seq<Byte> ::
      |s| == MAX_ENCODED - 2 && FRAME_MAGIC !in s && Run(State([FRAME_MAGIC], 0), s).rest != IDLE
  {
    var s: seq<Byte> := [PROTOCOL_VERSION, 0, 0, 0, 0, MAX_PAYLOAD] + Zeros(MAX_PAYLOAD);
    var c := [FRAME_MAGIC] + s;
    assert c[..1] == [FRAME_MAGIC] && c[1..] == s;
    RunHolds(c, 1);
    assert Holding(c[..1]) == State([FRAME_MAGIC], 0);
  }
}

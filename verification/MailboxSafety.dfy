/** What every interleaving of the mailbox keeps: no torn reads, no lost or reordered mail. */
module MailboxSafety {
  import opened Bytes
  import opened Codec
  import opened Mailbox

  // ---------------------------------------------------------------- transmit side

  /** The first `n` bytes of `s` followed by zeros without end. */
  function Stretch(s: seq<Byte>, n: nat): (r: seq<Byte>)
    ensures |r| == n
  {
    if n <= |s| then s[..n] else s + Zeros(n - |s|)
  }

  /** Zeros while nothing has been published, then one frame's encoding, then zeros. */
  ghost predicate Clean(r: Read) {
    match r.source
    case None => r.lead == |r.bytes| && r.bytes == Zeros(r.lead)
    case Some(f) =>
      r.lead < |r.bytes| && r.bytes == Zeros(r.lead) + Stretch(Encode(f), |r.bytes| - r.lead)
  }

  /** The active buffer holds the last published frame. */
  ghost predicate ActiveHolds(box: Box, published: Option<Frame>) {
    match published
    case None => box.txLengths[box.txActive] == 0
    case Some(f) =>
      box.txLengths[box.txActive] == |Encode(f)| && box.txBuffers[box.txActive][..|Encode(f)|] == Encode(f)
  }

  /** The copy loop works in the other buffer. */
  ghost predicate CopyInProgress(box: Box, main: Main) {
    main.Copying? ==>
      && main.inactive == Other(box.txActive) && main.next <= |Encode(main.frame)|
      && box.txBuffers[main.inactive][..main.next] == Encode(main.frame)[..main.next]
  }

  /** The read index counts the bytes served from the frame latched for this read, which is still the active one. */
  ghost predicate ReadInProgress(txIndex: nat, published: Option<Frame>, r: Read) {
    && Clean(r)
    && match r.source
       case None => txIndex == 0
       case Some(f) =>
         && published == Some(f)
         && txIndex == (if |r.bytes| - r.lead <= |Encode(f)| then |r.bytes| - r.lead else |Encode(f)|)
  }

  ghost predicate TxInv(w: World) {
    && ActiveHolds(w.box, w.log.published)
    && CopyInProgress(w.box, w.main)
    && ReadInProgress(w.box.txIndex, w.log.published, w.log.reading)
    && (forall i | 0 <= i < |w.log.finished| :: Clean(w.log.finished[i]))
  }

  // ---------------------------------------------------------------- receive side

  function First40(s: seq<Byte>): seq<Byte> {
    if |s| <= MAX_ENCODED then s else s[..MAX_ENCODED]
  }

  function Excess(s: seq<Byte>): nat {
    if |s| <= MAX_ENCODED then 0 else |s| - MAX_ENCODED
  }

  /** The mails that had to be kept: writes that found no unread mail, cut to the buffer. */
  function Kept(arrivals: seq<Arrival>): seq<seq<Byte>> {
    if arrivals == [] then []
    else
      var a := arrivals[|arrivals| - 1];
      Kept(arrivals[..|arrivals| - 1]) + if a.blocked then [] else [First40(a.bytes)]
  }

  function Refused(arrivals: seq<Arrival>): nat {
    if arrivals == [] then 0
    else Refused(arrivals[..|arrivals| - 1]) + if arrivals[|arrivals| - 1].blocked then 1 else 0
  }

  function TotalExcess(arrivals: seq<Arrival>): nat {
    if arrivals == [] then 0
    else TotalExcess(arrivals[..|arrivals| - 1]) + Excess(arrivals[|arrivals| - 1].bytes)
  }

  /** The mail waiting for `poll`. */
  function Unread(box: Box): seq<seq<Byte>> {
    if box.rxReady then [box.rxBuffers[box.rxReadyIndex][..box.rxLengths[box.rxReadyIndex]]] else []
  }

  function Losses(log: Log): nat {
    Refused(log.arrivals) + TotalExcess(log.arrivals) + Excess(log.writing) + log.overruns
  }

  ghost predicate RxInv(w: World) {
    var box, log := w.box, w.log;
    && (box.rxReady ==> box.rxReadyIndex == Other(box.rxWrite))
    && box.rxBuffers[box.rxWrite][..box.rxLengths[box.rxWrite]] == First40(log.writing)
    && Kept(log.arrivals) == log.taken + Unread(box)
    && box.dropped == Losses(log) % WORD
  }

  ghost predicate WorldInv(w: World) {
    TxInv(w) && RxInv(w)
  }

  // ---------------------------------------------------------------- every step keeps the invariant

  lemma StretchGrows(s: seq<Byte>, n: nat)
    ensures Stretch(s, n + 1) == Stretch(s, n) + [if n < |s| then s[n] else 0]
  {
  }

  /** One more byte of the frame latched for a read, or of the frame that is latched by it. */
  lemma CleanGrows(r: Read, f: Frame, v: Byte)
    requires Clean(r) && (r.source.Some? ==> r.source.value == f)
    requires var s, n := Encode(f), |r.bytes| - r.lead; v == if n < |s| then s[n] else 0
    ensures Clean(Read(r.bytes + [v], Some(f), r.lead))
  {
    var s, n := Encode(f), |r.bytes| - r.lead;
    StretchGrows(s, n);
    assert Stretch(s, 0) == [];
    assert r.bytes == Zeros(r.lead) + Stretch(s, n);
  }

  lemma ZerosGrow(r: Read)
    requires Clean(r) && r.source.None?
    ensures Clean(Read(r.bytes + [0], None, r.lead + 1))
  {
  }

  /** The byte that is served, and what it does to the read index. */
  lemma ServedByte(w: World)
    requires TxInv(w) && w.log.published.Some?
    ensures var s, (box', v) := Encode(w.log.published.value), ServeByte(w.box);
      && v == (if w.box.txIndex < |s| then s[w.box.txIndex] else 0)
      && box' == w.box.(txIndex := if w.box.txIndex < |s| then w.box.txIndex + 1 else w.box.txIndex)
  {
  }

  lemma ServeKeepsTx(w: World)
    requires TxInv(w)
    ensures TxInv(OnServe(w))
  {
    var r, v := w.log.reading, ServeByte(w.box).1;
    match w.log.published
    case None => ZerosGrow(r);
    case Some(f) =>
      ServedByte(w);
      assert r.source.None? ==> r.lead == |r.bytes|;
      CleanGrows(r, f, v);
      assert OnServe(w).log.reading == Read(r.bytes + [v], Some(f), r.lead);
  }

  lemma ResetKeepsTx(w: World)
    requires TxInv(w)
    ensures TxInv(OnAbort(w))
  {
    var log := LogReset(w.log);
    assert log.reading == NO_READ && log.published == w.log.published;
  }

  lemma IrqKeepsTx(w: World, irq: Interrupt)
    requires TxInv(w)
    ensures TxInv(OnIrq(w, irq))
  {
    ReceiveKeepsTx(w, irq.data);
    var w1 := if irq.rxFull then OnReceive(w, irq.data) else w;
    ServeKeepsTx(w1);
    var w2 := if irq.rdReq then OnServe(w1) else w1;
    StopKeepsTx(w2);
    var w3 := if irq.stopDet then OnStop(w2) else w2;
    ResetKeepsTx(w3);
    var w4 := if irq.txAbrt then OnAbort(w3) else w3;
    OverrunKeepsTx(w4);
  }

  lemma ReceiveKeepsTx(w: World, b: Byte)
    requires TxInv(w)
    ensures TxInv(OnReceive(w, b))
  {
  }

  lemma OverrunKeepsTx(w: World)
    requires TxInv(w)
    ensures TxInv(OnOverrun(w))
  {
  }

  lemma StopKeepsTx(w: World)
    requires TxInv(w)
    ensures TxInv(OnStop(w))
  {
    ResetKeepsTx(w.(log := LogWrite(w.log, w.box.rxReady)));
  }

  lemma MainKeepsTx(w: World, step: Step)
    requires TxInv(w) && !step.Irq?
    ensures TxInv(Next(w, step))
  {
    match step
    case CopyByte =>
      if w.main.Copying? && w.main.next < |Encode(w.main.frame)| {
        CopyKeepsTx(w);
      }
    case Commit => CommitKeepsTx(w);
    case _ =>
  }

  lemma CommitKeepsTx(w: World)
    requires TxInv(w)
    ensures TxInv(Next(w, Commit))
  {
    if w.main.Copying? && w.main.next == |Encode(w.main.frame)| && w.box.txIndex == 0 {
      assert w.log.reading.source.None?;
    }
  }

  lemma CopyKeepsTx(w: World)
    requires TxInv(w) && w.main.Copying? && w.main.next < |Encode(w.main.frame)|
    ensures TxInv(Next(w, CopyByte))
  {
    CopySparesActive(w.box, w.log.published, w.main.inactive, w.main.next, Encode(w.main.frame)[w.main.next]);
    CopyProceeds(w.box, w.main);
  }

  lemma CopySparesActive(box: Box, published: Option<Frame>, k: Bit, i: nat, b: Byte)
    requires ActiveHolds(box, published) && k == Other(box.txActive) && i < MAX_ENCODED
    ensures ActiveHolds(CopyTo(box, k, i, b), published)
  {
  }

  lemma CopyProceeds(box: Box, main: Main)
    requires main.Copying? && main.next < |Encode(main.frame)| && CopyInProgress(box, main)
    ensures var s, n := Encode(main.frame), main.next;
      CopyInProgress(CopyTo(box, main.inactive, n, s[n]), main.(next := n + 1))
  {
    var s, k, n := Encode(main.frame), main.inactive, main.next;
    assert CopyTo(box, k, n, s[n]).txBuffers[k][..n + 1] == box.txBuffers[k][..n] + [s[n]];
  }

  lemma ReceiveKeepsRx(w: World, b: Byte)
    requires RxInv(w)
    ensures RxInv(OnReceive(w, b))
  {
    var box := w.box;
    var k, n := box.rxWrite, box.rxLengths[box.rxWrite];
    if n < MAX_ENCODED {
      var box' := ReceiveByte(box, b);
      assert box'.rxBuffers[k][..n + 1] == box.rxBuffers[k][..n] + [b];
      assert Unread(box') == Unread(box);
    } else {
      assert Excess(w.log.writing + [b]) == Excess(w.log.writing) + 1;
    }
  }

  lemma ArrivalCounts(arrivals: seq<Arrival>, a: Arrival)
    ensures Kept(arrivals + [a]) == Kept(arrivals) + if a.blocked then [] else [First40(a.bytes)]
    ensures Refused(arrivals + [a]) == Refused(arrivals) + if a.blocked then 1 else 0
    ensures TotalExcess(arrivals + [a]) == TotalExcess(arrivals) + Excess(a.bytes)
  {
  }

  lemma StopKeepsRx(w: World)
    requires RxInv(w)
    ensures RxInv(OnStop(w))
  {
    if w.log.writing == [] {
      assert w.box.rxLengths[w.box.rxWrite] == 0;
    } else if w.box.rxReady {
      RefusedKeepsRx(w);
    } else {
      AcceptedKeepsRx(w);
    }
  }

  lemma AcceptedKeepsRx(w: World)
    requires RxInv(w) && w.log.writing != [] && !w.box.rxReady
    ensures RxInv(OnStop(w))
  {
  }

  lemma RefusedKeepsRx(w: World)
    requires RxInv(w) && w.log.writing != [] && w.box.rxReady
    ensures RxInv(OnStop(w))
  {
    ArrivalCounts(w.log.arrivals, Arrival(w.log.writing, true));
    assert w.box.rxLengths[w.box.rxWrite] != 0;
    assert Unread(OnStop(w).box) == Unread(w.box);
    assert Losses(OnStop(w).log) == Losses(w.log) + 1;
  }

  lemma ServeKeepsRx(w: World)
    requires RxInv(w)
    ensures RxInv(OnServe(w))
  {
  }

  lemma AbortKeepsRx(w: World)
    requires RxInv(w)
    ensures RxInv(OnAbort(w))
  {
  }

  lemma OverrunKeepsRx(w: World)
    requires RxInv(w)
    ensures RxInv(OnOverrun(w))
  {
  }

  lemma IrqKeepsRx(w: World, irq: Interrupt)
    requires RxInv(w)
    ensures RxInv(OnIrq(w, irq))
  {
    ReceiveKeepsRx(w, irq.data);
    var w1 := if irq.rxFull then OnReceive(w, irq.data) else w;
    ServeKeepsRx(w1);
    var w2 := if irq.rdReq then OnServe(w1) else w1;
    StopKeepsRx(w2);
    var w3 := if irq.stopDet then OnStop(w2) else w2;
    AbortKeepsRx(w3);
    var w4 := if irq.txAbrt then OnAbort(w3) else w3;
    OverrunKeepsRx(w4);
  }

  lemma MainKeepsRx(w: World, step: Step)
    requires RxInv(w) && !step.Irq?
    ensures RxInv(Next(w, step))
  {
    match step
    case Poll => PollKeepsRx(w);
    case CopyByte => PublishKeepsRx(w, step);
    case Commit => PublishKeepsRx(w, step);
    case _ =>
  }

  /** Publishing touches nothing on the receive side. */
  lemma PublishSparesRx(w: World, step: Step)
    requires step.CopyByte? || step.Commit?
    ensures var box, box', log, log' := w.box, Next(w, step).box, w.log, Next(w, step).log;
      && box' == box.(txBuffers := box'.txBuffers, txLengths := box'.txLengths, txActive := box'.txActive)
      && log' == log.(published := log'.published)
  {
  }

  lemma PublishKeepsRx(w: World, step: Step)
    requires RxInv(w) && (step.CopyByte? || step.Commit?)
    ensures RxInv(Next(w, step))
  {
    PublishSparesRx(w, step);
  }

  lemma PollKeepsRx(w: World)
    requires RxInv(w)
    ensures RxInv(Next(w, Poll))
  {
  }

  lemma {:induction false} RunKeepsInvariant(steps: seq<Step>)
    ensures WorldInv(Run(START, steps))
  {
    if steps == [] {
    } else {
      RunKeepsInvariant(steps[..|steps| - 1]);
      var w, step := Run(START, steps[..|steps| - 1]), steps[|steps| - 1];
      if step.Irq? {
        IrqKeepsTx(w, step.irq);
        IrqKeepsRx(w, step.irq);
      } else {
        MainKeepsTx(w, step);
        MainKeepsRx(w, step);
      }
    }
  }

  // ---------------------------------------------------------------- main results: receive side

  /** MAIN: in every run, mail is kept in order and every loss is counted (modulo 2^32). */
  lemma MailIsConserved(steps: seq<Step>)
    ensures var w := Run(START, steps);
            Kept(w.log.arrivals) == w.log.taken + Unread(w.box) && w.box.dropped == Losses(w.log) % WORD
  {
    RunKeepsInvariant(steps);
    var w := Run(START, steps);
    assert RxInv(w);
  }

  lemma StopKeepsUnread(w: World)
    requires RxInv(w) && w.box.rxReady
    ensures OnStop(w).box.rxReady && Unread(OnStop(w).box) == Unread(w.box)
  {
  }

  lemma ReceiveKeepsUnread(w: World, b: Byte)
    requires RxInv(w) && w.box.rxReady
    ensures OnReceive(w, b).box.rxReady && Unread(OnReceive(w, b).box) == Unread(w.box)
  {
  }

  lemma IrqKeepsUnread(w: World, irq: Interrupt)
    requires RxInv(w) && w.box.rxReady
    ensures OnIrq(w, irq).box.rxReady && Unread(OnIrq(w, irq).box) == Unread(w.box)
  {
    ReceiveKeepsUnread(w, irq.data);
    ReceiveKeepsRx(w, irq.data);
    var w1 := if irq.rxFull then OnReceive(w, irq.data) else w;
    ServeKeepsRx(w1);
    var w2 := if irq.rdReq then OnServe(w1) else w1;
    assert Unread(w2.box) == Unread(w1.box);
    StopKeepsUnread(w2);
  }

  /** Until `poll` takes it, unread mail does not change. */
  lemma UnreadMailIsStable(steps: seq<Step>, step: Step)
    requires Run(START, steps).box.rxReady && !(step.Poll? && Run(START, steps).main.Free?)
    ensures Next(Run(START, steps), step).box.rxReady
    ensures Unread(Next(Run(START, steps), step).box) == Unread(Run(START, steps).box)
  {
    RunKeepsInvariant(steps);
    if step.Irq? {
      IrqKeepsUnread(Run(START, steps), step.irq);
    }
  }

  /** Where an arrival that found no unread mail is among the kept ones. */
  lemma {:induction false} KeptAt(arrivals: seq<Arrival>, i: nat)
    requires i < |arrivals| && !arrivals[i].blocked
    ensures |Kept(arrivals[..i])| < |Kept(arrivals)|
    ensures Kept(arrivals)[|Kept(arrivals[..i])|] == First40(arrivals[i].bytes)
  {
    var n := |arrivals| - 1;
    if i == n {
    } else {
      KeptAt(arrivals[..n], i);
      assert arrivals[..n][..i] == arrivals[..i];
    }
  }

  /**
   * MAIN: in every run, the encoding of a frame, written while no mail is unread, is what `poll` took or
   * will take in its turn, whole, and it decodes to that frame.
   */
  lemma WrittenFrameIsPolled(steps: seq<Step>, i: nat, f: Frame)
    requires i < |Run(START, steps).log.arrivals|
    requires Run(START, steps).log.arrivals[i] == Arrival(Encode(f), false)
    ensures var w := Run(START, steps);
      var mails, turn := w.log.taken + Unread(w.box), |Kept(w.log.arrivals[..i])|;
      turn < |mails| && mails[turn] == Encode(f) && Decode(mails[turn]) == Ok(Normalise(f))
  {
    MailIsConserved(steps);
    KeptAt(Run(START, steps).log.arrivals, i);
    RoundTrip(f);
  }

  // ---------------------------------------------------------------- main results: transmit side

  /** MAIN: in every run, every read, finished or not, is zeros, then one frame's encoding, then zeros. */
  lemma NoTornReads(steps: seq<Step>, r: Read)
    requires var log := Run(START, steps).log; r == log.reading || r in log.finished
    ensures Clean(r)
    ensures r.lead == 0 && r.source.Some? ==> r.bytes == Stretch(Encode(r.source.value), |r.bytes|)
  {
    RunKeepsInvariant(steps);
    assert r.lead == 0 && r.source.Some? ==>
      Zeros(0) + Stretch(Encode(r.source.value), |r.bytes|) == Stretch(Encode(r.source.value), |r.bytes|);
  }

  /** Leading zeros are served exactly while the active length is zero: before the first publish. */
  lemma LeadExactly(steps: seq<Step>)
    ensures var w := Run(START, steps);
      && (w.box.txLengths[w.box.txActive] == 0 <==> w.log.published.None?)
      && (w.log.reading.source.Some? ==> w.log.published == w.log.reading.source)
      && (w.log.reading.bytes == [] ==>
            var r := OnServe(w).log.reading;
            (r.lead == 0 <==> w.box.txLengths[w.box.txActive] != 0) && (r.lead == 0 ==> r.source == w.log.published))
  {
    RunKeepsInvariant(steps);
  }

  ghost predicate OneFrame(s: seq<Byte>) {
    s == Zeros(|s|) || exists f :: s == Stretch(Encode(f), |s|)
  }

  /** The exact exception: a read is not of one frame iff it began before the first publish and outlasted it. */
  lemma TornExactly(r: Read)
    requires Clean(r)
    ensures OneFrame(r.bytes) <==> r.lead == 0 || r.source.None?
  {
    if r.source.Some? {
      var f := r.source.value;
      if r.lead == 0 {
        assert r.bytes == Stretch(Encode(f), |r.bytes|);
      } else {
        assert r.bytes[r.lead] == FRAME_MAGIC;
        forall g ensures r.bytes != Stretch(Encode(g), |r.bytes|) {
          assert Stretch(Encode(g), |r.bytes|)[0] == FRAME_MAGIC;
          assert r.bytes[0] == 0;
        }
      }
    }
  }

  lemma {:induction false} CopiesRun(w: World, f: Frame, k: nat)
    requires k <= |Encode(f)| && w.main == Copying(f, 0, Other(w.box.txActive))
    ensures var w' := Run(w, seq(k, _ => CopyByte));
      && w'.main == Copying(f, k, Other(w.box.txActive)) && w'.log == w.log
      && w'.box.txIndex == w.box.txIndex && w'.box.txActive == w.box.txActive
  {
    if k == 0 {
    } else {
      CopiesRun(w, f, k - 1);
      var before: seq<Step> := seq(k - 1, _ => CopyByte);
      RunSnoc(w, before, CopyByte);
      CopyByteRuns(Run(w, before));
      assert seq(k, _ => CopyByte) == before + [CopyByte];
    }
  }

  lemma CopyByteRuns(w: World)
    requires w.main.Copying? && w.main.next < |Encode(w.main.frame)|
    ensures var w' := Next(w, CopyByte);
      && w'.main == w.main.(next := w.main.next + 1) && w'.log == w.log
      && w'.box.txIndex == w.box.txIndex && w'.box.txActive == w.box.txActive
  {
  }

  const READ_REQUEST := Interrupt(false, true, false, false, false, 0)

  lemma PublishRuns(w: World, f: Frame)
    requires w.main.Free? && w.box.txIndex == 0
    ensures var steps := [BeginPublish(f)] + seq(|Encode(f)|, _ => CopyByte) + [Commit];
      var w' := Run(w, steps);
      w'.box.txIndex == 0 && w'.log == w.log.(published := Some(f))
  {
    var begin, copies: seq<Step> := [BeginPublish(f)], seq(|Encode(f)|, _ => CopyByte);
    RunSnoc(w, [], BeginPublish(f));
    assert [] + begin == begin;
    CopiesRun(Run(w, begin), f, |Encode(f)|);
    RunConcat(w, begin, copies);
    RunSnoc(w, begin + copies, Commit);
    CommitRuns(Run(w, begin + copies), f);
  }

  lemma CommitRuns(w: World, f: Frame)
    requires w.main.Copying? && w.main.frame == f && w.main.next == |Encode(f)| && w.box.txIndex == 0
    ensures Next(w, Commit).box.txIndex == 0 && Next(w, Commit).log == w.log.(published := Some(f))
  {
  }

  lemma ReadRequestRuns(w: World)
    ensures OnIrq(w, READ_REQUEST) == OnServe(w)
    ensures w.log.reading == Read([0], None, 1) && w.log.published.Some? ==>
      OnServe(w).log.reading.lead == 1 && OnServe(w).log.reading.source == w.log.published
    ensures w == START ==> OnServe(w).log.reading == Read([0], None, 1) && OnServe(w).box == w.box
  {
  }

  lemma TornWhenLate(steps: seq<Step>, f: Frame)
    requires var r := Run(START, steps).log.reading; r.lead == 1 && r.source == Some(f)
    ensures !OneFrame(Run(START, steps).log.reading.bytes)
  {
    RunKeepsInvariant(steps);
    TornExactly(Run(START, steps).log.reading);
  }

  lemma ReadThenPublish(f: Frame) returns (steps: seq<Step>)
    ensures Run(START, steps).log.reading == Read([0], None, 1) && Run(START, steps).log.published == Some(f)
  {
    var first: seq<Step> := [] + [Irq(READ_REQUEST)];
    RunSnoc(START, [], Irq(READ_REQUEST));
    ReadRequestRuns(START);
    var w := Run(START, first);
    assert w == OnServe(START);
    PublishRuns(w, f);
    var publish := [BeginPublish(f)] + seq(|Encode(f)|, _ => CopyByte) + [Commit];
    RunConcat(START, first, publish);
    steps := first + publish;
  }

  /** And it happens: a first publish between the first and the second byte of a read. */
  lemma TornReadHappens(f: Frame) returns (steps: seq<Step>)
    ensures !OneFrame(Run(START, steps).log.reading.bytes)
  {
    var before := ReadThenPublish(f);
    RunSnoc(START, before, Irq(READ_REQUEST));
    ReadRequestRuns(Run(START, before));
    steps := before + [Irq(READ_REQUEST)];
    TornWhenLate(steps, f);
  }

  // ---------------------------------------------------------------- end to end

  /** Cutting a padded or shortened read of one frame gives the frame back, or nothing that decodes. */
  lemma StretchedFrameDecodes(f: Frame, n: nat)
    ensures n >= |Encode(f)| ==> Decode(Trim(Stretch(Encode(f), n))) == Ok(Normalise(f))
    ensures n < |Encode(f)| ==> Decode(Trim(Stretch(Encode(f), n))).Err?
  {
    var s, r := Encode(f), Stretch(Encode(f), n);
    if n >= |s| {
      PaddingIsTrimmed(f, Zeros(n - |s|));
      assert r == s + Zeros(n - |s|);
      RoundTrip(f);
    } else {
      assert n >= 7 ==> r[6] == s[6];
    }
  }

  /**
   * MAIN: whatever the interleaving, a controller accepts a read exactly when the read began with a
   * published frame and was long enough for it, and then it gets that frame and no other.
   */
  lemma ControllerReadsExactly(r: Read)
    requires Clean(r)
    ensures Decode(Trim(r.bytes)).Ok? <==>
      r.lead == 0 && r.source.Some? && |r.bytes| >= |Encode(r.source.value)|
    ensures Decode(Trim(r.bytes)).Ok? ==> Decode(Trim(r.bytes)) == Ok(Normalise(r.source.value))
  {
    if r.lead == 0 && r.source.Some? {
      assert r.bytes == Stretch(Encode(r.source.value), |r.bytes|);
      StretchedFrameDecodes(r.source.value, |r.bytes|);
    } else {
      assert r.bytes != [] ==> r.bytes[0] == 0;
    }
  }

  /** MAIN: end to end, over every run, for the 40-byte reads the controller issues. */
  lemma FortyByteReadsDeliverTheFrame(steps: seq<Step>, r: Read)
    requires var log := Run(START, steps).log; r == log.reading || r in log.finished
    requires |r.bytes| == MAX_ENCODED && r.lead == 0
    ensures r.source.Some? && Decode(Trim(r.bytes)) == Ok(Normalise(r.source.value))
  {
    NoTornReads(steps, r);
    ControllerReadsExactly(r);
  }
}

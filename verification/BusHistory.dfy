/** What the bus carried, told from the interrupts alone: it is what the mailbox keeps, serves and counts. */
module BusHistory {
  import opened Bytes
  import opened Codec
  import opened Mailbox
  import opened MailboxSafety

  /** Completed writes and the current one, finished reads and the current one, and receive overruns. */
  datatype Bus = Bus(
    writes: seq<Arrival>, writing: seq<Byte>, finished: seq<seq<Byte>>, reading: seq<Byte>, overruns: nat)

  const QUIET := Bus([], [], [], [], 0)

  /**
   * One interrupt on the bus. A byte reported together with a STOP belongs to the write that the STOP
   * ends, and a byte requested together with a STOP or an abort to the read that it ends. A write
   * without bytes is none. `unread` says whether mail was unread before, `answer` is the byte served.
   */
  function Carried(b: Bus, irq: Interrupt, unread: bool, answer: Option<Byte>): Bus {
    var written := b.writing + if irq.rxFull then [irq.data] else [];
    var read := b.reading + if irq.rdReq then [answer.GetOr(0)] else [];
    var ends := irq.stopDet || irq.txAbrt;
    Bus(b.writes + (if irq.stopDet && written != [] then [Arrival(written, unread)] else []),
        if irq.stopDet then [] else written,
        b.finished + (if ends && read != [] then [read] else []),
        if ends then [] else read,
        b.overruns + if irq.rxOver then 1 else 0)
  }

  /** The bus over a run: only interrupts show on it. */
  function OnBus(steps: seq<Step>): Bus {
    if steps == [] then QUIET
    else
      var before, w := OnBus(steps[..|steps| - 1]), Run(START, steps[..|steps| - 1]);
      match steps[|steps| - 1]
      case Irq(irq) => Carried(before, irq, w.box.rxReady, HandleIrq(w.box, irq).1)
      case _ => before
  }

  function BytesOf(all: seq<Read>): seq<seq<Byte>> {
    seq(|all|, i requires 0 <= i < |all| => all[i].bytes)
  }

  /** The record the mailbox keeps for the proofs. */
  function Recorded(log: Log): Bus {
    Bus(log.arrivals, log.writing, BytesOf(log.finished), log.reading.bytes, log.overruns)
  }

  // ---------------------------------------------------------------- the parts of one interrupt

  lemma ReceiveRecorded(w: World, b: Byte)
    ensures Recorded(OnReceive(w, b).log) == Recorded(w.log).(writing := w.log.writing + [b])
    ensures OnReceive(w, b).box.rxReady == w.box.rxReady
  {
  }

  lemma ServeRecorded(w: World)
    ensures Recorded(OnServe(w).log) == Recorded(w.log).(reading := w.log.reading.bytes + [ServeByte(w.box).1])
    ensures OnServe(w).box.rxReady == w.box.rxReady
  {
  }

  /** What the end of a read does to the record. */
  function Closed(b: Bus): Bus {
    b.(finished := b.finished + (if b.reading != [] then [b.reading] else []), reading := [])
  }

  lemma ResetRecorded(log: Log)
    ensures Recorded(LogReset(log)) == Closed(Recorded(log))
  {
    var closed := Recorded(LogReset(log));
    if log.reading.bytes == [] {
      assert Closed(Recorded(log)).finished == Recorded(log).finished;
    } else {
      assert closed.finished == Recorded(log).finished + [log.reading.bytes];
    }
  }

  /** What a STOP does to it. */
  function Stopped(b: Bus, unread: bool): Bus {
    Closed(b.(writes := b.writes + (if b.writing != [] then [Arrival(b.writing, unread)] else []), writing := []))
  }

  lemma StopRecorded(w: World)
    ensures Recorded(OnStop(w).log) == Stopped(Recorded(w.log), w.box.rxReady)
  {
    ResetRecorded(LogWrite(w.log, w.box.rxReady));
    var b := Recorded(w.log);
    assert b.writing == [] ==> b.writes + [] == b.writes;
  }

  lemma AbortRecorded(w: World)
    ensures Recorded(OnAbort(w).log) == Closed(Recorded(w.log))
  {
    ResetRecorded(w.log);
  }

  lemma OverrunRecorded(w: World)
    ensures Recorded(OnOverrun(w).log) == Recorded(w.log).(overruns := w.log.overruns + 1)
  {
  }

  /** The five status bits one after the other are the one interrupt on the bus. */
  lemma CarriedInParts(b: Bus, irq: Interrupt, unread: bool, v: Byte)
    ensures var b1 := if irq.rxFull then b.(writing := b.writing + [irq.data]) else b;
      var b2 := if irq.rdReq then b1.(reading := b1.reading + [v]) else b1;
      var b3 := if irq.stopDet then Stopped(b2, unread) else b2;
      var b4 := if irq.txAbrt then Closed(b3) else b3;
      (if irq.rxOver then b4.(overruns := b4.overruns + 1) else b4)
      == Carried(b, irq, unread, if irq.rdReq then Some(v) else None)
  {
    assert b.writing + [] == b.writing && b.reading + [] == b.reading;
    assert b.writes + [] == b.writes && b.finished + [] == b.finished;
    var closed := b.finished + [b.reading + if irq.rdReq then [v] else []];
    assert closed + [] == closed;
  }

  lemma AnswerIsServed(w: World, irq: Interrupt)
    ensures var w1 := if irq.rxFull then OnReceive(w, irq.data) else w;
      HandleIrq(w.box, irq).1 == if irq.rdReq then Some(ServeByte(w1.box).1) else None
  {
  }

  lemma TransferRecorded(w: World, irq: Interrupt)
    ensures var b, w1 := Recorded(w.log), if irq.rxFull then OnReceive(w, irq.data) else w;
      var w2 := if irq.rdReq then OnServe(w1) else w1;
      var b1 := if irq.rxFull then b.(writing := b.writing + [irq.data]) else b;
      && Recorded(w2.log) == (if irq.rdReq then b1.(reading := b1.reading + [ServeByte(w1.box).1]) else b1)
      && w2.box.rxReady == w.box.rxReady
  {
    var w1 := if irq.rxFull then OnReceive(w, irq.data) else w;
    ReceiveRecorded(w, irq.data);
    ServeRecorded(w1);
  }

  lemma EndsRecorded(w: World, irq: Interrupt)
    ensures var b, w3 := Recorded(w.log), if irq.stopDet then OnStop(w) else w;
      var w4 := if irq.txAbrt then OnAbort(w3) else w3;
      var w5 := if irq.rxOver then OnOverrun(w4) else w4;
      var b3 := if irq.stopDet then Stopped(b, w.box.rxReady) else b;
      var b4 := if irq.txAbrt then Closed(b3) else b3;
      Recorded(w5.log) == if irq.rxOver then b4.(overruns := b4.overruns + 1) else b4
  {
    StopRecorded(w);
    var w3 := if irq.stopDet then OnStop(w) else w;
    AbortRecorded(w3);
    OverrunRecorded(if irq.txAbrt then OnAbort(w3) else w3);
  }

  /** One run of the handler records exactly what the bus carried. */
  lemma InterruptRecorded(w: World, irq: Interrupt)
    ensures Recorded(OnIrq(w, irq).log)
         == Carried(Recorded(w.log), irq, w.box.rxReady, HandleIrq(w.box, irq).1)
  {
    var w1 := if irq.rxFull then OnReceive(w, irq.data) else w;
    var w2 := if irq.rdReq then OnServe(w1) else w1;
    TransferRecorded(w, irq);
    AnswerIsServed(w, irq);
    EndsRecorded(w2, irq);
    CarriedInParts(Recorded(w.log), irq, w.box.rxReady, ServeByte(w1.box).1);
  }

  // ---------------------------------------------------------------- main results

  /** MAIN: in every run the mailbox records exactly the writes, reads and overruns that the bus carried. */
  lemma {:induction false} RecordIsTheBus(steps: seq<Step>)
    ensures Recorded(Run(START, steps).log) == OnBus(steps)
  {
    if steps == [] {
    } else {
      RecordIsTheBus(steps[..|steps| - 1]);
      var w, step := Run(START, steps[..|steps| - 1]), steps[|steps| - 1];
      if step.Irq? {
        InterruptRecorded(w, step.irq);
      }
    }
  }

  /** MAIN: so what `poll` took and what waits is what was written, in order, and every loss on the bus is counted. */
  lemma BusMailIsConserved(steps: seq<Step>)
    ensures var w, b := Run(START, steps), OnBus(steps);
      && Kept(b.writes) == w.log.taken + Unread(w.box)
      && w.box.dropped == (Refused(b.writes) + TotalExcess(b.writes) + Excess(b.writing) + b.overruns) % WORD
  {
    RecordIsTheBus(steps);
    MailIsConserved(steps);
  }

  lemma StopUnread(w: World)
    requires RxInv(w) && !w.box.rxReady
    ensures Unread(OnStop(w).box) == if w.log.writing == [] then [] else [First40(w.log.writing)]
  {
  }

  lemma TransferKeepsRx(w: World, irq: Interrupt)
    requires RxInv(w)
    ensures var w1 := if irq.rxFull then OnReceive(w, irq.data) else w;
      var w2 := if irq.rdReq then OnServe(w1) else w1;
      && RxInv(w2) && w2.box.rxReady == w.box.rxReady
      && w2.log.writing == w.log.writing + if irq.rxFull then [irq.data] else []
  {
    var w1 := if irq.rxFull then OnReceive(w, irq.data) else w;
    ReceiveKeepsRx(w, irq.data);
    ServeKeepsRx(w1);
    assert w.log.writing + [] == w.log.writing;
  }

  lemma InterruptHandsOver(w: World, irq: Interrupt)
    requires RxInv(w) && !w.box.rxReady && irq.stopDet
    ensures var written := w.log.writing + if irq.rxFull then [irq.data] else [];
      Unread(OnIrq(w, irq).box) == if written == [] then [] else [First40(written)]
  {
    var w1 := if irq.rxFull then OnReceive(w, irq.data) else w;
    TransferKeepsRx(w, irq);
    StopUnread(if irq.rdReq then OnServe(w1) else w1);
  }

  /** A STOP that finds no unread mail hands over the whole write, with the byte that comes with it. */
  lemma StopHandsOverTheWrite(steps: seq<Step>, irq: Interrupt)
    requires irq.stopDet && !Run(START, steps).box.rxReady
    ensures var written := OnBus(steps).writing + if irq.rxFull then [irq.data] else [];
      Unread(OnIrq(Run(START, steps), irq).box) == if written == [] then [] else [First40(written)]
  {
    RecordIsTheBus(steps);
    RunKeepsInvariant(steps);
    InterruptHandsOver(Run(START, steps), irq);
  }

  /** Every request is answered with one byte, nothing else is, and the end of a read starts the next from the top. */
  lemma ReadsAreAnswered(w: World, irq: Interrupt)
    ensures HandleIrq(w.box, irq).1.Some? <==> irq.rdReq
    ensures irq.stopDet || irq.txAbrt ==> OnIrq(w, irq).box.txIndex == 0
  {
  }

  /** A poll outside `publish` takes the unread mail, and nothing else changes for either side. */
  lemma PollTakesUnread(w: World)
    requires w.main.Free?
    ensures var w' := Next(w, Poll);
      && Unread(w'.box) == [] && w'.log == w.log.(taken := w.log.taken + Unread(w.box))
      && w'.main.Free? && w'.box.dropped == w.box.dropped && w'.box.txIndex == w.box.txIndex
  {
    assert w.log.taken + [] == w.log.taken;
  }

  /** MAIN: in every run a complete copy is published at its critical section unless a read of a frame is under way. */
  lemma RefusalExactly(steps: seq<Step>)
    requires var m := Run(START, steps).main; m.Copying? && m.next == |Encode(m.frame)|
    ensures var w := Run(START, steps);
      var w' := Next(w, Commit);
      && w'.main.Free?
      && w'.log.published == if w.log.reading.source.None? then Some(w.main.frame) else w.log.published
  {
    RunKeepsInvariant(steps);
  }

  /** MAIN: in every run, every read on the bus is zeros, then one frame's encoding, then zeros. */
  lemma BusReadsAreClean(steps: seq<Step>, i: nat)
    requires i < |OnBus(steps).finished|
    ensures exists r: Read :: Clean(r) && r.bytes == OnBus(steps).finished[i]
  {
    RecordIsTheBus(steps);
    NoTornReads(steps, Run(START, steps).log.finished[i]);
  }
}

/** The interrupt-driven I2C mailbox of ports/pico-sdk/picomesh_pico_transport.cpp: state and atomic steps. */
module Mailbox {
  import opened Bytes
  import opened Codec

  /** Indices of the double buffers; `x ^ 1` selects the other one. */
  type Bit = b: int | 0 <= b <= 1

  function Other(b: Bit): Bit {
    1 - b
  }

  type Buffers = b: seq<seq<Byte>> | |b| == 2 && |b[0]| == MAX_ENCODED && |b[1]| == MAX_ENCODED
    witness [Zeros(MAX_ENCODED), Zeros(MAX_ENCODED)]
  type Lengths = l: seq<nat> | |l| == 2 && l[0] <= MAX_ENCODED && l[1] <= MAX_ENCODED witness [0, 0]

  datatype Box = Box(
    rxBuffers: Buffers, rxLengths: Lengths, rxWrite: Bit, rxReadyIndex: Bit, rxReady: bool,
    txBuffers: Buffers, txLengths: Lengths, txActive: Bit, txIndex: nat, dropped: Word)

  const POWER_ON := Box(
    [Zeros(MAX_ENCODED), Zeros(MAX_ENCODED)], [0, 0], 0, 0, false,
    [Zeros(MAX_ENCODED), Zeros(MAX_ENCODED)], [0, 0], 0, 0, 0)

  /** The status bits the handler looks at, and the byte in the data register. */
  datatype Interrupt = Interrupt(
    rxFull: bool, rdReq: bool, stopDet: bool, txAbrt: bool, rxOver: bool, data: Byte)

  // ---------------------------------------------------------------- specification of the atomic steps

  function Drop(box: Box): Box {
    box.(dropped := (box.dropped + 1) % WORD)
  }

  function Store(buffers: Buffers, k: Bit, i: nat, b: Byte): (r: Buffers)
    requires i < MAX_ENCODED
    ensures r[Other(k)] == buffers[Other(k)] && r[k] == buffers[k][..i] + [b] + buffers[k][i + 1..]
  {
    var row: seq<Byte> := buffers[k][..i] + [b] + buffers[k][i + 1..];
    buffers[k := row]
  }

  function ReceiveByte(box: Box, b: Byte): Box {
    var k := box.rxWrite;
    var n := box.rxLengths[k];
    if n < MAX_ENCODED then
      box.(rxBuffers := Store(box.rxBuffers, k, n, b), rxLengths := box.rxLengths[k := n + 1])
    else Drop(box)
  }

  function ServeByte(box: Box): (Box, Byte) {
    if box.txIndex < box.txLengths[box.txActive] then
      (box.(txIndex := box.txIndex + 1), box.txBuffers[box.txActive][box.txIndex])
    else (box, 0)
  }

  /** `complete_receive_from_isr`. */
  function CompleteReceive(box: Box): Box {
    var k := box.rxWrite;
    if box.rxLengths[k] == 0 then box
    else if box.rxReady then Drop(box.(rxLengths := box.rxLengths[k := 0]))
    else box.(rxReadyIndex := k, rxReady := true, rxWrite := Other(k), rxLengths := box.rxLengths[Other(k) := 0])
  }

  /** `handle_irq`: the five status bits, in the order the handler tests them. */
  function HandleIrq(box: Box, irq: Interrupt): (Box, Option<Byte>) {
    var b1 := if irq.rxFull then ReceiveByte(box, irq.data) else box;
    var (b2, served) := if irq.rdReq then var (b, v) := ServeByte(b1); (b, Some(v)) else (b1, None);
    var b3 := if irq.stopDet then CompleteReceive(b2).(txIndex := 0) else b2;
    var b4 := if irq.txAbrt then b3.(txIndex := 0) else b3;
    (if irq.rxOver then Drop(b4) else b4, served)
  }

  /** One iteration of the copy loop of `publish`, outside any critical section. */
  function CopyTo(box: Box, inactive: Bit, i: nat, b: Byte): Box
    requires i < MAX_ENCODED
  {
    box.(txBuffers := Store(box.txBuffers, inactive, i, b))
  }

  /** The critical section of `publish`: refuse during a read, else switch buffers. */
  function CommitTo(box: Box, inactive: Bit, length: nat): (Box, bool)
    requires length <= MAX_ENCODED
  {
    if box.txIndex != 0 then (box, false)
    else (box.(txLengths := box.txLengths[inactive := length], txActive := inactive), true)
  }

  /** The critical section of `poll`. */
  function TakeMail(box: Box): (Box, Option<seq<Byte>>) {
    if !box.rxReady then (box, None)
    else
      var k := box.rxReadyIndex;
      (box.(rxLengths := box.rxLengths[k := 0], rxReady := false), Some(box.rxBuffers[k][..box.rxLengths[k]]))
  }

  // ---------------------------------------------------------------- the step system

  /** Where the main thread is: outside `publish`, or in its copy loop. */
  datatype Main = Free | Copying(frame: Frame, next: nat, inactive: Bit)

  /** A completed non-empty write, and whether unread mail was present at its STOP. */
  datatype Arrival = Arrival(bytes: seq<Byte>, blocked: bool)

  /**
   * The bytes served between two resets of the read index: the frame that was current when the
   * first byte was served from a published buffer, and how many zeros were served before that.
   */
  datatype Read = Read(bytes: seq<Byte>, source: Option<Frame>, lead: nat)

  const NO_READ := Read([], None, 0)

  /** History: what an observer of the bus and of the calls has seen. */
  datatype Log = Log(
    writing: seq<Byte>, arrivals: seq<Arrival>, taken: seq<seq<Byte>>, overruns: nat,
    published: Option<Frame>, reading: Read, finished: seq<Read>)

  datatype World = World(box: Box, main: Main, log: Log)

  const START := World(POWER_ON, Free, Log([], [], [], 0, None, NO_READ, []))

  datatype Step = Irq(irq: Interrupt) | BeginPublish(frame: Frame) | CopyByte | Commit | Poll

  function LogReceived(log: Log, b: Byte): Log {
    log.(writing := log.writing + [b])
  }

  function LogServed(log: Log, b: Byte): Log {
    var r := log.reading;
    log.(reading := Read(r.bytes + [b],
      if r.source.Some? then r.source else log.published,
      if r.source.Some? || log.published.Some? then r.lead else r.lead + 1))
  }

  function LogReset(log: Log): Log {
    if log.reading.bytes == [] then log else log.(reading := NO_READ, finished := log.finished + [log.reading])
  }

  function LogWrite(log: Log, unread: bool): Log {
    if log.writing == [] then log
    else log.(writing := [], arrivals := log.arrivals + [Arrival(log.writing, unread)])
  }

  // The parts of one interrupt, with the observer's record of each.

  function OnReceive(w: World, b: Byte): World {
    w.(box := ReceiveByte(w.box, b), log := LogReceived(w.log, b))
  }

  function OnServe(w: World): World {
    var (box, b) := ServeByte(w.box);
    w.(box := box, log := LogServed(w.log, b))
  }

  function OnStop(w: World): World {
    w.(box := CompleteReceive(w.box).(txIndex := 0), log := LogReset(LogWrite(w.log, w.box.rxReady)))
  }

  function OnAbort(w: World): World {
    w.(box := w.box.(txIndex := 0), log := LogReset(w.log))
  }

  function OnOverrun(w: World): World {
    w.(box := Drop(w.box), log := w.log.(overruns := w.log.overruns + 1))
  }

  /** One run of the handler is atomic: main code cannot be seen between its parts. */
  function OnIrq(w: World, irq: Interrupt): (w': World)
    ensures w'.box == HandleIrq(w.box, irq).0 && w'.main == w.main
  {
    var w1 := if irq.rxFull then OnReceive(w, irq.data) else w;
    var w2 := if irq.rdReq then OnServe(w1) else w1;
    var w3 := if irq.stopDet then OnStop(w2) else w2;
    var w4 := if irq.txAbrt then OnAbort(w3) else w3;
    if irq.rxOver then OnOverrun(w4) else w4
  }

  /** One step; a step that the main thread cannot take now changes nothing. */
  function Next(w: World, step: Step): World {
    match step
    case Irq(irq) => OnIrq(w, irq)
    case BeginPublish(frame) =>
      if w.main.Free? then w.(main := Copying(frame, 0, Other(w.box.txActive))) else w
    case CopyByte =>
      if w.main.Copying? && w.main.next < |Encode(w.main.frame)| then
        var m := w.main;
        w.(box := CopyTo(w.box, m.inactive, m.next, Encode(m.frame)[m.next]), main := m.(next := m.next + 1))
      else w
    case Commit =>
      if w.main.Copying? && w.main.next == |Encode(w.main.frame)| then
        var (box, ok) := CommitTo(w.box, w.main.inactive, w.main.next);
        w.(box := box, main := Free, log := if ok then w.log.(published := Some(w.main.frame)) else w.log)
      else w
    case Poll =>
      if w.main.Free? then
        var (box, mail) := TakeMail(w.box);
        w.(box := box, log := if mail.Some? then w.log.(taken := w.log.taken + [mail.value]) else w.log)
      else w
  }

  function Run(w: World, steps: seq<Step>): World {
    if steps == [] then w else Next(Run(w, steps[..|steps| - 1]), steps[|steps| - 1])
  }

  lemma RunSnoc(w: World, steps: seq<Step>, step: Step)
    ensures Run(w, steps + [step]) == Next(Run(w, steps), step)
  {
  }

  lemma {:induction false} RunConcat(w: World, s: seq<Step>, t: seq<Step>)
    ensures Run(w, s + t) == Run(Run(w, s), t)
    decreases |t|
  {
    if t == [] {
      assert s + t == s;
    } else {
      RunConcat(w, s, t[..|t| - 1]);
      assert (s + t)[..|s + t| - 1] == s + t[..|t| - 1];
    }
  }

  // ---------------------------------------------------------------- one call of publish, interrupted

  function Irqs(irqs: seq<Interrupt>): seq<Step> {
    seq(|irqs|, i requires 0 <= i < |irqs| => Irq(irqs[i]))
  }

  /** The first `k` bytes of a publish, with interrupts `schedule(i)` before byte `i`. */
  function CopySteps(frame: Frame, schedule: nat -> seq<Interrupt>, k: nat): seq<Step> {
    if k == 0 then [BeginPublish(frame)]
    else CopySteps(frame, schedule, k - 1) + Irqs(schedule(k - 1)) + [CopyByte]
  }

  /** Everything before the critical section. */
  function BeforeCommit(frame: Frame, schedule: nat -> seq<Interrupt>): seq<Step> {
    CopySteps(frame, schedule, |Encode(frame)|) + Irqs(schedule(|Encode(frame)|))
  }

  function PublishSteps(frame: Frame, schedule: nat -> seq<Interrupt>): seq<Step> {
    BeforeCommit(frame, schedule) + [Commit]
  }

  /** The world after `k` bytes, turn by turn. */
  ghost function AfterCopies(w: World, frame: Frame, schedule: nat -> seq<Interrupt>, k: nat): World {
    if k == 0 then Next(w, BeginPublish(frame))
    else Next(Run(AfterCopies(w, frame, schedule, k - 1), Irqs(schedule(k - 1))), CopyByte)
  }

  lemma {:induction false} CopiesAsSteps(w: World, frame: Frame, schedule: nat -> seq<Interrupt>, k: nat)
    ensures AfterCopies(w, frame, schedule, k) == Run(w, CopySteps(frame, schedule, k))
  {
    if k == 0 {
      RunSnoc(w, [], BeginPublish(frame));
      assert [] + [BeginPublish(frame)] == [BeginPublish(frame)];
    } else {
      CopiesAsSteps(w, frame, schedule, k - 1);
      RunConcat(w, CopySteps(frame, schedule, k - 1), Irqs(schedule(k - 1)));
      RunSnoc(w, CopySteps(frame, schedule, k - 1) + Irqs(schedule(k - 1)), CopyByte);
    }
  }

  lemma PublishAsSteps(w: World, frame: Frame, schedule: nat -> seq<Interrupt>)
    ensures var n := |Encode(frame)|;
      && Run(w, BeforeCommit(frame, schedule)) == Run(AfterCopies(w, frame, schedule, n), Irqs(schedule(n)))
      && Run(w, PublishSteps(frame, schedule)) == Next(Run(w, BeforeCommit(frame, schedule)), Commit)
  {
    var n := |Encode(frame)|;
    CopiesAsSteps(w, frame, schedule, n);
    RunConcat(w, CopySteps(frame, schedule, n), Irqs(schedule(n)));
    RunSnoc(w, BeforeCommit(frame, schedule), Commit);
  }
}

/** `I2cPeripheralEndpoint` itself: the mutable object whose methods take the steps of the mailbox. */
module Endpoint {
  import opened Bytes
  import opened Codec
  import opened Mailbox

  class I2cPeripheralEndpoint {
    const rxBuffers: array2<Byte>
    const rxLengths: array<nat>
    var rxWriteIndex: Bit
    var rxReadyIndex: Bit
    var rxReady: bool
    const txBuffers: array2<Byte>
    const txLengths: array<nat>
    var txActiveIndex: Bit
    var txIndex: nat
    var droppedFrames: Word

    ghost predicate Valid()
      reads rxLengths, txLengths
    {
      && rxBuffers.Length0 == txBuffers.Length0 == 2
      && rxBuffers.Length1 == txBuffers.Length1 == MAX_ENCODED
      && rxLengths.Length == txLengths.Length == 2
      && rxBuffers != txBuffers && rxLengths != txLengths
      && rxLengths[0] <= MAX_ENCODED && rxLengths[1] <= MAX_ENCODED
      && txLengths[0] <= MAX_ENCODED && txLengths[1] <= MAX_ENCODED
    }

    ghost const Repr: set<object> := {this, rxBuffers, rxLengths, txBuffers, txLengths}

    ghost function Row(a: array2<Byte>, k: Bit): (s: seq<Byte>)
      requires a.Length0 == 2 && a.Length1 == MAX_ENCODED
      reads a
      ensures |s| == MAX_ENCODED && forall i | 0 <= i < MAX_ENCODED :: s[i] == a[k, i]
    {
      seq(MAX_ENCODED, i requires 0 <= i < MAX_ENCODED reads a => a[k, i])
    }

    ghost function Value(): Box
      requires Valid()
      reads this, rxBuffers, rxLengths, txBuffers, txLengths
    {
      Box([Row(rxBuffers, 0), Row(rxBuffers, 1)], rxLengths[..], rxWriteIndex, rxReadyIndex, rxReady,
          [Row(txBuffers, 0), Row(txBuffers, 1)], txLengths[..], txActiveIndex, txIndex, droppedFrames)
    }

    constructor ()
      ensures Valid() && fresh(Repr) && Value() == POWER_ON
    {
      rxBuffers := new Byte[2, MAX_ENCODED]((_, _) => 0);
      txBuffers := new Byte[2, MAX_ENCODED]((_, _) => 0);
      rxLengths := new nat[2](_ => 0);
      txLengths := new nat[2](_ => 0);
      rxWriteIndex, rxReadyIndex, rxReady := 0, 0, false;
      txActiveIndex, txIndex, droppedFrames := 0, 0, 0;
      new;
      assert Row(rxBuffers, 0) == Row(rxBuffers, 1) == Row(txBuffers, 0) == Row(txBuffers, 1) == Zeros(MAX_ENCODED);
    }

    method CompleteReceiveFromIsr()
      requires Valid()
      modifies Repr
      ensures Valid() && Value() == CompleteReceive(old(Value()))
    {
      var k := rxWriteIndex;
      if rxLengths[k] == 0 {
        return;
      }
      if rxReady {
        rxLengths[k] := 0;
        droppedFrames := (droppedFrames + 1) % WORD;
        return;
      }
      rxReadyIndex := k;
      rxReady := true;
      rxWriteIndex := 1 - k;
      rxLengths[rxWriteIndex] := 0;
    }

    method RestartRead()
      requires Valid()
      modifies this`txIndex
      ensures Valid() && Value() == old(Value()).(txIndex := 0)
    {
      txIndex := 0;
    }

    method CountDrop()
      requires Valid()
      modifies this`droppedFrames
      ensures Valid() && Value() == Drop(old(Value()))
    {
      droppedFrames := (droppedFrames + 1) % WORD;
    }

    // The handler, one method for each effect.

    method ReceiveNow(data: Byte)
      requires Valid()
      modifies Repr
      ensures Valid() && Value() == ReceiveByte(old(Value()), data)
    {
      var k := rxWriteIndex;
      var n := rxLengths[k];
      if n < MAX_ENCODED {
        rxBuffers[k, n] := data;
        rxLengths[k] := n + 1;
        assert Row(rxBuffers, k) == old(Row(rxBuffers, k))[..n] + [data] + old(Row(rxBuffers, k))[n + 1..];
        assert Row(rxBuffers, Other(k)) == old(Row(rxBuffers, Other(k)));
      } else {
        CountDrop();
      }
    }

    method ServeNow() returns (value: Byte)
      requires Valid()
      modifies Repr
      ensures Valid() && (Value(), value) == ServeByte(old(Value()))
    {
      value := 0;
      if txIndex < txLengths[txActiveIndex] {
        value := txBuffers[txActiveIndex, txIndex];
        txIndex := txIndex + 1;
      }
    }

    method HandleIrqNow(irq: Interrupt) returns (served: Option<Byte>)
      requires Valid()
      modifies Repr
      ensures Valid() && (Value(), served) == HandleIrq(old(Value()), irq)
    {
      served := None;
      if irq.rxFull {
        ReceiveNow(irq.data);
      }
      if irq.rdReq {
        var value := ServeNow();
        served := Some(value);
      }
      if irq.stopDet {
        CompleteReceiveFromIsr();
        RestartRead();
      }
      if irq.txAbrt {
        RestartRead();
      }
      if irq.rxOver {
        CountDrop();
      }
    }

    /** `poll`: the mail is copied out under lock and decoded outside; no mail is no result. */
    method PollFrame() returns (r: Option<DecodeResult>)
      requires Valid()
      modifies Repr
      ensures Valid()
      ensures var (box, mail) := TakeMail(old(Value()));
              Value() == box && r == match mail case None => None case Some(bytes) => Some(Decode(bytes))
    {
      if !rxReady {
        return None;
      }
      var k := rxReadyIndex;
      var n := rxLengths[k];
      var local := new Byte[MAX_ENCODED](_ => 0);
      for i := 0 to n
        invariant Valid() && Value() == old(Value())
        invariant local[..i] == Row(rxBuffers, k)[..i]
      {
        local[i] := rxBuffers[k, i];
      }
      rxLengths[k] := 0;
      rxReady := false;
      var decoded := DecodeFrame(local[..n]);
      r := Some(decoded);
    }

    method HandleIrqs(irqs: seq<Interrupt>, ghost w: World) returns (ghost w': World)
      requires Valid() && w.box == Value()
      modifies Repr
      ensures Valid() && w'.box == Value() && w'.main == w.main && w' == Run(w, Irqs(irqs))
    {
      w' := w;
      for i := 0 to |irqs|
        invariant Valid() && w'.box == Value() && w'.main == w.main && w' == Run(w, Irqs(irqs[..i]))
      {
        var _ := HandleIrqNow(irqs[i]);
        w' := Next(w', Irq(irqs[i]));
        assert Irqs(irqs[..i + 1]) == Irqs(irqs[..i]) + [Irq(irqs[i])];
        RunSnoc(w, Irqs(irqs[..i]), Irq(irqs[i]));
      }
      assert irqs[..|irqs|] == irqs;
    }

    method CopyByteNow(inactive: Bit, i: nat, b: Byte)
      requires Valid() && i < MAX_ENCODED
      modifies txBuffers
      ensures Valid() && Value() == CopyTo(old(Value()), inactive, i, b)
    {
      txBuffers[inactive, i] := b;
      ghost var row := old(Row(txBuffers, inactive));
      assert Row(txBuffers, inactive) == row[..i] + [b] + row[i + 1..];
      assert Row(txBuffers, Other(inactive)) == old(Row(txBuffers, Other(inactive)));
    }

    method CommitNow(inactive: Bit, length: nat) returns (ok: bool)
      requires Valid() && length <= MAX_ENCODED
      modifies this, txLengths
      ensures Valid() && (Value(), ok) == CommitTo(old(Value()), inactive, length)
    {
      if txIndex != 0 {
        return false;
      }
      txLengths[inactive] := length;
      txActiveIndex := inactive;
      ok := true;
    }

    /**
     * `publish`, with any interrupts between any two bytes of its copy loop. It takes exactly the steps
     * of the step system, and succeeds exactly when no read is under way at its critical section.
     * (The length guard of the original cannot fail: `Encode` is never empty and never over 40 bytes.)
     */
    method Publish(frame: Frame, schedule: nat -> seq<Interrupt>, ghost w: World) returns (ok: bool, ghost w': World)
      requires Valid() && w.box == Value() && w.main.Free?
      modifies Repr
      ensures Valid() && w'.box == Value() && w'.main.Free?
      ensures w' == Run(w, PublishSteps(frame, schedule))
      ensures ok <==> Run(w, BeforeCommit(frame, schedule)).box.txIndex == 0
    {
      var bytes, length := EncodeFrame(frame);
      var inactive := 1 - txActiveIndex;
      w' := CopyFrame(frame, schedule, bytes[..length], inactive, w);
      PublishAsSteps(w, frame, schedule);
      w' := HandleIrqs(schedule(length), w');
      ok, w' := FinishPublish(frame, inactive, length, w');
    }

    /** The copy loop. */
    method CopyFrame(frame: Frame, schedule: nat -> seq<Interrupt>, bytes: seq<Byte>, inactive: Bit, ghost w: World)
      returns (ghost w': World)
      requires Valid() && w.box == Value() && w.main.Free? && inactive == Other(txActiveIndex)
      requires bytes == Encode(frame)
      modifies Repr
      ensures Valid() && w'.box == Value() && w'.main == Copying(frame, |bytes|, inactive)
      ensures w' == AfterCopies(w, frame, schedule, |bytes|)
    {
      w' := Next(w, BeginPublish(frame));
      for i := 0 to |bytes|
        invariant Valid() && w'.box == Value() && w'.main == Copying(frame, i, inactive)
        invariant w' == AfterCopies(w, frame, schedule, i)
      {
        w' := PublishByte(frame, schedule(i), inactive, i, bytes[i], w');
      }
    }

    /** The critical section, as a step. */
    method FinishPublish(frame: Frame, inactive: Bit, length: nat, ghost w: World) returns (ok: bool, ghost w': World)
      requires Valid() && w.box == Value() && length == |Encode(frame)| && w.main == Copying(frame, length, inactive)
      modifies this, txLengths
      ensures Valid() && w' == Next(w, Commit) && w'.box == Value() && w'.main.Free?
      ensures ok <==> w.box.txIndex == 0
    {
      ok := CommitNow(inactive, length);
      w' := Next(w, Commit);
    }

    /** One turn of the copy loop, after the interrupts that come before it. */
    method PublishByte(frame: Frame, irqs: seq<Interrupt>, inactive: Bit, i: nat, b: Byte, ghost w: World)
      returns (ghost w': World)
      requires Valid() && w.box == Value() && w.main == Copying(frame, i, inactive)
      requires i < |Encode(frame)| && b == Encode(frame)[i]
      modifies Repr
      ensures Valid() && w'.box == Value() && w'.main == Copying(frame, i + 1, inactive)
      ensures w' == Next(Run(w, Irqs(irqs)), CopyByte)
    {
      w' := HandleIrqs(irqs, w);
      CopyByteNow(inactive, i, b);
      w' := Next(w', CopyByte);
    }
  }
}

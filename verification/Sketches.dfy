/** The two example programs as objects: the Arduino command controller and the Pico I2C node. */
module Sketches {
  import opened Bytes
  import opened Codec
  import opened RetryQueue
  import opened Mailbox
  import opened Endpoint
  import CommandExchange

  /** examples/ArduinoReliableCommandController: the globals of the sketch and its functions. */
  class CommandController {
    const queue: ReliableQueue
    var sequenceNumber: Byte
    var lastCommandMs: Word
    var lastReceiveMs: Word

    ghost predicate Valid() {
      queue.Valid() && queue.timeoutMs == CommandExchange.TIMEOUT
    }

    ghost function Value(): CommandExchange.Controller
      reads this, queue.slots
    {
      CommandExchange.Controller(queue.Value(), sequenceNumber, lastCommandMs, lastReceiveMs)
    }

    /** The initial values of the globals, then `setup`. */
    constructor (now: Word)
      ensures Valid() && fresh(queue.slots)
      ensures Value() == CommandExchange.Setup(now).controller
    {
      queue := new ReliableQueue(CommandExchange.TIMEOUT, CommandExchange.ATTEMPTS);
      sequenceNumber, lastCommandMs, lastReceiveMs := 0, 0, 0;
      new;
      var _ := EnqueueCommand(now);
    }

    method EnqueueCommand(now: Word) returns (result: QueueResult)
      requires Valid()
      modifies this, queue.slots
      ensures (Value(), result) == CommandExchange.EnqueueCommand(old(Value()), now)
    {
      var command := CommandExchange.CommandFrame(sequenceNumber);
      sequenceNumber := (sequenceNumber + 1) % 256;
      result := queue.EnqueueFrame(command, now);
    }

    /** The transport's verdict on the bytes is printed but not used. */
    method TransmitDue(now: Word) returns (sent: Option<seq<Byte>>)
      requires Valid()
      modifies queue.slots
      ensures (Value(), sent) == CommandExchange.TransmitDue(old(Value()), now)
    {
      var decision := queue.NextDueAt(now);
      if !decision.Send? {
        return None;
      }
      var bytes, length := EncodeFrame(decision.frame);
      sent := Some(bytes[..length]);
    }

    /** `read` is what the bus returned; the transport trims it. */
    method ReceiveAcknowledgement(read: seq<Byte>) returns (resolution: AckResolution)
      requires Valid()
      modifies queue.slots
      ensures (Value(), resolution) == CommandExchange.ReceiveAcknowledgement(old(Value()), read)
    {
      var decoded := DecodeFrame(Trim(read));
      if !decoded.Ok? || decoded.frame.kind != ACKNOWLEDGEMENT {
        return NotFound;
      }
      var ack := ParseAckFrame(decoded.frame);
      if ack.None? {
        return NotFound;
      }
      resolution := queue.AcknowledgeFrame(decoded.frame.nodeId, ack.value.sequence, ack.value.status);
    }

    // `loop`, in its three parts.

    method CommandIfDue(now: Word)
      requires Valid()
      modifies this, queue.slots
      ensures Value() == CommandExchange.MaybeCommand(old(Value()), now)
    {
      var pending := queue.PendingCount();
      if pending == 0 && (now - lastCommandMs) % WORD >= CommandExchange.COMMAND_INTERVAL {
        lastCommandMs := now;
        var _ := EnqueueCommand(now);
      }
    }

    method ReceiveIfDue(now: Word, read: seq<Byte>) returns (resolution: AckResolution)
      requires Valid()
      modifies this, queue.slots
      ensures (Value(), resolution) == CommandExchange.MaybeReceive(old(Value()), now, read)
    {
      resolution := NotFound;
      if (now - lastReceiveMs) % WORD >= CommandExchange.RECEIVE_INTERVAL {
        lastReceiveMs := now;
        resolution := ReceiveAcknowledgement(read);
      }
    }

    method LoopOnce(now: Word, read: seq<Byte>) returns (sent: Option<seq<Byte>>, resolution: AckResolution)
      requires Valid()
      modifies this, queue.slots
      ensures CommandExchange.LoopResult(Value(), sent, resolution) == CommandExchange.Loop(old(Value()), now, read)
    {
      CommandIfDue(now);
      sent := TransmitDue(now);
      resolution := ReceiveIfDue(now, read);
    }
  }

  /** examples/PicoSdkI2cNode: the endpoint, the outgoing sequence, and the body of the main loop. */
  class PicoNode {
    const endpoint: I2cPeripheralEndpoint
    var sequenceNumber: Byte

    ghost predicate Valid()
      reads endpoint.rxLengths, endpoint.txLengths
    {
      endpoint.Valid() && this !in endpoint.Repr
    }

    constructor ()
      ensures Valid() && fresh(endpoint) && fresh(endpoint.Repr)
      ensures endpoint.Value() == POWER_ON && sequenceNumber == 0
    {
      endpoint := new I2cPeripheralEndpoint();
      sequenceNumber := 0;
    }

    /** A heartbeat uses up a sequence number even when `publish` refuses it. */
    method PublishHeartbeat(uptime: Word, irqs: nat -> seq<Interrupt>, ghost w: World) returns (ghost w': World)
      requires Valid() && w.box == endpoint.Value() && w.main.Free?
      modifies this, endpoint.Repr
      ensures Valid() && w'.box == endpoint.Value() && w'.main.Free?
      ensures w' == Run(w, PublishSteps(CommandExchange.HeartbeatFrame(old(sequenceNumber), uptime), irqs))
      ensures sequenceNumber == (old(sequenceNumber) + 1) % 256
    {
      var heartbeat := CommandExchange.HeartbeatFrame(sequenceNumber, uptime);
      sequenceNumber := (sequenceNumber + 1) % 256;
      var published;
      published, w' := endpoint.Publish(heartbeat, irqs, w);
    }

    /** So does an acknowledgement. */
    method PublishAcknowledgement(sequence: Byte, irqs: nat -> seq<Interrupt>, ghost w: World) returns (ghost w': World)
      requires Valid() && w.box == endpoint.Value() && w.main.Free?
      modifies this, endpoint.Repr
      ensures Valid() && w'.box == endpoint.Value() && w'.main.Free?
      ensures var ack := MakeAckFrame(CommandExchange.NODE_ID, old(sequenceNumber), sequence, Accepted);
              w' == Run(w, PublishSteps(ack, irqs))
      ensures sequenceNumber == (old(sequenceNumber) + 1) % 256
    {
      var ack := MakeAckFrame(CommandExchange.NODE_ID, sequenceNumber, sequence, Accepted);
      sequenceNumber := (sequenceNumber + 1) % 256;
      var published;
      published, w' := endpoint.Publish(ack, irqs, w);
    }

    /** Poll, then acknowledge: the steps of the mailbox, and the reply of the exchange. */
    method PollAndAcknowledge(irqs: nat -> seq<Interrupt>, ghost w: World)
      returns (polled: Option<DecodeResult>, ghost w': World)
      requires Valid() && w.box == endpoint.Value() && w.main.Free?
      modifies this, endpoint.Repr
      ensures Valid() && w'.box == endpoint.Value() && w'.main.Free?
      ensures var mail := TakeMail(w.box).1;
              polled == match mail case None => None case Some(bytes) => Some(Decode(bytes))
      ensures var reply := CommandExchange.NodeTurn(old(sequenceNumber), TakeMail(w.box).1);
              && reply.0 == sequenceNumber
              && w' == match reply.1
                       case None => Next(w, Poll)
                       case Some(ack) => Run(Next(w, Poll), PublishSteps(ack, irqs))
    {
      ghost var reply := CommandExchange.NodeTurn(sequenceNumber, TakeMail(w.box).1);
      polled := endpoint.PollFrame();
      w' := Next(w, Poll);
      assert reply == if polled.None? then (sequenceNumber, None)
                      else CommandExchange.NodeReply(sequenceNumber, polled.value);
      if polled.Some? && polled.value.Ok? && polled.value.frame.flags % 2 == 1 {
        w' := PublishAcknowledgement(polled.value.frame.sequence, irqs, w');
      }
    }
  }
}

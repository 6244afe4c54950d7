/** The client as an object: the ring it updates in place and the loops of `process_transfer_state`. */
module Rcopy {
  import opened Bytes
  import opened Checksum
  import opened Pdus
  import opened Receivers
  import T = Transfers

  /** Everything a receiver does on a list of messages, in order. */
  function ReceiveAll(r: Receiver, messages: seq<Pdu>): (Receiver, seq<Pdu>) {
    if messages == [] then (r, [])
    else
      var (before, answers) := ReceiveAll(r, messages[..|messages| - 1]);
      var (after, out) := ReceiverStep(before, messages[|messages| - 1]);
      (after, answers + out)
  }

  class ReceiveInfo {
    const buffer: array<Slot>
    const windowSize: nat
    const order: Order
    var expected: u32
    var highest: u32
    var outFile: seq<byte>
    var eofSeq: u32
    var inbox: seq<Pdu>
    var sent: seq<Pdu>

    ghost predicate Valid()
      reads this
    {
      0 < windowSize == buffer.Length
    }

    /** The abstract value, given the local transfer state. */
    ghost function Value(mode: Mode): Receiver
      reads this, buffer
      requires Valid()
    {
      Receiver(mode, expected, highest, buffer[..], outFile)
    }

    /** `wait_on_data_state`: a cleared ring and an empty file. */
    constructor (c: T.Config, arrivals: seq<Pdu>)
      requires c.Valid()
      ensures Valid() && fresh(buffer)
      ensures Value(InOrder) == InitReceiver(c) && inbox == arrivals && sent == []
    {
      windowSize, order := c.recvWindow, c.order;
      buffer := new Slot[c.recvWindow](_ => EMPTY_SLOT);
      expected, highest, eofSeq := 1, 0, 0;
      outFile, inbox, sent := [], arrivals, [];
      new;
      assert buffer[..] == InitReceiver(c).ring;
    }

    /** `send_rr`. */
    method SendRr(next: u32)
      modifies this`sent
      ensures sent == old(sent) + [Encode(next, FLAG_RR, [])]
    {
      var m := CreateRr(order, next);
      sent := sent + [m];
    }

    /** `send_srej`. */
    method SendSrej(missing: u32)
      modifies this`sent
      ensures sent == old(sent) + [Encode(missing, FLAG_SREJ, [])]
    {
      var m := CreateSrej(order, missing);
      sent := sent + [m];
    }

    /** `send_eof_ack_state`. */
    method SendEofAck()
      modifies this`sent
      ensures sent == old(sent) + [Encode(eofSeq, FLAG_EOF_ACK, [])]
    {
      var ackPdu := new byte[7];
      var ackLen := CreatePdu(order, ackPdu, eofSeq, FLAG_EOF_ACK, []);
      EncodeOrderIndependent(eofSeq, FLAG_EOF_ACK, []);
      sent := sent + [ackPdu[..ackLen]];
    }

    /** `buffer_packet` and the update of `highest` that follows it. */
    method BufferPacket(m: Pdu, ghost mode: Mode)
      requires Valid()
      modifies this`highest, buffer
      ensures Valid() && Value(mode) == BufferAndRaise(old(Value(mode)), m)
    {
      var index := Value32(m[..4]) % windowSize;
      if !buffer[index].valid {
        buffer[index] := Slot(true, m[HEADER..]);
      }
      assert buffer[..] == Buffer(old(Value(mode)), Seq(m), Payload(m)).ring;
      if Value32(m[..4]) > highest {
        highest := Value32(m[..4]);
      }
    }

    method WritePayload(payload: seq<byte>)
      modifies this`outFile, this`expected
      ensures outFile == old(outFile) + payload && expected == Succ(old(expected))
    {
      outFile := outFile + payload;
      expected := Succ(expected);
    }

    /** Both flush loops. */
    method FlushBuffered(ghost mode: Mode)
      requires Valid()
      modifies this`outFile, this`expected, buffer
      ensures Valid() && Value(mode) == FlushLoop(old(Value(mode)))
      ensures !Flushable(Value(mode))
    {
      while expected <= highest && buffer[expected % windowSize].valid
        invariant Valid()
        invariant FlushLoop(Value(mode)) == FlushLoop(old(Value(mode)))
        decreases InUse(buffer[..])
      {
        ghost var before := Value(mode);
        var index := expected % windowSize;
        InUseFreed(buffer[..], index);
        outFile := outFile + buffer[index].packet;
        buffer[index] := buffer[index].(valid := false);
        expected := Succ(expected);
        assert Value(mode) == FlushOne(before);
      }
    }

    /** One turn of the loop on a received message; Closed means the function returned. */
    method HandlePacket(m: Pdu, mode: Mode) returns (next: Mode)
      requires Valid() && !mode.Closed?
      modifies this`expected, this`highest, this`outFile, this`eofSeq, this`sent, buffer
      ensures Valid()
      ensures var (r, out) := ReceiverStep(old(Value(mode)), m);
              Value(next) == r && sent == old(sent) + out
    {
      next := mode;
      var seqNum, flag, payload := Value32(m[..4]), m[6], m[HEADER..];
      if flag == FLAG_EOF {
        eofSeq := seqNum;
        FlushBuffered(mode);
        SendEofAck();
        return Closed;
      }
      if flag == FLAG_DATA || flag == FLAG_SREJ_REPLY || flag == FLAG_TIMEOUT_RESEND {
        match mode
        case InOrder =>
          if seqNum == expected {
            WritePayload(payload);
            highest := seqNum;
            SendRr(expected);
          } else if seqNum > expected {
            BufferPacket(m, mode);
            SendSrej(expected);
            next := OutOfOrder;
          }
        case OutOfOrder =>
          if seqNum == expected {
            WritePayload(payload);
            SendRr(expected);
            next := Flush;
          } else if seqNum > expected {
            BufferPacket(m, mode);
          }
        case Flush =>
          FlushBuffered(mode);
          if expected <= highest {
            if !buffer[expected % windowSize].valid {
              SendSrej(expected);
              next := OutOfOrder;
            }
          } else {
            SendRr(expected);
            next := InOrder;
          }
      }
    }

    /**
     `process_transfer_state`: receives until an EOF closes the file, or until nothing more arrives and the
     client would block for ever.
     */
    method ProcessTransfer() returns (mode: Mode, received: nat)
      requires Valid()
      modifies this, buffer
      ensures Valid()
      ensures received <= |old(inbox)| && inbox == old(inbox)[received..]
      ensures var (r, out) := ReceiveAll(old(Value(InOrder)), old(inbox)[..received]);
              Value(mode) == r && sent == old(sent) + out
      ensures mode.Closed? || inbox == []
    {
      mode, received := InOrder, 0;
      ghost var all, start := inbox, Value(InOrder);
      while !mode.Closed? && inbox != []
        invariant Valid()
        invariant received <= |all| && inbox == all[received..]
        invariant var (r, out) := ReceiveAll(start, all[..received]);
                  Value(mode) == r && sent == old(sent) + out
        decreases |inbox|
      {
        var m := inbox[0];
        inbox := inbox[1..];
        mode := HandlePacket(m, mode);
        assert all[..received + 1][..received] == all[..received];
        received := received + 1;
      }
    }
  }
}

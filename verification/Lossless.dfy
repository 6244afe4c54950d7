/** The case the protocol is quiet in: data that arrives in order and complete. */
module Lossless {
  import opened Bytes
  import opened Pdus
  import opened Transfers
  import opened Senders
  import opened Receivers
  import opened Protocol

  /**
   The data channel loses nothing and keeps order; a duplicate queues up behind what is already in flight.
   The ack channel may do anything.
   */
  predicate OrderlyData(steps: seq<Step>) {
    forall i :: 0 <= i < |steps| ==> Orderly(steps[i])
  }

  predicate Orderly(step: Step) {
    (step.DataArrives? ==> step.i == 0) && !step.DropData?
  }

  /** Starting at expected number e, the queue brings the receiver to `next` without ever running ahead of it. */
  ghost predicate Smooth(c: Config, e: int, queue: seq<Pdu>, next: int)
    requires c.Valid()
    decreases |queue|
  {
    if queue == [] then e == next
    else if IsData(queue[0]) then
      Seq(queue[0]) <= e && Smooth(c, if Seq(queue[0]) == e then e + 1 else e, queue[1..], next)
    else e == c.Total() + 1 && Smooth(c, e, queue[1..], next)
  }

  lemma {:induction false} SmoothExtends(c: Config, e: int, queue: seq<Pdu>, next: int, m: Pdu)
    requires c.Valid() && Smooth(c, e, queue, next)
    requires if IsData(m) then Seq(m) <= next else next == c.Total() + 1
    ensures Smooth(c, e, queue + [m], if IsData(m) && Seq(m) == next then next + 1 else next)
    decreases |queue|
  {
    if queue == [] {
      assert (queue + [m])[1..] == [];
    } else {
      assert (queue + [m])[1..] == queue[1..] + [m];
      var e' := if IsData(queue[0]) && Seq(queue[0]) == e then e + 1 else e;
      SmoothExtends(c, e', queue[1..], next, m);
    }
  }

  ghost predicate QuietInv(c: Config, st: State)
    requires c.Valid()
  {
    && (st.rcv.mode.InOrder? || (st.rcv.mode.Closed? && st.rcv.expected == c.Total() + 1))
    && (forall a :: a in st.acksSent ==> Flag(a) != FLAG_SREJ)
    && Smooth(c, st.rcv.expected, st.data, st.snd.sequenceNum)
  }

  /** A sent data PDU is either the next number, which then advances, or an older one; an EOF ends the numbering. */
  lemma SentLabels(c: Config, s: Sender, poll: Poll)
    requires c.Valid() && SenderInv(c, s)
    requires poll.Ready? ==> AckOk(s, poll.m)
    ensures var (s', out) := SenderStep(c, s, poll);
            if out != [] && IsData(out[0])
            then Seq(out[0]) <= s.sequenceNum &&
                 s'.sequenceNum == if Seq(out[0]) == s.sequenceNum then s.sequenceNum + 1 else s.sequenceNum
            else s'.sequenceNum == s.sequenceNum && (out != [] ==> s.sequenceNum == c.Total() + 1)
  {
    SenderStepInv(c, s, poll);
    if s.phase.Filling? {
      FillInv(c, s);
      DecodeEncode(s.sequenceNum, FLAG_DATA, c.Chunk(s.sequenceNum));
      DecodeEncode(s.sequenceNum, FLAG_EOF, []);
    } else {
      var (s', out) := SenderStep(c, s, poll);
      assert s'.sequenceNum == s.sequenceNum;
      assert out != [] ==> out[0] in out;
    }
  }

  lemma SenderMovesQuiet(c: Config, st: State, poll: Poll)
    requires c.Valid() && Inv(c, st) && QuietInv(c, st)
    requires poll.Ready? ==> AckInFlight(st, poll.m)
    ensures QuietInv(c, SenderMoves(c, st, poll))
  {
    hide SenderStep, SenderInv, RingInv, Encode;
    var (s, out) := SenderStep(c, st.snd, poll);
    SenderStepInv(c, st.snd, poll);
    SentLabels(c, st.snd, poll);
    if out == [] {
      assert st.data + out == st.data;
    } else {
      SmoothExtends(c, st.rcv.expected, st.data, st.snd.sequenceNum, out[0]);
      assert st.data + out == st.data + [out[0]];
    }
  }

  lemma QuietDelivery(c: Config, st: State)
    requires c.Valid() && Inv(c, st) && QuietInv(c, st) && Enabled(st, DataArrives(0))
    ensures QuietInv(c, Next(c, st, DataArrives(0)))
  {
    hide Encode, SenderInv, RingInv;
    var m := st.data[0];
    assert m in st.data && DataInFlight(c, st, m);
    assert Without(st.data, 0) == st.data[1..];
    DecodeEncode(Succ(st.rcv.expected), FLAG_RR, []);
    DecodeEncode(Seq(m), FLAG_EOF_ACK, []);
  }

  lemma QuietNext(c: Config, st: State, step: Step)
    requires c.Valid() && Inv(c, st) && QuietInv(c, st) && Orderly(step)
    ensures QuietInv(c, Next(c, st, step))
  {
    if Enabled(st, step) {
      match step
      case SenderTurn =>
        SenderMovesQuiet(c, st, Silent);
      case AckArrives(i) =>
        var taken := TakeAck(c, st, i);
        SenderMovesQuiet(c, taken, Ready(st.acks[i]));
      case DataArrives(i) =>
        QuietDelivery(c, st);
      case DuplicateData(i) =>
        assert st.data[i] in st.data && DataInFlight(c, st, st.data[i]);
        SmoothExtends(c, st.rcv.expected, st.data, st.snd.sequenceNum, st.data[i]);
      case _ =>
    }
  }

  lemma {:induction false} QuietHolds(c: Config, steps: seq<Step>)
    requires c.Valid() && WindowsFit(c) && OrderlyData(steps)
    ensures QuietInv(c, Exec(c, steps))
  {
    if steps != [] {
      QuietHolds(c, steps[..|steps| - 1]);
      Reachable(c, steps[..|steps| - 1]);
      QuietNext(c, Exec(c, steps[..|steps| - 1]), steps[|steps| - 1]);
    }
  }

  /**
   When no data is lost or reordered, the receiver never leaves IN_ORDER, never sends an SREJ, and a processed
   EOF means a complete file, however often the server times out and resends.
   */
  lemma {:induction false} OrderlyDataCompletes(c: Config, steps: seq<Step>)
    requires c.Valid() && WindowsFit(c) && OrderlyData(steps)
    ensures var st := Exec(c, steps);
            (st.rcv.mode.InOrder? || st.rcv.mode.Closed?) && (forall a :: a in st.acksSent ==> Flag(a) != FLAG_SREJ) &&
            (st.rcv.mode.Closed? ==> st.rcv.output == c.file)
  {
    QuietHolds(c, steps);
    Reachable(c, steps);
    c.EndOfFile(c.Total());
  }
}

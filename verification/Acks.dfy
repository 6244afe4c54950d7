/** The stream of RRs and SREJs over a whole run. */
module Acks {
  import opened Bytes
  import opened Pdus
  import opened Transfers
  import opened Senders
  import opened Receivers
  import opened Protocol

  /** The messages of one kind in a list carry strictly increasing numbers. */
  ghost predicate Ascending(s: seq<Pdu>, flag: byte) {
    forall i, j :: 0 <= i < j < |s| && Flag(s[i]) == flag && Flag(s[j]) == flag ==> Seq(s[i]) < Seq(s[j])
  }

  /** Every message of one kind in a list has a number in a range. */
  ghost predicate Within(s: seq<Pdu>, flag: byte, lo: int, hi: int) {
    forall m :: m in s && Flag(m) == flag ==> lo <= Seq(m) <= hi
  }

  /** An EOF-ACK is numbered like the EOF, closes the receiver, and is the last message sent. */
  ghost predicate EofAckLast(c: Config, st: State)
    requires c.Valid()
  {
    forall i :: 0 <= i < |st.acksSent| ==>
      Flag(st.acksSent[i]) == FLAG_RR || Flag(st.acksSent[i]) == FLAG_SREJ ||
      (Flag(st.acksSent[i]) == FLAG_EOF_ACK && Seq(st.acksSent[i]) == c.Total() + 1 && i == |st.acksSent| - 1 &&
       st.rcv.mode.Closed?)
  }

  /** What has been sent is ascending; the expected number bounds it, strictly for SREJs unless one is pending. */
  ghost predicate AcksSentInv(c: Config, st: State)
    requires c.Valid()
  {
    var pending := if st.rcv.mode.OutOfOrder? then st.rcv.expected else st.rcv.expected - 1;
    && EofAckLast(c, st)
    && Ascending(st.acksSent, FLAG_RR)
    && Ascending(st.acksSent, FLAG_SREJ)
    && Within(st.acksSent, FLAG_RR, 2, st.rcv.expected)
    && Within(st.acksSent, FLAG_SREJ, 1, c.Total())
    && Within(st.acksSent, FLAG_SREJ, 1, if st.rcv.mode.Closed? then st.rcv.expected else pending)
  }

  lemma AscendingExtends(s: seq<Pdu>, m: Pdu, flag: byte, lo: int, hi: int)
    requires Ascending(s, flag) && Within(s, flag, lo, hi)
    requires Flag(m) == flag ==> Seq(m) > hi
    ensures Ascending(s + [m], flag)
  {
    forall i | 0 <= i < |s|
      ensures s[i] in s
    {
    }
  }

  lemma AcksSentAfterAnswer(c: Config, st: State, st': State, m: Pdu, out: seq<Pdu>)
    requires c.Valid() && AcksSentInv(c, st) && Answers(st.rcv, st'.rcv, m, out)
    requires !st.rcv.mode.Closed? && st'.rcv.highest <= c.Total()
    requires 1 <= st.rcv.expected && st'.acksSent == st.acksSent + out
    requires Flag(m) == FLAG_EOF ==> Seq(m) == c.Total() + 1
    ensures AcksSentInv(c, st')
  {
    if out != [] {
      assert out == [out[0]];
      AscendingExtends(st.acksSent, out[0], FLAG_RR, 2, st.rcv.expected);
      AscendingExtends(st.acksSent, out[0], FLAG_SREJ, 1,
                       if st.rcv.mode.OutOfOrder? then st.rcv.expected else st.rcv.expected - 1);
    } else {
      assert st'.acksSent == st.acksSent;
    }
  }

  lemma ReceiverMovesAcksSent(c: Config, st: State, m: Pdu)
    requires c.Valid() && Inv(c, st) && DataInFlight(c, st, m)
    requires AcksSentInv(c, st) && !st.rcv.mode.Closed?
    ensures AcksSentInv(c, ReceiverMoves(st, m))
  {
    DeliverableInFlight(c, st, m);
    ReceiverStepInv(c, st.rcv, st.snd.sequenceNum, m);
    ReceiverAnswers(c, st.rcv, st.snd.sequenceNum, m);
    AcksSentAfterAnswer(c, st, ReceiverMoves(st, m), m, ReceiverStep(st.rcv, m).1);
  }

  lemma {:induction false} AcksSentHolds(c: Config, steps: seq<Step>)
    requires c.Valid() && WindowsFit(c)
    ensures AcksSentInv(c, Exec(c, steps))
  {
    if steps != [] {
      var st, step := Exec(c, steps[..|steps| - 1]), steps[|steps| - 1];
      AcksSentHolds(c, steps[..|steps| - 1]);
      Reachable(c, steps[..|steps| - 1]);
      AcksSentNext(c, st, step);
    }
  }

  lemma AcksSentNext(c: Config, st: State, step: Step)
    requires c.Valid() && Inv(c, st) && AcksSentInv(c, st)
    ensures AcksSentInv(c, Next(c, st, step))
  {
    if step.DataArrives? && Enabled(st, step) {
      var taken := TakeData(c, st, step.i);
      ReceiverMovesAcksSent(c, taken, st.data[step.i]);
      assert Next(c, st, step) == ReceiverMoves(taken, st.data[step.i]);
    } else {
      ReceiverMovesOnReceipt(c, st, step);
    }
  }

  /**
   Of two RRs of a run the later has the greater number, and so has the later of two SREJs. Only RRs (5), SREJs (6)
   and one EOF-ACK (35) are ever sent, and nothing is sent after the EOF-ACK.
   */
  lemma {:induction false} AcksStrictlyIncrease(c: Config, steps: seq<Step>)
    requires c.Valid() && WindowsFit(c)
    ensures var sent := Exec(c, steps).acksSent;
            forall i, j :: 0 <= i < j < |sent| && sent[i][6] == sent[j][6] ==> Seq(sent[i]) < Seq(sent[j])
    ensures var sent := Exec(c, steps).acksSent;
            forall i :: 0 <= i < |sent| ==>
              match sent[i][6]
              case 5 => 2 <= Seq(sent[i]) <= c.Total() + 1
              case 6 => 1 <= Seq(sent[i]) <= c.Total()
              case 35 => Seq(sent[i]) == c.Total() + 1 && i == |sent| - 1
              case _ => false
  {
    AcksSentHolds(c, steps);
    Reachable(c, steps);
    var sent := Exec(c, steps).acksSent;
    forall i | 0 <= i < |sent|
      ensures sent[i] in sent
    {
    }
  }

  // ---------------------------------------------------------------- FIFO ack channel

  /** No reordering and no duplication of acks; loss is allowed, and the data channel is unrestricted. */
  predicate FifoAcks(steps: seq<Step>) {
    forall i :: 0 <= i < |steps| ==>
      (steps[i].AckArrives? ==> steps[i].i == 0) && !steps[i].DuplicateAck?
  }

  /** No RR ahead of an SREJ in the queue, nor one already processed, exceeds the SREJ. */
  ghost predicate SrejsFresh(st: State) {
    && (forall j :: 0 <= j < |st.acks| && Flag(st.acks[j]) == FLAG_SREJ ==> Base(st.snd) <= Seq(st.acks[j]))
    && (forall i, j :: 0 <= i < j < |st.acks| && Flag(st.acks[i]) == FLAG_RR && Flag(st.acks[j]) == FLAG_SREJ ==>
          Seq(st.acks[i]) <= Seq(st.acks[j]))
  }

  lemma FreshAfterRemoval(st: State, st': State, i: nat)
    requires SrejsFresh(st) && i < |st.acks| && st'.acks == Without(st.acks, i)
    requires Base(st'.snd) == Base(st.snd) ||
             (i == 0 && Flag(st.acks[0]) == FLAG_RR && Base(st'.snd) == Seq(st.acks[0]))
    ensures SrejsFresh(st')
  {
    forall j | 0 <= j < |st'.acks|
      ensures st'.acks[j] == st.acks[if j < i then j else j + 1]
    {
    }
  }

  lemma FreshAfterAnswer(c: Config, st: State, m: Pdu)
    requires c.Valid() && Inv(c, st) && DataInFlight(c, st, m)
    requires SrejsFresh(st)
    ensures SrejsFresh(ReceiverMoves(st, m))
  {
    hide ReceiverStep, RingInv, Contiguous, PhaseInv, Encode;
    var (r, out) := ReceiverStep(st.rcv, m);
    DeliverableInFlight(c, st, m);
    ReceiverAnswers(c, st.rcv, st.snd.sequenceNum, m);
    var st' := ReceiverMoves(st, m);
    assert st'.acks == st.acks + out;
    forall i | 0 <= i < |st.acks|
      ensures AckInFlight(st, st.acks[i])
    {
      assert st.acks[i] in st.acks;
    }
  }

  lemma {:induction false} FreshHolds(c: Config, steps: seq<Step>)
    requires c.Valid() && WindowsFit(c) && FifoAcks(steps)
    ensures SrejsFresh(Exec(c, steps)) && !Exec(c, steps).snd.phase.Crashed?
  {
    if steps != [] {
      var prefix, step := steps[..|steps| - 1], steps[|steps| - 1];
      var st := Exec(c, prefix);
      FreshHolds(c, prefix);
      Reachable(c, prefix);
      FreshNext(c, st, step);
    }
  }

  lemma FreshNext(c: Config, st: State, step: Step)
    requires c.Valid() && Inv(c, st) && SrejsFresh(st) && !st.snd.phase.Crashed?
    requires (step.AckArrives? ==> step.i == 0) && !step.DuplicateAck?
    ensures SrejsFresh(Next(c, st, step)) && !Next(c, st, step).snd.phase.Crashed?
  {
    hide SenderStep, ReceiverStep, SenderInv, ReceiverInv, Encode;
    if Enabled(st, step) {
      match step
      case SenderTurn =>
        SenderStepInv(c, st.snd, Silent);
        SilentSurvives(c, st.snd);
      case AckArrives(i) =>
        FreshSrejSurvives(c, st);
        var m := st.acks[0];
        SenderStepInv(c, st.snd, Ready(m));
        FreshAfterRemoval(st, Next(c, st, step), 0);
      case DropAck(i) =>
        FreshAfterRemoval(st, Next(c, st, step), i);
      case DataArrives(i) =>
        var taken := TakeData(c, st, i);
        FreshAfterAnswer(c, taken, st.data[i]);
      case _ =>
    }
  }

  lemma FreshSrejSurvives(c: Config, st: State)
    requires c.Valid() && Inv(c, st) && SrejsFresh(st) && !st.snd.phase.Crashed? && st.acks != []
    ensures AckInFlight(st, st.acks[0]) && AckOk(st.snd, st.acks[0])
    ensures !SenderStep(c, st.snd, Ready(st.acks[0])).0.phase.Crashed? || st.snd.phase.Filling?
  {
    var m := st.acks[0];
    assert m in st.acks && AckInFlight(st, m);
    if Flag(m) == FLAG_SREJ {
      SrejLookup(c, st.snd.window, Base(st.snd), st.snd.sequenceNum, m);
    }
  }

  lemma SilentSurvives(c: Config, s: Sender)
    requires c.Valid() && SenderInv(c, s) && !s.phase.Crashed?
    ensures !SenderStep(c, s, Silent).0.phase.Crashed?
  {
    if s.phase.Waiting? {
      TimeoutInv(c, s);
    }
  }

  /**
   On a FIFO ack channel that does not duplicate, an SREJ k that reaches a sending server finds k live, and the
   reply carries chunk k; in particular the server never dies on a stale slot.
   */
  lemma {:induction false} SrejAnsweredTruthfully(c: Config, steps: seq<Step>)
    requires c.Valid() && WindowsFit(c) && FifoAcks(steps)
    ensures !Exec(c, steps).snd.phase.Crashed?
    ensures var st := Exec(c, steps);
            st.acks != [] && Flag(st.acks[0]) == FLAG_SREJ && Sending(st.snd) ==>
              var k := Seq(st.acks[0]);
              1 <= k && Base(st.snd) <= k < st.snd.sequenceNum &&
              HandleAck(st.snd.window, st.acks[0]) ==
                (st.snd.window, [Encode(k, FLAG_SREJ_REPLY, c.Chunk(k))], true)
  {
    FreshHolds(c, steps);
    Reachable(c, steps);
    var st := Exec(c, steps);
    if st.acks != [] && Flag(st.acks[0]) == FLAG_SREJ {
      assert st.acks[0] in st.acks && AckInFlight(st, st.acks[0]);
      SrejLookup(c, st.snd.window, Base(st.snd), st.snd.sequenceNum, st.acks[0]);
    }
  }
}

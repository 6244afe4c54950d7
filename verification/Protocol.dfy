/**
 The closed system: the two programs joined by a data channel and an ack channel that may lose, duplicate and
 reorder what is in flight. A run is any sequence of steps; a step that is not possible changes nothing.
 */
module Protocol {
  import opened Bytes
  import opened Pdus
  import opened Transfers
  import opened Senders
  import opened Receivers

  /** Both programs, what is in flight, and every message that has ever entered the two channels, in order. */
  datatype State = State(
    snd: Sender,
    rcv: Receiver,
    data: seq<Pdu>,
    acks: seq<Pdu>,
    dataSent: seq<Pdu>,
    acksSent: seq<Pdu>)

  /**
   A turn of the sender with nothing to receive, the arrival of an in-flight message at either side, or an
   act of the network. Arrivals of any index make reordering.
   */
  datatype Step =
    | SenderTurn
    | AckArrives(i: nat)
    | DataArrives(i: nat)
    | DropData(i: nat)
    | DropAck(i: nat)
    | DuplicateData(i: nat)
    | DuplicateAck(i: nat)

  function Init(c: Config): State
    requires c.Valid()
  {
    State(InitSender(c), InitReceiver(c), [], [], [], [])
  }

  predicate Enabled(st: State, step: Step) {
    match step
    case SenderTurn => Active(st.snd)
    case AckArrives(i) => i < |st.acks| && Active(st.snd) && !st.snd.phase.Filling?
    case DataArrives(i) => i < |st.data| && !st.rcv.mode.Closed?
    case DropData(i) => i < |st.data|
    case DropAck(i) => i < |st.acks|
    case DuplicateData(i) => i < |st.data|
    case DuplicateAck(i) => i < |st.acks|
  }

  function Without(s: seq<Pdu>, i: nat): (t: seq<Pdu>)
    requires i < |s|
    ensures |t| == |s| - 1
    ensures forall m :: m in t ==> m in s
  {
    s[..i] + s[i + 1..]
  }

  /** The sender takes a step and its output enters the data channel. */
  function SenderMoves(c: Config, st: State, poll: Poll): State {
    var (s, out) := SenderStep(c, st.snd, poll);
    st.(snd := s, data := st.data + out, dataSent := st.dataSent + out)
  }

  /** The receiver takes a message and its answer enters the ack channel. */
  function ReceiverMoves(st: State, m: Pdu): State {
    var (r, out) := ReceiverStep(st.rcv, m);
    st.(rcv := r, acks := st.acks + out, acksSent := st.acksSent + out)
  }

  function Next(c: Config, st: State, step: Step): State {
    if !Enabled(st, step) then st
    else match step
      case SenderTurn => SenderMoves(c, st, Silent)
      case AckArrives(i) => SenderMoves(c, st.(acks := Without(st.acks, i)), Ready(st.acks[i]))
      case DataArrives(i) => ReceiverMoves(st.(data := Without(st.data, i)), st.data[i])
      case DropData(i) => st.(data := Without(st.data, i))
      case DropAck(i) => st.(acks := Without(st.acks, i))
      case DuplicateData(i) => st.(data := st.data + [st.data[i]])
      case DuplicateAck(i) => st.(acks := st.acks + [st.acks[i]])
  }

  /** The state after a run. */
  function Exec(c: Config, steps: seq<Step>): State
    requires c.Valid()
  {
    if steps == [] then Init(c)
    else Next(c, Exec(c, steps[..|steps| - 1]), steps[|steps| - 1])
  }

  lemma ExecSnoc(c: Config, steps: seq<Step>, step: Step)
    requires c.Valid()
    ensures Exec(c, steps + [step]) == Next(c, Exec(c, steps), step)
  {
    hide Next;
    assert (steps + [step])[..|steps|] == steps;
  }

  /** A run without idle steps. */
  ghost predicate Proper(c: Config, steps: seq<Step>)
    requires c.Valid()
  {
    forall i :: 0 <= i < |steps| ==> Enabled(Exec(c, steps[..i]), steps[i])
  }

  // ---------------------------------------------------------------- invariant

  /** The widest window the receiver's ring can serve: one more than its size. */
  predicate WindowsFit(c: Config) {
    c.sendWindow <= c.recvWindow + 1
  }

  ghost predicate DataInFlight(c: Config, st: State, m: Pdu)
    requires c.Valid()
  {
    DataOk(c, st.rcv.expected, st.snd.sequenceNum, m) || EofOk(c, st.snd, m)
  }

  predicate AckInFlight(st: State, m: Pdu) {
    && Payload(m) == []
    && (if Flag(m) == FLAG_RR then 1 <= Seq(m) <= st.rcv.expected
        else if Flag(m) == FLAG_SREJ then 1 <= Seq(m) <= st.rcv.expected && Seq(m) < st.snd.sequenceNum
        else Flag(m) == FLAG_EOF_ACK && Seq(m) == st.snd.eofSeq != 0 && st.rcv.mode.Closed?)
  }

  ghost predicate Inv(c: Config, st: State)
    requires c.Valid()
  {
    && WindowsFit(c)
    && SenderInv(c, st.snd)
    && ReceiverInv(c, st.rcv, st.snd.sequenceNum)
    && Base(st.snd) <= st.rcv.expected
    && (st.rcv.mode.Closed? ==> st.snd.eofSeq != 0)
    && (forall m :: m in st.data ==> DataInFlight(c, st, m))
    && (forall m :: m in st.acks ==> AckInFlight(st, m))
  }

  /** A sender step leaves every message in flight acceptable. */
  lemma StillInFlightAfterSend(c: Config, st: State, st': State)
    requires c.Valid() && st'.rcv == st.rcv
    requires st'.snd.sequenceNum >= st.snd.sequenceNum
    requires st.snd.eofSeq != 0 ==> st'.snd.eofSeq == st.snd.eofSeq
    ensures forall m :: DataInFlight(c, st, m) ==> DataInFlight(c, st', m)
    ensures forall m :: AckInFlight(st, m) ==> AckInFlight(st', m)
  {
  }

  lemma ReceiverInvWeakens(c: Config, r: Receiver, next: u32, next': u32)
    requires c.Valid() && ReceiverInv(c, r, next) && next <= next' <= c.Total() + 1
    ensures ReceiverInv(c, r, next')
  {
  }

  lemma InvAfterSend(c: Config, st: State, st': State, poll: Poll, out: seq<Pdu>)
    requires c.Valid() && Inv(c, st) && (poll.Ready? ==> AckInFlight(st, poll.m))
    requires st'.rcv == st.rcv && st'.acks == st.acks && st'.data == st.data + out
    requires SenderInv(c, st'.snd) && st.snd.sequenceNum <= st'.snd.sequenceNum
    requires st.snd.eofSeq != 0 ==> st'.snd.eofSeq == st.snd.eofSeq
    requires Base(st'.snd) == Base(st.snd) ||
             (poll.Ready? && Flag(poll.m) == FLAG_RR && Base(st'.snd) == Seq(poll.m))
    requires forall d :: d in out ==> DataInFlight(c, st', d)
    ensures Inv(c, st')
  {
    StillInFlightAfterSend(c, st, st');
    ReceiverInvWeakens(c, st.rcv, st.snd.sequenceNum, st'.snd.sequenceNum);
  }

  lemma SenderMovesInv(c: Config, st: State, poll: Poll)
    requires c.Valid() && Inv(c, st)
    requires poll.Ready? ==> AckInFlight(st, poll.m)
    ensures Inv(c, SenderMoves(c, st, poll))
  {
    hide SenderStep;
    var (s, out) := SenderStep(c, st.snd, poll);
    SenderStepInv(c, st.snd, poll);
    var st' := SenderMoves(c, st, poll);
    forall d | d in out
      ensures DataInFlight(c, st', d)
    {
      assert DataOk(c, Base(st.snd), s.sequenceNum, d) || EofOk(c, s, d);
    }
    InvAfterSend(c, st, st', poll, out);
  }

  lemma DeliverableInFlight(c: Config, st: State, m: Pdu)
    requires c.Valid() && Inv(c, st) && DataInFlight(c, st, m)
    ensures Deliverable(c, st.rcv, st.snd.sequenceNum, m)
  {
  }

  /** A receiver step leaves every message in flight acceptable. */
  lemma StillInFlightAfterReceipt(c: Config, st: State, st': State)
    requires c.Valid() && st'.snd == st.snd
    requires st'.rcv.expected >= st.rcv.expected && (st.rcv.mode.Closed? ==> st'.rcv.mode.Closed?)
    ensures forall m :: DataInFlight(c, st, m) ==> DataInFlight(c, st', m)
    ensures forall m :: AckInFlight(st, m) ==> AckInFlight(st', m)
  {
  }

  lemma InvAfterReceipt(c: Config, st: State, st': State, m: Pdu, out: seq<Pdu>)
    requires c.Valid() && Inv(c, st) && DataInFlight(c, st, m)
    requires st'.snd == st.snd && st'.data == st.data && st'.acks == st.acks + out
    requires ReceiverInv(c, st'.rcv, st'.snd.sequenceNum) && Answers(st.rcv, st'.rcv, m, out)
    ensures Inv(c, st')
  {
    StillInFlightAfterReceipt(c, st, st');
    assert forall d :: d in out ==> AckInFlight(st', d);
  }

  lemma ReceiverMovesInv(c: Config, st: State, m: Pdu)
    requires c.Valid() && Inv(c, st) && DataInFlight(c, st, m)
    ensures Inv(c, ReceiverMoves(st, m))
  {
    DeliverableInFlight(c, st, m);
    ReceiverStepInv(c, st.rcv, st.snd.sequenceNum, m);
    ReceiverAnswers(c, st.rcv, st.snd.sequenceNum, m);
    InvAfterReceipt(c, st, ReceiverMoves(st, m), m, ReceiverStep(st.rcv, m).1);
  }

  /** Losing and copying messages only ever leaves messages that were in flight before. */
  lemma NetworkInv(c: Config, st: State, st': State)
    requires c.Valid() && Inv(c, st)
    requires st'.snd == st.snd && st'.rcv == st.rcv
    requires forall m :: m in st'.data ==> m in st.data
    requires forall m :: m in st'.acks ==> m in st.acks
    ensures Inv(c, st')
  {
    forall m | m in st'.data
      ensures DataInFlight(c, st', m)
    {
      assert DataInFlight(c, st, m);
    }
    forall m | m in st'.acks
      ensures AckInFlight(st', m)
    {
      assert AckInFlight(st, m);
    }
  }

  /** Taking a message off the data channel, before the receiver looks at it. */
  lemma TakeData(c: Config, st: State, i: nat) returns (taken: State)
    requires c.Valid() && Inv(c, st) && i < |st.data|
    ensures taken == st.(data := Without(st.data, i))
    ensures Inv(c, taken) && DataInFlight(c, taken, st.data[i])
  {
    taken := st.(data := Without(st.data, i));
    NetworkInv(c, st, taken);
    assert st.data[i] in st.data && DataInFlight(c, st, st.data[i]);
  }

  /** Taking a message off the ack channel, before the sender looks at it. */
  lemma TakeAck(c: Config, st: State, i: nat) returns (taken: State)
    requires c.Valid() && Inv(c, st) && i < |st.acks|
    ensures taken == st.(acks := Without(st.acks, i))
    ensures Inv(c, taken) && AckInFlight(st, st.acks[i]) && AckInFlight(taken, st.acks[i])
  {
    taken := st.(acks := Without(st.acks, i));
    NetworkInv(c, st, taken);
    assert st.acks[i] in st.acks && AckInFlight(st, st.acks[i]);
  }

  lemma NextInv(c: Config, st: State, step: Step)
    requires c.Valid() && Inv(c, st)
    ensures Inv(c, Next(c, st, step))
  {
    if Enabled(st, step) {
      match step
      case SenderTurn =>
        SenderMovesInv(c, st, Silent);
      case AckArrives(i) =>
        var taken := TakeAck(c, st, i);
        SenderMovesInv(c, taken, Ready(st.acks[i]));
      case DataArrives(i) =>
        var taken := TakeData(c, st, i);
        ReceiverMovesInv(c, taken, st.data[i]);
      case _ =>
        NetworkInv(c, st, Next(c, st, step));
    }
  }

  /** The invariant holds after every run. */
  lemma {:induction false} Reachable(c: Config, steps: seq<Step>)
    requires c.Valid() && WindowsFit(c)
    ensures Inv(c, Exec(c, steps))
  {
    if steps == [] {
      InitSenderInv(c);
      InitReceiverInv(c);
    } else {
      Reachable(c, steps[..|steps| - 1]);
      NextInv(c, Exec(c, steps[..|steps| - 1]), steps[|steps| - 1]);
    }
  }

  /** Only a delivery moves the receiver and makes it send. */
  lemma ReceiverMovesOnReceipt(c: Config, st: State, step: Step)
    requires !step.DataArrives? || !Enabled(st, step)
    ensures var st' := Next(c, st, step);
            st'.rcv == st.rcv && st'.acksSent == st.acksSent
  {
  }
}

/** Guaranteed delivery on a clean network with patient timers. */
module Delivery {
  import opened Bytes
  import opened Checksum
  import opened Pdus
  import opened Transfers
  import opened Senders
  import R = Receivers
  import opened Protocol
  import opened Lossless
  import opened Bounds
  import opened Safety

  /** Nothing that is in flight can still be received. */
  predicate NothingComing(st: State) {
    st.acks == [] && (st.data == [] || st.rcv.mode.Closed?)
  }

  /**
   A step of a clean network: arrivals in order, no loss, no duplication, and no timer that fires while a
   message is on its way.
   */
  predicate Clean(st: State, step: Step) {
    match step
    case SenderTurn => st.snd.phase.Filling? || st.snd.phase.Polling? || NothingComing(st)
    case AckArrives(i) => i == 0
    case DataArrives(i) => i == 0
    case _ => false
  }

  ghost predicate CleanRun(c: Config, steps: seq<Step>)
    requires c.Valid()
  {
    forall i :: 0 <= i < |steps| ==> Clean(Exec(c, steps[..i]), steps[i])
  }

  /** No clean step is possible. */
  ghost predicate Stuck(st: State) {
    forall step :: Enabled(st, step) ==> !Clean(st, step)
  }

  /** While data is being sent, every ack in flight is an RR, and the last of them, or else base, is up to date. */
  ghost predicate AcksCurrent(st: State) {
    && (forall m :: m in st.acks ==> Flag(m) == FLAG_RR)
    && (if st.acks == [] then Base(st.snd) == st.rcv.expected else Seq(st.acks[|st.acks| - 1]) == st.rcv.expected)
  }

  predicate IsEof(m: Pdu) {
    Flag(m) == FLAG_EOF
  }

  predicate IsEofAck(m: Pdu) {
    Flag(m) == FLAG_EOF_ACK
  }

  /** The one EOF-ACK the client can send. */
  function EofAck(c: Config): Pdu
    requires c.Valid()
  {
    Encode(c.Total() + 1, FLAG_EOF_ACK, [])
  }

  /** Whether the server's comparison accepts it. */
  predicate EofAckRecognised(c: Config)
    requires c.Valid()
  {
    CompareCheck(c.order, EofAck(c))
  }

  /**
   After the EOF: it is on its way, or the file is closed. A server that recognises the answer never repeats the
   EOF and has the answer under way or is done; one that does not stops after ten repetitions only.
   */
  ghost predicate ClosingCurrent(c: Config, st: State)
    requires c.Valid()
  {
    && (st.snd.phase.EofWait? || (st.snd.phase.Done? && st.rcv.mode.Closed?))
    && (!st.rcv.mode.Closed? ==> st.snd.eofResendCount == 0 && exists m :: m in st.data && IsEof(m))
    && (if EofAckRecognised(c)
        then st.snd.eofResendCount == 0 &&
             (st.rcv.mode.Closed? && st.snd.phase.EofWait? ==> exists m :: m in st.acks && IsEofAck(m))
        else st.snd.phase.Done? ==> st.snd.eofResendCount == MAX_EOF_RESENDS)
  }

  ghost predicate CleanInv(c: Config, st: State)
    requires c.Valid()
  {
    && QuietInv(c, st)
    && (forall m :: m in st.acks && IsEofAck(m) ==> m == EofAck(c))
    && !st.snd.phase.Crashed?
    && (if Sending(st.snd) then AcksCurrent(st) else ClosingCurrent(c, st))
  }

  lemma CleanFill(c: Config, st: State)
    requires c.Valid() && Inv(c, st) && CleanInv(c, st) && st.snd.phase.Filling?
    ensures CleanInv(c, SenderMoves(c, st, Silent))
  {
    SenderMovesQuiet(c, st, Silent);
    FillInv(c, st.snd);
    DecodeEncode(st.snd.sequenceNum, FLAG_EOF, []);
    var st' := SenderMoves(c, st, Silent);
    if st'.snd.phase.EofWait? {
      var eof := Encode(st.snd.sequenceNum, FLAG_EOF, []);
      assert eof in st'.data && IsEof(eof);
    }
  }

  lemma CleanPoll(c: Config, st: State)
    requires c.Valid() && Inv(c, st) && CleanInv(c, st) && st.snd.phase.Polling?
    ensures CleanInv(c, SenderMoves(c, st, Silent))
  {
    SenderMovesQuiet(c, st, Silent);
  }

  /** While data is being sent no timer fires: as long as one could, something is in flight. */
  lemma NoTimeouts(c: Config, st: State)
    requires c.Valid() && Inv(c, st) && CleanInv(c, st) && st.snd.phase.Waiting?
    ensures !NothingComing(st)
  {
    hide Contiguous, R.RingInv;
    assert NothingComing(st) ==> st.data == [];
  }

  /** A server that does not recognise the EOF-ACK repeats the EOF to a client that is gone. */
  lemma CleanRepeat(c: Config, st: State)
    requires c.Valid() && Inv(c, st) && CleanInv(c, st) && st.snd.phase.EofWait? && NothingComing(st)
    ensures CleanInv(c, SenderMoves(c, st, Silent))
  {
    hide Encode, Contiguous, R.RingInv;
    SenderMovesQuiet(c, st, Silent);
    assert st.rcv.mode.Closed? && !EofAckRecognised(c);
  }

  lemma CleanAckWhileSending(c: Config, st: State)
    requires c.Valid() && Inv(c, st) && CleanInv(c, st) && Enabled(st, AckArrives(0)) && Sending(st.snd)
    ensures CleanInv(c, Next(c, st, AckArrives(0)))
  {
    var taken := TakeAck(c, st, 0);
    var m := st.acks[0];
    SenderMovesQuiet(c, taken, Ready(m));
    HandleAckInv(c, st.snd, m);
    assert m in st.acks;
    assert taken.acks == st.acks[1..];
    var st' := Next(c, st, AckArrives(0));
    assert st'.acks == taken.acks;
    assert Sending(st'.snd);
    if taken.acks == [] {
      assert st.acks[|st.acks| - 1] == m;
      assert Base(st'.snd) == if Seq(m) > Base(st.snd) then Seq(m) else Base(st.snd);
    } else {
      assert taken.acks[|taken.acks| - 1] == st.acks[|st.acks| - 1];
    }
  }

  lemma CleanAckWhileClosing(c: Config, st: State)
    requires c.Valid() && Inv(c, st) && CleanInv(c, st) && Enabled(st, AckArrives(0)) && st.snd.phase.EofWait?
    ensures CleanInv(c, Next(c, st, AckArrives(0)))
  {
    hide Encode, Contiguous, R.RingInv;
    var taken := TakeAck(c, st, 0);
    var m := st.acks[0];
    SenderMovesQuiet(c, taken, Ready(m));
    assert m in st.acks && AckInFlight(st, m);
    var st' := Next(c, st, AckArrives(0));
    assert st'.acks == st.acks[1..] && st'.data == st.data;
    if EofAckRecognised(c) && st.rcv.mode.Closed? && !IsEofAck(m) {
      var d :| d in st.acks && IsEofAck(d);
      assert d in st.acks[1..];
    }
  }

  lemma CleanDelivery(c: Config, st: State)
    requires c.Valid() && Inv(c, st) && CleanInv(c, st) && Enabled(st, DataArrives(0))
    ensures CleanInv(c, Next(c, st, DataArrives(0)))
  {
    hide R.RingInv, R.ReceiverStep, Smooth, Contiguous;
    var taken := TakeData(c, st, 0);
    var m := st.data[0];
    var (r, out) := R.ReceiverStep(st.rcv, m);
    assert R.Answers(st.rcv, r, m, out) by {
      DeliverableInFlight(c, taken, m);
      R.ReceiverAnswers(c, st.rcv, st.snd.sequenceNum, m);
    }
    QuietNext(c, st, DataArrives(0));
    AnswerIsEofAck(c, taken, m);
    var st' := Next(c, st, DataArrives(0));
    assert st'.acks == st.acks + out && st'.data == st.data[1..] && st'.rcv == r && st'.snd == st.snd;
    if Sending(st.snd) {
      StillSending(c, st, m);
      AcksStayCurrent(st, st', m, out);
    } else {
      EofCloses(st.rcv, m);
      ClosingStaysCurrent(c, st, st', m, out);
    }
  }

  lemma EofCloses(r: R.Receiver, m: Pdu)
    ensures Flag(m) == FLAG_EOF ==> R.ReceiverStep(r, m).0.mode.Closed?
  {
  }

  lemma StillSending(c: Config, st: State, m: Pdu)
    requires c.Valid() && Inv(c, st) && Sending(st.snd) && m in st.data
    ensures Flag(m) != FLAG_EOF
  {
    assert DataInFlight(c, st, m);
  }

  lemma AcksStayCurrent(st: State, st': State, m: Pdu, out: seq<Pdu>)
    requires AcksCurrent(st) && R.Answers(st.rcv, st'.rcv, m, out) && Flag(m) != FLAG_EOF
    requires st'.snd == st.snd && st'.acks == st.acks + out && !st'.rcv.mode.OutOfOrder?
    ensures AcksCurrent(st')
  {
    if out == [] {
      assert st'.acks == st.acks;
    }
  }

  lemma ClosingStaysCurrent(c: Config, st: State, st': State, m: Pdu, out: seq<Pdu>)
    requires c.Valid() && ClosingCurrent(c, st) && R.Answers(st.rcv, st'.rcv, m, out) && !st.rcv.mode.Closed?
    requires st.data != [] && m == st.data[0] && st'.data == st.data[1..]
    requires st'.snd == st.snd && st'.acks == st.acks + out
    requires IsEof(m) ==> st'.rcv.mode.Closed?
    ensures ClosingCurrent(c, st')
  {
    if st'.rcv.mode.Closed? {
      assert out[0] in st'.acks && IsEofAck(out[0]);
    } else {
      var d :| d in st.data && IsEof(d);
      assert d in st.data[1..];
    }
  }

  lemma EofAckBuilt(r: R.Receiver, m: Pdu)
    ensures forall d :: d in R.ReceiverStep(r, m).1 && Flag(m) == FLAG_EOF ==> d == Encode(Seq(m), FLAG_EOF_ACK, [])
  {
  }

  lemma AnswerIsEofAck(c: Config, st: State, m: Pdu)
    requires c.Valid() && Inv(c, st) && DataInFlight(c, st, m)
    ensures forall d :: d in R.ReceiverStep(st.rcv, m).1 && IsEofAck(d) ==> d == EofAck(c)
  {
    EofAckBuilt(st.rcv, m);
    hide R.ReceiverStep, Encode, Contiguous, R.RingInv;
    DeliverableInFlight(c, st, m);
    R.ReceiverAnswers(c, st.rcv, st.snd.sequenceNum, m);
  }

  lemma {:induction false} CleanHolds(c: Config, steps: seq<Step>)
    requires c.Valid() && WindowsFit(c) && CleanRun(c, steps)
    ensures CleanInv(c, Exec(c, steps))
  {
    if steps != [] {
      var prefix, step := steps[..|steps| - 1], steps[|steps| - 1];
      var st := Exec(c, prefix);
      assert forall i :: 0 <= i < |prefix| ==> prefix[..i] == steps[..i];
      CleanHolds(c, prefix);
      Reachable(c, prefix);
      assert Clean(st, step);
      if Enabled(st, step) {
        CleanNext(c, st, step);
      }
    }
  }

  lemma CleanNext(c: Config, st: State, step: Step)
    requires c.Valid() && Inv(c, st) && CleanInv(c, st) && Enabled(st, step) && Clean(st, step)
    ensures CleanInv(c, Next(c, st, step))
  {
    match step
    case SenderTurn =>
      if st.snd.phase.Filling? {
        CleanFill(c, st);
      } else if st.snd.phase.Polling? {
        CleanPoll(c, st);
      } else if st.snd.phase.Waiting? {
        NoTimeouts(c, st);
      } else {
        CleanRepeat(c, st);
      }
    case AckArrives(i) =>
      if Sending(st.snd) { CleanAckWhileSending(c, st); } else { CleanAckWhileClosing(c, st); }
    case DataArrives(i) =>
      CleanDelivery(c, st);
  }

  /** At rest, the server is done and the file is closed. */
  lemma RestIsDone(c: Config, st: State)
    requires c.Valid() && Inv(c, st) && CleanInv(c, st) && Stuck(st)
    ensures st.snd.phase.Done? && st.rcv.mode.Closed?
    ensures st.snd.eofResendCount == if EofAckRecognised(c) then 0 else MAX_EOF_RESENDS
  {
    hide Inv, QuietInv, AcksCurrent, EofAckRecognised;
    assert !(Enabled(st, SenderTurn) && Clean(st, SenderTurn));
    assert !(Enabled(st, AckArrives(0)) && Clean(st, AckArrives(0)));
    assert !(Enabled(st, DataArrives(0)) && Clean(st, DataArrives(0)));
  }

  /** The EOF-ACK is recognised exactly on a network-order host or when its two checksum bytes are equal. */
  lemma {:induction false} EofAckRecognisedExactlyWhen(c: Config)
    requires c.Valid()
    ensures EofAckRecognised(c) <==> c.order.Big? || EofAck(c)[4] == EofAck(c)[5]
  {
    CompareCheckOnBuilt(c.order, c.Total() + 1, FLAG_EOF_ACK, []);
  }

  /**
   A clean run can only come to rest with the whole file written and the server done, and it cannot go on for more
   than 43N + 43 steps: every clean run continued as far as it goes delivers the file. The server then has sent the
   EOF once if it recognises the EOF-ACK, and eleven times otherwise.
   */
  lemma {:induction false} CleanNetworkDelivers(c: Config, steps: seq<Step>)
    requires c.Valid() && WindowsFit(c) && CleanRun(c, steps)
    ensures var st := Exec(c, steps);
            Stuck(st) ==>
              st.rcv.mode.Closed? && st.rcv.output == c.file && st.snd.phase.Done? &&
              st.snd.eofResendCount == if EofAckRecognised(c) then 0 else MAX_EOF_RESENDS
    ensures Proper(c, steps) ==> |steps| <= 43 * c.Total() + 43
  {
    CleanHolds(c, steps);
    Reachable(c, steps);
    var st := Exec(c, steps);
    if Stuck(st) {
      RestIsDone(c, st);
      ShortfallAtEof(c, steps);
    }
    if Proper(c, steps) {
      assert forall i :: 0 <= i < |steps| ==> Clean(Exec(c, steps[..i]), steps[i]) && !Duplicates(steps[i]);
      RunsAreFinite(c, steps);
    }
  }
}

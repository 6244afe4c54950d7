/**
 What holds in every run for any window sizes, whether or not the ring can tell the numbers apart: the sender's
 whole invariant, and the receiver's marks without the ring's contents.
 */
module AnyWindow {
  import opened Bytes
  import opened Pdus
  import opened Transfers
  import opened Senders
  import opened Receivers
  import opened Protocol

  /** The receiver's marks against the sender's next sequence number. */
  ghost predicate Marks(r: Receiver, next: u32) {
    && 1 <= r.expected <= next && r.highest < next && r.expected <= r.highest + 1
    && match r.mode
       case InOrder => r.expected == r.highest + 1
       case OutOfOrder => r.expected <= r.highest
       case Flush => true
       case Closed => true
  }

  lemma {:induction false} FlushLoopMarks(r: Receiver)
    requires r.expected <= r.highest + 1 && r.highest < 0xFFFF_FFFF
    ensures r.expected <= FlushLoop(r).expected <= r.highest + 1
    decreases InUse(r.ring)
  {
    if Flushable(r) {
      InUseFreed(r.ring, IndexOf(r, r.expected));
      FlushLoopMarks(FlushOne(r));
    }
  }

  /** What a step can answer: an RR of the new expected number, an SREJ of it if at most highest, or the EOF-ACK. */
  ghost predicate PlainAnswer(r': Receiver, m: Pdu, d: Pdu) {
    && Payload(d) == []
    && (if Flag(d) == FLAG_RR then Seq(d) == r'.expected
        else if Flag(d) == FLAG_SREJ then Seq(d) == r'.expected <= r'.highest
        else Flag(d) == FLAG_EOF_ACK && Flag(m) == FLAG_EOF && Seq(d) == Seq(m) && r'.mode.Closed?)
  }

  lemma StepMarks(r: Receiver, next: u32, m: Pdu)
    requires Marks(r, next) && (IsData(m) ==> 1 <= Seq(m) < next)
    ensures var (r', out) := ReceiverStep(r, m);
            Marks(r', next) && r.expected <= r'.expected && (r.mode.Closed? ==> r'.mode.Closed?) &&
            (r'.mode.Closed? ==> r.mode.Closed? || Flag(m) == FLAG_EOF) &&
            forall d :: d in out ==> PlainAnswer(r', m, d)
  {
    var (r', out) := ReceiverStep(r, m);
    FlushLoopMarks(r);
    DecodeEncode(r'.expected, FLAG_RR, []);
    DecodeEncode(r'.expected, FLAG_SREJ, []);
    DecodeEncode(Seq(m), FLAG_EOF_ACK, []);
    hide Encode;
  }

  /** A data PDU of a number already sent, or the EOF. */
  ghost predicate PlainData(c: Config, s: Sender, m: Pdu)
    requires c.Valid()
  {
    (IsData(m) && 1 <= Seq(m) < s.sequenceNum) || EofOk(c, s, m)
  }

  ghost predicate WeakInv(c: Config, st: State)
    requires c.Valid()
  {
    && SenderInv(c, st.snd)
    && Marks(st.rcv, st.snd.sequenceNum)
    && Base(st.snd) <= st.rcv.expected
    && (st.rcv.mode.Closed? ==> st.snd.eofSeq != 0)
    && (forall m :: m in st.data ==> PlainData(c, st.snd, m))
    && (forall m :: m in st.acks ==> AckInFlight(st, m))
  }

  lemma SendKeepsWeak(c: Config, st: State, st': State, poll: Poll, out: seq<Pdu>)
    requires c.Valid() && WeakInv(c, st) && (poll.Ready? ==> AckInFlight(st, poll.m))
    requires st'.rcv == st.rcv && st'.data == st.data + out && forall m :: m in st'.acks ==> m in st.acks
    requires SenderInv(c, st'.snd) && st.snd.sequenceNum <= st'.snd.sequenceNum
    requires st.snd.eofSeq != 0 ==> st'.snd.eofSeq == st.snd.eofSeq
    requires Base(st'.snd) == Base(st.snd) ||
             (poll.Ready? && Flag(poll.m) == FLAG_RR && Base(st'.snd) == Seq(poll.m))
    requires forall d :: d in out ==> PlainData(c, st'.snd, d)
    ensures WeakInv(c, st')
  {
    hide SenderInv;
    forall m | m in st'.acks
      ensures AckInFlight(st', m)
    {
      assert AckInFlight(st, m);
    }
    forall m | m in st.data
      ensures PlainData(c, st'.snd, m)
    {
      assert PlainData(c, st.snd, m);
    }
  }

  lemma SenderMovesWeak(c: Config, st: State, poll: Poll, acks: seq<Pdu>)
    requires c.Valid() && WeakInv(c, st)
    requires poll.Ready? ==> AckInFlight(st, poll.m)
    requires forall m :: m in acks ==> m in st.acks
    ensures WeakInv(c, SenderMoves(c, st.(acks := acks), poll))
  {
    hide SenderStep;
    var (s, out) := SenderStep(c, st.snd, poll);
    SenderStepInv(c, st.snd, poll);
    forall d | d in out
      ensures PlainData(c, s, d)
    {
      assert DataOk(c, Base(st.snd), s.sequenceNum, d) || EofOk(c, s, d);
    }
    SendKeepsWeak(c, st, SenderMoves(c, st.(acks := acks), poll), poll, out);
  }

  lemma ReceiptKeepsWeak(c: Config, st: State, i: nat)
    requires c.Valid() && WeakInv(c, st) && i < |st.data|
    ensures WeakInv(c, ReceiverMoves(st.(data := Without(st.data, i)), st.data[i]))
  {
    hide SenderInv, ReceiverStep;
    var m := st.data[i];
    var (r, out) := ReceiverStep(st.rcv, m);
    assert m in st.data && PlainData(c, st.snd, m);
    StepMarks(st.rcv, st.snd.sequenceNum, m);
    var st' := ReceiverMoves(st.(data := Without(st.data, i)), m);
    assert st'.acks == st.acks + out;
    forall d | d in st'.acks
      ensures AckInFlight(st', d)
    {
      if d in st.acks {
        assert AckInFlight(st, d);
      } else {
        assert PlainAnswer(r, m, d);
      }
    }
  }

  lemma NextWeak(c: Config, st: State, step: Step)
    requires c.Valid() && WeakInv(c, st)
    ensures WeakInv(c, Next(c, st, step))
  {
    hide SenderInv, SenderStep, ReceiverStep, Marks;
    if Enabled(st, step) {
      match step
      case SenderTurn =>
        SenderMovesWeak(c, st, Silent, st.acks);
      case AckArrives(i) =>
        assert st.acks[i] in st.acks && AckInFlight(st, st.acks[i]);
        SenderMovesWeak(c, st, Ready(st.acks[i]), Without(st.acks, i));
      case DataArrives(i) =>
        ReceiptKeepsWeak(c, st, i);
      case _ =>
        var st' := Next(c, st, step);
        forall m | m in st'.acks
          ensures AckInFlight(st', m)
        {
          assert AckInFlight(st, m);
        }
    }
  }

  /** The weak invariant holds after every run, for any window sizes. */
  lemma {:induction false} WeaklyReachable(c: Config, steps: seq<Step>)
    requires c.Valid()
    ensures WeakInv(c, Exec(c, steps))
  {
    hide Next;
    if steps == [] {
      InitSenderInv(c);
    } else {
      WeaklyReachable(c, steps[..|steps| - 1]);
      NextWeak(c, Exec(c, steps[..|steps| - 1]), steps[|steps| - 1]);
    }
  }
}

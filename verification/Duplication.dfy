/** What duplicated acks do to the server's transmissions: a bound on them exists only for files of one chunk. */
module Duplication {
  import opened Bytes
  import opened Pdus
  import opened Transfers
  import opened Windows
  import opened Senders
  import R = Receivers
  import opened Protocol
  import opened AnyWindow
  import opened Limits
  import opened Failures
  import opened Bounds
  import opened Wire

  // ---------------------------------------------------------------- replies without end

  /** Chunk 1 is unacknowledged, and an SREJ of it is the only ack in flight. */
  ghost predicate Rejected(c: Config, st: State)
    requires c.Valid()
  {
    WeakInv(c, st) && st.snd.phase.Polling? && Base(st.snd) == 1 < st.snd.sequenceNum && st.acks == [SREJ_1]
  }

  /** A copy of the SREJ is answered, and the SREJ is still there. */
  lemma AnswerACopy(c: Config, st: State)
    requires c.Valid() && Rejected(c, st)
    ensures var st' := Next(c, Next(c, st, DuplicateAck(0)), AckArrives(0));
            Rejected(c, st') && Count(st'.dataSent, 17) == Count(st.dataSent, 17) + 1
  {
    DecodeEncode(1, FLAG_SREJ, []);
    NumberIsSeq(SREJ_1);
    hide Encode, SenderStep, Contiguous, Count;
    NextWeak(c, st, DuplicateAck(0));
    var copied := Next(c, st, DuplicateAck(0));
    NextWeak(c, copied, AckArrives(0));
    FirstIsLive(c, st.snd);
    AnyMessageHandled(c, st.snd, SREJ_1);
    ServerSpeaks(c, st.snd, Ready(SREJ_1));
    assert copied.acks[0] == SREJ_1 && Without(copied.acks, 0) == [SREJ_1];
    CountSnoc(st.dataSent, SenderStep(c, st.snd, Ready(SREJ_1)).1, 17);
  }

  lemma FirstIsLive(c: Config, s: Sender)
    requires c.Valid() && SenderInv(c, s) && Base(s) == 1 < s.sequenceNum
    ensures Slot(s.window, 1).valid
  {
  }

  lemma {:induction false} AnswerCopies(c: Config, steps: seq<Step>, b: nat) returns (more: seq<Step>)
    requires c.Valid() && Rejected(c, Exec(c, steps))
    ensures Rejected(c, Exec(c, steps + more)) && Count(Exec(c, steps + more).dataSent, 17) >= b
  {
    hide Next, Rejected, Count;
    if b == 0 {
      more := [];
      assert steps + more == steps;
    } else {
      var before := AnswerCopies(c, steps, b - 1);
      AnswerACopy(c, Exec(c, steps + before));
      ExecSnoc(c, steps + before, DuplicateAck(0));
      ExecSnoc(c, steps + before + [DuplicateAck(0)], AckArrives(0));
      more := before + [DuplicateAck(0)] + [AckArrives(0)];
      assert steps + more == steps + before + [DuplicateAck(0)] + [AckArrives(0)];
    }
  }

  /** With two chunks under way the second arrives first. */
  lemma SecondOvertakes(c: Config, st: State)
    requires c.Valid() && c.Total() >= 2 && TwoSent(c, st)
    ensures Rejected(c, Next(c, st, DataArrives(1)))
  {
    DecodeEncode(2, FLAG_DATA, c.Chunk(2));
    hide Encode, Contiguous;
    NextWeak(c, st, DataArrives(1));
  }

  /** For Ws >= 2 and at least two chunks, no bound on the SREJ replies (17) holds once acks can be duplicated. */
  lemma {:induction false} RepliesUnbounded(c: Config, b: nat) returns (steps: seq<Step>)
    requires c.Valid() && c.sendWindow >= 2 && c.Total() >= 2
    ensures Count(Exec(c, steps).dataSent, 17) >= b
  {
    hide Next, TwoSent, Rejected;
    SendTwo(c);
    var run := [SenderTurn, SenderTurn, SenderTurn];
    SecondOvertakes(c, Exec(c, run));
    ExecSnoc(c, run, DataArrives(1));
    var more := AnswerCopies(c, run + [DataArrives(1)], b);
    steps := run + [DataArrives(1)] + more;
  }

  // ---------------------------------------------------------------- timeouts without end

  /** The server waits with a full window, no timeout counted, and the RR it has already acted on is in flight. */
  ghost predicate Rewound(c: Config, st: State)
    requires c.Valid()
  {
    WeakInv(c, st) && st.snd.phase.Waiting? && st.snd.timeoutCount == 0 && Base(st.snd) == 2 && st.acks == [RR_2]
  }

  /** A timeout is counted and resent for, and a copy of the old RR makes the server forget it. */
  lemma RewindTimeout(c: Config, st: State)
    requires c.Valid() && Rewound(c, st)
    ensures var st' := Next(c, Next(c, Next(c, st, SenderTurn), DuplicateAck(0)), AckArrives(0));
            Rewound(c, st') && Count(st'.dataSent, 18) == Count(st.dataSent, 18) + 1
  {
    hide Encode, Next, WeakInv, Count;
    TimeoutTurn(c, st);
    OldRrRewinds(c, Next(c, st, SenderTurn));
  }

  lemma OldRrRewinds(c: Config, st: State)
    requires c.Valid() && WeakInv(c, st) && st.snd.phase.Waiting? && Base(st.snd) == 2 && st.acks == [RR_2]
    ensures var st' := Next(c, Next(c, st, DuplicateAck(0)), AckArrives(0));
            Rewound(c, st') && st'.dataSent == st.dataSent
  {
    OldRrHandled(c, st.snd);
    hide Encode, SenderStep, WeakInv;
    NextWeak(c, st, DuplicateAck(0));
    var copied := Next(c, st, DuplicateAck(0));
    NextWeak(c, copied, AckArrives(0));
    assert copied.acks[0] == RR_2 && Without(copied.acks, 0) == [RR_2];
    assert copied.dataSent + [] == st.dataSent;
  }

  lemma OldRrHandled(c: Config, s: Sender)
    requires c.Valid() && SenderInv(c, s) && s.phase.Waiting? && Base(s) == 2
    ensures var (s', out) := SenderStep(c, s, Ready(RR_2));
            s'.phase.Waiting? && s'.timeoutCount == 0 && Base(s') == 2 && out == []
  {
    DecodeEncode(2, FLAG_RR, []);
    hide Encode, SenderStep, Contiguous;
    AnyMessageHandled(c, s, RR_2);
    ResetByMessage(c, s, RR_2);
  }

  lemma TimeoutTurn(c: Config, st: State)
    requires c.Valid() && WeakInv(c, st) && st.snd.phase.Waiting? && st.snd.timeoutCount == 0
    ensures var st' := Next(c, st, SenderTurn);
            WeakInv(c, st') && st'.snd.phase.Waiting? && Base(st'.snd) == Base(st.snd) &&
            st'.acks == st.acks && Count(st'.dataSent, 18) == Count(st.dataSent, 18) + 1
  {
    hide Encode, Contiguous, Count, Resend;
    NextWeak(c, st, SenderTurn);
    var k := TimeoutResends(c, st.snd);
    ServerSpeaks(c, st.snd, Silent);
    CountSnoc(st.dataSent, SenderStep(c, st.snd, Silent).1, 18);
  }

  lemma {:induction false} RewindTimeouts(c: Config, steps: seq<Step>, b: nat) returns (more: seq<Step>)
    requires c.Valid() && Rewound(c, Exec(c, steps))
    ensures Rewound(c, Exec(c, steps + more)) && Count(Exec(c, steps + more).dataSent, 18) >= b
  {
    hide Next, Rewound, Count;
    if b == 0 {
      more := [];
      assert steps + more == steps;
    } else {
      var before := RewindTimeouts(c, steps, b - 1);
      var run := steps + before;
      RewindTimeout(c, Exec(c, run));
      ExecSnoc(c, run, SenderTurn);
      ExecSnoc(c, run + [SenderTurn], DuplicateAck(0));
      ExecSnoc(c, run + [SenderTurn] + [DuplicateAck(0)], AckArrives(0));
      more := before + [SenderTurn] + [DuplicateAck(0)] + [AckArrives(0)];
      assert steps + more == run + [SenderTurn] + [DuplicateAck(0)] + [AckArrives(0)];
    }
  }

  /** The first round with a copy of its RR left over. */
  lemma RoundWithCopy(c: Config, st: State)
    requires c.Valid() && c.Total() >= 1 && InStep(c, st, 0, [])
    ensures var written := Next(c, Next(c, st, SenderTurn), DataArrives(0));
            var acked := Next(c, Next(c, written, DuplicateAck(0)), AckArrives(1));
            InStep(c, Next(c, acked, SenderTurn), 1, [RR_2])
  {
    DecodeEncode(1, FLAG_DATA, c.Chunk(1));
    RoundSent(c, st, 0, []);
    var sent := Next(c, st, SenderTurn);
    hide Encode, Next, WeakInv;
    RoundWritten(c, sent);
    c.PrefixGrows(0);
    CopyAndAck(c, Next(c, sent, DataArrives(0)));
  }

  lemma CopyAndAck(c: Config, st: State)
    requires c.Valid() && WeakInv(c, st) && st.snd.phase.Polling? && st.snd.sequenceNum == 2 && st.data == []
    requires st.acks == [RR_2] && st.rcv.mode.InOrder? && st.rcv.expected == 2 && st.rcv.output == c.Prefix(1)
    ensures InStep(c, Next(c, Next(c, Next(c, st, DuplicateAck(0)), AckArrives(1)), SenderTurn), 1, [RR_2])
  {
    var copied := Next(c, st, DuplicateAck(0));
    NextWeak(c, st, DuplicateAck(0));
    assert copied.acks == [RR_2] + [RR_2];
    hide Encode, Next;
    RoundAcked(c, copied, [RR_2]);
    hide WeakInv;
    PollEnds(c, Next(c, copied, AckArrives(1)));
  }

  /** With Ws = 1 the second chunk then fills the window. */
  lemma SecondFillsWindow(c: Config, st: State)
    requires c.Valid() && c.sendWindow == 1 && c.Total() >= 2 && InStep(c, st, 1, [RR_2])
    ensures Rewound(c, Next(c, Next(c, st, SenderTurn), SenderTurn))
  {
    hide Encode;
    RoundSent(c, st, 1, [RR_2]);
    NextWeak(c, Next(c, st, SenderTurn), SenderTurn);
  }

  /** For Ws = 1 and at least two chunks, no bound on the timeout resends (18) holds once acks can be duplicated. */
  lemma {:induction false} ResendsUnbounded(c: Config, b: nat) returns (steps: seq<Step>)
    requires c.Valid() && c.sendWindow == 1 && c.Total() >= 2
    ensures Count(Exec(c, steps).dataSent, 18) >= b
  {
    hide Next, InStep, Rewound;
    StartsInStep(c);
    RoundWithCopy(c, Exec(c, []));
    var s1 := [] + [SenderTurn];
    var s2 := s1 + [DataArrives(0)];
    var s3 := s2 + [DuplicateAck(0)];
    var s4 := s3 + [AckArrives(1)];
    var s5 := s4 + [SenderTurn];
    var s6 := s5 + [SenderTurn];
    ExecSnoc(c, [], SenderTurn);
    ExecSnoc(c, s1, DataArrives(0));
    ExecSnoc(c, s2, DuplicateAck(0));
    ExecSnoc(c, s3, AckArrives(1));
    ExecSnoc(c, s4, SenderTurn);
    SecondFillsWindow(c, Exec(c, s5));
    ExecSnoc(c, s5, SenderTurn);
    ExecSnoc(c, s6, SenderTurn);
    var more := RewindTimeouts(c, s6 + [SenderTurn], b);
    steps := s6 + [SenderTurn] + more;
  }

  // ---------------------------------------------------------------- files of one chunk

  /** How many messages the server may have sent of a file of at most one chunk. */
  function Spent(s: Sender): nat {
    match s.phase
    case EofWait => 12 + s.eofResendCount
    case Done => 22
    case Crashed => 22
    case _ => if s.sequenceNum == 1 then 0 else if Base(s) == 1 then 1 + s.timeoutCount else 11
  }

  ghost predicate ShortInv(c: Config, st: State)
    requires c.Valid()
  {
    && (st.rcv.mode.InOrder? || st.rcv.mode.Closed?)
    && (forall m :: m in st.acks ==> if Flag(m) == FLAG_RR then Seq(m) >= 2 else Flag(m) != FLAG_SREJ)
    && |st.dataSent| <= Spent(st.snd)
  }

  lemma ShortSilence(c: Config, s: Sender)
    requires c.Valid() && SenderInv(c, s) && Active(s) && c.Total() <= 1
    ensures var (s', out) := SenderStep(c, s, Silent);
            Spent(s) + |out| <= Spent(s')
  {
    hide Encode;
    match s.phase
    case Filling => FillInv(c, s);
    case Waiting => TimeoutInv(c, s);
    case _ =>
  }

  lemma ShortAck(c: Config, s: Sender, m: Pdu)
    requires c.Valid() && SenderInv(c, s) && Active(s) && !s.phase.Filling? && c.Total() <= 1
    requires s.phase.EofWait? || (Flag(m) == FLAG_RR && Seq(m) >= 2)
    ensures var (s', out) := SenderStep(c, s, Ready(m));
            Spent(s) + |out| <= Spent(s')
  {
    hide Encode;
    if s.phase.EofWait? {
      EofWaitRule(c, s, m);
    } else {
      AnyMessageHandled(c, s, m);
    }
  }

  lemma ShortAnswer(c: Config, st: State, m: Pdu)
    requires c.Valid() && WeakInv(c, st) && m in st.data && c.Total() <= 1
    requires st.rcv.mode.InOrder? || st.rcv.mode.Closed?
    ensures var (r, out) := R.ReceiverStep(st.rcv, m);
            (r.mode.InOrder? || r.mode.Closed?) &&
            forall d :: d in out ==> if Flag(d) == FLAG_RR then Seq(d) >= 2 else Flag(d) != FLAG_SREJ
  {
    assert PlainData(c, st.snd, m);
    DecodeEncode(Succ(st.rcv.expected), FLAG_RR, []);
    DecodeEncode(Seq(m), FLAG_EOF_ACK, []);
    hide Encode;
  }

  lemma ShortNext(c: Config, st: State, step: Step)
    requires c.Valid() && WeakInv(c, st) && ShortInv(c, st) && c.Total() <= 1
    ensures ShortInv(c, Next(c, st, step))
  {
    hide Encode, R.ReceiverStep, SenderStep, SenderInv, Spent;
    if Enabled(st, step) {
      match step
      case SenderTurn =>
        ShortSilence(c, st.snd);
      case AckArrives(i) =>
        assert st.acks[i] in st.acks && AckInFlight(st, st.acks[i]);
        EofAckWhileWaiting(c, st.snd);
        ShortAck(c, st.snd, st.acks[i]);
      case DataArrives(i) =>
        ShortAnswer(c, st, st.data[i]);
      case _ =>
    }
  }

  lemma EofAckWhileWaiting(c: Config, s: Sender)
    requires c.Valid() && SenderInv(c, s) && Active(s)
    ensures s.eofSeq != 0 ==> s.phase.EofWait?
  {
  }

  lemma {:induction false} ShortHolds(c: Config, steps: seq<Step>)
    requires c.Valid() && c.Total() <= 1
    ensures ShortInv(c, Exec(c, steps))
  {
    hide Next;
    if steps != [] {
      ShortHolds(c, steps[..|steps| - 1]);
      WeaklyReachable(c, steps[..|steps| - 1]);
      ShortNext(c, Exec(c, steps[..|steps| - 1]), steps[|steps| - 1]);
    }
  }

  /** The server sends at most b messages in any run. */
  ghost predicate SendsAtMost(c: Config, b: nat)
    requires c.Valid()
  {
    forall steps :: |Exec(c, steps).dataSent| <= b
  }

  /**
   When acks can be duplicated, some bound on the server's transmissions holds if and only if the file has at most
   one chunk, and then 22 is one.
   */
  lemma {:induction false} BoundedExactlyWhen(c: Config)
    requires c.Valid()
    ensures (exists b :: SendsAtMost(c, b)) <==> c.Total() <= 1
    ensures c.Total() <= 1 ==> SendsAtMost(c, 22)
  {
    hide Exec;
    if c.Total() <= 1 {
      forall steps
        ensures |Exec(c, steps).dataSent| <= 22
      {
        ShortHolds(c, steps);
        WeaklyReachable(c, steps);
        SpentAtMost(c, Exec(c, steps).snd);
      }
      assert SendsAtMost(c, 22);
    } else {
      forall b: nat
        ensures !SendsAtMost(c, b)
      {
        SendsMore(c, b);
      }
    }
  }

  lemma SpentAtMost(c: Config, s: Sender)
    requires c.Valid() && SenderInv(c, s)
    ensures Spent(s) <= 22
  {
  }

  lemma SendsMore(c: Config, b: nat)
    requires c.Valid() && c.Total() >= 2
    ensures !SendsAtMost(c, b)
  {
    hide Exec;
    var steps, code: byte;
    if c.sendWindow >= 2 {
      steps := RepliesUnbounded(c, b + 1);
      code := 17;
    } else {
      steps := ResendsUnbounded(c, b + 1);
      code := 18;
    }
    CountAtMostLength(Exec(c, steps).dataSent, code);
  }

  lemma {:induction false} CountAtMostLength(s: seq<Pdu>, flag: byte)
    ensures Count(s, flag) <= |s|
  {
    if s != [] {
      CountAtMostLength(s[1..], flag);
    }
  }
}

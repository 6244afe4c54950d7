/**
 What travels between the programs, in bytes: the number in the first four, most significant first, and the code
 in the seventh.
 */
module Wire {
  import opened Bytes
  import opened Checksum
  import opened Pdus
  import opened Transfers
  import opened Windows
  import opened Senders
  import R = Receivers
  import opened Protocol
  import opened AnyWindow
  import opened Limits
  import opened Handshake

  /** The number a PDU carries, as a big-endian integer. */
  function Number(m: Pdu): u32 {
    m[0] as int * 0x100_0000 + m[1] as int * 0x1_0000 + m[2] as int * 0x100 + m[3]
  }

  predicate PassesChecksum(m: Pdu) {
    InCksum(Big, m) == 0 && InCksum(Little, m) == 0
  }

  /** Both programs read the number their peer wrote. */
  lemma NumberIsSeq(m: Pdu)
    ensures Seq(m) == Number(m)
  {
    assert m[..4][0] == m[0] && m[..4][1] == m[1] && m[..4][2] == m[2] && m[..4][3] == m[3];
  }

  lemma BuiltIsSound(seqNum: u32, flag: byte, payload: seq<byte>)
    ensures var m := Encode(seqNum, flag, payload);
            Number(m) == seqNum && m[6] == flag && m[7..] == payload && PassesChecksum(m)
  {
    EncodeInBytes(seqNum, flag, payload);
  }

  // ---------------------------------------------------------------- one step

  predicate Sends(out: seq<Pdu>, code: byte) {
    |out| == 1 && out[0][6] == code
  }

  /** What a message of the server with a given code carries, when sent in state `s` on `poll`. */
  ghost predicate ServerMeans(c: Config, s: Sender, poll: Poll, d: Pdu)
    requires c.Valid()
  {
    match d[6]
    case 16 => Number(d) == s.sequenceNum && 1 <= Number(d) <= c.Total() && d[7..] == c.Chunk(s.sequenceNum)
    case 10 => Number(d) == c.Total() + 1 && d[7..] == []
    case 17 => poll.Ready? && Number(d) == Number(poll.m) &&
               var j := Slot(s.window, Number(poll.m)).sequenceNum;
               1 <= j && Base(s) <= j < s.sequenceNum && d[7..] == c.Chunk(j)
    case 18 => 1 <= Number(d) && Base(s) <= Number(d) < s.sequenceNum && d[7..] == c.Chunk(Number(d))
    case _ => false
  }

  /**
   When the server sends which code, on any message at all: 16 for the next chunk, 10 when no chunk is left and on
   silence after that, 17 for a 6 whose slot is in use, 18 on silence with a full window.
   */
  lemma {:induction false} ServerSpeaks(c: Config, s: Sender, poll: Poll)
    requires c.Valid() && SenderInv(c, s)
    ensures var out := SenderStep(c, s, poll).1;
            |out| <= 1 && forall d :: d in out ==> ServerMeans(c, s, poll, d) && PassesChecksum(d)
    ensures Sends(SenderStep(c, s, poll).1, 16) <==> s.phase.Filling? && s.sequenceNum <= c.Total()
    ensures Sends(SenderStep(c, s, poll).1, 10) <==>
            (s.phase.Filling? && s.sequenceNum == c.Total() + 1) ||
            (s.phase.EofWait? && poll.Silent? && s.eofResendCount < 10)
    ensures Sends(SenderStep(c, s, poll).1, 17) <==>
            (s.phase.Polling? || s.phase.Waiting?) &&
            poll.Ready? && poll.m[6] == 6 && Slot(s.window, Number(poll.m)).valid
    ensures Sends(SenderStep(c, s, poll).1, 18) <==> s.phase.Waiting? && poll.Silent?
  {
    match s.phase
    case Filling =>
      FillInv(c, s);
      BuiltIsSound(s.sequenceNum, FLAG_EOF, []);
      if s.sequenceNum <= c.Total() {
        BuiltIsSound(s.sequenceNum, FLAG_DATA, c.Chunk(s.sequenceNum));
      }
    case EofWait =>
      BuiltIsSound(s.eofSeq, FLAG_EOF, []);
    case Waiting =>
      if poll.Silent? {
        var k := TimeoutResends(c, s);
        BuiltIsSound(k, FLAG_TIMEOUT_RESEND, c.Chunk(k));
      } else {
        ReplySpeaks(c, s, poll.m);
      }
    case Polling =>
      if poll.Ready? {
        ReplySpeaks(c, s, poll.m);
      }
    case _ =>
  }

  lemma ReplySpeaks(c: Config, s: Sender, m: Pdu)
    requires c.Valid() && SenderInv(c, s)
    ensures var out := HandleAck(s.window, m).1;
            |out| <= 1 &&
            (Sends(out, 17) <==> m[6] == 6 && Slot(s.window, Number(m)).valid) &&
            forall d :: d in out ==> d[6] == 17 && ServerMeans(c, s, Ready(m), d) && PassesChecksum(d)
  {
    NumberIsSeq(m);
    AckEffects(c, s.window, Base(s), s.sequenceNum, m);
    var e := Slot(s.window, Seq(m));
    if m[6] == 6 && e.valid {
      BuiltIsSound(Seq(m), FLAG_SREJ_REPLY, c.Chunk(e.sequenceNum));
    }
  }

  /** A bare header with the code of an RR, an SREJ or an EOF-ACK. */
  predicate AckMeans(d: Pdu) {
    |d| == 7 && PassesChecksum(d) && (d[6] == 5 || d[6] == 6 || d[6] == 35)
  }

  /**
   When the client sends which code: 5 exactly when the expected number has advanced and nothing known is missing,
   6 exactly when it starts missing one, each with the expected number; 35 exactly on a 10, with its number. Codes
   other than 10, 16, 17 and 18 it ignores.
   */
  lemma {:induction false} ClientSpeaks(c: Config, r: R.Receiver, next: u32, m: Pdu)
    requires c.Valid() && R.ReceiverInv(c, r, next) && R.Deliverable(c, r, next, m) && !r.mode.Closed?
    ensures var (r', out) := R.ReceiverStep(r, m);
            |out| <= 1 && forall d :: d in out ==>
              AckMeans(d) && Number(d) == if d[6] == 35 then Number(m) else r'.expected
    ensures var (r', out) := R.ReceiverStep(r, m);
            (Sends(out, 5) <==> r'.expected > r.expected && (r'.mode.InOrder? || r'.mode.Flush?)) &&
            (Sends(out, 6) <==> r'.mode.OutOfOrder? && !r.mode.OutOfOrder?) &&
            (Sends(out, 35) <==> m[6] == 10)
    ensures m[6] != 10 && m[6] != 16 && m[6] != 17 && m[6] != 18 ==> R.ReceiverStep(r, m) == (r, [])
  {
    R.ReceiverAnswers(c, r, next, m);
    AnswersAreBuilt(r, m);
    NumberIsSeq(m);
    hide Encode, R.RingInv;
    var (r', out) := R.ReceiverStep(r, m);
    if out != [] {
      NumberIsSeq(out[0]);
    }
  }

  lemma AnswersAreBuilt(r: R.Receiver, m: Pdu)
    ensures |R.ReceiverStep(r, m).1| <= 1 && forall d :: d in R.ReceiverStep(r, m).1 ==> AckMeans(d)
  {
    hide Encode;
    var r' := R.ReceiverStep(r, m).0;
    BuiltIsSound(r'.expected, FLAG_RR, []);
    BuiltIsSound(r'.expected, FLAG_SREJ, []);
    BuiltIsSound(Seq(m), FLAG_EOF_ACK, []);
  }

  // ---------------------------------------------------------------- whole runs

  /** The code of the message by which a log has grown, if it has. */
  predicate Logs(before: seq<Pdu>, after: seq<Pdu>, code: byte) {
    |after| == |before| + 1 && after[|before|][6] == code
  }

  /** For any window sizes, after every run: which step makes the server send which code. */
  lemma {:induction false} ServerCodes(c: Config, steps: seq<Step>, step: Step)
    requires c.Valid()
    ensures var st, st' := Exec(c, steps), Exec(c, steps + [step]);
            st.dataSent <= st'.dataSent && |st'.dataSent| <= |st.dataSent| + 1
    ensures var st, st' := Exec(c, steps), Exec(c, steps + [step]);
            (Logs(st.dataSent, st'.dataSent, 16) <==>
               step.SenderTurn? && st.snd.phase.Filling? && st.snd.sequenceNum <= c.Total()) &&
            (Logs(st.dataSent, st'.dataSent, 10) <==>
               step.SenderTurn? && ((st.snd.phase.Filling? && st.snd.sequenceNum == c.Total() + 1) ||
                                    (st.snd.phase.EofWait? && st.snd.eofResendCount < 10))) &&
            (Logs(st.dataSent, st'.dataSent, 17) <==>
               step.AckArrives? && step.i < |st.acks| && (st.snd.phase.Polling? || st.snd.phase.Waiting?) &&
               st.acks[step.i][6] == 6 && Slot(st.snd.window, Number(st.acks[step.i])).valid) &&
            (Logs(st.dataSent, st'.dataSent, 18) <==> step.SenderTurn? && st.snd.phase.Waiting?)
  {
    hide Next, SenderStep, SenderInv, WeakInv;
    var st := Exec(c, steps);
    ExecSnoc(c, steps, step);
    SenderInvariant(c, steps);
    ServerSpeaks(c, st.snd, if step.AckArrives? && Enabled(st, step) then Ready(st.acks[step.i]) else Silent);
    NextSends(c, st, step);
  }

  lemma SenderInvariant(c: Config, steps: seq<Step>)
    requires c.Valid()
    ensures SenderInv(c, Exec(c, steps).snd)
    ensures forall m :: m in Exec(c, steps).acks ==> AckInFlight(Exec(c, steps), m)
  {
    WeaklyReachable(c, steps);
  }

  lemma NextSends(c: Config, st: State, step: Step)
    ensures var poll := if step.AckArrives? && Enabled(st, step) then Ready(st.acks[step.i]) else Silent;
            Next(c, st, step).dataSent ==
            st.dataSent + if Enabled(st, step) && (step.SenderTurn? || step.AckArrives?)
                          then SenderStep(c, st.snd, poll).1 else []
    ensures !step.DataArrives? || !Enabled(st, step) ==>
              Next(c, st, step).acksSent == st.acksSent && Next(c, st, step).rcv == st.rcv
    ensures step.DataArrives? && Enabled(st, step) ==>
              Next(c, st, step).acksSent == st.acksSent + R.ReceiverStep(st.rcv, st.data[step.i]).1 &&
              Next(c, st, step).rcv == R.ReceiverStep(st.rcv, st.data[step.i]).0
  {
    hide SenderStep, R.ReceiverStep;
  }

  /** With Ws <= Wr + 1, after every run: which step makes the client send which code. */
  lemma {:induction false} ClientCodes(c: Config, steps: seq<Step>, step: Step)
    requires c.Valid() && WindowsFit(c)
    ensures var st, st' := Exec(c, steps), Exec(c, steps + [step]);
            st.acksSent <= st'.acksSent && |st'.acksSent| <= |st.acksSent| + 1 &&
            (Logs(st.acksSent, st'.acksSent, 5) <==>
               st'.rcv.expected > st.rcv.expected && (st'.rcv.mode.InOrder? || st'.rcv.mode.Flush?)) &&
            (Logs(st.acksSent, st'.acksSent, 6) <==> st'.rcv.mode.OutOfOrder? && !st.rcv.mode.OutOfOrder?) &&
            (Logs(st.acksSent, st'.acksSent, 35) <==>
               step.DataArrives? && step.i < |st.data| && !st.rcv.mode.Closed? && st.data[step.i][6] == 10)
  {
    hide Next, R.ReceiverStep, R.ReceiverInv, SenderInv;
    var st := Exec(c, steps);
    ExecSnoc(c, steps, step);
    Reachable(c, steps);
    NextSends(c, st, step);
    if step.DataArrives? && Enabled(st, step) {
      var m := st.data[step.i];
      assert m in st.data && DataInFlight(c, st, m);
      DeliverableInFlight(c, st, m);
      ClientSpeaks(c, st.rcv, st.snd.sequenceNum, m);
    }
  }

  /** The messages of a list with a given code, in order. */
  function OfCode(s: seq<Pdu>, code: byte): seq<Pdu> {
    if s == [] then []
    else OfCode(s[..|s| - 1], code) + if s[|s| - 1][6] == code then [s[|s| - 1]] else []
  }

  /** Only SREJ replies can be mislabelled, and then with a chunk of the same slot. */
  ghost predicate DataMeans(c: Config, m: Pdu)
    requires c.Valid()
  {
    && PassesChecksum(m)
    && match m[6]
       case 16 => 1 <= Number(m) <= c.Total() && m[7..] == c.Chunk(Number(m))
       case 18 => 1 <= Number(m) <= c.Total() && m[7..] == c.Chunk(Number(m))
       case 17 => 1 <= Number(m) <= c.Total() &&
                  exists j :: 1 <= j <= c.Total() && SameSlot(c, j, Number(m)) && m[7..] == c.Chunk(j)
       case 10 => Number(m) == c.Total() + 1 && m[7..] == []
       case _ => false
  }

  predicate SameSlot(c: Config, j: nat, k: nat)
    requires c.Valid()
  {
    j % c.sendWindow == k % c.sendWindow
  }

  lemma ServerMeansData(c: Config, s: Sender, poll: Poll, d: Pdu)
    requires c.Valid() && SenderInv(c, s) && ServerMeans(c, s, poll, d) && PassesChecksum(d)
    requires d in SenderStep(c, s, poll).1
    requires poll.Ready? ==> AckOk(s, poll.m)
    ensures DataMeans(c, d)
  {
    hide Encode, SenderStep, InCksum;
    ServerSpeaks(c, s, poll);
    assert SenderStep(c, s, poll).1 == [d];
    if d[6] == 17 {
      NumberIsSeq(poll.m);
      var e := Slot(s.window, Number(poll.m));
      assert IndexOf(s.window, e.sequenceNum) == IndexOf(s.window, Number(poll.m));
      assert SameSlot(c, e.sequenceNum, Number(d));
    }
  }

  ghost predicate WireInv(c: Config, st: State)
    requires c.Valid()
  {
    && 1 <= st.snd.sequenceNum <= c.Total() + 1
    && OfCode(st.dataSent, 16) == FirstSends(c, st.snd.sequenceNum - 1)
    && (forall m :: m in st.dataSent ==> DataMeans(c, m))
    && (forall m :: m in st.acksSent ==> AckMeans(m))
  }

  lemma OfCodeSnoc(s: seq<Pdu>, out: seq<Pdu>, code: byte)
    requires |out| <= 1
    ensures OfCode(s + out, code) == OfCode(s, code) + if Sends(out, code) then out else []
  {
    if out == [] {
      assert s + out == s;
    } else {
      assert (s + out)[..|s + out| - 1] == s;
    }
  }

  /** Only a first send moves the next number, by one, and it is the PDU of that number. */
  lemma FirstSendAdvances(c: Config, s: Sender, poll: Poll)
    requires c.Valid() && SenderInv(c, s)
    ensures var (s', out) := SenderStep(c, s, poll);
            if Sends(out, 16) then out == [Encode(s.sequenceNum, FLAG_DATA, c.Chunk(s.sequenceNum))] &&
                                   s.sequenceNum <= c.Total() && s'.sequenceNum == s.sequenceNum + 1
            else s'.sequenceNum == s.sequenceNum
  {
    ServerSpeaks(c, s, poll);
    if s.phase.Filling? {
      FillInv(c, s);
      DecodeEncode(s.sequenceNum, FLAG_EOF, []);
      DecodeEncode(s.sequenceNum, FLAG_DATA, c.Chunk(s.sequenceNum));
    }
  }

  lemma WireAfterSend(c: Config, st: State, st': State, poll: Poll)
    requires c.Valid() && WireInv(c, st) && SenderInv(c, st.snd) && (poll.Ready? ==> AckOk(st.snd, poll.m))
    requires st'.snd == SenderStep(c, st.snd, poll).0 && st'.acksSent == st.acksSent
    requires st'.dataSent == st.dataSent + SenderStep(c, st.snd, poll).1
    ensures WireInv(c, st')
  {
    hide SenderStep, Encode, SenderInv, DataMeans, ServerMeans;
    var out := SenderStep(c, st.snd, poll).1;
    ServerSpeaks(c, st.snd, poll);
    FirstSendAdvances(c, st.snd, poll);
    OfCodeSnoc(st.dataSent, out, 16);
    forall d | d in out
      ensures DataMeans(c, d)
    {
      ServerMeansData(c, st.snd, poll, d);
    }
  }

  lemma WireNext(c: Config, st: State, step: Step)
    requires c.Valid() && WeakInv(c, st) && WireInv(c, st)
    ensures WireInv(c, Next(c, st, step))
  {
    hide SenderStep, R.ReceiverStep, Encode, DataMeans, AckMeans, OfCode, SenderInv;
    NextSends(c, st, step);
    if Enabled(st, step) {
      match step
      case SenderTurn =>
        WireAfterSend(c, st, Next(c, st, step), Silent);
      case AckArrives(i) =>
        assert st.acks[i] in st.acks && AckInFlight(st, st.acks[i]);
        WireAfterSend(c, st, Next(c, st, step), Ready(st.acks[i]));
      case DataArrives(i) =>
        AnswersAreBuilt(st.rcv, st.data[i]);
      case _ =>
    }
  }

  /**
   For any window sizes, everything the two programs ever send. The server's 16s are chunks 1, 2, ... in order,
   each once; an 18 carries the chunk of its number, a 17 a chunk of the same slot, and a 10 the number after the
   last; the client sends headers with code 5, 6 or 35 only; and every message passes the checksum test.
   */
  lemma {:induction false} OnTheWire(c: Config, steps: seq<Step>)
    requires c.Valid()
    ensures WireInv(c, Exec(c, steps))
  {
    hide Next;
    if steps != [] {
      OnTheWire(c, steps[..|steps| - 1]);
      WeaklyReachable(c, steps[..|steps| - 1]);
      WireNext(c, Exec(c, steps[..|steps| - 1]), steps[|steps| - 1]);
    }
  }

  /** The server forks a child on every request and on nothing else that is ever sent. */
  lemma {:induction false} OnlyRequestsDispatch(c: Config, steps: seq<Step>, window: nat, buffer: nat, name: seq<byte>)
    requires c.Valid()
    ensures Dispatches(Request(window, buffer, name))
    ensures forall m :: m in Exec(c, steps).dataSent + Exec(c, steps).acksSent ==> !Dispatches(m)
  {
    RequestRoundTrip(window, buffer, name);
    OnTheWire(c, steps);
  }
}

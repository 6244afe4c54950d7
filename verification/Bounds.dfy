/** How long a run can be, and how much the server can send, when the network does not duplicate. */
module Bounds {
  import opened Bytes
  import opened Pdus
  import opened Transfers
  import opened Senders
  import opened Receivers
  import opened Protocol
  import opened Acks

  predicate Duplicates(step: Step) {
    step.DuplicateData? || step.DuplicateAck?
  }

  // ---------------------------------------------------------------- every run is finite

  /** How many messages the receiver can still send. */
  function AnswersLeft(c: Config, r: Receiver): int
    requires c.Valid()
  {
    if r.mode.Closed? then 0
    else 2 * (c.Total() + 1 - r.expected) + if r.mode.OutOfOrder? then 0 else 1
  }

  /** What the sender can still do by itself, in steps and in data messages to be disposed of. */
  function TurnsLeft(c: Config, s: Sender): int
    requires c.Valid()
  {
    match s.phase
    case Filling => 3 * (c.Total() + 1 - s.sequenceNum) + 2 * (MAX_TIMEOUTS - s.timeoutCount) + 3
    case Polling => 3 * (c.Total() + 1 - s.sequenceNum) + 2 * (MAX_TIMEOUTS - s.timeoutCount) + 4
    case Waiting => 3 * (c.Total() + 1 - s.sequenceNum) + 2 * (MAX_TIMEOUTS - s.timeoutCount) + 3
    case EofWait => 2 * (MAX_EOF_RESENDS - s.eofResendCount) + 1
    case Done => 0
    case Crashed => 0
  }

  /** An ack is worth twenty: its delivery can rewind nine timeouts, each a step and a message, and cause one reply. */
  function Potential(c: Config, st: State): int
    requires c.Valid()
  {
    |st.data| + 20 * |st.acks| + 20 * AnswersLeft(c, st.rcv) + TurnsLeft(c, st.snd)
  }

  lemma PotentialNonNegative(c: Config, st: State)
    requires c.Valid() && Inv(c, st)
    ensures Potential(c, st) >= 0
  {
  }

  lemma SilentTurnCosts(c: Config, s: Sender)
    requires c.Valid() && SenderInv(c, s) && Active(s)
    ensures var (s', out) := SenderStep(c, s, Silent);
            TurnsLeft(c, s') + |out| < TurnsLeft(c, s)
  {
    match s.phase
    case Filling => FillInv(c, s);
    case Waiting => TimeoutInv(c, s);
    case _ =>
  }

  lemma AckCosts(c: Config, s: Sender, m: Pdu)
    requires c.Valid() && SenderInv(c, s) && Active(s) && !s.phase.Filling? && AckOk(s, m)
    ensures var (s', out) := SenderStep(c, s, Ready(m));
            TurnsLeft(c, s') + |out| < TurnsLeft(c, s) + 20
  {
    if Sending(s) {
      HandleAckInv(c, s, m);
    }
  }

  lemma AnswerCosts(c: Config, r: Receiver, r': Receiver, m: Pdu, out: seq<Pdu>)
    requires c.Valid() && Answers(r, r', m, out) && !r.mode.Closed?
    requires r.expected <= c.Total() + 1 && (r.mode.OutOfOrder? ==> r.expected <= c.Total())
    ensures AnswersLeft(c, r') + |out| <= AnswersLeft(c, r)
  {
  }

  lemma PotentialFalls(c: Config, st: State, step: Step)
    requires c.Valid() && Inv(c, st) && Enabled(st, step) && !Duplicates(step)
    ensures Potential(c, Next(c, st, step)) < Potential(c, st)
  {
    match step
    case SenderTurn =>
      SilentTurnCosts(c, st.snd);
    case AckArrives(i) =>
      var taken := TakeAck(c, st, i);
      AckCosts(c, st.snd, st.acks[i]);
    case DataArrives(i) =>
      var taken := TakeData(c, st, i);
      var m := st.data[i];
      var (r, out) := ReceiverStep(st.rcv, m);
      DeliverableInFlight(c, taken, m);
      ReceiverAnswers(c, st.rcv, st.snd.sequenceNum, m);
      AnswerCosts(c, st.rcv, r, m, out);
    case _ =>
  }

  lemma {:induction false} PotentialPaysForSteps(c: Config, steps: seq<Step>)
    requires c.Valid() && WindowsFit(c) && Proper(c, steps)
    requires forall i :: 0 <= i < |steps| ==> !Duplicates(steps[i])
    ensures |steps| + Potential(c, Exec(c, steps)) <= 43 * c.Total() + 43
  {
    if steps != [] {
      var prefix := steps[..|steps| - 1];
      forall i | 0 <= i < |prefix|
        ensures Enabled(Exec(c, prefix[..i]), prefix[i])
      {
        assert prefix[..i] == steps[..i];
      }
      PotentialPaysForSteps(c, prefix);
      Reachable(c, prefix);
      PotentialFalls(c, Exec(c, prefix), steps[|steps| - 1]);
    }
  }

  /** Without duplication every run stops, after a number of steps linear in the number of chunks. */
  lemma {:induction false} RunsAreFinite(c: Config, steps: seq<Step>)
    requires c.Valid() && WindowsFit(c) && Proper(c, steps)
    requires forall i :: 0 <= i < |steps| ==> !Duplicates(steps[i])
    ensures |steps| <= 43 * c.Total() + 43
  {
    PotentialPaysForSteps(c, steps);
    Reachable(c, steps);
    PotentialNonNegative(c, Exec(c, steps));
  }

  // ---------------------------------------------------------------- what the server transmits

  function Count(s: seq<Pdu>, flag: byte): nat {
    if s == [] then 0 else Count(s[1..], flag) + if Flag(s[0]) == flag then 1 else 0
  }

  lemma {:induction false} CountConcat(s: seq<Pdu>, t: seq<Pdu>, flag: byte)
    ensures Count(s + t, flag) == Count(s, flag) + Count(t, flag)
  {
    if s == [] {
      assert s + t == t;
    } else {
      assert (s + t)[1..] == s[1..] + t;
      CountConcat(s[1..], t, flag);
    }
  }

  lemma CountWithout(s: seq<Pdu>, i: nat, flag: byte)
    requires i < |s|
    ensures Count(Without(s, i), flag) == Count(s, flag) - if Flag(s[i]) == flag then 1 else 0
  {
    CountConcat(s[..i], s[i..], flag);
    CountConcat(s[..i], s[i + 1..], flag);
    assert s == s[..i] + s[i..];
    assert s[i..][1..] == s[i + 1..];
  }

  lemma CountSnoc(s: seq<Pdu>, out: seq<Pdu>, flag: byte)
    requires |out| <= 1
    ensures Count(s + out, flag) == Count(s, flag) + if out != [] && Flag(out[0]) == flag then 1 else 0
  {
    CountConcat(s, out, flag);
  }

  /** Messages of one kind with increasing numbers in a range are no more than the range has numbers. */
  lemma {:induction false} AscendingIsShort(s: seq<Pdu>, flag: byte, lo: int, hi: int)
    requires Ascending(s, flag) && Within(s, flag, lo, hi) && lo <= hi + 1
    ensures Count(s, flag) <= hi - lo + 1
    decreases |s|
  {
    if s != [] {
      var front, last := s[..|s| - 1], s[|s| - 1];
      assert s == front + [last];
      CountSnoc(front, [last], flag);
      forall m | m in front && Flag(m) == flag
        ensures lo <= Seq(m) <= if Flag(last) == flag then Seq(last) - 1 else hi
      {
        var i :| 0 <= i < |front| && front[i] == m;
        assert s[i] in s;
      }
      AscendingIsShort(front, flag, lo, if Flag(last) == flag then Seq(last) - 1 else hi);
    }
  }

  /**
   Each first send has its own number, each reply uses up an SREJ that was sent, and each timeout resend is one of
   the nine an RR or SREJ makes room for.
   */
  ghost predicate SendInv(st: State) {
    && Count(st.dataSent, FLAG_DATA) == st.snd.sequenceNum - 1
    && Count(st.dataSent, FLAG_SREJ_REPLY) + Count(st.acks, FLAG_SREJ) <= Count(st.acksSent, FLAG_SREJ)
    && Count(st.dataSent, FLAG_TIMEOUT_RESEND) + 9 * (Count(st.acks, FLAG_RR) + Count(st.acks, FLAG_SREJ)) <=
         9 * (Count(st.acksSent, FLAG_RR) + Count(st.acksSent, FLAG_SREJ)) + st.snd.timeoutCount
  }

  /** What one message more does to the three counts of the server. */
  lemma CountsGrow(s: seq<Pdu>, out: seq<Pdu>)
    requires |out| <= 1
    ensures forall f :: f == FLAG_DATA || f == FLAG_SREJ_REPLY || f == FLAG_TIMEOUT_RESEND ==>
              Count(s + out, f) == Count(s, f) + if out != [] && Flag(out[0]) == f then 1 else 0
  {
    CountSnoc(s, out, FLAG_DATA);
    CountSnoc(s, out, FLAG_SREJ_REPLY);
    CountSnoc(s, out, FLAG_TIMEOUT_RESEND);
  }

  lemma SilentSendsOne(c: Config, s: Sender)
    requires c.Valid() && SenderInv(c, s)
    ensures |SenderStep(c, s, Silent).1| <= 1
  {
    SenderStepInv(c, s, Silent);
  }

  lemma SilentTurnSends(c: Config, st: State)
    requires c.Valid() && Inv(c, st) && SendInv(st) && Active(st.snd)
    ensures SendInv(SenderMoves(c, st, Silent))
  {
    hide Encode, RingInv, Contiguous, Resend, Count;
    var s := st.snd;
    SilentSendsOne(c, s);
    CountsGrow(st.dataSent, SenderStep(c, s, Silent).1);
    match s.phase
    case Filling =>
      FillInv(c, s);
      DecodeEncode(s.sequenceNum, FLAG_DATA, c.Chunk(s.sequenceNum));
      DecodeEncode(s.sequenceNum, FLAG_EOF, []);
    case Waiting =>
      TimeoutInv(c, s);
    case EofWait =>
      DecodeEncode(s.eofSeq, FLAG_EOF, []);
    case _ =>
  }

  /** Handling one ack: a reply only to an SREJ, nothing else sent, and at most nine timeouts forgotten. */
  lemma AckEffect(c: Config, s: Sender, m: Pdu)
    requires c.Valid() && SenderInv(c, s) && Active(s) && !s.phase.Filling? && AckOk(s, m)
    requires Flag(m) == FLAG_RR || Flag(m) == FLAG_SREJ || s.phase.EofWait? || s.timeoutCount == 0
    ensures var (s', out) := SenderStep(c, s, Ready(m));
            |out| <= 1 && s'.sequenceNum == s.sequenceNum &&
            (out != [] ==> Flag(out[0]) == FLAG_SREJ_REPLY && Flag(m) == FLAG_SREJ) &&
            s.timeoutCount <= s'.timeoutCount + if Flag(m) == FLAG_RR || Flag(m) == FLAG_SREJ then 9 else 0
  {
    hide Encode, RingInv, Contiguous, Resend;
    if Sending(s) {
      HandleAckInv(c, s, m);
      var out := HandleAck(s.window, m).1;
      assert out != [] ==> out[0] in out;
    }
  }

  lemma AckSends(c: Config, st: State, i: nat)
    requires c.Valid() && Inv(c, st) && SendInv(st) && Enabled(st, AckArrives(i))
    ensures SendInv(Next(c, st, AckArrives(i)))
  {
    hide SenderStep, Count, SenderInv, ReceiverInv, Encode;
    var m := st.acks[i];
    var taken := TakeAck(c, st, i);
    AckIsExpected(c, st, m);
    AckEffect(c, st.snd, m);
    CountWithout(st.acks, i, FLAG_RR);
    CountWithout(st.acks, i, FLAG_SREJ);
    CountsGrow(st.dataSent, SenderStep(c, st.snd, Ready(m)).1);
  }

  /** An ack in flight is one the sender may be handed, and an EOF-ACK finds it waiting for one. */
  lemma AckIsExpected(c: Config, st: State, m: Pdu)
    requires c.Valid() && Inv(c, st) && AckInFlight(st, m) && Active(st.snd)
    ensures AckOk(st.snd, m)
    ensures Flag(m) == FLAG_RR || Flag(m) == FLAG_SREJ || st.snd.phase.EofWait?
  {
  }

  lemma AnswerSends(c: Config, st: State, i: nat)
    requires c.Valid() && Inv(c, st) && SendInv(st) && Enabled(st, DataArrives(i))
    ensures SendInv(Next(c, st, DataArrives(i)))
  {
    var taken := TakeData(c, st, i);
    var (r, out) := ReceiverStep(st.rcv, st.data[i]);
    DeliverableInFlight(c, taken, st.data[i]);
    ReceiverAnswers(c, st.rcv, st.snd.sequenceNum, st.data[i]);
    CountSnoc(st.acks, out, FLAG_RR);
    CountSnoc(st.acks, out, FLAG_SREJ);
    CountSnoc(st.acksSent, out, FLAG_RR);
    CountSnoc(st.acksSent, out, FLAG_SREJ);
  }

  lemma SendNext(c: Config, st: State, step: Step)
    requires c.Valid() && Inv(c, st) && SendInv(st) && !step.DuplicateAck?
    ensures SendInv(Next(c, st, step))
  {
    if Enabled(st, step) {
      match step
      case SenderTurn => SilentTurnSends(c, st);
      case AckArrives(i) => AckSends(c, st, i);
      case DataArrives(i) => AnswerSends(c, st, i);
      case DropAck(i) =>
        CountWithout(st.acks, i, FLAG_RR);
        CountWithout(st.acks, i, FLAG_SREJ);
      case _ =>
    }
  }

  lemma {:induction false} SendHolds(c: Config, steps: seq<Step>)
    requires c.Valid() && WindowsFit(c)
    requires forall i :: 0 <= i < |steps| ==> !steps[i].DuplicateAck?
    ensures SendInv(Exec(c, steps))
  {
    if steps != [] {
      SendHolds(c, steps[..|steps| - 1]);
      Reachable(c, steps[..|steps| - 1]);
      SendNext(c, Exec(c, steps[..|steps| - 1]), steps[|steps| - 1]);
    }
  }

  /**
   If acks are not duplicated, the server sends each of the N chunks at most once as new (16), answers at most N
   SREJs (17), and resends on timeout (18) at most 18N + 10 times.
   */
  lemma {:induction false} TransmissionsAreBounded(c: Config, steps: seq<Step>)
    requires c.Valid() && WindowsFit(c)
    requires forall i :: 0 <= i < |steps| ==> !steps[i].DuplicateAck?
    ensures var sent, n := Exec(c, steps).dataSent, c.Total();
            Count(sent, 16) <= n && Count(sent, 17) <= n && Count(sent, 18) <= 18 * n + 10
  {
    SendHolds(c, steps);
    Reachable(c, steps);
    AcksSentHolds(c, steps);
    var sent := Exec(c, steps).acksSent;
    AscendingIsShort(sent, FLAG_RR, 2, c.Total() + 1);
    AscendingIsShort(sent, FLAG_SREJ, 1, c.Total());
  }
}

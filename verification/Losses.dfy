/**
 Which losses the protocol repairs. The network keeps order and does not duplicate, and no timer fires while a
 message is on its way: nothing goes wrong but the losses themselves.
 */
module Losses {
  import opened Bytes
  import opened Pdus
  import opened Transfers
  import opened Windows
  import opened Senders
  import R = Receivers
  import opened Protocol
  import opened Safety
  import opened Delivery
  import opened Limits
  import opened AnyWindow
  import opened Failures

  predicate IsLoss(step: Step) {
    step.DropData? || step.DropAck?
  }

  /** A clean step, or the loss of the message next to arrive. */
  predicate Patient(st: State, step: Step) {
    Clean(st, step) || (IsLoss(step) && step.i == 0)
  }

  ghost predicate PatientRun(c: Config, steps: seq<Step>)
    requires c.Valid()
  {
    forall i :: 0 <= i < |steps| ==> Patient(Exec(c, steps[..i]), steps[i])
  }

  function LossCount(steps: seq<Step>): nat {
    if steps == [] then 0
    else LossCount(steps[..|steps| - 1]) + if IsLoss(steps[|steps| - 1]) then 1 else 0
  }

  lemma Extend(c: Config, steps: seq<Step>, step: Step)
    requires c.Valid() && PatientRun(c, steps) && Patient(Exec(c, steps), step)
    ensures PatientRun(c, steps + [step])
    ensures Exec(c, steps + [step]) == Next(c, Exec(c, steps), step)
    ensures LossCount(steps + [step]) == LossCount(steps) + if IsLoss(step) then 1 else 0
  {
    hide Next, Patient;
    var all := steps + [step];
    ExecSnoc(c, steps, step);
    assert all[..|steps|] == steps;
    forall i | 0 <= i < |all|
      ensures Patient(Exec(c, all[..i]), all[i])
    {
      if i < |steps| {
        assert all[..i] == steps[..i];
      }
    }
  }

  lemma AlwaysPatient(st: State)
    ensures Patient(st, DataArrives(0)) && Patient(st, AckArrives(0))
    ensures Patient(st, DropData(0)) && Patient(st, DropAck(0))
    ensures st.snd.phase.Filling? || st.snd.phase.Polling? ==> Patient(st, SenderTurn)
  {
  }

  /** With at most one loss, a run that has come to rest has written the whole file. */
  ghost predicate OneLossRepaired(c: Config)
    requires c.Valid()
  {
    forall steps :: PatientRun(c, steps) && LossCount(steps) <= 1 && Stuck(Exec(c, steps)) ==>
      Exec(c, steps).rcv.output == c.file
  }

  /** The same for any number of losses. */
  ghost predicate AllLossesRepaired(c: Config)
    requires c.Valid()
  {
    forall steps :: PatientRun(c, steps) && Stuck(Exec(c, steps)) ==> Exec(c, steps).rcv.output == c.file
  }

  // ---------------------------------------------------------------- runs that a loss ends

  /** A patient run in step after k chunks, without any loss. */
  lemma {:induction false} PatientRounds(c: Config, k: nat) returns (steps: seq<Step>)
    requires c.Valid() && k <= c.Total()
    ensures PatientRun(c, steps) && LossCount(steps) == 0 && InStep(c, Exec(c, steps), k, [])
  {
    hide Next, InStep, WeakInv;
    if k == 0 {
      steps := [];
      StartsInStep(c);
    } else {
      var before := PatientRounds(c, k - 1);
      steps := PatientRound(c, before, k - 1);
    }
  }

  lemma PatientRound(c: Config, steps: seq<Step>, k: nat) returns (all: seq<Step>)
    requires c.Valid() && k < c.Total() && PatientRun(c, steps) && InStep(c, Exec(c, steps), k, [])
    ensures PatientRun(c, all) && LossCount(all) == LossCount(steps) && InStep(c, Exec(c, all), k + 1, [])
  {
    var st := Exec(c, steps);
    PollEndsInStep(c, st, k);
    AlwaysPatient(st);
    var sent := Next(c, st, SenderTurn);
    AlwaysPatient(sent);
    AlwaysPatient(Next(c, sent, DataArrives(0)));
    AlwaysPatient(Next(c, Next(c, sent, DataArrives(0)), AckArrives(0)));
    hide Exec, Next, PatientRun, Patient, InStep, LossCount;
    ExtendTwo(c, steps, SenderTurn, DataArrives(0));
    all := steps + [SenderTurn] + [DataArrives(0)];
    ExtendTwo(c, all, AckArrives(0), SenderTurn);
    all := all + [AckArrives(0)] + [SenderTurn];
  }

  /** Two steps without a loss. */
  lemma ExtendTwo(c: Config, steps: seq<Step>, first: Step, second: Step)
    requires c.Valid() && PatientRun(c, steps) && !IsLoss(first) && !IsLoss(second)
    requires Patient(Exec(c, steps), first) && Patient(Next(c, Exec(c, steps), first), second)
    ensures var all := steps + [first] + [second];
            PatientRun(c, all) && LossCount(all) == LossCount(steps) &&
            Exec(c, all) == Next(c, Next(c, Exec(c, steps), first), second)
  {
    hide Exec, Next, PatientRun, Patient, LossCount;
    Extend(c, steps, first);
    Extend(c, steps + [first], second);
  }

  lemma PollEndsInStep(c: Config, st: State, k: nat)
    requires c.Valid() && k < c.Total() && InStep(c, st, k, [])
    ensures var polling := Next(c, Next(c, Next(c, st, SenderTurn), DataArrives(0)), AckArrives(0));
            st.snd.phase.Filling? && polling.snd.phase.Polling? && InStep(c, Next(c, polling, SenderTurn), k + 1, [])
  {
    RoundSent(c, st, k, []);
    RoundEnds(c, st, k, []);
    hide Next, WeakInv;
    PollEnds(c, Round(c, st));
  }

  /** A server waiting for an EOF-ACK that cannot come any more repeats the EOF and stops. */
  lemma {:induction false} EofsRunOut(c: Config, steps: seq<Step>) returns (all: seq<Step>)
    requires c.Valid() && PatientRun(c, steps)
    requires var st := Exec(c, steps);
             st.rcv.mode.Closed? && st.acks == [] && (st.snd.phase.EofWait? || st.snd.phase.Done?)
    ensures PatientRun(c, all) && LossCount(all) == LossCount(steps)
    ensures Exec(c, all).rcv == Exec(c, steps).rcv && Exec(c, all).snd.phase.Done?
    decreases if Exec(c, steps).snd.eofResendCount >= 10 then 0 else 10 - Exec(c, steps).snd.eofResendCount,
              if Exec(c, steps).snd.phase.Done? then 0 else 1
  {
    var st := Exec(c, steps);
    if st.snd.phase.Done? {
      all := steps;
    } else {
      EofTurn(c, st);
      hide Exec, Next;
      Extend(c, steps, SenderTurn);
      all := EofsRunOut(c, steps + [SenderTurn]);
    }
  }

  lemma EofTurn(c: Config, st: State)
    requires st.rcv.mode.Closed? && st.acks == [] && st.snd.phase.EofWait?
    ensures Patient(st, SenderTurn)
    ensures var st' := Next(c, st, SenderTurn);
            st'.rcv == st.rcv && st'.acks == [] &&
            if st.snd.eofResendCount >= 10 then st'.snd.phase.Done? && st'.snd.eofResendCount == st.snd.eofResendCount
            else st'.snd.phase.EofWait? && st'.snd.eofResendCount == st.snd.eofResendCount + 1
  {
    hide Encode;
  }

  lemma DoneAndClosedIsStuck(st: State)
    requires st.snd.phase.Done? && (st.rcv.mode.Closed? || st.data == [])
    ensures Stuck(st)
  {
  }

  /** The EOF is sent, arrives, and is answered, and the answer is taken, with the receiver still in order. */
  lemma CloseInOrder(c: Config, st: State)
    requires c.Valid() && WeakInv(c, st) && st.snd.phase.Filling? && st.snd.sequenceNum == c.Total() + 1
    requires st.rcv.mode.InOrder? && st.data == [] && st.acks == []
    ensures var sent := Next(c, st, SenderTurn);
            var closed := Next(c, sent, DataArrives(0));
            var end := Next(c, closed, AckArrives(0));
            end.rcv.mode.Closed? && end.rcv.output == st.rcv.output && end.acks == [] &&
            (end.snd.phase.EofWait? || end.snd.phase.Done?)
  {
    EofSent(c, st);
    FillInv(c, st.snd);
    var sent := Next(c, st, SenderTurn);
    assert sent.data == [Encode(c.Total() + 1, FLAG_EOF, [])];
    assert sent.snd.phase.EofWait? && sent.acks == [];
    EofClosesInOrder(c, sent, 0);
    DecodeEncode(c.Total() + 1, FLAG_EOF, []);
    var closed := Next(c, sent, DataArrives(0));
    hide Encode;
    assert |closed.acks| == 1;
  }

  /** A run with room in the window and nothing left to read or to hear goes on to close the file as it is. */
  lemma CloseAndStop(c: Config, steps: seq<Step>) returns (all: seq<Step>)
    requires c.Valid() && PatientRun(c, steps)
    requires var st := Exec(c, steps);
             WeakInv(c, st) && st.snd.phase.Filling? && st.snd.sequenceNum == c.Total() + 1 &&
             st.rcv.mode.InOrder? && st.data == [] && st.acks == []
    ensures PatientRun(c, all) && LossCount(all) == LossCount(steps) && Stuck(Exec(c, all))
    ensures Exec(c, all).rcv.output == Exec(c, steps).rcv.output
  {
    hide Exec, Next, PatientRun, Patient, WeakInv, Stuck;
    CloseInOrder(c, Exec(c, steps));
    AlwaysPatient(Exec(c, steps));
    Extend(c, steps, SenderTurn);
    AlwaysPatient(Exec(c, steps + [SenderTurn]));
    Extend(c, steps + [SenderTurn], DataArrives(0));
    AlwaysPatient(Exec(c, steps + [SenderTurn] + [DataArrives(0)]));
    Extend(c, steps + [SenderTurn] + [DataArrives(0)], AckArrives(0));
    all := EofsRunOut(c, steps + [SenderTurn] + [DataArrives(0)] + [AckArrives(0)]);
    DoneAndClosedIsStuck(Exec(c, all));
  }

  /** For every Ws >= 2 the loss of the last chunk is final: the EOF follows at once and closes the file. */
  lemma {:induction false} LastChunkLost(c: Config) returns (steps: seq<Step>)
    requires c.Valid() && c.sendWindow >= 2 && c.Total() >= 1
    ensures PatientRun(c, steps) && LossCount(steps) == 1 && Stuck(Exec(c, steps))
    ensures Exec(c, steps).rcv.output == c.Prefix(c.Total() - 1) != c.file
  {
    hide Exec, PatientRun, InStep, WeakInv, Stuck;
    var rounds := PatientRounds(c, c.Total() - 1);
    var unsent := LoseLast(c, rounds);
    steps := CloseAndStop(c, unsent);
    c.EndOfFile(c.Total() - 1);
  }

  /** The last chunk is sent and lost, and there is room in the window to go on. */
  lemma LoseLast(c: Config, steps: seq<Step>) returns (all: seq<Step>)
    requires c.Valid() && c.sendWindow >= 2 && c.Total() >= 1
    requires PatientRun(c, steps) && LossCount(steps) == 0 && InStep(c, Exec(c, steps), c.Total() - 1, [])
    ensures PatientRun(c, all) && LossCount(all) == 1
    ensures var st := Exec(c, all);
            WeakInv(c, st) && st.snd.phase.Filling? && st.snd.sequenceNum == c.Total() + 1 &&
            st.rcv.mode.InOrder? && st.rcv.output == c.Prefix(c.Total() - 1) && st.data == [] && st.acks == []
  {
    var st := Exec(c, steps);
    assert st.snd.phase.Filling? && st.rcv.output == c.Prefix(c.Total() - 1);
    RoundSent(c, st, c.Total() - 1, []);
    var sent := Next(c, st, SenderTurn);
    DropOnly(c, sent);
    PollEnds(c, Next(c, sent, DropData(0)));
    hide Exec, Next, PatientRun;
    Extend(c, steps, SenderTurn);
    Extend(c, steps + [SenderTurn], DropData(0));
    Extend(c, steps + [SenderTurn] + [DropData(0)], SenderTurn);
    all := steps + [SenderTurn] + [DropData(0)] + [SenderTurn];
  }

  /** The only message in flight to the client is lost. */
  lemma DropOnly(c: Config, st: State)
    requires c.Valid() && WeakInv(c, st) && |st.data| == 1
    ensures WeakInv(c, Next(c, st, DropData(0))) && Next(c, st, DropData(0)) == st.(data := [])
  {
    NextWeak(c, st, DropData(0));
  }

  /** With Ws = 1: the window is full with chunk 1, nothing is in flight, and the client is in order. */
  ghost predicate Dry(c: Config, st: State)
    requires c.Valid()
  {
    && WeakInv(c, st)
    && (st.snd.phase.Waiting? || st.snd.phase.Done?)
    && Base(st.snd) == 1 && st.snd.sequenceNum == 2
    && st.rcv.mode.InOrder? && st.data == [] && st.acks == []
  }

  /** One timeout, after which the resend is lost, or ignored by a client that has chunk 1 already. */
  lemma DryTurn(c: Config, st: State, gone: Step)
    requires c.Valid() && Dry(c, st) && st.snd.phase.Waiting?
    requires gone == DropData(0) || (gone == DataArrives(0) && st.rcv.expected == 2)
    ensures Patient(st, SenderTurn)
    ensures var st' := Next(c, Next(c, st, SenderTurn), gone);
            Dry(c, st') && st'.rcv == st.rcv && st'.snd.timeoutCount == st.snd.timeoutCount + 1
  {
    var k := TimeoutResends(c, st.snd);
    DecodeEncode(k, FLAG_TIMEOUT_RESEND, c.Chunk(k));
    var resent := Next(c, st, SenderTurn);
    NextWeak(c, st, SenderTurn);
    NextWeak(c, resent, gone);
    hide Encode, Timeout, Contiguous;
    assert resent.data == [Encode(k, FLAG_TIMEOUT_RESEND, c.Chunk(k))];
    assert resent.acks + [] == resent.acks;
  }

  lemma {:induction false} TimeoutsRunDry(c: Config, steps: seq<Step>, gone: Step) returns (all: seq<Step>)
    requires c.Valid() && PatientRun(c, steps) && Dry(c, Exec(c, steps))
    requires gone == DropData(0) || (gone == DataArrives(0) && Exec(c, steps).rcv.expected == 2)
    ensures PatientRun(c, all) && Dry(c, Exec(c, all))
    ensures Exec(c, all).rcv == Exec(c, steps).rcv && Exec(c, all).snd.phase.Done?
    ensures gone.DataArrives? ==> LossCount(all) == LossCount(steps)
    decreases 10 - Exec(c, steps).snd.timeoutCount
  {
    var st := Exec(c, steps);
    if st.snd.phase.Done? {
      all := steps;
    } else {
      assert st.snd.timeoutCount < 10;
      DryTurn(c, st, gone);
      DryCounts(c, Next(c, Next(c, st, SenderTurn), gone));
      hide Exec, Next, Dry;
      Extend(c, steps, SenderTurn);
      Extend(c, steps + [SenderTurn], gone);
      all := TimeoutsRunDry(c, steps + [SenderTurn] + [gone], gone);
    }
  }

  lemma DryCounts(c: Config, st: State)
    requires c.Valid() && Dry(c, st)
    ensures st.snd.timeoutCount <= 10
  {
  }

  /** With Ws = 1 the sending of chunk 1 fills the window. */
  lemma SendOnly(c: Config, st: State)
    requires c.Valid() && c.sendWindow == 1 && c.Total() >= 1 && InStep(c, st, 0, [])
    ensures var sent := Next(c, st, SenderTurn);
            WeakInv(c, sent) && sent.snd.phase.Polling? && IsFull(sent.snd.window) && Base(sent.snd) == 1 &&
            sent.snd.sequenceNum == 2 && sent.rcv == st.rcv && sent.acks == [] &&
            sent.data == [Encode(1, FLAG_DATA, c.Chunk(1))]
  {
    hide Encode;
    RoundSent(c, st, 0, []);
  }

  lemma PollFindsFull(c: Config, st: State)
    requires c.Valid() && WeakInv(c, st) && st.snd.phase.Polling? && IsFull(st.snd.window)
    requires Base(st.snd) == 1 && st.snd.sequenceNum == 2
    requires st.rcv.mode.InOrder? && st.data == [] && st.acks == []
    ensures Dry(c, Next(c, st, SenderTurn)) && Next(c, st, SenderTurn).rcv == st.rcv
  {
    NextWeak(c, st, SenderTurn);
  }

  /** The RR of chunk 1 is written, sent and lost. */
  lemma LoseRr(c: Config, st: State)
    requires c.Valid() && WeakInv(c, st) && c.Total() >= 1 && st.rcv.mode.InOrder? && st.rcv.expected == 1
    requires st.rcv.output == [] && st.acks == [] && st.data == [Encode(1, FLAG_DATA, c.Chunk(1))]
    ensures var st' := Next(c, Next(c, st, DataArrives(0)), DropAck(0));
            WeakInv(c, st') && st'.snd == st.snd && st'.data == [] && st'.acks == [] &&
            st'.rcv.mode.InOrder? && st'.rcv.expected == 2 && st'.rcv.output == c.Chunk(1)
  {
    DecodeEncode(1, FLAG_DATA, c.Chunk(1));
    hide Encode, SenderInv;
    RoundWritten(c, st);
    var written := Next(c, st, DataArrives(0));
    assert |written.acks| == 1;
    NextWeak(c, written, DropAck(0));
  }

  /** For Ws = 1 and N >= 2 the loss of the first RR is final: the client ignores every resend of chunk 1. */
  lemma {:induction false} RrLost(c: Config) returns (steps: seq<Step>)
    requires c.Valid() && c.sendWindow == 1 && c.Total() >= 2
    ensures PatientRun(c, steps) && LossCount(steps) == 1 && Stuck(Exec(c, steps))
    ensures Exec(c, steps).rcv.output == c.Prefix(1) != c.file
  {
    hide Exec, PatientRun, Stuck;
    LosesRr(c);
    c.EndOfFile(1);
    hide Next, Patient, Dry;
    Extend(c, [], SenderTurn);
    Extend(c, [] + [SenderTurn], DataArrives(0));
    Extend(c, [] + [SenderTurn] + [DataArrives(0)], DropAck(0));
    Extend(c, [] + [SenderTurn] + [DataArrives(0)] + [DropAck(0)], SenderTurn);
    steps := TimeoutsRunDry(c, [] + [SenderTurn] + [DataArrives(0)] + [DropAck(0)] + [SenderTurn], DataArrives(0));
    DryIsEmpty(c, Exec(c, steps));
    DoneAndClosedIsStuck(Exec(c, steps));
  }

  lemma DryIsEmpty(c: Config, st: State)
    requires c.Valid() && Dry(c, st)
    ensures st.data == []
  {
  }

  lemma LosesRr(c: Config)
    requires c.Valid() && c.sendWindow == 1 && c.Total() >= 1
    ensures var st := Exec(c, []);
            var sent := Next(c, st, SenderTurn);
            var written := Next(c, sent, DataArrives(0));
            var lost := Next(c, written, DropAck(0));
            var dry := Next(c, lost, SenderTurn);
            PatientRun(c, []) && LossCount([]) == 0 &&
            Patient(st, SenderTurn) && Patient(sent, DataArrives(0)) && Patient(written, DropAck(0)) &&
            Patient(lost, SenderTurn) && Dry(c, dry) && dry.rcv.expected == 2 && dry.rcv.output == c.Prefix(1)
  {
    StartsInStep(c);
    c.PrefixGrows(0);
    var st := Exec(c, []);
    assert c.Prefix(0) == [] && st.snd.phase.Filling? && st.rcv.mode.InOrder? && st.rcv.expected == 1;
    SendOnly(c, st);
    hide Exec, Next, WeakInv;
    var sent := Next(c, st, SenderTurn);
    LoseRr(c, sent);
    var lost := Next(c, Next(c, sent, DataArrives(0)), DropAck(0));
    PollFindsFull(c, lost);
  }

  /** For Ws = 1 the loss of chunk 1 and of every resend is final. */
  lemma {:induction false} EverythingLost(c: Config) returns (steps: seq<Step>)
    requires c.Valid() && c.sendWindow == 1 && c.Total() >= 1
    ensures PatientRun(c, steps) && Stuck(Exec(c, steps)) && Exec(c, steps).rcv.output == []
  {
    StartsInStep(c);
    var st := Exec(c, []);
    assert st.snd.phase.Filling? && st.rcv.mode.InOrder? && st.rcv.output == [];
    SendOnly(c, st);
    DropOnly(c, Next(c, st, SenderTurn));
    PollFindsFull(c, Next(c, Next(c, st, SenderTurn), DropData(0)));
    hide Exec, Next;
    Extend(c, [], SenderTurn);
    Extend(c, [] + [SenderTurn], DropData(0));
    Extend(c, [] + [SenderTurn] + [DropData(0)], SenderTurn);
    steps := TimeoutsRunDry(c, [] + [SenderTurn] + [DropData(0)] + [SenderTurn], DropData(0));
    DoneAndClosedIsStuck(Exec(c, steps));
  }

  // ---------------------------------------------------------------- the one configuration that repairs a loss

  /** With Ws = N = 1, until chunk 1 is written: it is unsent, or one copy is in flight, or it is lost and due again. */
  ghost predicate StillComing(c: Config, st: State, losses: nat)
    requires c.Valid()
  {
    && st.rcv.mode.InOrder? && st.acks == []
    && (if st.snd.sequenceNum == 1 then st.snd.phase.Filling? && st.data == []
        else
          && st.snd.sequenceNum == 2 && Base(st.snd) == 1
          && (st.snd.phase.Polling? || st.snd.phase.Waiting?)
          && (if st.data == [] then losses == 1 && st.snd.timeoutCount == 0
              else |st.data| == 1 && IsData(st.data[0]) && Seq(st.data[0]) == 1 && st.snd.timeoutCount <= losses))
  }

  ghost predicate RepairInv(c: Config, st: State, losses: nat)
    requires c.Valid()
  {
    st.rcv.expected == 1 ==> StillComing(c, st, losses)
  }

  lemma RepairTurn(c: Config, st: State, losses: nat)
    requires c.Valid() && WeakInv(c, st) && c.sendWindow == 1 && c.Total() == 1
    requires losses <= 1 && st.rcv.expected == 1 && StillComing(c, st, losses) && Clean(st, SenderTurn)
    ensures StillComing(c, Next(c, st, SenderTurn), losses)
  {
    match st.snd.phase
    case Filling =>
      FillInv(c, st.snd);
      DecodeEncode(1, FLAG_DATA, c.Chunk(1));
    case Polling =>
    case Waiting =>
      var k := TimeoutResends(c, st.snd);
      DecodeEncode(k, FLAG_TIMEOUT_RESEND, c.Chunk(k));
  }

  lemma RepairNext(c: Config, st: State, step: Step, losses: nat)
    requires c.Valid() && WeakInv(c, st) && c.sendWindow == 1 && c.Total() == 1
    requires RepairInv(c, st, losses) && Patient(st, step)
    requires losses + (if IsLoss(step) then 1 else 0) <= 1
    ensures RepairInv(c, Next(c, st, step), losses + if IsLoss(step) then 1 else 0)
  {
    if st.rcv.expected == 1 {
      match step
      case SenderTurn => RepairTurn(c, st, losses);
      case DataArrives(i) =>
        hide Encode;
        if Enabled(st, step) {
          assert Next(c, st, step).rcv.expected == 2;
        }
      case _ =>
        hide Encode, SenderStep;
    } else {
      ExpectedOnlyGrows(c, st, step);
    }
  }

  lemma ExpectedOnlyGrows(c: Config, st: State, step: Step)
    requires c.Valid() && WeakInv(c, st)
    ensures Next(c, st, step).rcv.expected >= st.rcv.expected
  {
    if step.DataArrives? && Enabled(st, step) {
      var m := st.data[step.i];
      assert m in st.data && PlainData(c, st.snd, m);
      StepMarks(st.rcv, st.snd.sequenceNum, m);
    } else {
      ReceiverMovesOnReceipt(c, st, step);
    }
  }

  lemma {:induction false} RepairHolds(c: Config, steps: seq<Step>)
    requires c.Valid() && c.sendWindow == 1 && c.Total() == 1
    requires PatientRun(c, steps) && LossCount(steps) <= 1
    ensures RepairInv(c, Exec(c, steps), LossCount(steps))
  {
    hide Next, Patient, RepairInv;
    if steps == [] {
      RepairStarts(c);
    } else {
      var prefix, step := steps[..|steps| - 1], steps[|steps| - 1];
      assert forall i :: 0 <= i < |prefix| ==> prefix[..i] == steps[..i];
      RepairHolds(c, prefix);
      WeaklyReachable(c, prefix);
      assert Patient(Exec(c, prefix), step);
      RepairNext(c, Exec(c, prefix), step, LossCount(prefix));
    }
  }

  lemma RepairStarts(c: Config)
    requires c.Valid()
    ensures RepairInv(c, Init(c), 0)
  {
  }

  /** Chunk 1 still coming means the run is not at rest. */
  lemma ComingIsNotStuck(c: Config, st: State, losses: nat)
    requires c.Valid() && StillComing(c, st, losses)
    ensures !Stuck(st)
  {
    assert (Enabled(st, SenderTurn) && Clean(st, SenderTurn)) ||
           (Enabled(st, DataArrives(0)) && Clean(st, DataArrives(0)));
  }

  lemma OneChunkRepaired(c: Config, steps: seq<Step>)
    requires c.Valid() && c.sendWindow == 1 && c.Total() == 1
    requires PatientRun(c, steps) && LossCount(steps) <= 1 && Stuck(Exec(c, steps))
    ensures Exec(c, steps).rcv.output == c.file
  {
    hide Exec, PatientRun, Stuck, StillComing;
    RepairHolds(c, steps);
    PrefixSafety(c, steps);
    var st := Exec(c, steps);
    if st.rcv.expected == 1 {
      ComingIsNotStuck(c, st, LossCount(steps));
    } else {
      WholeFile(c, st.rcv.expected - 1);
    }
  }

  lemma WholeFile(c: Config, k: nat)
    requires c.Valid() && k >= c.Total()
    ensures c.Prefix(k) == c.file
  {
    c.EndOfFile(k);
  }

  /**
   One loss is always repaired if and only if the file is empty, or it is one chunk sent with Ws = 1. Otherwise some
   single loss is final, on a network that does nothing else wrong.
   */
  lemma {:induction false} OneLossRepairedExactlyWhen(c: Config)
    requires c.Valid()
    ensures OneLossRepaired(c) <==> c.file == [] || (c.sendWindow == 1 && c.Total() == 1)
  {
    hide Exec, PatientRun, Stuck;
    c.EndOfFile(0);
    if c.file == [] {
      forall steps
        ensures Exec(c, steps).rcv.output == c.file
      {
        EmptyFileWritesNothing(c, steps);
      }
    } else if c.sendWindow == 1 && c.Total() == 1 {
      forall steps | PatientRun(c, steps) && LossCount(steps) <= 1 && Stuck(Exec(c, steps))
        ensures Exec(c, steps).rcv.output == c.file
      {
        OneChunkRepaired(c, steps);
      }
    } else if c.sendWindow == 1 {
      var steps := RrLost(c);
    } else {
      var steps := LastChunkLost(c);
    }
  }

  /** Every number of losses is repaired if and only if the file is empty. */
  lemma {:induction false} AllLossesRepairedExactlyWhen(c: Config)
    requires c.Valid()
    ensures AllLossesRepaired(c) <==> c.file == []
  {
    hide Exec, PatientRun, Stuck;
    c.EndOfFile(0);
    if c.file == [] {
      forall steps
        ensures Exec(c, steps).rcv.output == c.file
      {
        EmptyFileWritesNothing(c, steps);
      }
    } else if c.sendWindow == 1 {
      var steps := EverythingLost(c);
    } else {
      var steps := LastChunkLost(c);
    }
  }
}

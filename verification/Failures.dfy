/**
 What the code does not guarantee: for each promise that fails, the configurations on which some run breaks it,
 as an exact condition on the file and the window sizes.
 */
module Failures {
  import opened Bytes
  import opened Pdus
  import opened Transfers
  import opened Windows
  import opened Senders
  import R = Receivers
  import opened Protocol
  import opened Safety
  import opened Limits
  import opened AnyWindow
  import Acks

  // ---------------------------------------------------------------- runs that stay in step

  /** k chunks sent, written and acknowledged, the window empty, nothing else in flight but some old acks. */
  ghost predicate InStep(c: Config, st: State, k: nat, oldAcks: seq<Pdu>)
    requires c.Valid()
  {
    && WeakInv(c, st)
    && st.snd.phase.Filling? && st.snd.sequenceNum == k + 1 && Base(st.snd) == k + 1
    && st.rcv.mode.InOrder? && st.rcv.expected == k + 1 && st.rcv.output == c.Prefix(k)
    && st.data == [] && st.acks == oldAcks
  }

  /** One more chunk sent, written and acknowledged, up to the poll that ends its round. */
  function Round(c: Config, st: State): State
    requires c.Valid()
  {
    var sent := Next(c, st, SenderTurn);
    Next(c, Next(c, sent, DataArrives(0)), AckArrives(|sent.acks|))
  }

  lemma RoundSent(c: Config, st: State, k: nat, oldAcks: seq<Pdu>)
    requires c.Valid() && InStep(c, st, k, oldAcks) && k < c.Total()
    ensures var sent := Next(c, st, SenderTurn);
            WeakInv(c, sent) && sent.snd == Fill(c, st.snd).0 && sent.snd.phase.Polling? && sent.rcv == st.rcv &&
            sent.snd.sequenceNum == k + 2 && Base(sent.snd) == k + 1 &&
            sent.acks == oldAcks && sent.data == [Encode(k + 1, FLAG_DATA, c.Chunk(k + 1))]
  {
    hide Encode;
    NextWeak(c, st, SenderTurn);
    FillInv(c, st.snd);
  }

  lemma RoundWritten(c: Config, st: State)
    requires c.Valid() && WeakInv(c, st) && st.rcv.mode.InOrder?
    requires |st.data| == 1 && IsData(st.data[0]) && Seq(st.data[0]) == st.rcv.expected
    ensures var st' := Next(c, st, DataArrives(0));
            WeakInv(c, st') && st'.snd == st.snd && st'.data == [] && st'.rcv.mode.InOrder? &&
            st'.rcv.expected == st.rcv.expected + 1 && st'.rcv.output == st.rcv.output + Payload(st.data[0]) &&
            st'.acks == st.acks + [Encode(st.rcv.expected + 1, FLAG_RR, [])]
  {
    hide Encode, Contiguous;
    NextWeak(c, st, DataArrives(0));
  }

  lemma RoundAcked(c: Config, st: State, oldAcks: seq<Pdu>)
    requires c.Valid() && WeakInv(c, st) && st.snd.phase.Polling?
    requires st.acks == oldAcks + [Encode(st.snd.sequenceNum, FLAG_RR, [])]
    ensures var st' := Next(c, st, AckArrives(|oldAcks|));
            WeakInv(c, st') && st'.snd.phase.Polling? && st'.rcv == st.rcv &&
            st'.data == st.data && st'.acks == oldAcks &&
            st'.snd.window == RemoveRange(st.snd.window, 1, st.snd.sequenceNum) &&
            st'.snd.sequenceNum == st.snd.sequenceNum == Base(st'.snd)
  {
    var n := st.snd.sequenceNum;
    DecodeEncode(n, FLAG_RR, []);
    hide Encode;
    NextWeak(c, st, AckArrives(|oldAcks|));
    RemoveRangeContiguous(c, st.snd.window, Base(st.snd), n, 1, n);
    assert st.acks[|oldAcks|] == Encode(n, FLAG_RR, []);
    assert Without(st.acks, |oldAcks|) == oldAcks;
    assert st.data + [] == st.data;
  }

  lemma RoundEnds(c: Config, st: State, k: nat, oldAcks: seq<Pdu>)
    requires c.Valid() && InStep(c, st, k, oldAcks) && k < c.Total()
    ensures var end := Round(c, st);
            WeakInv(c, end) && end.snd.phase.Polling? && end.rcv.mode.InOrder? && end.rcv.expected == k + 2 &&
            end.rcv.output == c.Prefix(k + 1) &&
            end.snd.sequenceNum == k + 2 == Base(end.snd) && end.data == [] && end.acks == oldAcks &&
            end.snd.window == RemoveRange(Fill(c, st.snd).0.window, 1, k + 2)
  {
    hide Next, WeakInv, Encode;
    RoundSent(c, st, k, oldAcks);
    var sent := Next(c, st, SenderTurn);
    DecodeEncode(k + 1, FLAG_DATA, c.Chunk(k + 1));
    RoundWritten(c, sent);
    c.PrefixGrows(k);
    RoundAcked(c, Next(c, sent, DataArrives(0)), oldAcks);
  }

  lemma PollEnds(c: Config, st: State)
    requires c.Valid() && WeakInv(c, st) && st.snd.phase.Polling? && st.snd.window.validCount < c.sendWindow
    ensures var st' := Next(c, st, SenderTurn);
            WeakInv(c, st') && st'.snd.phase.Filling? && st'.rcv == st.rcv &&
            st'.data == st.data && st'.acks == st.acks &&
            st'.snd.sequenceNum == st.snd.sequenceNum && st'.snd.window == st.snd.window
  {
    NextWeak(c, st, SenderTurn);
    assert st.data + [] == st.data;
  }

  function RoundSteps(oldAcks: seq<Pdu>): seq<Step> {
    [SenderTurn, DataArrives(0), AckArrives(|oldAcks|)]
  }

  lemma ExecRound(c: Config, steps: seq<Step>, oldAcks: seq<Pdu>)
    requires c.Valid() && Next(c, Exec(c, steps), SenderTurn).acks == oldAcks
    ensures Exec(c, steps + RoundSteps(oldAcks)) == Round(c, Exec(c, steps))
  {
    hide Next;
    ExecSnoc(c, steps, SenderTurn);
    ExecSnoc(c, steps + [SenderTurn], DataArrives(0));
    ExecSnoc(c, steps + [SenderTurn] + [DataArrives(0)], AckArrives(|oldAcks|));
    assert steps + RoundSteps(oldAcks) == steps + [SenderTurn] + [DataArrives(0)] + [AckArrives(|oldAcks|)];
  }

  /** A run in step after j chunks can be continued in step up to any later chunk. */
  lemma {:induction false} StayInStep(c: Config, steps: seq<Step>, j: nat, k: nat, oldAcks: seq<Pdu>)
    returns (more: seq<Step>)
    requires c.Valid() && j <= k <= c.Total() && InStep(c, Exec(c, steps), j, oldAcks)
    ensures InStep(c, Exec(c, steps + more), k, oldAcks)
  {
    hide Next, InStep;
    if k == j {
      more := [];
      assert steps + more == steps;
    } else {
      var before := StayInStep(c, steps, j, k - 1, oldAcks);
      OneRound(c, steps + before, k - 1, oldAcks);
      more := before + RoundSteps(oldAcks) + [SenderTurn];
      assert steps + more == steps + before + RoundSteps(oldAcks) + [SenderTurn];
    }
  }

  lemma OneRound(c: Config, steps: seq<Step>, k: nat, oldAcks: seq<Pdu>)
    requires c.Valid() && k < c.Total() && InStep(c, Exec(c, steps), k, oldAcks)
    ensures InStep(c, Exec(c, steps + RoundSteps(oldAcks) + [SenderTurn]), k + 1, oldAcks)
  {
    hide Next, WeakInv;
    RoundSent(c, Exec(c, steps), k, oldAcks);
    RoundEnds(c, Exec(c, steps), k, oldAcks);
    ExecRound(c, steps, oldAcks);
    PollEnds(c, Exec(c, steps + RoundSteps(oldAcks)));
    ExecSnoc(c, steps + RoundSteps(oldAcks), SenderTurn);
  }

  lemma StartsInStep(c: Config)
    requires c.Valid()
    ensures InStep(c, Exec(c, []), 0, [])
  {
    WeaklyReachable(c, []);
  }

  // ---------------------------------------------------------------- a closed file is the whole file

  /** Whenever the receiver has closed the file, it is complete. */
  ghost predicate AlwaysComplete(c: Config)
    requires c.Valid()
  {
    forall steps :: Exec(c, steps).rcv.mode.Closed? ==> Exec(c, steps).rcv.output == c.file
  }

  /** From a run in step, the last chunk is sent and the EOF overtakes it. */
  lemma EofOvertakesLast(c: Config, st: State)
    requires c.Valid() && c.sendWindow >= 2 && c.Total() >= 1 && InStep(c, st, c.Total() - 1, [])
    ensures var sent := Next(c, Next(c, st, SenderTurn), SenderTurn);
            var end := Next(c, Next(c, sent, SenderTurn), DataArrives(1));
            WeakInv(c, end) && end.rcv.mode.Closed? && end.rcv.output == c.Prefix(c.Total() - 1)
  {
    var n := c.Total();
    hide Encode;
    RoundSent(c, st, n - 1, []);
    var polling := Next(c, st, SenderTurn);
    PollEnds(c, polling);
    var filling := Next(c, polling, SenderTurn);
    EofSent(c, filling);
    var closing := Next(c, filling, SenderTurn);
    assert closing.data == [Encode(n, FLAG_DATA, c.Chunk(n))] + [Encode(n + 1, FLAG_EOF, [])];
    EofClosesInOrder(c, closing, 1);
  }

  lemma EofSent(c: Config, st: State)
    requires c.Valid() && WeakInv(c, st) && st.snd.phase.Filling? && st.snd.sequenceNum == c.Total() + 1
    ensures var st' := Next(c, st, SenderTurn);
            WeakInv(c, st') && st'.rcv == st.rcv && st'.data == st.data + [Encode(c.Total() + 1, FLAG_EOF, [])]
  {
    NextWeak(c, st, SenderTurn);
    FillInv(c, st.snd);
  }

  lemma EofClosesInOrder(c: Config, st: State, i: nat)
    requires c.Valid() && WeakInv(c, st) && st.rcv.mode.InOrder? && i < |st.data|
    requires st.data[i] == Encode(c.Total() + 1, FLAG_EOF, [])
    ensures var st' := Next(c, st, DataArrives(i));
            WeakInv(c, st') && st'.rcv.mode.Closed? && st'.rcv.output == st.rcv.output
  {
    DecodeEncode(c.Total() + 1, FLAG_EOF, []);
    hide Encode;
    NextWeak(c, st, DataArrives(i));
  }

  /** For every file that is not empty and every Ws >= 2, some run closes it without its last chunk. */
  lemma {:induction false} LastChunkCanBeMissed(c: Config) returns (steps: seq<Step>)
    requires c.Valid() && c.sendWindow >= 2 && c.file != []
    ensures Exec(c, steps).rcv.mode.Closed? && Exec(c, steps).rcv.output == c.Prefix(c.Total() - 1) != c.file
  {
    hide Next;
    c.EndOfFile(0);
    var n := c.Total();
    StartsInStep(c);
    var rounds := StayInStep(c, [], 0, n - 1, []);
    var run := [] + rounds;
    EofOvertakesLast(c, Exec(c, run));
    ExecSnoc(c, run, SenderTurn);
    ExecSnoc(c, run + [SenderTurn], SenderTurn);
    ExecSnoc(c, run + [SenderTurn] + [SenderTurn], SenderTurn);
    steps := run + [SenderTurn] + [SenderTurn] + [SenderTurn] + [DataArrives(1)];
    ExecSnoc(c, run + [SenderTurn] + [SenderTurn] + [SenderTurn], DataArrives(1));
    c.EndOfFile(n - 1);
  }

  /** Of an empty file nothing is ever written. */
  lemma {:induction false} EmptyFileWritesNothing(c: Config, steps: seq<Step>)
    requires c.Valid() && c.file == []
    ensures Exec(c, steps).rcv.output == []
  {
    hide Next;
    if steps != [] {
      var prefix, step := steps[..|steps| - 1], steps[|steps| - 1];
      EmptyFileWritesNothing(c, prefix);
      WeaklyReachable(c, prefix);
      c.EndOfFile(0);
      NothingToWrite(c, Exec(c, prefix), step);
    }
  }

  lemma NothingToWrite(c: Config, st: State, step: Step)
    requires c.Valid() && WeakInv(c, st) && c.Total() == 0
    ensures Next(c, st, step).rcv.output == st.rcv.output
  {
    hide Encode, PhaseInv;
    if step.DataArrives? && Enabled(st, step) {
      var m := st.data[step.i];
      assert m in st.data && PlainData(c, st.snd, m);
      assert !IsData(m) && !R.Flushable(st.rcv);
    } else {
      ReceiverMovesOnReceipt(c, st, step);
    }
  }

  /** A closed file is complete on every run if and only if Ws is 1 or the file is empty. */
  lemma {:induction false} CompleteExactlyWhen(c: Config)
    requires c.Valid()
    ensures AlwaysComplete(c) <==> c.sendWindow == 1 || c.file == []
  {
    hide Exec;
    c.EndOfFile(0);
    if c.sendWindow == 1 || c.file == [] {
      forall steps | Exec(c, steps).rcv.mode.Closed?
        ensures Exec(c, steps).rcv.output == c.file
      {
        if c.sendWindow == 1 {
          ShortfallAtEof(c, steps);
        } else {
          EmptyFileWritesNothing(c, steps);
        }
      }
    } else {
      var steps := LastChunkCanBeMissed(c);
    }
  }

  // ---------------------------------------------------------------- SREJs that come late

  /** Chunks 1 and 2 are sent and nothing has arrived. */
  ghost predicate TwoSent(c: Config, st: State)
    requires c.Valid() && c.Total() >= 2
  {
    && WeakInv(c, st)
    && st.snd.phase.Polling? && st.snd.sequenceNum == 3 && Base(st.snd) == 1
    && st.rcv == R.InitReceiver(c)
    && st.data == [Encode(1, FLAG_DATA, c.Chunk(1)), Encode(2, FLAG_DATA, c.Chunk(2))]
    && st.acks == []
  }

  lemma SendTwo(c: Config)
    requires c.Valid() && c.sendWindow >= 2 && c.Total() >= 2
    ensures TwoSent(c, Exec(c, [SenderTurn, SenderTurn, SenderTurn]))
  {
    hide Encode;
    StartsInStep(c);
    var st := Exec(c, []);
    RoundSent(c, st, 0, []);
    PollEnds(c, Next(c, st, SenderTurn));
    var st2 := Next(c, Next(c, st, SenderTurn), SenderTurn);
    NextWeak(c, st2, SenderTurn);
    FillInv(c, st2.snd);
    ExecSnoc(c, [], SenderTurn);
    ExecSnoc(c, [SenderTurn], SenderTurn);
    ExecSnoc(c, [SenderTurn, SenderTurn], SenderTurn);
    assert [SenderTurn, SenderTurn, SenderTurn] == [SenderTurn, SenderTurn] + [SenderTurn];
    assert [SenderTurn, SenderTurn] == [SenderTurn] + [SenderTurn];
  }

  const SREJ_1 := Encode(1, FLAG_SREJ, [])
  const RR_2 := Encode(2, FLAG_RR, [])
  const RR_3 := Encode(3, FLAG_RR, [])

  /** A copy of chunk 1 is made. */
  lemma CopyFirst(c: Config, st: State)
    requires c.Valid() && c.Total() >= 2 && TwoSent(c, st)
    ensures var st' := Next(c, st, DuplicateData(0));
            var one, two := Encode(1, FLAG_DATA, c.Chunk(1)), Encode(2, FLAG_DATA, c.Chunk(2));
            WeakInv(c, st') && st' == st.(data := [one, two, one])
  {
    hide Encode;
    NextWeak(c, st, DuplicateData(0));
  }

  /** Chunk 2 is in the ring and chunk 1 is missing. */
  ghost predicate SecondKept(r: R.Receiver, second: seq<byte>) {
    r.mode.OutOfOrder? && r.expected == 1 && r.highest == 2 && r.output == [] && R.SlotOf(r, 2) == R.Slot(true, second)
  }

  /** Chunk 1 is written and chunk 2 is about to be. */
  ghost predicate ReadyToFlush(r: R.Receiver, first: seq<byte>, second: seq<byte>) {
    r.mode.Flush? && r.expected == 2 && r.highest == 2 && r.output == first && R.SlotOf(r, 2) == R.Slot(true, second)
  }

  /** Chunk 2 arrives first. */
  lemma SecondArrives(c: Config, st: State, one: Pdu, two: Pdu)
    requires c.Valid() && WeakInv(c, st)
    requires IsData(two) && Seq(two) == 2 && st.data == [one, two, one] && st.acks == []
    requires st.rcv == R.InitReceiver(c)
    ensures var st' := Next(c, st, DataArrives(1));
            WeakInv(c, st') && st'.snd == st.snd && st'.data == [one, one] && st'.acks == [SREJ_1] &&
            SecondKept(st'.rcv, Payload(two))
  {
    hide Encode, Contiguous;
    NextWeak(c, st, DataArrives(1));
    assert Without(st.data, 1) == [one, one];
  }

  lemma FirstArrives(c: Config, st: State, one: Pdu, second: seq<byte>)
    requires c.Valid() && WeakInv(c, st)
    requires IsData(one) && Seq(one) == 1 && st.data == [one, one] && st.acks == [SREJ_1]
    requires SecondKept(st.rcv, second)
    ensures var st' := Next(c, st, DataArrives(0));
            WeakInv(c, st') && st'.snd == st.snd && st'.data == [one] && st'.acks == [SREJ_1, RR_2] &&
            ReadyToFlush(st'.rcv, Payload(one), second)
  {
    hide Encode, Contiguous;
    NextWeak(c, st, DataArrives(0));
  }

  lemma CopyTriggersFlush(c: Config, st: State, one: Pdu, first: seq<byte>, second: seq<byte>)
    requires c.Valid() && WeakInv(c, st)
    requires IsData(one) && st.data == [one] && st.acks == [SREJ_1, RR_2]
    requires ReadyToFlush(st.rcv, first, second)
    ensures var st' := Next(c, st, DataArrives(0));
            WeakInv(c, st') && st'.snd == st.snd && st'.data == [] && st'.acks == [SREJ_1, RR_2, RR_3] &&
            st'.rcv.mode.InOrder? && st'.rcv.expected == 3 && st'.rcv.output == first + second
  {
    hide Encode, Contiguous;
    NextWeak(c, st, DataArrives(0));
    FlushMoves(st.rcv);
  }

  /** Chunk 1 arrives, and its copy triggers the flush of chunk 2. */
  lemma CatchUp(c: Config, st: State)
    requires c.Valid() && WeakInv(c, st) && c.Total() >= 2
    requires st.data == [Encode(1, FLAG_DATA, c.Chunk(1)), Encode(1, FLAG_DATA, c.Chunk(1))] && st.acks == [SREJ_1]
    requires SecondKept(st.rcv, c.Chunk(2))
    ensures var st' := Next(c, Next(c, st, DataArrives(0)), DataArrives(0));
            WeakInv(c, st') && st'.snd == st.snd && st'.data == [] && st'.acks == [SREJ_1, RR_2, RR_3] &&
            st'.rcv.mode.InOrder? && st'.rcv.expected == 3 && st'.rcv.output == c.Prefix(2)
  {
    DecodeEncode(1, FLAG_DATA, c.Chunk(1));
    hide Encode, Next, WeakInv;
    FirstArrives(c, st, Encode(1, FLAG_DATA, c.Chunk(1)), c.Chunk(2));
    CopyTriggersFlush(c, Next(c, st, DataArrives(0)), Encode(1, FLAG_DATA, c.Chunk(1)), c.Chunk(1), c.Chunk(2));
    c.PrefixGrows(0);
    c.PrefixGrows(1);
    assert c.Prefix(0) == [];
  }

  lemma FlushMoves(r: R.Receiver)
    requires R.SlotOf(r, r.expected).valid && r.expected == r.highest < 0xFFFF_FFFF
    ensures R.FlushLoop(r).expected == r.expected + 1
    ensures R.FlushLoop(r).output == r.output + R.SlotOf(r, r.expected).packet
  {
    assert R.Flushable(r) && !R.Flushable(R.FlushOne(r));
    assert R.FlushLoop(r) == R.FlushLoop(R.FlushOne(r));
  }

  /** The RR of both chunks is processed, the older RR is lost, and the SREJ of chunk 1 stays in flight. */
  lemma SettleTwo(c: Config, st: State)
    requires c.Valid() && WeakInv(c, st) && c.Total() >= 2
    requires st.snd.phase.Polling? && st.snd.sequenceNum == 3 && st.data == []
    requires st.acks == [SREJ_1, RR_2, RR_3] && st.rcv.mode.InOrder? && st.rcv.expected == 3
    requires st.rcv.output == c.Prefix(2)
    ensures InStep(c, Next(c, Next(c, Next(c, st, AckArrives(2)), DropAck(1)), SenderTurn), 2, [SREJ_1])
  {
    hide Encode;
    assert st.acks == [SREJ_1, RR_2] + [RR_3];
    RoundAcked(c, st, [SREJ_1, RR_2]);
    var st1 := Next(c, st, AckArrives(2));
    NextWeak(c, st1, DropAck(1));
    var st2 := Next(c, st1, DropAck(1));
    assert st2.acks == [SREJ_1];
    PollEnds(c, st2);
  }

  /** A copy of chunk 1 is made, and chunk 2 overtakes both. */
  lemma OvertakeTwo(c: Config, st: State)
    requires c.Valid() && c.Total() >= 2 && TwoSent(c, st)
    ensures var st' := Next(c, Next(c, st, DuplicateData(0)), DataArrives(1));
            var one := Encode(1, FLAG_DATA, c.Chunk(1));
            WeakInv(c, st') && st'.snd == st.snd && st'.data == [one, one] && st'.acks == [SREJ_1] &&
            SecondKept(st'.rcv, c.Chunk(2))
  {
    DecodeEncode(2, FLAG_DATA, c.Chunk(2));
    hide Encode, Next, WeakInv;
    CopyFirst(c, st);
    SecondArrives(c, Next(c, st, DuplicateData(0)), Encode(1, FLAG_DATA, c.Chunk(1)), Encode(2, FLAG_DATA, c.Chunk(2)));
  }

  function StalePrelude(): seq<Step> {
    [SenderTurn, SenderTurn, SenderTurn] + [DuplicateData(0)] + [DataArrives(1)] + [DataArrives(0)] +
    [DataArrives(0)] + [AckArrives(2)] + [DropAck(1)] + [SenderTurn]
  }

  /** A run in step after two chunks, with an SREJ of chunk 1 still in flight. */
  lemma StaleSrej(c: Config)
    requires c.Valid() && c.sendWindow >= 2 && c.Total() >= 2
    ensures InStep(c, Exec(c, StalePrelude()), 2, [SREJ_1])
  {
    hide Next, InStep, WeakInv, Encode;
    var s0 := [SenderTurn, SenderTurn, SenderTurn];
    var s1 := s0 + [DuplicateData(0)];
    var s2 := s1 + [DataArrives(1)];
    var s3 := s2 + [DataArrives(0)];
    var s4 := s3 + [DataArrives(0)];
    var s5 := s4 + [AckArrives(2)];
    var s6 := s5 + [DropAck(1)];
    SendTwo(c);
    OvertakeTwo(c, Exec(c, s0));
    ExecSnoc(c, s0, DuplicateData(0));
    ExecSnoc(c, s1, DataArrives(1));
    ExecSnoc(c, s2, DataArrives(0));
    ExecSnoc(c, s3, DataArrives(0));
    CatchUp(c, Exec(c, s2));
    ExecSnoc(c, s4, AckArrives(2));
    ExecSnoc(c, s5, DropAck(1));
    ExecSnoc(c, s6, SenderTurn);
    SettleTwo(c, Exec(c, s4));
  }

  /** ... and after Ws chunks. */
  lemma StaleSrejLater(c: Config) returns (steps: seq<Step>)
    requires c.Valid() && 2 <= c.sendWindow < c.Total()
    ensures InStep(c, Exec(c, steps), c.sendWindow, [SREJ_1])
  {
    StaleSrej(c);
    var more := StayInStep(c, StalePrelude(), 2, c.sendWindow, [SREJ_1]);
    steps := StalePrelude() + more;
  }

  /** Removing leaves every tag where it is. */
  lemma {:induction false} RemoveRangeKeepsTags(w: Window, from: u32, to: u32)
    ensures var w' := RemoveRange(w, from, to);
            |w'.entries| == |w.entries| &&
            forall i :: 0 <= i < |w.entries| ==> w'.entries[i].sequenceNum == w.entries[i].sequenceNum
    decreases if from < to then to - from else 0
  {
    if from < to {
      RemoveRangeKeepsTags(Remove(w, from).0, from + 1, to);
    }
  }

  /** With chunk Ws + 1 just sent, a late SREJ of chunk 1 is answered with it. */
  lemma LateSrejRelabels(c: Config, st: State)
    requires c.Valid() && c.sendWindow < c.Total() && InStep(c, st, c.sendWindow, [SREJ_1])
    ensures var sent := Next(c, st, SenderTurn);
            Mislabels(sent) &&
            Encode(1, FLAG_SREJ_REPLY, c.Chunk(c.sendWindow + 1)) in Next(c, sent, AckArrives(0)).data
  {
    var k := c.sendWindow + 1;
    RoundSent(c, st, c.sendWindow, [SREJ_1]);
    var sent := Next(c, st, SenderTurn);
    DecodeEncode(1, FLAG_SREJ, []);
    ResidueRepeats(1, c.sendWindow);
    assert Slot(sent.snd.window, 1) == Slot(sent.snd.window, k);
    hide Encode;
    SrejLookup(c, sent.snd.window, Base(sent.snd), sent.snd.sequenceNum, SREJ_1);
    assert sent.acks[0] == SREJ_1;
  }

  /** With chunk Ws + 1 sent and acknowledged, a late SREJ of chunk 1 hits its empty slot. */
  lemma LateSrejCrashes(c: Config, st: State)
    requires c.Valid() && c.sendWindow < c.Total() && InStep(c, st, c.sendWindow, [SREJ_1])
    ensures Next(c, Round(c, st), AckArrives(0)).snd.phase.Crashed?
  {
    var k := c.sendWindow + 1;
    RoundSent(c, st, c.sendWindow, [SREJ_1]);
    RoundEnds(c, st, c.sendWindow, [SREJ_1]);
    var sent, end := Next(c, st, SenderTurn), Round(c, st);
    hide Next, Round;
    ResidueRepeats(1, c.sendWindow);
    TagIsLast(c, sent.snd.window, k, end.snd.window);
    DecodeEncode(1, FLAG_SREJ, []);
    hide Encode;
    SrejLookup(c, end.snd.window, k + 1, k + 1, SREJ_1);
    CrashStep(c, end);
  }

  lemma TagIsLast(c: Config, w: Window, k: u32, w': Window)
    requires c.Valid() && 1 < k <= c.Total() && IndexOf(w, 1) == IndexOf(w, k)
    requires Contiguous(c, w, k, k + 1) && w' == RemoveRange(w, 1, k + 1)
    ensures Contiguous(c, w', k + 1, k + 1) && !Slot(w', 1).valid && Slot(w', 1).sequenceNum == k
  {
    RemoveRangeContiguous(c, w, k, k + 1, 1, k + 1);
    RemoveRangeKeepsTags(w, 1, k + 1);
    assert Slot(w, k).sequenceNum == k;
  }

  lemma CrashStep(c: Config, st: State)
    requires st.snd.phase.Polling? && st.acks != [] && !HandleAck(st.snd.window, st.acks[0]).2
    ensures Next(c, st, AckArrives(0)).snd.phase.Crashed?
  {
  }

  /** Some SREJ that the server may be handed now would be answered from the slot of another chunk. */
  ghost predicate Mislabels(st: State) {
    (st.snd.phase.Polling? || st.snd.phase.Waiting?) &&
    exists m :: m in st.acks && Flag(m) == FLAG_SREJ &&
                Slot(st.snd.window, Seq(m)).valid && Slot(st.snd.window, Seq(m)).sequenceNum != Seq(m)
  }

  ghost predicate NeverCrashes(c: Config)
    requires c.Valid()
  {
    forall steps :: !Exec(c, steps).snd.phase.Crashed?
  }

  ghost predicate NeverMislabels(c: Config)
    requires c.Valid()
  {
    forall steps :: !Mislabels(Exec(c, steps))
  }

  /** No SREJ is ever sent, or no slot is ever used twice. */
  predicate SlotsNotReused(c: Config)
    requires c.Valid()
  {
    c.sendWindow == 1 || c.Total() <= c.sendWindow
  }

  /** What then holds: with Ws = 1 no SREJ is in flight, and with N <= Ws every number sent is still its slot's tag. */
  ghost predicate SrejsHarmless(c: Config, st: State)
    requires c.Valid()
  {
    && (c.sendWindow == 1 ==>
          (st.rcv.mode.InOrder? || st.rcv.mode.Closed?) && forall m :: m in st.acks ==> Flag(m) != FLAG_SREJ)
    && (c.Total() <= c.sendWindow ==>
          forall k: u32 :: 1 <= k < st.snd.sequenceNum ==> Slot(st.snd.window, k).sequenceNum == k)
  }

  lemma HarmlessLookup(c: Config, st: State, m: Pdu)
    requires c.Valid() && WeakInv(c, st) && SlotsNotReused(c) && SrejsHarmless(c, st) && m in st.acks
    ensures Flag(m) == FLAG_SREJ ==> Slot(st.snd.window, Seq(m)).sequenceNum == Seq(m)
    ensures HandleAck(st.snd.window, m).2
  {
    assert AckInFlight(st, m);
    if Flag(m) == FLAG_SREJ {
      SrejLookup(c, st.snd.window, Base(st.snd), st.snd.sequenceNum, m);
      assert Slot(st.snd.window, Seq(m)).sequenceNum == Seq(m);
    }
  }

  /** Storing number n in its own slot keeps the tags of the numbers before it, if they have other slots. */
  lemma PutKeepsTags(w: Window, n: u32, e: Entry, count: int)
    requires n <= |w.entries| && e.sequenceNum == n
    requires forall k: u32 :: 1 <= k < n ==> Slot(w, k).sequenceNum == k
    ensures forall k: u32 :: 1 <= k <= n ==> Slot(Put(w, IndexOf(w, n), e, count), k).sequenceNum == k
  {
    var w' := Put(w, IndexOf(w, n), e, count);
    forall k: u32 | 1 <= k <= n
      ensures Slot(w', k).sequenceNum == k
    {
      if k < n && IndexOf(w, k) == IndexOf(w, n) {
        ResiduesDiffer(k, n, |w.entries|);
      }
      assert k < n ==> Slot(w', k) == Slot(w, k);
    }
  }

  lemma HarmlessFill(c: Config, s: Sender)
    requires c.Valid() && SenderInv(c, s) && s.phase.Filling? && c.Total() <= c.sendWindow
    requires forall k: u32 :: 1 <= k < s.sequenceNum ==> Slot(s.window, k).sequenceNum == k
    ensures var s' := Fill(c, s).0;
            forall k: u32 :: 1 <= k < s'.sequenceNum ==> Slot(s'.window, k).sequenceNum == k
  {
    hide Encode;
    FillInv(c, s);
    var n := s.sequenceNum;
    if n <= c.Total() {
      c.EndOfFile(n - 1);
      c.OffsetMonotone(n - 1);
      var pdu := Encode(n, FLAG_DATA, c.Chunk(n));
      assert Read(c, s.filePos) == c.Chunk(n);
      InsertContiguous(c, s.window, Base(s), n);
      PutKeepsTags(s.window, n, Entry(Packet(pdu), n, true), s.window.validCount + 1);
    }
  }

  lemma HarmlessSend(c: Config, st: State, poll: Poll)
    requires c.Valid() && SenderInv(c, st.snd) && SlotsNotReused(c) && SrejsHarmless(c, st)
    ensures SrejsHarmless(c, SenderMoves(c, st, poll))
  {
    hide Encode, HandleAck, Resend, Fill;
    if st.snd.phase.Filling? {
      if c.Total() <= c.sendWindow {
        HarmlessFill(c, st.snd);
      }
    } else {
      SameTags(c, st.snd, poll);
    }
  }

  lemma SameTags(c: Config, s: Sender, poll: Poll)
    requires !s.phase.Filling?
    ensures var s' := SenderStep(c, s, poll).0;
            s'.sequenceNum == s.sequenceNum && |s'.window.entries| == |s.window.entries| &&
            forall k: u32 :: Slot(s'.window, k).sequenceNum == Slot(s.window, k).sequenceNum
  {
    hide Encode, FirstValid, Get;
    if poll.Ready? {
      RemoveRangeKeepsTags(s.window, 1, Seq(poll.m));
    }
  }

  lemma HarmlessNext(c: Config, st: State, step: Step)
    requires c.Valid() && WeakInv(c, st) && SlotsNotReused(c) && SrejsHarmless(c, st)
    requires !st.snd.phase.Crashed?
    ensures SrejsHarmless(c, Next(c, st, step)) && !Next(c, st, step).snd.phase.Crashed?
  {
    hide Encode, R.ReceiverStep, SenderStep, SenderInv;
    if Enabled(st, step) {
      match step
      case SenderTurn =>
        HarmlessSend(c, st, Silent);
        Acks.SilentSurvives(c, st.snd);
      case AckArrives(i) =>
        assert st.acks[i] in st.acks && AckInFlight(st, st.acks[i]);
        HarmlessLookup(c, st, st.acks[i]);
        AckSurvives(c, st.snd, st.acks[i]);
        HarmlessSend(c, st.(acks := Without(st.acks, i)), Ready(st.acks[i]));
      case DataArrives(i) =>
        if c.sendWindow == 1 {
          NoSrejFromOne(c, st, st.data[i]);
        }
      case _ =>
    }
  }

  lemma AckSurvives(c: Config, s: Sender, m: Pdu)
    requires HandleAck(s.window, m).2 && !s.phase.Crashed? && !s.phase.Filling?
    ensures !SenderStep(c, s, Ready(m)).0.phase.Crashed?
  {
  }

  /** With Ws = 1 nothing can run ahead of the expected number, so no SREJ is sent. */
  lemma NoSrejFromOne(c: Config, st: State, m: Pdu)
    requires c.Valid() && WeakInv(c, st) && m in st.data && c.sendWindow == 1
    requires st.rcv.mode.InOrder? || st.rcv.mode.Closed?
    ensures var (r, out) := R.ReceiverStep(st.rcv, m);
            (r.mode.InOrder? || r.mode.Closed?) && forall d :: d in out ==> Flag(d) != FLAG_SREJ
  {
    assert PlainData(c, st.snd, m);
    DecodeEncode(Succ(st.rcv.expected), FLAG_RR, []);
    DecodeEncode(Seq(m), FLAG_EOF_ACK, []);
    hide Encode;
  }

  lemma {:induction false} HarmlessHolds(c: Config, steps: seq<Step>)
    requires c.Valid() && SlotsNotReused(c)
    ensures SrejsHarmless(c, Exec(c, steps)) && !Exec(c, steps).snd.phase.Crashed?
  {
    hide Next;
    if steps != [] {
      HarmlessHolds(c, steps[..|steps| - 1]);
      WeaklyReachable(c, steps[..|steps| - 1]);
      HarmlessNext(c, Exec(c, steps[..|steps| - 1]), steps[|steps| - 1]);
    }
  }

  /** No run kills the server on a null packet if and only if Ws is 1 or the window is never reused. */
  lemma {:induction false} CrashFreeExactlyWhen(c: Config)
    requires c.Valid()
    ensures NeverCrashes(c) <==> SlotsNotReused(c)
  {
    hide Exec, Next, Round;
    if SlotsNotReused(c) {
      forall steps
        ensures !Exec(c, steps).snd.phase.Crashed?
      {
        HarmlessHolds(c, steps);
      }
    } else {
      var steps := StaleSrejLater(c);
      var st := Exec(c, steps);
      RoundSent(c, st, c.sendWindow, [SREJ_1]);
      ExecRound(c, steps, [SREJ_1]);
      LateSrejCrashes(c, st);
      ExecSnoc(c, steps + RoundSteps([SREJ_1]), AckArrives(0));
      assert Exec(c, steps + RoundSteps([SREJ_1]) + [AckArrives(0)]).snd.phase.Crashed?;
    }
  }

  /** No SREJ can be answered with a chunk of another number if and only if the same holds. */
  lemma {:induction false} LabelsTrueExactlyWhen(c: Config)
    requires c.Valid()
    ensures NeverMislabels(c) <==> SlotsNotReused(c)
  {
    hide Exec, Next;
    if SlotsNotReused(c) {
      forall steps
        ensures !Mislabels(Exec(c, steps))
      {
        HarmlessHolds(c, steps);
        WeaklyReachable(c, steps);
        NoneMislabelled(c, Exec(c, steps));
      }
    } else {
      var steps := StaleSrejLater(c);
      LateSrejRelabels(c, Exec(c, steps));
      ExecSnoc(c, steps, SenderTurn);
      assert Mislabels(Exec(c, steps + [SenderTurn]));
    }
  }

  /** The mislabelled reply really goes out: chunk Ws + 1 under number 1. */
  lemma {:induction false} ReplyCanCarryWrongChunk(c: Config) returns (steps: seq<Step>)
    requires c.Valid() && !SlotsNotReused(c)
    ensures Encode(1, FLAG_SREJ_REPLY, c.Chunk(c.sendWindow + 1)) in Exec(c, steps).data
  {
    hide Exec, Next, Encode;
    var run := StaleSrejLater(c);
    LateSrejRelabels(c, Exec(c, run));
    ExecSnoc(c, run, SenderTurn);
    ExecSnoc(c, run + [SenderTurn], AckArrives(0));
    steps := run + [SenderTurn] + [AckArrives(0)];
  }

  lemma NoneMislabelled(c: Config, st: State)
    requires c.Valid() && WeakInv(c, st) && SlotsNotReused(c) && SrejsHarmless(c, st)
    ensures !Mislabels(st)
  {
    forall m | m in st.acks
      ensures Flag(m) == FLAG_SREJ ==> Slot(st.snd.window, Seq(m)).sequenceNum == Seq(m)
    {
      HarmlessLookup(c, st, m);
    }
  }

  // ---------------------------------------------------------------- timeouts

  predicate ResendsOldest(c: Config, s: Sender) {
    1 <= Base(s) < 0x1_0000_0000 && Timeout(s).1 == [Encode(Base(s), FLAG_TIMEOUT_RESEND, c.Chunk(Base(s)))]
  }

  /** Every timeout with a full window resends the oldest unacknowledged chunk. */
  ghost predicate AlwaysResendsOldest(c: Config)
    requires c.Valid()
  {
    forall steps :: Exec(c, steps).snd.phase.Waiting? ==> ResendsOldest(c, Exec(c, steps).snd)
  }

  /** After Ws sends and no ack the window is full and base is 1. */
  lemma FullWindowReached(c: Config)
    requires c.Valid() && c.sendWindow <= c.Total()
    ensures var st := Exec(c, Turns(2 * c.sendWindow));
            SentOnly(c, st, c.sendWindow) && st.snd.phase.Waiting?
  {
    hide Encode;
    FillRun(c, c.sendWindow);
  }

  /** The comment's promise holds on every run if and only if Ws is 1 or the file never fills the window. */
  lemma {:induction false} OldestResentExactlyWhen(c: Config)
    requires c.Valid()
    ensures AlwaysResendsOldest(c) <==> c.sendWindow == 1 || c.Total() < c.sendWindow
  {
    hide Exec, ResendsOldest, SentOnly;
    if c.sendWindow == 1 || c.Total() < c.sendWindow {
      forall steps | Exec(c, steps).snd.phase.Waiting?
        ensures ResendsOldest(c, Exec(c, steps).snd)
      {
        WeaklyReachable(c, steps);
        SmallWindowResendsOldest(c, Exec(c, steps).snd);
      }
    } else {
      FullWindowReached(c);
      FirstTimeoutMissesOldest(c, Exec(c, Turns(2 * c.sendWindow)));
    }
  }

  lemma SmallWindowResendsOldest(c: Config, s: Sender)
    requires c.Valid() && SenderInv(c, s) && s.phase.Waiting?
    requires c.sendWindow == 1 || c.Total() < c.sendWindow
    ensures ResendsOldest(c, s)
  {
    hide Encode, Timeout;
    var k := TimeoutResends(c, s);
    assert Base(s) % 1 == 0;
  }

  lemma FirstTimeoutMissesOldest(c: Config, st: State)
    requires c.Valid() && 2 <= c.sendWindow <= c.Total() && SentOnly(c, st, c.sendWindow) && st.snd.phase.Waiting?
    ensures !ResendsOldest(c, st.snd)
  {
    var k := TimeoutResends(c, st.snd);
    OneIsNoMultiple(c.sendWindow);
    hide Encode, Timeout, Contiguous, PhaseInv;
  }

  lemma OneIsNoMultiple(size: nat)
    requires size >= 2
    ensures 1 % size != 0
  {
  }

  // ---------------------------------------------------------------- a loss that is never repaired

  /** The receiver waits for chunk 1, and nothing in flight is chunk 1 or the EOF. */
  ghost predicate ChunkOneGone(st: State) {
    && st.rcv.mode.OutOfOrder? && st.rcv.expected == 1 && st.rcv.output == []
    && forall m :: m in st.data ==> IsData(m) && Seq(m) > 1
  }

  lemma GoneForGood(c: Config, st: State, step: Step)
    requires ChunkOneGone(st) && st.snd.phase.Done?
    ensures ChunkOneGone(Next(c, st, step)) && Next(c, st, step).snd.phase.Done?
  {
    if step.DataArrives? && Enabled(st, step) {
      assert st.data[step.i] in st.data;
    } else if step.DuplicateData? && Enabled(st, step) {
      assert st.data[step.i] in st.data;
    }
  }

  lemma {:induction false} GoneInEveryContinuation(c: Config, steps: seq<Step>, more: seq<Step>)
    requires c.Valid() && ChunkOneGone(Exec(c, steps)) && Exec(c, steps).snd.phase.Done?
    ensures ChunkOneGone(Exec(c, steps + more)) && Exec(c, steps + more).snd.phase.Done?
  {
    hide Next, ChunkOneGone;
    if more == [] {
      assert steps + more == steps;
    } else {
      GoneInEveryContinuation(c, steps, more[..|more| - 1]);
      ExecConcat(c, steps, more);
      GoneForGood(c, Exec(c, steps + more[..|more| - 1]), more[|more| - 1]);
    }
  }

  /** The server waits with its first Ws chunks unacknowledged. */
  ghost predicate StuckOnFirst(c: Config, st: State, timeouts: nat)
    requires c.Valid()
  {
    && WeakInv(c, st) && ChunkOneGone(st)
    && Base(st.snd) == 1 && st.snd.sequenceNum == c.sendWindow + 1
    && st.snd.timeoutCount == timeouts
    && (if timeouts == 10 then st.snd.phase.Done? else st.snd.phase.Waiting?)
  }

  lemma OneMoreTimeout(c: Config, st: State, k: nat)
    requires c.Valid() && c.sendWindow >= 2 && k < 10 && StuckOnFirst(c, st, k)
    ensures StuckOnFirst(c, Next(c, st, SenderTurn), k + 1)
  {
    var k0 := TimeoutResends(c, st.snd);
    DecodeEncode(k0, FLAG_TIMEOUT_RESEND, c.Chunk(k0));
    OneIsNoMultiple(c.sendWindow);
    hide Encode, Timeout, Contiguous, PhaseInv, DataInFlight;
    NextWeak(c, st, SenderTurn);
    assert Next(c, st, SenderTurn).data == st.data + [Encode(k0, FLAG_TIMEOUT_RESEND, c.Chunk(k0))];
  }

  lemma {:induction false} TimeoutsRunOut(c: Config, steps: seq<Step>, k: nat)
    requires c.Valid() && c.sendWindow >= 2 && k <= 10 && StuckOnFirst(c, Exec(c, steps), 0)
    ensures StuckOnFirst(c, Exec(c, steps + Turns(k)), k)
  {
    hide Next, StuckOnFirst;
    if k == 0 {
      assert steps + Turns(0) == steps;
    } else {
      TimeoutsRunOut(c, steps, k - 1);
      OneMoreTimeout(c, Exec(c, steps + Turns(k - 1)), k - 1);
      ExecSnoc(c, steps + Turns(k - 1), SenderTurn);
      assert steps + Turns(k) == steps + Turns(k - 1) + [SenderTurn];
    }
  }

  /** Chunk 1 is lost, chunk 2 arrives, and the SREJ of chunk 1 is lost. */
  lemma LoseChunkOneAndSrej(c: Config, st: State)
    requires c.Valid() && WeakInv(c, st) && 2 <= c.sendWindow <= c.Total() && SentOnly(c, st, c.sendWindow)
    requires st.snd.phase.Waiting? && st.snd.timeoutCount == 0
    ensures StuckOnFirst(c, Next(c, Next(c, Next(c, st, DropData(0)), DataArrives(0)), DropAck(0)), 0)
  {
    hide Encode, SenderInv;
    NextWeak(c, st, DropData(0));
    var st1 := Next(c, st, DropData(0));
    assert st1.data == FirstSends(c, c.sendWindow)[1..];
    LaterSends(c, c.sendWindow);
    ChunkTwoArrives(c, st1);
  }

  lemma LaterSends(c: Config, k: nat)
    requires c.Valid() && 1 <= k <= c.Total()
    ensures forall m :: m in FirstSends(c, k)[1..] ==> IsData(m) && Seq(m) > 1
  {
    var sends := FirstSends(c, k);
    forall i | 1 <= i < k
      ensures IsData(sends[i]) && Seq(sends[i]) > 1
    {
      DecodeEncode(i + 1, FLAG_DATA, c.Chunk(i + 1));
    }
  }

  lemma ChunkTwoArrives(c: Config, st: State)
    requires c.Valid() && WeakInv(c, st) && st.rcv == R.InitReceiver(c) && st.acks == [] && st.data != []
    requires forall m :: m in st.data ==> IsData(m) && Seq(m) > 1
    ensures var st' := Next(c, Next(c, st, DataArrives(0)), DropAck(0));
            WeakInv(c, st') && st'.snd == st.snd && ChunkOneGone(st') && st'.acks == []
  {
    hide Encode, Contiguous;
    var st1 := Next(c, st, DataArrives(0));
    assert st.data[0] in st.data;
    NextWeak(c, st, DataArrives(0));
    NextWeak(c, st1, DropAck(0));
  }

  /**
   For every 2 <= Ws <= N two losses, of the first packet and of its SREJ, can be final: the server gives up
   without resending chunk 1, and in no continuation does the client write a single byte.
   */
  lemma {:induction false} LossNeedNotBeRepaired(c: Config) returns (steps: seq<Step>)
    requires c.Valid() && 2 <= c.sendWindow <= c.Total()
    ensures Exec(c, steps).snd.phase.Done?
    ensures forall more: seq<Step> ::
              Exec(c, steps + more).rcv.mode.OutOfOrder? && Exec(c, steps + more).rcv.output == []
  {
    hide Next;
    var sent := Turns(2 * c.sendWindow);
    FullWindowReached(c);
    WeaklyReachable(c, sent);
    LoseChunkOneAndSrej(c, Exec(c, sent));
    var stuck := sent + [DropData(0)] + [DataArrives(0)] + [DropAck(0)];
    ExecSnoc(c, sent, DropData(0));
    ExecSnoc(c, sent + [DropData(0)], DataArrives(0));
    ExecSnoc(c, sent + [DropData(0)] + [DataArrives(0)], DropAck(0));
    TimeoutsRunOut(c, stuck, 10);
    steps := stuck + Turns(10);
    forall more: seq<Step>
      ensures Exec(c, steps + more).rcv.mode.OutOfOrder? && Exec(c, steps + more).rcv.output == []
    {
      GoneInEveryContinuation(c, steps, more);
    }
  }
}

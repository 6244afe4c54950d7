/** The two channels neither invent nor forget: over a run every message in flight is accounted for. */
module Channels {
  import opened Pdus
  import opened Transfers
  import opened Senders
  import opened Receivers
  import opened Protocol

  /** The message an enabled step takes off the data channel, if it does. */
  function DataTaken(st: State, step: Step): seq<Pdu> {
    if !Enabled(st, step) then []
    else match step
      case DataArrives(i) => [st.data[i]]
      case DropData(i) => [st.data[i]]
      case _ => []
  }

  /** The message an enabled step takes off the ack channel, if it does. */
  function AckTaken(st: State, step: Step): seq<Pdu> {
    if !Enabled(st, step) then []
    else match step
      case AckArrives(i) => [st.acks[i]]
      case DropAck(i) => [st.acks[i]]
      case _ => []
  }

  /** The message an enabled step copies, if it does. */
  function Copied(st: State, step: Step): (seq<Pdu>, seq<Pdu>) {
    if !Enabled(st, step) then ([], [])
    else match step
      case DuplicateData(i) => ([st.data[i]], [])
      case DuplicateAck(i) => ([], [st.acks[i]])
      case _ => ([], [])
  }

  /** What a run has taken off the two channels, and what it has copied on them. */
  datatype Ledger = Ledger(
    dataTaken: multiset<Pdu>,
    ackTaken: multiset<Pdu>,
    dataCopied: multiset<Pdu>,
    ackCopied: multiset<Pdu>)

  function Account(c: Config, steps: seq<Step>): Ledger
    requires c.Valid()
  {
    if steps == [] then Ledger(multiset{}, multiset{}, multiset{}, multiset{})
    else
      var before := Account(c, steps[..|steps| - 1]);
      var st, step := Exec(c, steps[..|steps| - 1]), steps[|steps| - 1];
      Ledger(
        before.dataTaken + multiset(DataTaken(st, step)),
        before.ackTaken + multiset(AckTaken(st, step)),
        before.dataCopied + multiset(Copied(st, step).0),
        before.ackCopied + multiset(Copied(st, step).1))
  }

  ghost predicate Balanced(st: State, ledger: Ledger) {
    && multiset(st.data) + ledger.dataTaken == multiset(st.dataSent) + ledger.dataCopied
    && multiset(st.acks) + ledger.ackTaken == multiset(st.acksSent) + ledger.ackCopied
  }

  lemma TakeOne(s: seq<Pdu>, i: nat)
    requires i < |s|
    ensures multiset(Without(s, i)) + multiset([s[i]]) == multiset(s)
  {
    assert s == s[..i] + [s[i]] + s[i + 1..];
  }

  lemma BalancedNext(c: Config, st: State, step: Step, ledger: Ledger)
    requires Balanced(st, ledger)
    ensures var (data, acks) := Copied(st, step);
            Balanced(Next(c, st, step),
                     Ledger(ledger.dataTaken + multiset(DataTaken(st, step)),
                            ledger.ackTaken + multiset(AckTaken(st, step)),
                            ledger.dataCopied + multiset(data),
                            ledger.ackCopied + multiset(acks)))
  {
    hide SenderStep, ReceiverStep;
    var st' := Next(c, st, step);
    DataOfStep(c, st, step);
    AcksOfStep(c, st, step);
    hide Next, DataTaken, AckTaken, Copied;
    var (data, acks) := Copied(st, step);
    Settle(multiset(st.data), multiset(st'.data), multiset(st.dataSent), multiset(st'.dataSent),
           ledger.dataTaken, multiset(DataTaken(st, step)), ledger.dataCopied, multiset(data));
    Settle(multiset(st.acks), multiset(st'.acks), multiset(st.acksSent), multiset(st'.acksSent),
           ledger.ackTaken, multiset(AckTaken(st, step)), ledger.ackCopied, multiset(acks));
  }

  /** A balanced account stays balanced by a balanced entry. */
  lemma Settle<T>(flight: multiset<T>, flight': multiset<T>, sent: multiset<T>, sent': multiset<T>,
                  taken: multiset<T>, take: multiset<T>, copied: multiset<T>, copy: multiset<T>)
    requires flight + taken == sent + copied
    requires flight' + take + sent == flight + copy + sent'
    ensures flight' + (taken + take) == sent' + (copied + copy)
  {
    forall x
      ensures (flight' + (taken + take))[x] == (sent' + (copied + copy))[x]
    {
      assert (flight + taken)[x] == (sent + copied)[x];
      assert (flight' + take + sent)[x] == (flight + copy + sent')[x];
    }
  }

  lemma DataOfStep(c: Config, st: State, step: Step)
    ensures var st' := Next(c, st, step);
            multiset(st'.data) + multiset(DataTaken(st, step)) + multiset(st.dataSent) ==
            multiset(st.data) + multiset(Copied(st, step).0) + multiset(st'.dataSent)
  {
    hide SenderStep, ReceiverStep;
    if Enabled(st, step) {
      match step
      case DataArrives(i) => TakeOne(st.data, i);
      case DropData(i) => TakeOne(st.data, i);
      case _ =>
    }
  }

  lemma AcksOfStep(c: Config, st: State, step: Step)
    ensures var st' := Next(c, st, step);
            multiset(st'.acks) + multiset(AckTaken(st, step)) + multiset(st.acksSent) ==
            multiset(st.acks) + multiset(Copied(st, step).1) + multiset(st'.acksSent)
  {
    hide SenderStep, ReceiverStep;
    if Enabled(st, step) {
      match step
      case AckArrives(i) => TakeOne(st.acks, i);
      case DropAck(i) => TakeOne(st.acks, i);
      case _ =>
    }
  }

  /** On each channel, what is in flight and what was taken off is what was sent and what was copied. */
  lemma {:induction false} MessagesConserved(c: Config, steps: seq<Step>)
    requires c.Valid()
    ensures var st, ledger := Exec(c, steps), Account(c, steps);
            multiset(st.data) + ledger.dataTaken == multiset(st.dataSent) + ledger.dataCopied &&
            multiset(st.acks) + ledger.ackTaken == multiset(st.acksSent) + ledger.ackCopied
  {
    hide Next, DataTaken, AckTaken, Copied;
    if steps != [] {
      MessagesConserved(c, steps[..|steps| - 1]);
      BalancedNext(c, Exec(c, steps[..|steps| - 1]), steps[|steps| - 1], Account(c, steps[..|steps| - 1]));
    }
  }
}

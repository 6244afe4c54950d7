/** The programs and the protocol model describe the same behaviour. */
module Refinement {
  import opened Pdus
  import opened Transfers
  import opened Senders
  import opened Receivers
  import opened Protocol
  import opened Servers
  import Rcopy

  // ---------------------------------------------------------------- the client

  /** The messages a run delivers to the client. */
  function Delivered(c: Config, steps: seq<Step>): seq<Pdu>
    requires c.Valid()
  {
    if steps == [] then []
    else
      var st, step := Exec(c, steps[..|steps| - 1]), steps[|steps| - 1];
      Delivered(c, steps[..|steps| - 1]) +
      if step.DataArrives? && Enabled(st, step) then [st.data[step.i]] else []
  }

  /**
   In every run the receiver is in the state `ProcessTransfer` reaches on the messages delivered, and what has
   entered the ack channel is what `ProcessTransfer` sends on them.
   */
  lemma {:induction false} ClientFollowsProtocol(c: Config, steps: seq<Step>)
    requires c.Valid()
    ensures (Exec(c, steps).rcv, Exec(c, steps).acksSent) ==
            Rcopy.ReceiveAll(InitReceiver(c), Delivered(c, steps))
  {
    hide ReceiverStep, SenderStep;
    if steps != [] {
      var prefix, step := steps[..|steps| - 1], steps[|steps| - 1];
      var st := Exec(c, prefix);
      ClientFollowsProtocol(c, prefix);
      if step.DataArrives? && Enabled(st, step) {
        var all := Delivered(c, steps);
        assert all == Delivered(c, prefix) + [st.data[step.i]];
        assert all[..|all| - 1] == Delivered(c, prefix);
      } else {
        ReceiverMovesOnReceipt(c, st, step);
        assert Delivered(c, steps) == Delivered(c, prefix);
      }
    }
  }

  // ---------------------------------------------------------------- the server

  /** What the server has become and sent after a list of poll results, one a step. */
  function Drive(c: Config, polls: seq<Poll>): (Sender, seq<Pdu>)
    requires c.Valid()
  {
    if polls == [] then (InitSender(c), [])
    else
      var (s, sent) := Drive(c, polls[..|polls| - 1]);
      var (s', out) := SenderStep(c, s, polls[|polls| - 1]);
      (s', sent + out)
  }

  /** The poll results a run shows the server. */
  function Polls(c: Config, steps: seq<Step>): seq<Poll>
    requires c.Valid()
  {
    if steps == [] then []
    else
      var st, step := Exec(c, steps[..|steps| - 1]), steps[|steps| - 1];
      Polls(c, steps[..|steps| - 1]) + PollOf(st, step)
  }

  function PollOf(st: State, step: Step): seq<Poll> {
    if !Enabled(st, step) then []
    else if step.SenderTurn? then [Silent]
    else if step.AckArrives? then [Ready(st.acks[step.i])]
    else []
  }

  lemma NextSender(c: Config, st: State, step: Step)
    ensures var poll := if step.AckArrives? && Enabled(st, step) then Ready(st.acks[step.i]) else Silent;
            var st' := Next(c, st, step);
            if Enabled(st, step) && (step.SenderTurn? || step.AckArrives?)
            then (st'.snd, st'.dataSent) ==
                 (SenderStep(c, st.snd, poll).0, st.dataSent + SenderStep(c, st.snd, poll).1)
            else (st'.snd, st'.dataSent) == (st.snd, st.dataSent)
  {
    hide SenderStep, ReceiverStep;
  }

  /** In every run the sender is where those polls drive it, and has sent what they make it send. */
  lemma {:induction false} SenderFollowsPolls(c: Config, steps: seq<Step>)
    requires c.Valid()
    ensures (Exec(c, steps).snd, Exec(c, steps).dataSent) == Drive(c, Polls(c, steps))
  {
    hide SenderStep, Next, Enabled;
    if steps != [] {
      var prefix, step := steps[..|steps| - 1], steps[|steps| - 1];
      SenderFollowsPolls(c, prefix);
      NextSender(c, Exec(c, prefix), step);
      var before, after := Polls(c, prefix), Polls(c, steps);
      if |after| > |before| {
        assert after[..|after| - 1] == before;
      } else {
        assert after == before;
      }
    }
  }

  /** Whatever script the server object runs against, it behaves as some list of polls drives the protocol's sender. */
  lemma {:induction false} ServerFollowsPolls(c: Config, script: seq<Poll>, n: nat) returns (polls: seq<Poll>)
    requires c.Valid()
    ensures var p := Ticks(c, Child(InitSender(c), script, []), n);
            Drive(c, polls) == (p.s, p.sent)
  {
    hide SenderStep;
    if n == 0 {
      polls := [];
    } else {
      polls := ServerFollowsPolls(c, script, n - 1);
      var p := Ticks(c, Child(InitSender(c), script, []), n - 1);
      if Active(p.s) {
        var poll := if p.s.phase.Filling? then Silent else Head(p.inbox);
        assert (polls + [poll])[..|polls|] == polls;
        polls := polls + [poll];
      }
    }
  }

  /** The polls of a run that the server looks at: not those of its fill turns. */
  function Heard(c: Config, steps: seq<Step>): seq<Poll>
    requires c.Valid()
  {
    if steps == [] then []
    else
      var st, step := Exec(c, steps[..|steps| - 1]), steps[|steps| - 1];
      Heard(c, steps[..|steps| - 1]) + if st.snd.phase.Filling? then [] else PollOf(st, step)
  }

  /**
   Every run is one the server object can take part in: on the script of what the run lets it hear, followed by
   anything, it comes to the run's sender state, having sent exactly what entered the data channel.
   */
  lemma {:induction false} ServerCanFollowRun(c: Config, steps: seq<Step>, rest: seq<Poll>) returns (n: nat)
    requires c.Valid()
    ensures Ticks(c, Child(InitSender(c), Heard(c, steps) + rest, []), n) ==
            Child(Exec(c, steps).snd, rest, Exec(c, steps).dataSent)
  {
    hide SenderStep, Next;
    if steps == [] {
      n := 0;
      assert Heard(c, steps) + rest == rest;
    } else {
      var prefix, step := steps[..|steps| - 1], steps[|steps| - 1];
      var st := Exec(c, prefix);
      NextSender(c, st, step);
      var heard := if st.snd.phase.Filling? then [] else PollOf(st, step);
      assert Heard(c, steps) + rest == Heard(c, prefix) + (heard + rest);
      n := ServerCanFollowRun(c, prefix, heard + rest);
      if Enabled(st, step) && (step.SenderTurn? || step.AckArrives?) {
        n := n + 1;
        assert heard != [] ==> Tail(heard + rest) == rest;
      } else {
        assert heard + rest == rest;
      }
    }
  }
}

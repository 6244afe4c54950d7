/**
 The server child as an object: the window it updates in place, the loops of `send_data_state` with their
 local counters, and the EOF states. The socket is a script of poll results, silent once it is used up.
 */
module Servers {
  import opened Bytes
  import opened Checksum
  import opened Pdus
  import opened Windows
  import opened Transfers
  import opened Senders

  /** The server together with its socket: what it will still hear and what it has said. */
  datatype Child = Child(s: Sender, inbox: seq<Poll>, sent: seq<Pdu>)

  function Head(inbox: seq<Poll>): Poll {
    if inbox == [] then Silent else inbox[0]
  }

  function Tail(inbox: seq<Poll>): seq<Poll> {
    if inbox == [] then [] else inbox[1..]
  }

  /** One sender step against the script. */
  function Tick(c: Config, p: Child): Child {
    if !Active(p.s) then p
    else
      var poll := if p.s.phase.Filling? then Silent else Head(p.inbox);
      var (s, out) := SenderStep(c, p.s, poll);
      Child(s, if p.s.phase.Filling? then p.inbox else Tail(p.inbox), p.sent + out)
  }

  function Ticks(c: Config, p: Child, n: nat): Child {
    if n == 0 then p else Tick(c, Ticks(c, p, n - 1))
  }

  lemma {:induction false} TicksAdd(c: Config, p: Child, n: nat, k: nat)
    ensures Ticks(c, Ticks(c, p, n), k) == Ticks(c, p, n + k)
  {
    hide Tick;
    if k > 0 {
      TicksAdd(c, p, n, k - 1);
    }
  }

  // One step from each phase, spelled out.

  lemma FillingTick(c: Config, p: Child)
    requires p.s.phase.Filling?
    ensures Tick(c, p) == Child(Fill(c, p.s).0, p.inbox, p.sent + Fill(c, p.s).1)
  {
  }

  lemma PollingTick(c: Config, p: Child)
    requires p.s.phase.Polling?
    ensures Head(p.inbox).Silent? ==>
              Tick(c, p) ==
              Child(p.s.(timeoutCount := 0, phase := NextLoop(p.s.window)), Tail(p.inbox), p.sent)
    ensures Head(p.inbox).Ready? ==>
              var (w, out, alive) := HandleAck(p.s.window, Head(p.inbox).m);
              Tick(c, p) ==
              Child(p.s.(window := w, phase := if alive then Polling else Crashed), Tail(p.inbox), p.sent + out)
  {
    assert p.sent + [] == p.sent;
  }

  lemma WaitingTick(c: Config, p: Child)
    requires p.s.phase.Waiting?
    ensures Head(p.inbox).Silent? ==>
              Tick(c, p) == Child(Timeout(p.s).0, Tail(p.inbox), p.sent + Timeout(p.s).1)
    ensures Head(p.inbox).Ready? ==>
              var (w, out, alive) := HandleAck(p.s.window, Head(p.inbox).m);
              Tick(c, p) ==
              Child(if alive then p.s.(window := w, timeoutCount := 0, phase := NextLoop(w))
                    else p.s.(window := w, phase := Crashed),
                    Tail(p.inbox), p.sent + out)
  {
  }

  lemma EofTick(c: Config, p: Child)
    requires p.s.phase.EofWait?
    ensures Head(p.inbox).Ready? ==>
              Tick(c, p) ==
              Child(p.s.(phase := if AcceptsEofAck(c, p.s, Head(p.inbox).m) then Done else EofWait),
                    Tail(p.inbox), p.sent)
    ensures Head(p.inbox).Silent? && p.s.eofResendCount >= MAX_EOF_RESENDS ==>
              Tick(c, p) == Child(p.s.(phase := Done), Tail(p.inbox), p.sent)
    ensures Head(p.inbox).Silent? && p.s.eofResendCount < MAX_EOF_RESENDS ==>
              Tick(c, p) ==
              Child(p.s.(eofResendCount := p.s.eofResendCount + 1), Tail(p.inbox),
                    p.sent + [Encode(p.s.eofSeq, FLAG_EOF, [])])
  {
    assert p.sent + [] == p.sent;
  }

  /** `createPDU` into a fresh buffer: the same bytes on either kind of host. */
  method BuildPdu(o: Order, seqNum: u32, flag: byte, payload: seq<byte>) returns (m: Pdu)
    ensures m == Encode(seqNum, flag, payload)
  {
    var buf := new byte[HEADER + |payload|];
    var len := CreatePdu(o, buf, seqNum, flag, payload);
    EncodeOrderIndependent(seqNum, flag, payload);
    m := buf[..len];
  }

  class Server {
    const window: CircularQueue
    const file: seq<byte>
    const bufferSize: nat
    const order: Order
    ghost const c: Config
    var filePos: nat
    var eofSeq: u32
    var eofPacket: Pdu
    var eofResendCount: nat
    var inbox: seq<Poll>
    var sent: seq<Pdu>

    ghost predicate Valid()
      reads this, window
    {
      && window.Valid()
      && c.file == file && c.bufferSize == bufferSize && c.order == order
      && filePos <= |file|
    }

    /** The abstract value, given the phase and the locals of the running state function. */
    ghost function Value(phase: Phase, sequenceNum: u32, timeoutCount: nat): Child
      reads this, window, window.entries
      requires Valid()
    {
      Child(Sender(phase, window.Value(), sequenceNum, filePos, timeoutCount, eofSeq, eofResendCount), inbox, sent)
    }

    constructor (c: Config, script: seq<Poll>)
      requires c.Valid()
      ensures Valid() && fresh(window) && fresh(window.entries) && this.c == c
      ensures Value(Filling, 1, 0) == Child(InitSender(c), script, [])
    {
      this.c, file, bufferSize, order := c, c.file, c.bufferSize, c.order;
      filePos, eofSeq, eofResendCount := 0, 0, 0;
      inbox, sent := script, [];
      eofPacket := [0, 0, 0, 0, 0, 0, 0];
      window := new CircularQueue(c.sendWindow);
    }

    /** `pollCall`, and the message if there is one. */
    method PollCall() returns (poll: Poll)
      modifies this`inbox
      ensures poll == Head(old(inbox)) && inbox == Tail(old(inbox))
    {
      if inbox == [] {
        poll := Silent;
      } else {
        poll := inbox[0];
        inbox := inbox[1..];
      }
    }

    /** `fread` of one buffer. */
    method ReadChunk() returns (payload: seq<byte>)
      requires Valid()
      modifies this`filePos
      ensures Valid()
      ensures payload == Read(c, old(filePos)) && filePos == old(filePos) + |payload|
    {
      var end := if filePos + bufferSize <= |file| then filePos + bufferSize else |file|;
      payload := file[filePos..end];
      filePos := end;
    }

    /** `wait_on_ack_state` once a message is there; false means the process died on a null packet. */
    method WaitOnAckState(m: Pdu) returns (alive: bool)
      requires Valid()
      modifies this`sent, window`validCount, window.entries
      ensures Valid()
      ensures var (w, out, ok) := HandleAck(old(window.Value()), m);
              window.Value() == w && sent == old(sent) + out && alive == ok
      ensures m[6] != 5 ==> window.Value() == old(window.Value())
      ensures m[6] != 6 ==> alive && sent == old(sent)
    {
      var flag, ackSequence := m[6], Value32(m[..4]);
      if flag == FLAG_RR {
        var i: u32 := 1;
        while i < ackSequence
          invariant Valid() && sent == old(sent)
          invariant RemoveRange(window.Value(), i, ackSequence) == RemoveRange(old(window.Value()), 1, ackSequence)
          decreases if i < ackSequence then ackSequence - i else 0
        {
          var _ := window.RemoveEntry(i);
          i := i + 1;
        }
      } else if flag == FLAG_SREJ {
        var index := window.GetEntry(ackSequence);
        if index >= 0 {
          var packet := window.entries[index].packet;
          if packet.Null? {
            return false;
          }
          var reply := BuildPdu(order, ackSequence, FLAG_SREJ_REPLY, packet.pdu[HEADER..]);
          sent := sent + [reply];
        }
      }
      alive := true;
    }

    /** The timeout branch: resend the first valid entry found from index 0. */
    method ResendOnTimeout() returns (alive: bool)
      requires Valid()
      modifies this`sent
      ensures Valid()
      ensures var (out, ok) := Resend(window.Value()); sent == old(sent) + out && alive == ok
    {
      var i := 0;
      while i < window.windowSize
        invariant Valid() && 0 <= i <= window.windowSize
        invariant FirstValid(window.Value(), 0) == FirstValid(window.Value(), i)
        invariant sent == old(sent)
      {
        if window.entries[i].valid {
          var packet := window.entries[i].packet;
          if packet.Null? {
            return false;
          }
          var resentSeq := Value32(packet.pdu[..4]);
          var m := BuildPdu(order, resentSeq, FLAG_TIMEOUT_RESEND, packet.pdu[HEADER..]);
          sent := sent + [m];
          return true;
        }
        i := i + 1;
      }
      alive := true;
    }

    /** The non-blocking poll loop after each send, up to and including the poll that finds nothing. */
    method DrainAcks(ghost sequenceNum: u32) returns (alive: bool, ghost n: nat)
      requires Valid()
      modifies this`inbox, this`sent, window`validCount, window.entries
      ensures Valid()
      ensures Value(if alive then NextLoop(window.Value()) else Crashed, sequenceNum, 0)
              == Ticks(c, old(Value(Polling, sequenceNum, 0)), n)
    {
      hide Tick, Encode, HandleAck;
      ghost var start := Value(Polling, sequenceNum, 0);
      n := 0;
      var poll := PollCall();
      while poll.Ready?
        invariant Valid()
        invariant var p := Ticks(c, start, n);
                  p == Value(Polling, sequenceNum, 0).(inbox := p.inbox) &&
                  poll == Head(p.inbox) && inbox == Tail(p.inbox)
        decreases |inbox| + if poll.Ready? then 1 else 0
      {
        PollingTick(c, Ticks(c, start, n));
        n := n + 1;
        alive := WaitOnAckState(poll.m);
        if !alive {
          return;
        }
        poll := PollCall();
      }
      PollingTick(c, Ticks(c, start, n));
      n := n + 1;
      alive := true;
    }

    /** The fill loop: read, send, store and drain acks until the window is full or the file is used up. */
    method FillWindow(first: u32) returns (sequenceNum: u32, eofReached: bool, alive: bool, ghost n: nat)
      requires Valid() && !IsFull(window.Value())
      modifies this, window`validCount, window.entries
      ensures Valid() && eofResendCount == old(eofResendCount)
      ensures var phase := if !alive then Crashed else if eofReached then EofWait else Waiting;
              Value(phase, sequenceNum, 0) == Ticks(c, old(Value(Filling, first, 0)), n)
      ensures alive && eofReached ==> eofPacket == Encode(eofSeq, FLAG_EOF, [])
      ensures alive && !eofReached ==> IsFull(window.Value()) && filePos > old(filePos) && eofSeq == old(eofSeq)
    {
      hide Tick, Encode, HandleAck;
      ghost var start := Value(Filling, first, 0);
      sequenceNum, n := first, 0;
      var full := false;
      while !full
        invariant Valid() && eofResendCount == old(eofResendCount) && eofSeq == old(eofSeq)
        invariant full <==> IsFull(window.Value())
        invariant Value(NextLoop(window.Value()), sequenceNum, 0) == Ticks(c, start, n)
        invariant old(filePos) <= filePos && (full ==> old(filePos) < filePos)
        decreases !full, |file| - filePos
      {
        FillingTick(c, Ticks(c, start, n));
        n := n + 1;
        var payload := ReadChunk();
        if payload == [] {
          var eof := BuildPdu(order, sequenceNum, FLAG_EOF, []);
          sent := sent + [eof];
          eofPacket, eofSeq := eof, sequenceNum;
          return sequenceNum, true, true, n;
        }
        var pdu := BuildPdu(order, sequenceNum, FLAG_DATA, payload);
        var _ := window.InsertEntry(sequenceNum, pdu);
        sent := sent + [pdu];
        sequenceNum := Succ(sequenceNum);
        ghost var k;
        alive, k := DrainAcks(sequenceNum);
        TicksAdd(c, start, n, k);
        n := n + k;
        if !alive {
          return sequenceNum, false, false, n;
        }
        full := window.Full();
      }
      return sequenceNum, false, true, n;
    }

    /** The full-window loop: wait for an ack, resending on each timeout, until there is room or ten in a row. */
    method AwaitSpace(ghost sequenceNum: u32) returns (phase: Phase, timeoutCount: nat, ghost n: nat)
      requires Valid() && IsFull(window.Value())
      modifies this`inbox, this`sent, window`validCount, window.entries
      ensures Valid()
      ensures Value(phase, sequenceNum, timeoutCount) == Ticks(c, old(Value(Waiting, sequenceNum, 0)), n)
      ensures phase.Filling? || phase.Done? || phase.Crashed?
      ensures phase.Filling? ==> !IsFull(window.Value()) && timeoutCount == 0
    {
      hide Tick, Encode, HandleAck;
      ghost var start := Value(Waiting, sequenceNum, 0);
      timeoutCount, n := 0, 0;
      var full := true;
      while full
        invariant Valid()
        invariant full <==> IsFull(window.Value())
        invariant Value(NextLoop(window.Value()), sequenceNum, timeoutCount) == Ticks(c, start, n)
        invariant timeoutCount < MAX_TIMEOUTS && (!full ==> timeoutCount == 0)
        decreases |inbox| + if full then 1 else 0, MAX_TIMEOUTS - timeoutCount
      {
        WaitingTick(c, Ticks(c, start, n));
        n := n + 1;
        var poll := PollCall();
        if poll.Ready? {
          var alive := WaitOnAckState(poll.m);
          if !alive {
            return Crashed, timeoutCount, n;
          }
          timeoutCount := 0;
          full := window.Full();
        } else {
          var alive := ResendOnTimeout();
          if !alive {
            return Crashed, timeoutCount, n;
          }
          timeoutCount := timeoutCount + 1;
          if timeoutCount >= MAX_TIMEOUTS {
            return Done, timeoutCount, n;
          }
        }
      }
      phase := Filling;
    }

    /**
     `send_data_state`: the loops above in alternation until the file is used up. It always returns, and ends
     in the state some number of abstract steps leads to. (`send_data_state` nests the three loops.)
     */
    method SendDataState()
      returns (phase: Phase, sequenceNum: u32, timeoutCount: nat, ghost n: nat)
      requires Valid() && !IsFull(window.Value())
      requires eofResendCount == 0
      modifies this, window`validCount, window.entries
      ensures Valid() && eofResendCount == 0
      ensures Value(phase, sequenceNum, timeoutCount) == Ticks(c, old(Value(Filling, 1, 0)), n)
      ensures phase.EofWait? || phase.Done? || phase.Crashed?
      ensures phase.EofWait? ==> eofPacket == Encode(eofSeq, FLAG_EOF, [])
    {
      hide Tick, Encode, HandleAck;
      ghost var start := Value(Filling, 1, 0);
      phase, sequenceNum, timeoutCount, n := Filling, 1, 0, 0;
      while phase.Filling?
        invariant Valid() && eofResendCount == 0
        invariant Value(phase, sequenceNum, timeoutCount) == Ticks(c, start, n)
        invariant phase.Filling? ==> !IsFull(window.Value()) && timeoutCount == 0
        invariant phase.Filling? || phase.EofWait? || phase.Done? || phase.Crashed?
        invariant phase.EofWait? ==> eofPacket == Encode(eofSeq, FLAG_EOF, [])
        decreases phase.Filling?, |file| - filePos
      {
        ghost var k;
        var eofReached, alive;
        sequenceNum, eofReached, alive, k := FillWindow(sequenceNum);
        TicksAdd(c, start, n, k);
        n := n + k;
        if !alive {
          phase := Crashed;
        } else if eofReached {
          phase := EofWait;
        } else {
          phase, timeoutCount, k := AwaitSpace(sequenceNum);
          TicksAdd(c, start, n, k);
          n := n + k;
        }
      }
    }

    /** `wait_on_eof_ack_state` and `resend_eof_state`, until the process is done. */
    method AwaitEofAck(ghost sequenceNum: u32, ghost timeoutCount: nat) returns (ghost n: nat)
      requires Valid() && eofResendCount <= MAX_EOF_RESENDS
      requires eofPacket == Encode(eofSeq, FLAG_EOF, [])
      modifies this`inbox, this`sent, this`eofResendCount
      ensures Valid()
      ensures Value(Done, sequenceNum, timeoutCount) == Ticks(c, old(Value(EofWait, sequenceNum, timeoutCount)), n)
    {
      hide Tick, Encode, HandleAck;
      ghost var start := Value(EofWait, sequenceNum, timeoutCount);
      n := 0;
      while true
        invariant Valid() && eofResendCount <= MAX_EOF_RESENDS
        invariant Value(EofWait, sequenceNum, timeoutCount) == Ticks(c, start, n)
        decreases |inbox|, MAX_EOF_RESENDS - eofResendCount
      {
        EofTick(c, Ticks(c, start, n));
        n := n + 1;
        var poll := PollCall();
        if poll.Ready? {
          var accepted := IsEofAck(poll.m);
          if accepted {
            return;
          }
        } else {
          if eofResendCount >= MAX_EOF_RESENDS {
            return;
          }
          sent := sent + [eofPacket];
          eofResendCount := eofResendCount + 1;
        }
      }
    }

    /** The flag, sequence number and checksum test on a message received while waiting for the EOF-ACK. */
    method IsEofAck(m: Pdu) returns (accepted: bool)
      ensures accepted <==> Flag(m) == FLAG_EOF_ACK && Seq(m) == eofSeq && CompareCheck(order, m)
    {
      var recvChecksum := Word(Big, m[4], m[5]);
      var tempBuf := new byte[|m|](i requires 0 <= i < |m| => m[i]);
      tempBuf[4], tempBuf[5] := 0, 0;
      assert tempBuf[..|m|] == m[4 := 0][5 := 0];
      var calcChecksum := ComputeInCksum(order, tempBuf, |m|);
      accepted := m[6] == FLAG_EOF_ACK && Value32(m[..4]) == eofSeq && recvChecksum == calcChecksum;
    }

    /**
     The whole child process from the start of the transfer: it always terminates, and it ends in the state
     the abstract steps lead to.
     */
    method Serve() returns (phase: Phase, sequenceNum: u32, timeoutCount: nat, ghost n: nat)
      requires Valid() && !IsFull(window.Value())
      requires eofResendCount == 0
      modifies this, window`validCount, window.entries
      ensures Valid()
      ensures phase.Done? || phase.Crashed?
      ensures Value(phase, sequenceNum, timeoutCount) == Ticks(c, old(Value(Filling, 1, 0)), n)
    {
      hide Tick, Encode, HandleAck;
      ghost var start := Value(Filling, 1, 0);
      phase, sequenceNum, timeoutCount, n := SendDataState();
      if phase.EofWait? {
        ghost var k := AwaitEofAck(sequenceNum, timeoutCount);
        TicksAdd(c, start, n, k);
        phase, n := Done, n + k;
      }
    }
  }
}

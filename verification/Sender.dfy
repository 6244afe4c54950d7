/**
 The server's side of a transfer as a deterministic machine: `SenderStep` is one turn of the loops of
 `send_data_state`, `wait_on_eof_ack_state` and `resend_eof_state`.
 */
module Senders {
  import opened Bytes
  import opened Checksum
  import opened Pdus
  import opened Windows
  import opened Transfers

  const MAX_TIMEOUTS := 10
  const MAX_EOF_RESENDS := 10

  /**
   Where the server is: about to read a chunk, draining acks after a send, waiting with a full window,
   waiting for the EOF-ACK, finished, or dead from a null packet pointer.
   */
  datatype Phase = Filling | Polling | Waiting | EofWait | Done | Crashed

  datatype Sender = Sender(
    phase: Phase,
    window: Window,
    sequenceNum: u32,
    filePos: nat,
    timeoutCount: nat,
    eofSeq: u32,
    eofResendCount: nat)

  /** What a poll of the socket can report. */
  datatype Poll = Silent | Ready(m: Pdu)

  function InitSender(c: Config): Sender
    requires c.Valid()
  {
    Sender(Filling, EmptyWindow(c.sendWindow), 1, 0, 0, 0, 0)
  }

  predicate Active(s: Sender) {
    !s.phase.Done? && !s.phase.Crashed?
  }

  /** Whether the server is still sending data, as opposed to waiting for the EOF-ACK or stopped. */
  predicate Sending(s: Sender) {
    s.phase.Filling? || s.phase.Polling? || s.phase.Waiting?
  }

  /** `fread` of at most one buffer from position `pos`. */
  function Read(c: Config, pos: nat): seq<byte> {
    if pos > |c.file| then []
    else if pos + c.bufferSize <= |c.file| then c.file[pos..pos + c.bufferSize] else c.file[pos..]
  }

  /** One turn of the fill loop: send the next chunk, or the EOF once nothing is left to read. */
  function Fill(c: Config, s: Sender): (Sender, seq<Pdu>)
  {
    var payload := Read(c, s.filePos);
    if payload == [] then
      (s.(phase := EofWait, eofSeq := s.sequenceNum), [Encode(s.sequenceNum, FLAG_EOF, [])])
    else
      var pdu := Encode(s.sequenceNum, FLAG_DATA, payload);
      (s.(phase := Polling,
          window := Insert(s.window, s.sequenceNum, pdu).0,
          sequenceNum := Succ(s.sequenceNum),
          filePos := s.filePos + |payload|),
       [pdu])
  }

  /** `wait_on_ack_state` on a received message: the new window, what is sent, and whether the program survives. */
  function HandleAck(w: Window, m: Pdu): (Window, seq<Pdu>, bool) {
    if Flag(m) == FLAG_RR then (RemoveRange(w, 1, Seq(m)), [], true)
    else if Flag(m) == FLAG_SREJ then
      var i := Get(w, Seq(m));
      if i < 0 then (w, [], true)
      else match w.entries[i].packet
        case Null => (w, [], false)
        case Packet(pdu) => (w, [Encode(Seq(m), FLAG_SREJ_REPLY, pdu[HEADER..])], true)
    else (w, [], true)
  }

  /** The first valid slot at or after index i, or the number of slots. */
  function FirstValid(w: Window, i: nat): (r: nat)
    requires i <= |w.entries|
    ensures i <= r <= |w.entries|
    ensures r < |w.entries| ==> w.entries[r].valid
    ensures forall j :: i <= j < r ==> !w.entries[j].valid
    decreases |w.entries| - i
  {
    if i == |w.entries| || w.entries[i].valid then i else FirstValid(w, i + 1)
  }

  /** The scan of the timeout branch: resend whatever sits in the lowest valid slot. False is a null packet pointer. */
  function Resend(w: Window): (seq<Pdu>, bool) {
    var i := FirstValid(w, 0);
    if i == |w.entries| then ([], true)
    else match w.entries[i].packet
      case Null => ([], false)
      case Packet(pdu) => ([Encode(Seq(pdu), FLAG_TIMEOUT_RESEND, pdu[HEADER..])], true)
  }

  /** The timeout branch: resend, then count. */
  function Timeout(s: Sender): (Sender, seq<Pdu>) {
    var (out, alive) := Resend(s.window);
    if !alive then (s.(phase := Crashed), [])
    else
      var n := s.timeoutCount + 1;
      (s.(timeoutCount := n, phase := if n >= MAX_TIMEOUTS then Done else s.phase), out)
  }

  /** The test `wait_on_eof_ack_state` applies. */
  predicate AcceptsEofAck(c: Config, s: Sender, m: Pdu) {
    Flag(m) == FLAG_EOF_ACK && Seq(m) == s.eofSeq && CompareCheck(c.order, m)
  }

  /** The loop the server is in after the window may have changed. */
  function NextLoop(w: Window): Phase {
    if IsFull(w) then Waiting else Filling
  }

  /** One step; `poll` is what the socket reports in the phases that look at it. */
  function SenderStep(c: Config, s: Sender, poll: Poll): (Sender, seq<Pdu>)
  {
    match s.phase
    case Filling => Fill(c, s)
    case Polling =>
      (match poll
       case Silent => (s.(timeoutCount := 0, phase := NextLoop(s.window)), [])
       case Ready(m) =>
         var (w, out, alive) := HandleAck(s.window, m);
         (s.(window := w, phase := if alive then Polling else Crashed), out))
    case Waiting =>
      (match poll
       case Silent => Timeout(s)
       case Ready(m) =>
         var (w, out, alive) := HandleAck(s.window, m);
         if alive then (s.(window := w, timeoutCount := 0, phase := NextLoop(w)), out)
         else (s.(window := w, phase := Crashed), out))
    case EofWait =>
      (match poll
       case Silent =>
         if s.eofResendCount >= MAX_EOF_RESENDS then (s.(phase := Done), [])
         else (s.(eofResendCount := s.eofResendCount + 1), [Encode(s.eofSeq, FLAG_EOF, [])])
       case Ready(m) => (s.(phase := if AcceptsEofAck(c, s, m) then Done else EofWait), []))
    case Done => (s, [])
    case Crashed => (s, [])
  }

  // ---------------------------------------------------------------- invariant

  /** The oldest sequence number not yet acknowledged. */
  function Base(s: Sender): int {
    s.sequenceNum - s.window.validCount
  }

  /**
   The window holds exactly the chunks base .. next-1, each in its slot as the PDU first sent, and every
   other slot is empty.
   */
  ghost predicate Contiguous(c: Config, w: Window, base: int, next: u32)
    requires c.Valid()
  {
    && 1 <= base <= next <= c.Total() + 1
    && next <= base + |w.entries|
    && w.validCount == next - base
    && (forall k: u32 :: base <= k < next ==> Slot(w, k) == Entry(Packet(Encode(k, FLAG_DATA, c.Chunk(k))), k, true))
    && (forall i :: 0 <= i < |w.entries| ==>
         if w.entries[i].valid
         then base <= w.entries[i].sequenceNum < next && IndexOf(w, w.entries[i].sequenceNum) == i
         else w.entries[i].packet.Null?)
  }

  /** How the phase, the counters and the EOF number go together. */
  ghost predicate PhaseInv(c: Config, s: Sender)
    requires c.Valid()
  {
    && (s.phase.Filling? ==> !IsFull(s.window) && s.timeoutCount == 0)
    && (s.phase.Polling? ==> s.timeoutCount == 0)
    && (s.phase.Waiting? ==> IsFull(s.window))
    && s.timeoutCount <= MAX_TIMEOUTS
    && (Active(s) ==> s.timeoutCount < MAX_TIMEOUTS)
    && s.eofResendCount <= MAX_EOF_RESENDS
    && (s.eofSeq == 0 ==> s.eofResendCount == 0)
    && (if s.eofSeq == 0
        then !s.phase.EofWait?
        else s.eofSeq == s.sequenceNum == c.Total() + 1 && !IsFull(s.window) && !Sending(s))
  }

  ghost predicate SenderInv(c: Config, s: Sender)
    requires c.Valid()
  {
    && |s.window.entries| == c.sendWindow
    && 1 <= s.sequenceNum
    && s.filePos == c.Offset(s.sequenceNum - 1)
    && Contiguous(c, s.window, Base(s), s.sequenceNum)
    && PhaseInv(c, s)
  }

  lemma InitSenderInv(c: Config)
    requires c.Valid()
    ensures SenderInv(c, InitSender(c))
  {
  }

  /** The contiguous window as a map: keys base .. next-1, in different slots, each bound to its chunk's PDU. */
  lemma {:induction false} ContiguousIsMap(c: Config, w: Window, base: int, next: u32)
    requires c.Valid() && Contiguous(c, w, base, next)
    ensures Coherent(w)
    ensures forall k: u32 :: k in Contents(w) <==> base <= k < next
    ensures forall k: u32 :: base <= k < next ==> Contents(w)[k] == Encode(k, FLAG_DATA, c.Chunk(k))
    ensures forall a: u32, b: u32 :: base <= a < b < next ==> IndexOf(w, a) != IndexOf(w, b)
  {
    assert forall i :: 0 <= i < |w.entries| && w.entries[i].valid ==>
        Slot(w, w.entries[i].sequenceNum) == w.entries[i];
    forall k: u32
      ensures k in Live(w) <==> base <= k < next
    {
      if base <= k < next {
        assert Slot(w, k).sequenceNum == k;
      }
    }
    CountRange(Live(w), base, next);
    forall a: u32, b: u32 | base <= a < b < next
      ensures IndexOf(w, a) != IndexOf(w, b)
    {
      LiveDistinct(w, a, b);
    }
  }

  lemma {:induction false} CountRange(s: set<u32>, lo: u32, hi: u32)
    requires lo <= hi
    requires forall k: u32 :: k in s <==> lo <= k < hi
    ensures |s| == hi - lo
    decreases hi
  {
    if lo < hi {
      assert hi - 1 in s;
      CountRange(s - {hi - 1}, lo, hi - 1);
    } else {
      assert s == {};
    }
  }

  /** The next chunk always finds its slot free, so the ignored return code of insert is never -1. */
  lemma {:induction false} InsertContiguous(c: Config, w: Window, base: int, next: u32)
    requires c.Valid() && Contiguous(c, w, base, next)
    requires !IsFull(w) && next <= c.Total()
    ensures var pdu := Encode(next, FLAG_DATA, c.Chunk(next));
            Insert(w, next, pdu).1 && Contiguous(c, Insert(w, next, pdu).0, base, next + 1)
  {
    var pdu := Encode(next, FLAG_DATA, c.Chunk(next));
    var w' := Put(w, IndexOf(w, next), Entry(Packet(pdu), next, true), w.validCount + 1);
    if Slot(w, next).valid {
      ResiduesDiffer(Slot(w, next).sequenceNum, next, |w.entries|);
      assert false;
    }
    forall k: u32 | base <= k < next
      ensures Slot(w', k) == Slot(w, k)
    {
      if IndexOf(w, k) == IndexOf(w, next) {
        ResiduesDiffer(k, next, |w.entries|);
      }
    }
  }

  /**
   A cumulative ack drops exactly the chunks below it; a stale one drops nothing, and one beyond everything sent
   empties the window.
   */
  lemma {:induction false} RemoveRangeContiguous(c: Config, w: Window, base: int, next: u32, from: u32, to: u32)
    requires c.Valid() && Contiguous(c, w, base, next)
    requires from <= base || base == next
    ensures Contiguous(c, RemoveRange(w, from, to), Clamp(base, to, next), next)
    ensures |RemoveRange(w, from, to).entries| == |w.entries|
    decreases if from < to then to - from else 0
  {
    if from < to {
      if from < base || base == next {
        assert !Slot(w, from).valid || Slot(w, from).sequenceNum != from;
        RemoveRangeContiguous(c, w, base, next, from + 1, to);
      } else {
        RemoveOldest(c, w, from, next);
        RemoveRangeContiguous(c, Remove(w, from).0, base + 1, next, from + 1, to);
      }
    }
  }

  /** `k` moved into the range `lo` .. `hi`. */
  function Clamp(lo: int, k: int, hi: int): int {
    if k < lo then lo else if k > hi then hi else k
  }

  lemma RemoveOldest(c: Config, w: Window, base: u32, next: u32)
    requires c.Valid() && Contiguous(c, w, base, next) && base < next
    ensures Contiguous(c, Remove(w, base).0, base + 1, next)
  {
    var w' := Remove(w, base).0;
    forall k: u32 | base < k < next
      ensures Slot(w', k) == Slot(w, k)
    {
      if IndexOf(w, k) == IndexOf(w, base) {
        ResiduesDiffer(base, k, |w.entries|);
      }
    }
  }

  /**
   What an SREJ for an already sent number k makes the server do. A live k is answered with chunk k. An
   acknowledged k is answered with whatever live chunk j shares its slot, relabelled k; if the slot is empty,
   the server stays silent when k was the slot's last tag and dies otherwise.
   */
  lemma {:induction false} SrejLookup(c: Config, w: Window, base: int, next: u32, m: Pdu)
    requires c.Valid() && Contiguous(c, w, base, next)
    requires Flag(m) == FLAG_SREJ && Seq(m) < next
    ensures HandleAck(w, m).0 == w
    ensures base <= Seq(m) ==>
              HandleAck(w, m) == (w, [Encode(Seq(m), FLAG_SREJ_REPLY, c.Chunk(Seq(m)))], true)
    ensures Seq(m) < base && Slot(w, Seq(m)).valid ==>
              var j := Slot(w, Seq(m)).sequenceNum;
              base <= j < next && j % |w.entries| == Seq(m) % |w.entries| &&
              HandleAck(w, m) == (w, [Encode(Seq(m), FLAG_SREJ_REPLY, c.Chunk(j))], true)
    ensures Seq(m) < base && !Slot(w, Seq(m)).valid ==>
              HandleAck(w, m) == (w, [], Slot(w, Seq(m)).sequenceNum == Seq(m))
  {
    var k := Seq(m);
    var e := Slot(w, k);
    if e.valid {
      assert Slot(w, e.sequenceNum) == e;
      DecodeEncode(e.sequenceNum, FLAG_DATA, c.Chunk(e.sequenceNum));
    }
  }

  /**
   In a full window the timeout resends the multiple of the window size among the live numbers, so it
   resends the oldest unacknowledged chunk, as the comment there says, exactly when that number is a multiple
   of the window size.
   */
  lemma {:induction false} TimeoutResends(c: Config, s: Sender) returns (k: u32)
    requires c.Valid() && SenderInv(c, s) && s.phase.Waiting?
    ensures Base(s) <= k < s.sequenceNum && k % c.sendWindow == 0
    ensures Timeout(s).1 == [Encode(k, FLAG_TIMEOUT_RESEND, c.Chunk(k))]
    ensures Timeout(s).0 == s.(timeoutCount := s.timeoutCount + 1,
                               phase := if s.timeoutCount + 1 == MAX_TIMEOUTS then Done else Waiting)
    ensures Timeout(s).1 == [Encode(Base(s), FLAG_TIMEOUT_RESEND, c.Chunk(Base(s)))] <==> Base(s) % c.sendWindow == 0
  {
    var w := s.window;
    var multiple := LiveMultiple(Base(s), c.sendWindow);
    k := multiple;
    assert IndexOf(w, k) == 0;
    assert Slot(w, k).valid;
    assert FirstValid(w, 0) == 0;
    DecodeEncode(k, FLAG_DATA, c.Chunk(k));
    assert Timeout(s).1 == [Encode(k, FLAG_TIMEOUT_RESEND, c.Chunk(k))];
    DecodeEncode(k, FLAG_TIMEOUT_RESEND, c.Chunk(k));
    DecodeEncode(Base(s), FLAG_TIMEOUT_RESEND, c.Chunk(Base(s)));
    if Base(s) % c.sendWindow == 0 {
      ResiduesDiffer(Base(s), k, c.sendWindow);
    }
  }

  lemma LiveMultiple(base: nat, size: nat) returns (k: nat)
    requires size > 0
    ensures base <= k < base + size && k % size == 0
  {
    k := if base % size == 0 then base else size * (base / size + 1);
    MultipleResidue(base / size + 1, size);
    assert size * (base / size + 1) == size * (base / size) + size;
  }

  /** Every message the sender emits is a first send, a truthful or harmless reply, a live resend, or the EOF. */
  ghost predicate DataOk(c: Config, base: int, next: u32, m: Pdu)
    requires c.Valid()
  {
    IsData(m) && 1 <= Seq(m) < next && (Seq(m) >= base ==> Payload(m) == c.Chunk(Seq(m)))
  }

  ghost predicate EofOk(c: Config, s: Sender, m: Pdu)
    requires c.Valid()
  {
    Flag(m) == FLAG_EOF && Payload(m) == [] && Seq(m) == s.eofSeq && s.eofSeq != 0
  }

  /** The acks a sender may be handed: RRs up to the next number, SREJs of numbers already sent. */
  predicate AckOk(s: Sender, m: Pdu) {
    && (Flag(m) == FLAG_RR ==> Seq(m) <= s.sequenceNum)
    && (Flag(m) == FLAG_SREJ ==> 1 <= Seq(m) < s.sequenceNum)
  }

  lemma FillInv(c: Config, s: Sender)
    requires c.Valid() && SenderInv(c, s) && s.phase.Filling?
    ensures var (s', out) := Fill(c, s);
            SenderInv(c, s') && |out| == 1 && Base(s') == Base(s)
    ensures var (s', out) := Fill(c, s);
            if s.sequenceNum <= c.Total()
            then s'.sequenceNum == s.sequenceNum + 1 && s'.phase.Polling? &&
                 out == [Encode(s.sequenceNum, FLAG_DATA, c.Chunk(s.sequenceNum))]
            else s'.phase.EofWait? && s' == s.(phase := EofWait, eofSeq := s.sequenceNum) &&
                 out == [Encode(s.sequenceNum, FLAG_EOF, [])]
  {
    var next := s.sequenceNum;
    c.OffsetMonotone(next - 1);
    c.EndOfFile(next - 1);
    if next <= c.Total() {
      assert Read(c, s.filePos) == c.Chunk(next);
      InsertContiguous(c, s.window, Base(s), next);
    }
  }

  /**
   What any message of at least seven bytes makes the ack handler do, whatever its flag and number: it dies exactly
   on a 6 whose slot is empty under another tag, changes the window only on a 5, and sends only on a 6.
   */
  lemma {:induction false} AckEffects(c: Config, w: Window, base: int, next: u32, m: Pdu)
    requires c.Valid() && Contiguous(c, w, base, next)
    ensures !HandleAck(w, m).2 <==> m[6] == 6 && !Slot(w, Seq(m)).valid && Slot(w, Seq(m)).sequenceNum != Seq(m)
    ensures Contiguous(c, HandleAck(w, m).0, if m[6] == 5 then Clamp(base, Seq(m), next) else base, next)
    ensures |HandleAck(w, m).0.entries| == |w.entries| && (m[6] != 5 ==> HandleAck(w, m).0 == w)
    ensures HandleAck(w, m).1 ==
            if m[6] == 6 && Slot(w, Seq(m)).valid
            then [Encode(Seq(m), FLAG_SREJ_REPLY, c.Chunk(Slot(w, Seq(m)).sequenceNum))] else []
  {
    if Flag(m) == FLAG_RR {
      RemoveRangeContiguous(c, w, base, next, 1, Seq(m));
    } else if Flag(m) == FLAG_SREJ && Slot(w, Seq(m)).valid {
      var j := Slot(w, Seq(m)).sequenceNum;
      assert Slot(w, j) == Slot(w, Seq(m));
      DecodeEncode(j, FLAG_DATA, c.Chunk(j));
    }
  }

  /**
   The same for the server that is draining or waiting: a message that is not a 5 and does not kill it only resets
   its timeout count; a 5 moves base forward to its number, at most to the next one.
   */
  lemma {:induction false} AnyMessageHandled(c: Config, s: Sender, m: Pdu)
    requires c.Valid() && SenderInv(c, s) && (s.phase.Polling? || s.phase.Waiting?)
    ensures SenderInv(c, SenderStep(c, s, Ready(m)).0)
    ensures var (s', out) := SenderStep(c, s, Ready(m));
            (s'.phase.Crashed? <==>
               m[6] == 6 && !Slot(s.window, Seq(m)).valid && Slot(s.window, Seq(m)).sequenceNum != Seq(m)) &&
            (m[6] == 5 ==> Base(s') == Clamp(Base(s), Seq(m), s.sequenceNum)) &&
            (m[6] != 6 ==> out == []) &&
            (m[6] != 5 && !s'.phase.Crashed? ==> s' == s.(timeoutCount := 0)) &&
            (s.phase.Waiting? && m[6] == 5 ==> (s'.phase.Waiting? <==> Seq(m) <= Base(s)))
  {
    hide Encode;
    AckEffects(c, s.window, Base(s), s.sequenceNum, m);
    hide HandleAck;
  }

  /** While the server waits for the EOF-ACK, no message makes it send or counts as a timeout. */
  lemma EofWaitRule(c: Config, s: Sender, m: Pdu)
    requires s.phase.EofWait?
    ensures SenderStep(c, s, Ready(m)) ==
            (if m[6] == 35 && Seq(m) == s.eofSeq && CompareCheck(c.order, m) then s.(phase := Done) else s, [])
  {
  }

  /** On a network-order host an EOF-ACK with any one byte changed does not end the wait. */
  lemma {:induction false} DamagedEofAckRefused(c: Config, s: Sender, i: nat, b: byte)
    requires s.phase.EofWait? && c.order.Big? && i < 7
    requires b != Encode(s.eofSeq, FLAG_EOF_ACK, [])[i]
    ensures SenderStep(c, s, Ready(Encode(s.eofSeq, FLAG_EOF_ACK, []))).0.phase.Done?
    ensures SenderStep(c, s, Ready(Encode(s.eofSeq, FLAG_EOF_ACK, [])[i := b])) == (s, [])
  {
    var ack: Pdu := Encode(s.eofSeq, FLAG_EOF_ACK, []);
    var m: Pdu := ack[i := b];
    DecodeEncode(s.eofSeq, FLAG_EOF_ACK, []);
    CompareCheckOnBuilt(Big, s.eofSeq, FLAG_EOF_ACK, []);
    ChecksumSound(Big, s.eofSeq, FLAG_EOF_ACK, []);
    ByteErrorDetected(Big, ack, i, b);
    if CompareCheck(Big, m) {
      CompareCheckImpliesZeroCheck(m);
      assert false;
    }
    EofWaitRule(c, s, ack);
    EofWaitRule(c, s, m);
  }

  lemma HandleAckInv(c: Config, s: Sender, m: Pdu)
    requires c.Valid() && SenderInv(c, s) && Sending(s) && AckOk(s, m)
    ensures var (w, out, alive) := HandleAck(s.window, m);
            var base := if Flag(m) == FLAG_RR && Seq(m) > Base(s) then Seq(m) else Base(s);
            Contiguous(c, w, base, s.sequenceNum) && |w.entries| == |s.window.entries| && |out| <= 1 &&
            (forall d :: d in out ==> DataOk(c, Base(s), s.sequenceNum, d) && Flag(d) == FLAG_SREJ_REPLY) &&
            (out != [] ==> Flag(m) == FLAG_SREJ)
  {
    if Flag(m) == FLAG_RR {
      RemoveRangeContiguous(c, s.window, Base(s), s.sequenceNum, 1, Seq(m));
    } else if Flag(m) == FLAG_SREJ {
      SrejLookup(c, s.window, Base(s), s.sequenceNum, m);
      DecodeReply(c, s.window, m);
    }
  }

  lemma DecodeReply(c: Config, w: Window, m: Pdu)
    ensures forall d :: d in HandleAck(w, m).1 ==> Flag(d) == FLAG_SREJ_REPLY && Seq(d) == Seq(m)
    ensures forall k: u32, p :: HandleAck(w, m).1 == [Encode(k, FLAG_SREJ_REPLY, p)] ==>
              Payload(HandleAck(w, m).1[0]) == p
  {
    forall d | d in HandleAck(w, m).1
      ensures Flag(d) == FLAG_SREJ_REPLY && Seq(d) == Seq(m)
    {
      DecodeEncode(Seq(m), FLAG_SREJ_REPLY, w.entries[Get(w, Seq(m))].packet.pdu[HEADER..]);
    }
    forall k: u32, p | HandleAck(w, m).1 == [Encode(k, FLAG_SREJ_REPLY, p)]
      ensures Payload(HandleAck(w, m).1[0]) == p
    {
      DecodeEncode(k, FLAG_SREJ_REPLY, p);
    }
  }

  lemma TickInv(c: Config, s: Sender, s': Sender)
    requires c.Valid() && SenderInv(c, s) && s.phase.Waiting?
    requires s' == s.(timeoutCount := s.timeoutCount + 1,
                      phase := if s.timeoutCount + 1 == MAX_TIMEOUTS then Done else Waiting)
    ensures SenderInv(c, s') && Base(s') == Base(s)
  {
  }

  lemma TimeoutInv(c: Config, s: Sender)
    requires c.Valid() && SenderInv(c, s) && s.phase.Waiting?
    ensures var t := Timeout(s);
            SenderInv(c, t.0) && Base(t.0) == Base(s) && t.0.sequenceNum == s.sequenceNum &&
            t.0.timeoutCount == s.timeoutCount + 1 && !t.0.phase.Crashed?
    ensures var out := Timeout(s).1;
            |out| == 1 && DataOk(c, Base(s), s.sequenceNum, out[0]) && Flag(out[0]) == FLAG_TIMEOUT_RESEND
  {
    var k := TimeoutResends(c, s);
    DecodeEncode(k, FLAG_TIMEOUT_RESEND, c.Chunk(k));
    TickInv(c, s, Timeout(s).0);
  }

  /** Every sender step keeps the invariant, never moves base back, and emits only acceptable messages. */
  lemma {:induction false} SenderStepInv(c: Config, s: Sender, poll: Poll)
    requires c.Valid() && SenderInv(c, s)
    requires poll.Ready? ==> AckOk(s, poll.m)
    ensures var (s', out) := SenderStep(c, s, poll);
            SenderInv(c, s') && |out| <= 1 &&
            Base(s) <= Base(s') && s.sequenceNum <= s'.sequenceNum &&
            (s.eofSeq != 0 ==> s'.eofSeq == s.eofSeq) &&
            (Base(s') == Base(s) || (poll.Ready? && Flag(poll.m) == FLAG_RR && Base(s') == Seq(poll.m))) &&
            forall d :: d in out ==> DataOk(c, Base(s), s'.sequenceNum, d) || EofOk(c, s', d)
  {
    var (s', out) := SenderStep(c, s, poll);
    match s.phase
    case Filling =>
      FillInv(c, s);
      DecodeEncode(s.sequenceNum, FLAG_EOF, []);
      DecodeEncode(s.sequenceNum, FLAG_DATA, c.Chunk(s.sequenceNum));
    case Polling =>
      if poll.Ready? { HandleAckInv(c, s, poll.m); }
    case Waiting =>
      if poll.Ready? { HandleAckInv(c, s, poll.m); } else { TimeoutInv(c, s); }
    case EofWait =>
      DecodeEncode(s.eofSeq, FLAG_EOF, []);
    case Done =>
    case Crashed =>
  }

  // ---------------------------------------------------------------- silence

  /** k polls in a row that report nothing. */
  function Silences(c: Config, s: Sender, k: nat): (Sender, seq<Pdu>) {
    if k == 0 then (s, [])
    else
      var (before, sent) := Silences(c, s, k - 1);
      var (after, out) := SenderStep(c, before, Silent);
      (after, sent + out)
  }

  function Copies(m: Pdu, k: nat): (s: seq<Pdu>)
    ensures |s| == k && forall d :: d in s ==> d == m
  {
    if k == 0 then [] else Copies(m, k - 1) + [m]
  }

  /** In silence a full-window server sends the same resend at every timeout, ten times in all, and gives up. */
  lemma {:induction false} GivesUpAfterTenTimeouts(c: Config, s: Sender, m: Pdu, k: nat)
    requires c.Valid() && SenderInv(c, s) && s.phase.Waiting? && s.timeoutCount == 0
    requires Resend(s.window).0 == [m] && k <= 10
    ensures Silences(c, s, k) == (s.(timeoutCount := k, phase := if k == 10 then Done else Waiting), Copies(m, k))
  {
    hide SenderStep, Resend, Contiguous;
    if k > 0 {
      GivesUpAfterTenTimeouts(c, s, m, k - 1);
      WaitingSilence(c, s, m, k - 1);
    }
  }

  lemma WaitingSilence(c: Config, s: Sender, m: Pdu, n: nat)
    requires c.Valid() && SenderInv(c, s) && s.phase.Waiting? && n < 10 && Resend(s.window).0 == [m]
    ensures SenderStep(c, s.(timeoutCount := n, phase := Waiting), Silent) ==
            (s.(timeoutCount := n + 1, phase := if n + 1 == 10 then Done else Waiting), [m])
  {
    hide Encode;
    var k := TimeoutResends(c, s);
  }

  /** Every message that leaves the window full, handled before the tenth timeout, buys ten timeouts more. */
  lemma {:induction false} AckBuysTenMore(c: Config, s: Sender, m: Pdu, k: nat)
    requires c.Valid() && SenderInv(c, s) && s.phase.Waiting? && k <= 10
    ensures var s' := SenderStep(c, s, Ready(m)).0;
            (s'.phase.Waiting? <==> !s'.phase.Crashed? && (m[6] == 5 ==> Seq(m) <= Base(s))) &&
            (s'.phase.Waiting? ==>
               |Silences(c, s', k).1| == k && Silences(c, s', k).0.phase == if k == 10 then Done else Waiting)
  {
    hide SenderStep, Silences, Resend;
    AnyMessageHandled(c, s, m);
    var s' := SenderStep(c, s, Ready(m)).0;
    if s'.phase.Waiting? {
      ResetByMessage(c, s, m);
      var n := TimeoutResends(c, s');
      ResendOfTimeout(s', Encode(n, FLAG_TIMEOUT_RESEND, c.Chunk(n)));
      GivesUpAfterTenTimeouts(c, s', Encode(n, FLAG_TIMEOUT_RESEND, c.Chunk(n)), k);
    }
  }

  lemma ResetByMessage(c: Config, s: Sender, m: Pdu)
    requires s.phase.Waiting? && SenderStep(c, s, Ready(m)).0.phase.Waiting?
    ensures SenderStep(c, s, Ready(m)).0.timeoutCount == 0
  {
  }

  lemma ResendOfTimeout(s: Sender, m: Pdu)
    requires Timeout(s).1 == [m]
    ensures Resend(s.window).0 == [m]
  {
  }

  /** In silence a server waiting for the EOF-ACK repeats the EOF ten times, and the eleventh timeout ends it. */
  lemma {:induction false} GivesUpAfterTenEofs(c: Config, s: Sender, k: nat)
    requires s.phase.EofWait? && s.eofResendCount == 0 && k <= 11
    ensures var (s', sent) := Silences(c, s, k);
            if k <= 10 then s' == s.(eofResendCount := k) && sent == Copies(Encode(s.eofSeq, FLAG_EOF, []), k)
            else s' == s.(eofResendCount := 10, phase := Done) && sent == Copies(Encode(s.eofSeq, FLAG_EOF, []), 10)
  {
    hide SenderStep;
    if k > 0 {
      GivesUpAfterTenEofs(c, s, k - 1);
      EofSilence(c, Silences(c, s, k - 1).0);
    }
  }

  lemma EofSilence(c: Config, s: Sender)
    requires s.phase.EofWait?
    ensures SenderStep(c, s, Silent) ==
            if s.eofResendCount >= MAX_EOF_RESENDS then (s.(phase := Done), [])
            else (s.(eofResendCount := s.eofResendCount + 1), [Encode(s.eofSeq, FLAG_EOF, [])])
  {
  }
}

/**
 The client's side of a transfer: `ReceiverStep` is one turn of the loop of `process_transfer_state`.
 The ring stores payloads by sequence number modulo its size and keeps no sequence numbers.
 */
module Receivers {
  import opened Bytes
  import opened Checksum
  import opened Pdus
  import opened Transfers

  datatype Slot = Slot(valid: bool, packet: seq<byte>)

  /** The transfer states, and Closed once an EOF has been answered. */
  datatype Mode = InOrder | OutOfOrder | Flush | Closed

  datatype ReceiverRaw = Receiver(
    mode: Mode,
    expected: u32,
    highest: u32,
    ring: seq<Slot>,
    output: seq<byte>)

  const EMPTY_SLOT := Slot(false, [])

  type Receiver = r: ReceiverRaw | 0 < |r.ring| witness Receiver(InOrder, 1, 0, [EMPTY_SLOT], [])

  function InitReceiver(c: Config): Receiver
    requires c.Valid()
  {
    Receiver(InOrder, 1, 0, seq(c.recvWindow, _ => EMPTY_SLOT), [])
  }

  function IndexOf(r: Receiver, k: nat): (i: nat)
    ensures i < |r.ring|
  {
    k % |r.ring|
  }

  function SlotOf(r: Receiver, k: nat): Slot {
    r.ring[IndexOf(r, k)]
  }

  /** `buffer_packet`: a slot already in use keeps what it has. */
  function Buffer(r: Receiver, k: u32, payload: seq<byte>): Receiver {
    if SlotOf(r, k).valid then r else r.(ring := r.ring[IndexOf(r, k) := Slot(true, payload)])
  }

  /** `fwrite` of a payload carrying the expected number. */
  function Write(r: Receiver, payload: seq<byte>): Receiver {
    r.(output := r.output + payload, expected := Succ(r.expected))
  }

  /** The guard of both flush loops. */
  predicate Flushable(r: Receiver) {
    r.expected <= r.highest && SlotOf(r, r.expected).valid
  }

  /** One turn of a flush loop. */
  function FlushOne(r: Receiver): Receiver {
    Write(r.(ring := r.ring[IndexOf(r, r.expected) := SlotOf(r, r.expected).(valid := false)]),
          SlotOf(r, r.expected).packet)
  }

  function InUse(ring: seq<Slot>): nat {
    if ring == [] then 0 else InUse(ring[1..]) + if ring[0].valid then 1 else 0
  }

  lemma {:induction false} InUseFreed(ring: seq<Slot>, i: nat)
    requires i < |ring| && ring[i].valid
    ensures InUse(ring[i := ring[i].(valid := false)]) == InUse(ring) - 1
  {
    if i == 0 {
      assert ring[0 := ring[0].(valid := false)][1..] == ring[1..];
    } else {
      assert ring[i := ring[i].(valid := false)][1..] == ring[1..][i - 1 := ring[i].(valid := false)];
      InUseFreed(ring[1..], i - 1);
    }
  }

  function FlushLoop(r: Receiver): (f: Receiver)
    ensures f.mode == r.mode && f.highest == r.highest && |f.ring| == |r.ring|
    decreases InUse(r.ring)
  {
    if Flushable(r) then
      InUseFreed(r.ring, IndexOf(r, r.expected));
      FlushLoop(FlushOne(r))
    else r
  }

  /** `if (seqNum > highest) highest = seqNum` after buffering. */
  function BufferAndRaise(r: Receiver, m: Pdu): Receiver {
    Buffer(r, Seq(m), Payload(m)).(highest := if Seq(m) > r.highest then Seq(m) else r.highest)
  }

  function OnInOrder(r: Receiver, m: Pdu): (Receiver, seq<Pdu>) {
    if Seq(m) == r.expected then
      var w := Write(r, Payload(m)).(highest := Seq(m));
      (w, [Encode(w.expected, FLAG_RR, [])])
    else if Seq(m) > r.expected then
      (BufferAndRaise(r, m).(mode := OutOfOrder), [Encode(r.expected, FLAG_SREJ, [])])
    else (r, [])
  }

  function OnOutOfOrder(r: Receiver, m: Pdu): (Receiver, seq<Pdu>) {
    if Seq(m) == r.expected then
      var w := Write(r, Payload(m));
      (w.(mode := Flush), [Encode(w.expected, FLAG_RR, [])])
    else if Seq(m) > r.expected then (BufferAndRaise(r, m), [])
    else (r, [])
  }

  /** In FLUSH the arriving packet only triggers the loop; its content is dropped. */
  function OnFlush(r: Receiver): (Receiver, seq<Pdu>) {
    var f := FlushLoop(r);
    if f.expected <= f.highest then
      if !SlotOf(f, f.expected).valid then (f.(mode := OutOfOrder), [Encode(f.expected, FLAG_SREJ, [])])
      else (f, [])
    else (f.(mode := InOrder), [Encode(f.expected, FLAG_RR, [])])
  }

  /** EOF: flush what is contiguous, acknowledge and close the file, whatever is still missing. */
  function OnEof(r: Receiver, m: Pdu): (Receiver, seq<Pdu>) {
    (FlushLoop(r).(mode := Closed), [Encode(Seq(m), FLAG_EOF_ACK, [])])
  }

  function ReceiverStep(r: Receiver, m: Pdu): (Receiver, seq<Pdu>) {
    if r.mode.Closed? then (r, [])
    else if Flag(m) == FLAG_EOF then OnEof(r, m)
    else if IsData(m) then
      match r.mode
      case InOrder => OnInOrder(r, m)
      case OutOfOrder => OnOutOfOrder(r, m)
      case Flush => OnFlush(r)
    else (r, [])
  }

  // ---------------------------------------------------------------- invariant

  /**
   The first number of the span the ring can tell apart. While the expected packet is being asked for again it
   cannot be in the ring, so the span starts one later.
   */
  function Low(r: Receiver): int {
    if r.mode.OutOfOrder? then r.expected + 1 else r.expected
  }

  /** Over that span of one ring size, a valid slot holds the chunk of its number, and none lies beyond highest. */
  ghost predicate RingInv(c: Config, r: Receiver, low: int)
    requires c.Valid()
  {
    forall k: nat :: low <= k < low + |r.ring| && SlotOf(r, k).valid ==>
      1 <= k <= r.highest && SlotOf(r, k).packet == c.Chunk(k)
  }

  /** The receiver invariant, against the sender's next sequence number. */
  ghost predicate ReceiverInv(c: Config, r: Receiver, next: u32)
    requires c.Valid()
  {
    && |r.ring| == c.recvWindow
    && 1 <= r.expected <= next <= c.Total() + 1
    && r.highest < next
    && r.output == c.Prefix(r.expected - 1)
    && (!r.mode.Closed? ==> RingInv(c, r, Low(r)))
    && match r.mode
       case InOrder => r.expected == r.highest + 1
       case OutOfOrder => r.expected < r.highest < Low(r) + |r.ring| && SlotOf(r, r.highest).valid
       case Flush => r.expected <= r.highest < Low(r) + |r.ring| && SlotOf(r, r.highest).valid
       case Closed => true
  }

  lemma InitReceiverInv(c: Config)
    requires c.Valid()
    ensures ReceiverInv(c, InitReceiver(c), 1)
  {
  }

  /** In order, nothing is buffered. */
  lemma InOrderRingEmpty(c: Config, r: Receiver, next: u32, i: nat)
    requires c.Valid() && ReceiverInv(c, r, next) && r.mode.InOrder? && i < |r.ring|
    ensures !r.ring[i].valid
  {
    var k := Representative(r.expected, |r.ring|, i);
    assert SlotOf(r, k) == r.ring[i];
  }

  /** Every residue has exactly one representative in a span of one modulus. */
  lemma Representative(low: nat, size: nat, i: nat) returns (k: nat)
    requires i < size
    ensures low <= k < low + size && k % size == i
  {
    var q := low / size;
    k := if i >= low % size then size * q + i else size * (q + 1) + i;
    assert size * (q + 1) == size * q + size;
    Residue(q, size, i);
    Residue(q + 1, size, i);
  }

  lemma Residue(q: int, size: nat, i: nat)
    requires i < size
    ensures (size * q + i) % size == i
  {
    var d := q - (size * q + i) / size;
    assert size * d == (size * q + i) % size - i;
    SmallMultiple(size, d);
  }

  /** Advancing the span by one over a free slot. */
  lemma SlideRing(c: Config, r: Receiver, low: nat)
    requires c.Valid() && RingInv(c, r, low) && !SlotOf(r, low).valid
    ensures RingInv(c, r, low + 1)
  {
    forall k: nat | low + 1 <= k < low + 1 + |r.ring| && SlotOf(r, k).valid
      ensures 1 <= k <= r.highest && SlotOf(r, k).packet == c.Chunk(k)
    {
      if k == low + |r.ring| {
        ResidueRepeats(low, |r.ring|);
      }
    }
  }

  /** The ring invariant looks at the ring and at highest only. */
  lemma SameRing(c: Config, r: Receiver, s: Receiver, low: int)
    requires c.Valid() && RingInv(c, r, low) && s.ring == r.ring && s.highest >= r.highest
    ensures RingInv(c, s, low)
  {
    assert forall k: nat :: SlotOf(s, k) == SlotOf(r, k);
  }

  /** One turn of the flush loop frees the expected slot, which then stands for the number one ring size on. */
  lemma FlushOneSlots(r: Receiver)
    requires Flushable(r)
    ensures var f := FlushOne(r);
            (forall k: nat :: r.expected < k < r.expected + |r.ring| ==> SlotOf(f, k) == SlotOf(r, k)) &&
            !SlotOf(f, r.expected).valid && SlotOf(f, r.expected + |r.ring|) == SlotOf(f, r.expected)
  {
    forall k: nat | r.expected < k < r.expected + |r.ring|
      ensures SlotOf(FlushOne(r), k) == SlotOf(r, k)
    {
      if IndexOf(r, k) == IndexOf(r, r.expected) {
        ResiduesDiffer(r.expected, k, |r.ring|);
      }
    }
    ResidueRepeats(r.expected, |r.ring|);
  }

  /** One turn of the flush loop writes exactly the next chunk. */
  lemma FlushOneInv(c: Config, r: Receiver)
    requires c.Valid() && RingInv(c, r, r.expected) && Flushable(r)
    requires 1 <= r.expected && r.output == c.Prefix(r.expected - 1) && r.highest < 0xFFFF_FFFF
    ensures var f := FlushOne(r);
            f.expected == r.expected + 1 && RingInv(c, f, f.expected) && f.output == c.Prefix(f.expected - 1)
    ensures var f := FlushOne(r);
            forall k: nat :: r.expected < k < r.expected + |r.ring| ==> SlotOf(f, k) == SlotOf(r, k)
  {
    FlushOneSlots(r);
    c.PrefixGrows(r.expected - 1);
  }

  /** A whole flush writes consecutive chunks and stops at a true gap or just past highest. */
  lemma {:induction false} FlushLoopInv(c: Config, r: Receiver)
    requires c.Valid() && RingInv(c, r, r.expected) && |r.ring| == c.recvWindow
    requires 1 <= r.expected && r.output == c.Prefix(r.expected - 1) && r.highest < 0xFFFF_FFFF
    requires r.expected <= r.highest + 1
    ensures var f := FlushLoop(r);
            r.expected <= f.expected <= r.highest + 1 &&
            f.output == c.Prefix(f.expected - 1) && RingInv(c, f, f.expected) &&
            (f.expected <= f.highest ==> !SlotOf(f, f.expected).valid) &&
            (r.expected <= r.highest < r.expected + |r.ring| && SlotOf(r, r.highest).valid &&
             f.expected <= f.highest ==>
               SlotOf(f, f.highest).valid)
    decreases InUse(r.ring)
  {
    if Flushable(r) {
      InUseFreed(r.ring, IndexOf(r, r.expected));
      FlushOneInv(c, r);
      FlushLoopInv(c, FlushOne(r));
    }
  }

  /**
   What the network may hand the receiver, given how far the sender's window reaches: data below next that
   is either old or true, less than a ring size ahead of Low; an EOF only when nothing shares the slot of
   the expected number.
   */
  ghost predicate Deliverable(c: Config, r: Receiver, next: u32, m: Pdu)
    requires c.Valid()
  {
    && next <= r.expected + |r.ring| + 1
    && (IsData(m) ==> 1 <= Seq(m) < next && (Seq(m) >= r.expected ==> Payload(m) == c.Chunk(Seq(m))))
    && (Flag(m) == FLAG_EOF ==> next <= r.expected + |r.ring|)
  }

  /** Buffering a number of the span fills its slot if it was free and touches no other number of the span. */
  lemma BufferSlots(r: Receiver, low: nat, m: Pdu)
    requires low <= Seq(m) < low + |r.ring|
    ensures var b := BufferAndRaise(r, m);
            |b.ring| == |r.ring| &&
            SlotOf(b, Seq(m)) == (if SlotOf(r, Seq(m)).valid then SlotOf(r, Seq(m)) else Slot(true, Payload(m))) &&
            forall k: nat :: low <= k < low + |r.ring| && k != Seq(m) ==> SlotOf(b, k) == SlotOf(r, k)
  {
    forall k: nat | low <= k < low + |r.ring| && k != Seq(m)
      ensures SlotOf(BufferAndRaise(r, m), k) == SlotOf(r, k)
    {
      if IndexOf(r, k) == IndexOf(r, Seq(m)) {
        if k < Seq(m) {
          ResiduesDiffer(k, Seq(m), |r.ring|);
        } else {
          ResiduesDiffer(Seq(m), k, |r.ring|);
        }
      }
    }
  }

  /** Buffering a number of the span keeps the ring truthful. */
  lemma BufferInv(c: Config, r: Receiver, low: nat, m: Pdu)
    requires c.Valid() && RingInv(c, r, low)
    requires 1 <= low <= Seq(m) < low + |r.ring| && Payload(m) == c.Chunk(Seq(m))
    ensures var b := BufferAndRaise(r, m);
            RingInv(c, b, low) && SlotOf(b, Seq(m)).valid && |b.ring| == |r.ring|
    ensures var b := BufferAndRaise(r, m);
            forall k: nat :: low <= k < low + |r.ring| && SlotOf(r, k).valid ==> SlotOf(b, k).valid
  {
    BufferSlots(r, low, m);
  }

  lemma InOrderSlotFree(c: Config, r: Receiver, next: u32)
    requires c.Valid() && ReceiverInv(c, r, next) && r.mode.InOrder?
    ensures !SlotOf(r, r.expected).valid
  {
  }

  lemma OnInOrderInv(c: Config, r: Receiver, next: u32, m: Pdu)
    requires c.Valid() && ReceiverInv(c, r, next) && Deliverable(c, r, next, m)
    requires r.mode.InOrder? && IsData(m)
    ensures ReceiverInv(c, OnInOrder(r, m).0, next)
  {
    hide Encode, RingInv;
    assert !SlotOf(r, r.expected).valid by {
      InOrderSlotFree(c, r, next);
    }
    SlideRing(c, r, r.expected);
    if Seq(m) == r.expected {
      c.PrefixGrows(r.expected - 1);
      SameRing(c, r, OnInOrder(r, m).0, r.expected + 1);
    } else if Seq(m) > r.expected {
      BufferInv(c, r, r.expected + 1, m);
      var b := OnInOrder(r, m).0;
      SameRing(c, BufferAndRaise(r, m), b, r.expected + 1);
      assert SlotOf(b, b.highest) == SlotOf(BufferAndRaise(r, m), b.highest);
    }
  }

  lemma OnOutOfOrderInv(c: Config, r: Receiver, next: u32, m: Pdu)
    requires c.Valid() && ReceiverInv(c, r, next) && Deliverable(c, r, next, m)
    requires r.mode.OutOfOrder? && IsData(m)
    ensures ReceiverInv(c, OnOutOfOrder(r, m).0, next)
  {
    hide Encode, RingInv;
    if Seq(m) == r.expected {
      c.PrefixGrows(r.expected - 1);
      var w := OnOutOfOrder(r, m).0;
      SameRing(c, r, w, r.expected + 1);
      assert SlotOf(w, w.highest) == SlotOf(r, r.highest);
    } else if Seq(m) > r.expected {
      BufferInv(c, r, r.expected + 1, m);
      var b := BufferAndRaise(r, m);
      assert SlotOf(b, r.highest).valid;
    }
  }

  lemma OnFlushInv(c: Config, r: Receiver, next: u32)
    requires c.Valid() && ReceiverInv(c, r, next) && r.mode.Flush?
    ensures ReceiverInv(c, OnFlush(r).0, next)
  {
    hide Encode;
    FlushLoopInv(c, r);
    var f := FlushLoop(r);
    var g := OnFlush(r).0;
    if f.expected <= f.highest {
      assert g == f.(mode := OutOfOrder) && SlotOf(g, g.highest) == SlotOf(f, f.highest);
      SlideRing(c, f, f.expected);
      SameRing(c, f, g, f.expected + 1);
    } else {
      assert g == f.(mode := InOrder);
      SameRing(c, f, g, f.expected);
    }
  }

  /** When an EOF can arrive, nothing buffered can be mistaken for the expected chunk. */
  lemma OnEofInv(c: Config, r: Receiver, next: u32, m: Pdu)
    requires c.Valid() && ReceiverInv(c, r, next) && Deliverable(c, r, next, m)
    requires !r.mode.Closed? && Flag(m) == FLAG_EOF
    ensures ReceiverInv(c, OnEof(r, m).0, next)
  {
    if r.mode.OutOfOrder? {
      NothingBehindExpected(c, r, next);
    }
    FlushLoopInv(c, r);
    var f := FlushLoop(r);
    assert OnEof(r, m).0 == f.(mode := Closed);
  }

  lemma NothingBehindExpected(c: Config, r: Receiver, next: u32)
    requires c.Valid() && ReceiverInv(c, r, next) && r.mode.OutOfOrder?
    requires next <= r.expected + |r.ring|
    ensures !SlotOf(r, r.expected).valid && RingInv(c, r, r.expected)
  {
    var k: nat := r.expected + |r.ring|;
    ResidueRepeats(r.expected, |r.ring|);
    assert SlotOf(r, k) == SlotOf(r, r.expected);
  }

  lemma {:induction false} ReceiverStepInv(c: Config, r: Receiver, next: u32, m: Pdu)
    requires c.Valid() && ReceiverInv(c, r, next) && Deliverable(c, r, next, m)
    ensures ReceiverInv(c, ReceiverStep(r, m).0, next)
  {
    if !r.mode.Closed? {
      if Flag(m) == FLAG_EOF {
        OnEofInv(c, r, next, m);
      } else if IsData(m) {
        match r.mode
        case InOrder => OnInOrderInv(c, r, next, m);
        case OutOfOrder => OnOutOfOrderInv(c, r, next, m);
        case Flush => OnFlushInv(c, r, next);
      }
    }
  }

  /**
   What a step can answer: an RR of the new expected number, after progress; an SREJ of it, on entering
   OUT_OF_ORDER; the EOF-ACK; or nothing, and then neither mode nor expected number changes.
   */
  ghost predicate Answers(r: Receiver, r': Receiver, m: Pdu, out: seq<Pdu>) {
    && r.expected <= r'.expected
    && match |out|
       case 0 => r'.mode == r.mode && r'.expected == r.expected
       case 1 =>
         var d := out[0];
         && !r.mode.Closed?
         && Payload(d) == []
         && (if Flag(d) == FLAG_RR then Seq(d) == r'.expected > r.expected && (r'.mode.InOrder? || r'.mode.Flush?)
             else if Flag(d) == FLAG_SREJ then
               Seq(d) == r'.expected < r'.highest && r'.mode.OutOfOrder? && !r.mode.OutOfOrder?
             else Flag(d) == FLAG_EOF_ACK && Flag(m) == FLAG_EOF && Seq(d) == Seq(m) && r'.mode.Closed?)
       case _ => false
  }

  lemma OnEofAnswers(c: Config, r: Receiver, next: u32, m: Pdu)
    requires c.Valid() && ReceiverInv(c, r, next) && Deliverable(c, r, next, m)
    requires !r.mode.Closed? && Flag(m) == FLAG_EOF
    ensures Answers(r, OnEof(r, m).0, m, OnEof(r, m).1)
  {
    if r.mode.OutOfOrder? {
      NothingBehindExpected(c, r, next);
    }
    FlushLoopInv(c, r);
    DecodeEncode(Seq(m), FLAG_EOF_ACK, []);
  }

  lemma OnFlushAnswers(c: Config, r: Receiver, next: u32, m: Pdu)
    requires c.Valid() && ReceiverInv(c, r, next) && r.mode.Flush?
    ensures Answers(r, OnFlush(r).0, m, OnFlush(r).1)
  {
    FlushLoopInv(c, r);
    DecodeEncode(FlushLoop(r).expected, FLAG_RR, []);
    DecodeEncode(FlushLoop(r).expected, FLAG_SREJ, []);
  }

  lemma OnInOrderAnswers(c: Config, r: Receiver, next: u32, m: Pdu)
    requires c.Valid() && ReceiverInv(c, r, next) && Deliverable(c, r, next, m)
    requires r.mode.InOrder? && IsData(m)
    ensures Answers(r, OnInOrder(r, m).0, m, OnInOrder(r, m).1)
  {
    DecodeEncode(Succ(r.expected), FLAG_RR, []);
    DecodeEncode(r.expected, FLAG_SREJ, []);
  }

  lemma OnOutOfOrderAnswers(c: Config, r: Receiver, next: u32, m: Pdu)
    requires c.Valid() && ReceiverInv(c, r, next) && Deliverable(c, r, next, m)
    requires r.mode.OutOfOrder? && IsData(m)
    ensures Answers(r, OnOutOfOrder(r, m).0, m, OnOutOfOrder(r, m).1)
  {
    DecodeEncode(Succ(r.expected), FLAG_RR, []);
  }

  lemma {:induction false} ReceiverAnswers(c: Config, r: Receiver, next: u32, m: Pdu)
    requires c.Valid() && ReceiverInv(c, r, next) && Deliverable(c, r, next, m)
    ensures Answers(r, ReceiverStep(r, m).0, m, ReceiverStep(r, m).1)
  {
    if !r.mode.Closed? {
      if Flag(m) == FLAG_EOF {
        OnEofAnswers(c, r, next, m);
      } else if IsData(m) {
        match r.mode
        case InOrder => OnInOrderAnswers(c, r, next, m);
        case OutOfOrder => OnOutOfOrderAnswers(c, r, next, m);
        case Flush => OnFlushAnswers(c, r, next, m);
      }
    }
  }

  // ---------------------------------------------------------------- no checksum test

  /** The receiver never looks at the checksum: two messages that differ only there are treated alike. */
  lemma {:induction false} ChecksumIgnored(r: Receiver, m: Pdu, m': Pdu)
    requires |m'| == |m| && forall i :: 0 <= i < |m| && i != 4 && i != 5 ==> m'[i] == m[i]
    ensures ReceiverStep(r, m') == ReceiverStep(r, m)
  {
    assert m'[..4] == m[..4];
    assert m'[HEADER..] == m[HEADER..];
  }

  /** A built data PDU with one payload byte changed, as the network may damage it. */
  function Damaged(k: u32, flag: byte, payload: seq<byte>, i: nat, b: byte): (m: Pdu)
    requires i < |payload|
  {
    Encode(k, flag, payload)[HEADER + i := b]
  }

  /** The damage is detectable, yet the receiver treats the PDU, in every state, as if built for the changed payload. */
  lemma {:induction false} DamageGoesUnnoticed(r: Receiver, k: u32, flag: byte, payload: seq<byte>, i: nat, b: byte)
    requires i < |payload| && payload[i] != b
    ensures InCksum(Big, Damaged(k, flag, payload, i, b)) != 0
    ensures ReceiverStep(r, Damaged(k, flag, payload, i, b)) == ReceiverStep(r, Encode(k, flag, payload[i := b]))
  {
    var m: Pdu := Encode(k, flag, payload);
    var built: Pdu := Encode(k, flag, payload[i := b]);
    var damaged := Damaged(k, flag, payload, i, b);
    ChecksumSound(Big, k, flag, payload);
    ByteErrorDetected(Big, m, HEADER + i, b);
    DecodeEncode(k, flag, payload);
    DecodeEncode(k, flag, payload[i := b]);
    HeaderAndPayload(damaged, built);
    ChecksumIgnored(r, built, damaged);
  }

  /** Two PDUs with the same header fields and payload differ in the checksum field at most. */
  lemma HeaderAndPayload(m: Pdu, m': Pdu)
    requires m[..4] == m'[..4] && m[6] == m'[6] && m[HEADER..] == m'[HEADER..]
    ensures |m| == |m'| && forall j :: 0 <= j < |m| && j != 4 && j != 5 ==> m[j] == m'[j]
  {
    assert |m[HEADER..]| == |m'[HEADER..]|;
    forall j | 0 <= j < |m| && j != 4 && j != 5
      ensures m[j] == m'[j]
    {
      if j < 4 {
        assert m[..4][j] == m'[..4][j];
      } else if j > 6 {
        assert m[HEADER..][j - HEADER] == m'[HEADER..][j - HEADER];
      }
    }
  }

  /** Whether the receiver keeps the payload of a data PDU numbered k, in the file or in the ring. */
  predicate Keeps(r: Receiver, k: u32) {
    (r.mode.InOrder? || r.mode.OutOfOrder?) && (k == r.expected || (k > r.expected && !SlotOf(r, k).valid))
  }

  /**
   Exactly when damage gets in: it reaches the file at once if and only if the packet is the expected one outside
   FLUSH and Closed, and it reaches the file or the ring if and only if the receiver keeps the packet.
   */
  lemma {:induction false} CorruptionIsWritten(r: Receiver, k: u32, flag: byte, payload: seq<byte>, i: nat, b: byte)
    requires flag == FLAG_DATA || flag == FLAG_SREJ_REPLY || flag == FLAG_TIMEOUT_RESEND
    requires i < |payload| && payload[i] != b
    ensures var hit := ReceiverStep(r, Damaged(k, flag, payload, i, b)).0;
            var sound := ReceiverStep(r, Encode(k, flag, payload)).0;
            (hit.output != sound.output <==> k == r.expected && (r.mode.InOrder? || r.mode.OutOfOrder?)) &&
            (hit != sound <==> Keeps(r, k))
  {
    DamageGoesUnnoticed(r, k, flag, payload, i, b);
    DecodeEncode(k, flag, payload);
    DecodeEncode(k, flag, payload[i := b]);
    assert payload[i := b][i] != payload[i];
    PayloadMatters(r, Encode(k, flag, payload), Encode(k, flag, payload[i := b]));
  }

  lemma PayloadMatters(r: Receiver, m: Pdu, m': Pdu)
    requires Seq(m') == Seq(m) && Flag(m') == Flag(m) && IsData(m) && Payload(m') != Payload(m)
    ensures var r1, r2 := ReceiverStep(r, m).0, ReceiverStep(r, m').0;
            (r1.output != r2.output <==> Seq(m) == r.expected && (r.mode.InOrder? || r.mode.OutOfOrder?)) &&
            (r1 != r2 <==> Keeps(r, Seq(m)))
  {
    hide Encode;
    if r.mode.InOrder? || r.mode.OutOfOrder? {
      if Seq(m) == r.expected {
        AppendCancels(r.output, Payload(m), Payload(m'));
      } else if Seq(m) > r.expected {
        var b1, b2 := BufferAndRaise(r, m), BufferAndRaise(r, m');
        assert !SlotOf(r, Seq(m)).valid ==> b1.ring[IndexOf(r, Seq(m))] != b2.ring[IndexOf(r, Seq(m))];
      }
    }
  }

  lemma AppendCancels(s: seq<byte>, t: seq<byte>, u: seq<byte>)
    requires t != u
    ensures s + t != s + u
  {
    assert (s + t)[|s|..] == t && (s + u)[|s|..] == u;
  }

  /** The payloads of the slots of `from` .. to-1, in order. */
  function Joined(r: Receiver, from: nat, to: nat): seq<byte>
    decreases if from < to then to - from else 0
  {
    if from >= to then [] else SlotOf(r, from).packet + Joined(r, from + 1, to)
  }

  lemma {:induction false} JoinedSame(r: Receiver, s: Receiver, from: nat, to: nat)
    requires forall j :: from <= j < to ==> SlotOf(s, j).packet == SlotOf(r, j).packet
    ensures Joined(s, from, to) == Joined(r, from, to)
    decreases if from < to then to - from else 0
  {
    if from < to {
      JoinedSame(r, s, from + 1, to);
    }
  }

  /** A flush writes at least every number from expected on that is held without a gap. */
  lemma {:induction false} FlushWritesRun(r: Receiver, to: nat)
    requires r.expected <= to <= r.highest + 1 && to <= r.expected + |r.ring| && r.highest < 0xFFFF_FFFF
    requires forall j :: r.expected <= j < to ==> SlotOf(r, j).valid
    ensures r.output + Joined(r, r.expected, to) <= FlushLoop(r).output
    decreases if r.expected < to then to - r.expected else 0
  {
    if r.expected == to {
      FlushLoopAppends(r);
    } else {
      var f := FlushOne(r);
      FlushOneSlots(r);
      assert FlushLoop(r) == FlushLoop(f);
      FlushWritesRun(f, to);
      JoinedSame(r, f, r.expected + 1, to);
      assert f.output + Joined(f, f.expected, to) ==
             r.output + (SlotOf(r, r.expected).packet + Joined(r, r.expected + 1, to));
    }
  }

  /** A flush stops at the first number from expected on that is not held, or past highest. */
  lemma {:induction false} FlushStopsAtGap(r: Receiver)
    requires r.expected <= r.highest + 1 && r.highest < 0xFFFF_FFFF && r.highest < r.expected + |r.ring|
    ensures var f := FlushLoop(r);
            r.expected <= f.expected <= r.highest + 1 &&
            (forall j :: r.expected <= j < f.expected ==> SlotOf(r, j).valid) &&
            (f.expected <= r.highest ==> !SlotOf(r, f.expected).valid)
    decreases InUse(r.ring)
  {
    if Flushable(r) {
      InUseFreed(r.ring, IndexOf(r, r.expected));
      FlushOneSlots(r);
      FlushStopsAtGap(FlushOne(r));
    }
  }

  /** ... and what it writes is what those slots hold, in order. */
  lemma {:induction false} FlushWritesExactly(r: Receiver)
    requires r.expected <= r.highest + 1 && r.highest < 0xFFFF_FFFF && r.highest < r.expected + |r.ring|
    ensures FlushLoop(r).output == r.output + Joined(r, r.expected, FlushLoop(r).expected)
    decreases InUse(r.ring)
  {
    FlushStopsAtGap(r);
    if Flushable(r) {
      var g := FlushOne(r);
      InUseFreed(r.ring, IndexOf(r, r.expected));
      FlushOneSlots(r);
      FlushStopsAtGap(g);
      FlushWritesExactly(g);
      var e := FlushLoop(r).expected;
      JoinedSame(r, g, r.expected + 1, e);
      assert g.output + Joined(g, g.expected, e) ==
             r.output + (SlotOf(r, r.expected).packet + Joined(r, r.expected + 1, e));
    }
  }

  /**
   What an EOF leaves in the file: everything from expected on that is held without a gap is written, in order,
   before the file is closed.
   */
  lemma {:induction false} EofWritesHeld(c: Config, r: Receiver, next: u32, m: Pdu)
    requires c.Valid() && ReceiverInv(c, r, next) && Deliverable(c, r, next, m) && !r.mode.Closed? && m[6] == 10
    ensures var f := ReceiverStep(r, m).0;
            f.mode.Closed? && f.output == r.output + Joined(r, r.expected, f.expected) &&
            (forall j :: r.expected <= j < f.expected ==> SlotOf(r, j).valid) &&
            (f.expected <= r.highest ==> !SlotOf(r, f.expected).valid)
  {
    hide Encode, RingInv;
    FlushStopsAtGap(r);
    FlushWritesExactly(r);
  }

  /**
   Damage taken into the ring reaches the file later: a packet kept at number k > expected is written as it came,
   after everything before it, once the numbers between are held, the expected packet arrives, and any third
   packet triggers the flush.
   */
  lemma {:induction false} BufferedDamageIsWritten(r: Receiver, damaged: Pdu, next: Pdu, third: Pdu)
    requires r.expected <= r.highest + 1 && r.highest < 0xFFFF_FFFE
    requires IsData(damaged) && r.expected < Seq(damaged) <= r.expected + |r.ring| && Seq(damaged) < 0xFFFF_FFFF
    requires Keeps(r, Seq(damaged))
    requires IsData(next) && Seq(next) == r.expected && IsData(third)
    requires forall j :: r.expected < j < Seq(damaged) ==> SlotOf(r, j).valid
    ensures var r1 := ReceiverStep(r, damaged).0;
            var r2 := ReceiverStep(r1, next).0;
            r.output + Payload(next) + Joined(r, r.expected + 1, Seq(damaged)) + Payload(damaged) <=
            ReceiverStep(r2, third).0.output
  {
    hide Encode;
    var k, kept := Seq(damaged), BufferAndRaise(r, damaged);
    var r2 := ReceiverStep(ReceiverStep(r, damaged).0, next).0;
    BufferSlots(r, r.expected + 1, damaged);
    assert r2 == Receiver(Flush, r.expected + 1, kept.highest, kept.ring, r.output + Payload(next));
    KeptIsFlushed(r2, kept, k);
    JoinedSame(r, r2, r.expected + 1, k);
    assert r2.output + (Joined(r2, r2.expected, k) + Payload(damaged)) ==
           r.output + Payload(next) + Joined(r, r.expected + 1, k) + Payload(damaged);
  }

  lemma KeptIsFlushed(r: Receiver, kept: Receiver, k: nat)
    requires r.ring == kept.ring && r.expected <= k <= r.highest < 0xFFFF_FFFF && k < r.expected + |r.ring|
    requires forall j :: r.expected <= j <= k ==> SlotOf(kept, j).valid
    ensures forall j: nat :: SlotOf(r, j) == SlotOf(kept, j)
    ensures r.output + (Joined(r, r.expected, k) + SlotOf(kept, k).packet) <= FlushLoop(r).output
  {
    assert forall j: nat :: SlotOf(r, j) == SlotOf(kept, j);
    FlushWritesRun(r, k + 1);
    JoinedSnoc(r, r.expected, k);
  }

  lemma {:induction false} JoinedSnoc(r: Receiver, from: nat, to: nat)
    requires from <= to
    ensures Joined(r, from, to + 1) == Joined(r, from, to) + SlotOf(r, to).packet
    decreases if from < to then to - from else 0
  {
    if from < to {
      JoinedSnoc(r, from + 1, to);
    }
  }

  /** A flush only ever appends. */
  lemma FlushLoopAppends(r: Receiver)
    ensures r.output <= FlushLoop(r).output
    decreases InUse(r.ring)
  {
    if Flushable(r) {
      InUseFreed(r.ring, IndexOf(r, r.expected));
      FlushLoopAppends(FlushOne(r));
    }
  }
}

/**
 The receiver with an unbounded map from sequence numbers to payloads in place of the ring. The ring, which
 stores no sequence numbers, is shown to behave exactly like it in every run.
 */
module IdealRing {
  import opened Bytes
  import opened Pdus
  import opened Transfers
  import opened Receivers
  import opened Protocol

  datatype Ideal = Ideal(
    mode: Mode,
    expected: u32,
    highest: u32,
    held: map<nat, seq<byte>>,
    output: seq<byte>)

  function InitIdeal(): Ideal {
    Ideal(InOrder, 1, 0, map[], [])
  }

  /** Keep the first payload received for each number. */
  function Hold(a: Ideal, m: Pdu): Ideal {
    a.(held := if Seq(m) in a.held then a.held else a.held[Seq(m) := Payload(m)],
       highest := if Seq(m) > a.highest then Seq(m) else a.highest)
  }

  function Append(a: Ideal, payload: seq<byte>): Ideal {
    a.(output := a.output + payload, expected := Succ(a.expected))
  }

  function ReleaseOne(a: Ideal): Ideal
    requires a.expected in a.held
  {
    Append(a.(held := a.held - {a.expected}), a.held[a.expected])
  }

  function Release(a: Ideal): Ideal
    decreases |a.held|
  {
    if a.expected <= a.highest && a.expected in a.held then
      assert (a.held - {a.expected}).Keys == a.held.Keys - {a.expected};
      Release(ReleaseOne(a))
    else a
  }

  function IdealStep(a: Ideal, m: Pdu): (Ideal, seq<Pdu>) {
    if a.mode.Closed? then (a, [])
    else if Flag(m) == FLAG_EOF then
      (Release(a).(mode := Closed), [Encode(Seq(m), FLAG_EOF_ACK, [])])
    else if !IsData(m) then (a, [])
    else if a.mode.Flush? then
      var f := Release(a);
      if f.expected <= f.highest then (f.(mode := OutOfOrder), [Encode(f.expected, FLAG_SREJ, [])])
      else (f.(mode := InOrder), [Encode(f.expected, FLAG_RR, [])])
    else if Seq(m) == a.expected then
      var w := Append(a, Payload(m));
      (if a.mode.InOrder? then w.(highest := Seq(m)) else w.(mode := Flush), [Encode(w.expected, FLAG_RR, [])])
    else if Seq(m) < a.expected then (a, [])
    else
      (Hold(a, m).(mode := OutOfOrder), if a.mode.InOrder? then [Encode(a.expected, FLAG_SREJ, [])] else [])
  }

  /** Over one span, a slot is valid exactly when its number is held, and then has its payload; nothing else is held. */
  ghost predicate Mirrors(r: Receiver, held: map<nat, seq<byte>>, low: nat) {
    && (forall k: nat :: low <= k < low + |r.ring| ==>
         (SlotOf(r, k).valid <==> k in held) && (k in held ==> SlotOf(r, k).packet == held[k]))
    && (forall k :: k in held ==> low <= k < low + |r.ring|)
  }

  ghost predicate Refines(r: Receiver, a: Ideal) {
    && r.mode == a.mode && r.expected == a.expected && r.highest == a.highest && r.output == a.output
    && (!r.mode.Closed? ==> Mirrors(r, a.held, Low(r)))
  }

  lemma MirrorsSameRing(r: Receiver, s: Receiver, held: map<nat, seq<byte>>, low: nat)
    requires Mirrors(r, held, low) && s.ring == r.ring
    ensures Mirrors(s, held, low)
  {
    assert forall k: nat :: SlotOf(s, k) == SlotOf(r, k);
  }

  lemma SlideMirrors(r: Receiver, held: map<nat, seq<byte>>, low: nat)
    requires Mirrors(r, held, low) && low !in held
    ensures Mirrors(r, held, low + 1)
  {
    ResidueRepeats(low, |r.ring|);
    assert SlotOf(r, low + |r.ring|) == SlotOf(r, low);
  }

  lemma HoldMirrors(r: Receiver, a: Ideal, low: nat, m: Pdu)
    requires Mirrors(r, a.held, low) && low <= Seq(m) < low + |r.ring|
    ensures Mirrors(BufferAndRaise(r, m), Hold(a, m).held, low)
  {
    BufferSlots(r, low, m);
  }

  lemma {:induction false} ReleaseMirrors(r: Receiver, a: Ideal)
    requires r.mode == a.mode && r.expected == a.expected && r.highest == a.highest && r.output == a.output
    requires Mirrors(r, a.held, r.expected) && r.highest < 0xFFFF_FFFF
    ensures var f, b := FlushLoop(r), Release(a);
            f.expected == b.expected && f.output == b.output && b.mode == a.mode && b.highest == a.highest &&
            Mirrors(f, b.held, f.expected) && (b.expected <= b.highest ==> b.expected !in b.held)
    decreases InUse(r.ring)
  {
    if Flushable(r) {
      InUseFreed(r.ring, IndexOf(r, r.expected));
      FlushOneSlots(r);
      ReleaseMirrors(FlushOne(r), ReleaseOne(a));
    }
  }

  lemma FlushRefines(c: Config, r: Receiver, a: Ideal, next: u32, m: Pdu)
    requires c.Valid() && ReceiverInv(c, r, next) && Refines(r, a) && r.mode.Flush? && IsData(m)
    ensures Refines(OnFlush(r).0, IdealStep(a, m).0) && OnFlush(r).1 == IdealStep(a, m).1
  {
    hide Encode, RingInv;
    assert r.highest < 0xFFFF_FFFF;
    ReleaseMirrors(r, a);
    var f, b := FlushLoop(r), Release(a);
    var g := OnFlush(r).0;
    if f.expected <= f.highest {
      assert g == f.(mode := OutOfOrder);
      SlideMirrors(f, b.held, f.expected);
      MirrorsSameRing(f, g, b.held, f.expected + 1);
    } else {
      assert g == f.(mode := InOrder);
      MirrorsSameRing(f, g, b.held, f.expected);
    }
  }

  lemma EofRefines(c: Config, r: Receiver, a: Ideal, next: u32, m: Pdu)
    requires c.Valid() && ReceiverInv(c, r, next) && Refines(r, a) && Deliverable(c, r, next, m)
    requires !r.mode.Closed? && Flag(m) == FLAG_EOF
    ensures Refines(OnEof(r, m).0, IdealStep(a, m).0) && OnEof(r, m).1 == IdealStep(a, m).1
  {
    if r.mode.OutOfOrder? {
      NothingBehindExpected(c, r, next);
    } else {
      ReleaseMirrors(r, a);
    }
  }

  lemma WriteRefines(r: Receiver, a: Ideal, m: Pdu)
    requires Refines(r, a) && IsData(m) && Seq(m) == r.expected < 0xFFFF_FFFF
    requires r.mode.InOrder? ==> r.expected !in a.held
    requires r.mode.InOrder? || r.mode.OutOfOrder?
    ensures var (r', a') := (ReceiverStep(r, m), IdealStep(a, m));
            Refines(r'.0, a'.0) && r'.1 == a'.1
  {
    if r.mode.InOrder? {
      SlideMirrors(r, a.held, r.expected);
    }
    MirrorsSameRing(r, ReceiverStep(r, m).0, a.held, r.expected + 1);
  }

  lemma BufferRefines(r: Receiver, a: Ideal, m: Pdu)
    requires Refines(r, a) && IsData(m) && r.expected < Seq(m) <= r.expected + |r.ring|
    requires r.mode.InOrder? ==> r.expected !in a.held
    requires r.mode.InOrder? || r.mode.OutOfOrder?
    ensures var (r', a') := (ReceiverStep(r, m), IdealStep(a, m));
            Refines(r'.0, a'.0) && r'.1 == a'.1
  {
    if r.mode.InOrder? {
      SlideMirrors(r, a.held, r.expected);
    }
    HoldMirrors(r, a, r.expected + 1, m);
    MirrorsSameRing(BufferAndRaise(r, m), ReceiverStep(r, m).0, Hold(a, m).held, r.expected + 1);
  }

  lemma {:induction false} StepRefines(c: Config, r: Receiver, a: Ideal, next: u32, m: Pdu)
    requires c.Valid() && ReceiverInv(c, r, next) && Refines(r, a) && Deliverable(c, r, next, m)
    ensures Refines(ReceiverStep(r, m).0, IdealStep(a, m).0) && ReceiverStep(r, m).1 == IdealStep(a, m).1
  {
    if !r.mode.Closed? {
      if Flag(m) == FLAG_EOF {
        EofRefines(c, r, a, next, m);
      } else if IsData(m) {
        if r.mode.Flush? {
          FlushRefines(c, r, a, next, m);
        } else {
          if r.mode.InOrder? {
            assert !SlotOf(r, r.expected).valid;
          }
          if Seq(m) == r.expected {
            WriteRefines(r, a, m);
          } else if Seq(m) > r.expected {
            BufferRefines(r, a, m);
          }
        }
      }
    }
  }

  /** The ideal receiver fed with the same deliveries. */
  function IdealRun(c: Config, steps: seq<Step>): Ideal
    requires c.Valid()
  {
    if steps == [] then InitIdeal()
    else
      var st, step := Exec(c, steps[..|steps| - 1]), steps[|steps| - 1];
      var a := IdealRun(c, steps[..|steps| - 1]);
      if step.DataArrives? && Enabled(st, step) then IdealStep(a, st.data[step.i]).0 else a
  }

  /** After every run the untagged ring and the unbounded map agree slot by slot, with the same state and output. */
  lemma {:induction false} RingRefinesIdeal(c: Config, steps: seq<Step>)
    requires c.Valid() && WindowsFit(c)
    ensures Refines(Exec(c, steps).rcv, IdealRun(c, steps))
  {
    hide Refines;
    if steps == [] {
      InitRefines(c);
    } else {
      var st, step := Exec(c, steps[..|steps| - 1]), steps[|steps| - 1];
      RingRefinesIdeal(c, steps[..|steps| - 1]);
      Reachable(c, steps[..|steps| - 1]);
      if step.DataArrives? && Enabled(st, step) {
        var taken := TakeData(c, st, step.i);
        DeliverableInFlight(c, taken, st.data[step.i]);
        StepRefines(c, st.rcv, IdealRun(c, steps[..|steps| - 1]), st.snd.sequenceNum, st.data[step.i]);
      } else {
        ReceiverMovesOnReceipt(c, st, step);
      }
    }
  }

  lemma InitRefines(c: Config)
    requires c.Valid()
    ensures Refines(InitReceiver(c), InitIdeal())
  {
  }

  /** ... and both give the same answer to whichever message arrives next, so no run tells them apart. */
  lemma {:induction false} RingAnswersLikeIdeal(c: Config, steps: seq<Step>, m: Pdu)
    requires c.Valid() && WindowsFit(c)
    requires m in Exec(c, steps).data
    ensures ReceiverStep(Exec(c, steps).rcv, m).1 == IdealStep(IdealRun(c, steps), m).1
  {
    hide Refines, ReceiverStep, IdealStep;
    var st := Exec(c, steps);
    Reachable(c, steps);
    RingRefinesIdeal(c, steps);
    assert DataInFlight(c, st, m);
    DeliverableInFlight(c, st, m);
    StepRefines(c, st.rcv, IdealRun(c, steps), st.snd.sequenceNum, m);
  }
}

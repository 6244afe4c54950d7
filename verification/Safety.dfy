/** What holds in every reachable state, whatever the network loses, duplicates or reorders. */
module Safety {
  import opened Bytes
  import opened Pdus
  import opened Transfers
  import opened Windows
  import opened Senders
  import R = Receivers
  import opened Protocol
  import opened AnyWindow

  /**
   The written file is always the source file up to the expected chunk, byte for byte: its first
   (expected - 1) * B bytes, or all of it.
   */
  lemma {:induction false} PrefixSafety(c: Config, steps: seq<Step>)
    requires c.Valid() && WindowsFit(c)
    ensures var r := Exec(c, steps).rcv;
            1 <= r.expected && r.output == c.Prefix(r.expected - 1)
  {
    Reachable(c, steps);
  }

  lemma ExecConcat(c: Config, steps: seq<Step>, more: seq<Step>)
    requires c.Valid()
    requires more != []
    ensures Exec(c, steps + more) == Next(c, Exec(c, steps + more[..|more| - 1]), more[|more| - 1])
  {
    hide Exec, Next;
    var front, last := more[..|more| - 1], more[|more| - 1];
    assert steps + more == steps + front + [last];
    ExecSnoc(c, steps + front, last);
  }

  lemma StepAppends(c: Config, st: State, step: Step)
    ensures st.rcv.output <= Next(c, st, step).rcv.output
  {
    R.FlushLoopAppends(st.rcv);
  }

  /** Nothing written is ever taken back, for any window sizes. */
  lemma {:induction false} OutputOnlyGrows(c: Config, steps: seq<Step>, more: seq<Step>)
    requires c.Valid()
    ensures Exec(c, steps).rcv.output <= Exec(c, steps + more).rcv.output
  {
    if more == [] {
      assert steps + more == steps;
    } else {
      OutputOnlyGrows(c, steps, more[..|more| - 1]);
      var st := Exec(c, steps + more[..|more| - 1]);
      ExecConcat(c, steps, more);
      StepAppends(c, st, more[|more| - 1]);
    }
  }

  /** A data PDU in flight that does not carry the chunk it is labelled with is one the receiver no longer wants. */
  lemma {:induction false} WrongPayloadsAreStale(c: Config, steps: seq<Step>)
    requires c.Valid() && WindowsFit(c)
    ensures var st := Exec(c, steps);
            forall m :: m in st.data && IsData(m) ==>
              1 <= Seq(m) < st.snd.sequenceNum &&
              (Payload(m) != c.Chunk(Seq(m)) ==> Seq(m) < st.rcv.expected)
  {
    Reachable(c, steps);
    var st := Exec(c, steps);
    assert forall m :: m in st.data ==> DataInFlight(c, st, m);
  }

  /** base <= expected <= next <= base + Ws, and what is in flight stays within those marks. */
  lemma {:induction false} WindowCoupling(c: Config, steps: seq<Step>)
    requires c.Valid()
    ensures var st := Exec(c, steps);
            1 <= Base(st.snd) <= st.rcv.expected <= st.snd.sequenceNum <= Base(st.snd) + c.sendWindow
    ensures var st := Exec(c, steps);
            forall m :: m in st.acks ==>
              (Flag(m) == FLAG_RR ==> Seq(m) <= st.rcv.expected) &&
              (Flag(m) == FLAG_SREJ ==> Seq(m) <= st.rcv.expected && Seq(m) < st.snd.sequenceNum)
    ensures var st := Exec(c, steps);
            forall m :: m in st.data && IsData(m) ==> Seq(m) < st.rcv.expected + c.sendWindow
  {
    WeaklyReachable(c, steps);
    var st := Exec(c, steps);
    assert forall m :: m in st.acks ==> AckInFlight(st, m);
    assert forall m :: m in st.data ==> PlainData(c, st.snd, m);
  }

  /** As a map, the window binds each number of a range to the PDU first sent for it. */
  ghost predicate Holds(c: Config, w: Window, from: int, to: int)
    requires c.Valid()
  {
    Coherent(w) &&
    forall k: u32 :: from <= k < to ==>
      k >= 1 && k in Contents(w) && Contents(w)[k] == Encode(k, FLAG_DATA, c.Chunk(k))
  }

  /** Every chunk sent and not yet written is still in the sender's window, intact. */
  lemma {:induction false} UnwrittenChunksRetained(c: Config, steps: seq<Step>)
    requires c.Valid()
    ensures var st := Exec(c, steps);
            Holds(c, st.snd.window, st.rcv.expected, st.snd.sequenceNum)
  {
    WeaklyReachable(c, steps);
    var st := Exec(c, steps);
    ContiguousIsMap(c, st.snd.window, Base(st.snd), st.snd.sequenceNum);
  }

  /** As a map, the window has exactly the keys base .. next-1, each bound to its chunk. */
  lemma {:induction false} WindowIsContiguous(c: Config, steps: seq<Step>)
    requires c.Valid()
    ensures var s := Exec(c, steps).snd;
            Holds(c, s.window, Base(s), s.sequenceNum) &&
            forall k: u32 :: k in Contents(s.window) ==> Base(s) <= k < s.sequenceNum
  {
    WeaklyReachable(c, steps);
    var s := Exec(c, steps).snd;
    ContiguousIsMap(c, s.window, Base(s), s.sequenceNum);
  }

  /** The return code of insert, which the server ignores, is never -1. */
  lemma {:induction false} InsertNeverFails(c: Config, steps: seq<Step>)
    requires c.Valid()
    ensures var s := Exec(c, steps).snd;
            s.phase.Filling? && Read(c, s.filePos) != [] ==>
              Insert(s.window, s.sequenceNum, Encode(s.sequenceNum, FLAG_DATA, Read(c, s.filePos))).1
  {
    WeaklyReachable(c, steps);
    var s := Exec(c, steps).snd;
    if s.phase.Filling? && Read(c, s.filePos) != [] {
      c.EndOfFile(s.sequenceNum - 1);
      c.OffsetMonotone(s.sequenceNum - 1);
      assert Read(c, s.filePos) == c.Chunk(s.sequenceNum);
      InsertContiguous(c, s.window, Base(s), s.sequenceNum);
    }
  }

  /**
   What each transfer state means. With Ws <= Wr the expected slot is free while its packet is missing;
   with Ws = Wr + 1 that fails, and safety rests on the packet then being written directly.
   */
  lemma {:induction false} ModeMeaning(c: Config, steps: seq<Step>)
    requires c.Valid() && WindowsFit(c)
    ensures var r := Exec(c, steps).rcv;
            match r.mode
            case InOrder => r.expected == r.highest + 1 && forall i :: 0 <= i < |r.ring| ==> !r.ring[i].valid
            case OutOfOrder =>
              r.expected < r.highest && R.SlotOf(r, r.highest).valid &&
              (c.sendWindow <= c.recvWindow ==> !R.SlotOf(r, r.expected).valid)
            case Flush => r.expected <= r.highest && R.SlotOf(r, r.highest).valid
            case Closed => true
  {
    Reachable(c, steps);
    var st := Exec(c, steps);
    var r := st.rcv;
    match r.mode
    case InOrder =>
      forall i | 0 <= i < |r.ring|
        ensures !r.ring[i].valid
      {
        R.InOrderRingEmpty(c, r, st.snd.sequenceNum, i);
      }
    case OutOfOrder =>
      if c.sendWindow <= c.recvWindow {
        R.NothingBehindExpected(c, r, st.snd.sequenceNum);
      }
    case Flush =>
    case Closed =>
  }

  /**
   When the receiver has closed the file, it lacks fewer than Ws chunks, all of them at the end; the file is
   complete exactly when the expected number is the EOF's.
   */
  lemma {:induction false} ShortfallAtEof(c: Config, steps: seq<Step>)
    requires c.Valid() && WindowsFit(c)
    requires Exec(c, steps).rcv.mode.Closed?
    ensures var st := Exec(c, steps);
            st.snd.eofSeq == c.Total() + 1 && 0 <= st.snd.eofSeq - st.rcv.expected <= c.sendWindow - 1
    ensures var st := Exec(c, steps);
            st.rcv.output == c.file <==> st.rcv.expected == st.snd.eofSeq
  {
    Reachable(c, steps);
    var r := Exec(c, steps).rcv;
    c.EndOfFile(r.expected - 1);
    assert r.output == c.file ==> |r.output| == |c.file|;
    assert c.Offset(r.expected - 1) == |c.file| ==> r.output == c.file;
  }
}

/** Where the guarantees end: runs that attain the bounds and runs that break what lies beyond them. */
module Limits {
  import opened Bytes
  import opened Checksum
  import opened Pdus
  import opened Handshake
  import opened Transfers
  import opened Senders
  import opened Receivers
  import opened Protocol
  import opened Safety

  function Turns(n: nat): seq<Step> {
    if n == 0 then [] else Turns(n - 1) + [SenderTurn]
  }

  /** The first k data PDUs, in order. */
  function FirstSends(c: Config, k: nat): (s: seq<Pdu>)
    requires c.Valid() && k <= c.Total()
    ensures |s| == k
    ensures forall i :: 0 <= i < k ==> s[i] == Encode(i + 1, FLAG_DATA, c.Chunk(i + 1))
  {
    if k == 0 then [] else FirstSends(c, k - 1) + [Encode(k, FLAG_DATA, c.Chunk(k))]
  }

  /** The state in which the server has sent k chunks and nothing has arrived anywhere. */
  ghost predicate SentOnly(c: Config, st: State, k: nat)
    requires c.Valid() && k <= c.Total()
  {
    && SenderInv(c, st.snd) && Base(st.snd) == 1 && st.snd.sequenceNum == k + 1
    && Sending(st.snd) && !st.snd.phase.Polling? && st.snd.timeoutCount == 0
    && st.rcv == InitReceiver(c)
    && st.data == FirstSends(c, k)
    && st.acks == []
  }

  lemma SendOne(c: Config, st: State, k: nat)
    requires c.Valid() && k < c.Total() && k < c.sendWindow && SentOnly(c, st, k)
    ensures SentOnly(c, Next(c, Next(c, st, SenderTurn), SenderTurn), k + 1)
  {
    assert st.snd.phase.Filling?;
    FillInv(c, st.snd);
    SenderStepInv(c, Fill(c, st.snd).0, Silent);
  }

  lemma SentNothing(c: Config)
    requires c.Valid()
    ensures SentOnly(c, Exec(c, Turns(0)), 0)
  {
    InitSenderInv(c);
  }

  lemma {:induction false} FillRun(c: Config, k: nat)
    requires c.Valid() && k <= c.Total() && k <= c.sendWindow
    ensures SentOnly(c, Exec(c, Turns(2 * k)), k)
  {
    hide SentOnly, Next;
    if k == 0 {
      SentNothing(c);
    } else {
      FillRun(c, k - 1);
      var before := Turns(2 * k - 2);
      assert 2 * (k - 1) == 2 * k - 2;
      SendOne(c, Exec(c, before), k - 1);
      hide Exec;
      ExecSnoc(c, before, SenderTurn);
      ExecSnoc(c, before + [SenderTurn], SenderTurn);
      assert Turns(2 * k) == before + [SenderTurn] + [SenderTurn];
    }
  }

  /**
   The shortfall bound is attained: a file of Ws - 1 chunks can be read to its end without a single ack, and
   if the EOF overtakes all of them the client closes an empty file, Ws - 1 chunks short.
   */
  lemma {:induction false} ShortfallIsAttained(c: Config) returns (steps: seq<Step>)
    requires c.Valid() && c.Total() == c.sendWindow - 1
    ensures var st := Exec(c, steps);
            st.rcv.mode.Closed? && st.snd.eofSeq - st.rcv.expected == c.sendWindow - 1 && st.rcv.output == []
  {
    hide SentOnly, Next;
    var n := c.Total();
    FillRun(c, n);
    EofOvertakes(c, Exec(c, Turns(2 * n)));
    ExecSnoc(c, Turns(2 * n), SenderTurn);
    ExecSnoc(c, Turns(2 * n) + [SenderTurn], DataArrives(n));
    steps := Turns(2 * n) + [SenderTurn] + [DataArrives(n)];
  }

  lemma EofOvertakes(c: Config, st: State)
    requires c.Valid() && c.Total() == c.sendWindow - 1 && SentOnly(c, st, c.Total())
    ensures var end := Next(c, Next(c, st, SenderTurn), DataArrives(c.Total()));
            end.rcv.mode.Closed? && end.rcv.expected == 1 && end.rcv.output == [] &&
            end.snd.eofSeq == c.sendWindow
  {
    var n := c.Total();
    FillInv(c, st.snd);
    var eof := Encode(n + 1, FLAG_EOF, []);
    DecodeEncode(n + 1, FLAG_EOF, []);
    hide Encode;
    var st' := Next(c, st, SenderTurn);
    assert st'.data == st.data + [eof] && st'.data[n] == eof;
  }

  /** The written bytes are a prefix of the file. */
  ghost predicate Safe(c: Config, steps: seq<Step>)
    requires c.Valid()
  {
    Exec(c, steps).rcv.output <= c.file
  }

  /** A file of Wr + 2 chunks whose last chunk differs from the others. */
  function Marked(bufferSize: nat, sendWindow: nat, recvWindow: nat, o: Order): Config {
    Config(seq(bufferSize * (recvWindow + 1), _ => 0) + seq(bufferSize, _ => 1), bufferSize, sendWindow, recvWindow, o)
  }

  lemma MarkedValid(b: nat, sendWindow: nat, recvWindow: nat, o: Order)
    requires 1 <= b <= MAXBUF && 1 <= sendWindow <= 0xFFFF && 1 <= recvWindow < 0x4000_0000
    ensures var c := Marked(b, sendWindow, recvWindow, o);
            |c.file| == b * (recvWindow + 2) && c.Total() == recvWindow + 2 && c.Valid()
  {
    assert b * (recvWindow + 2) == b * (recvWindow + 1) + b;
    Quotient(b, recvWindow + 2, b - 1);
  }

  lemma MarkedChunks(b: nat, sendWindow: nat, recvWindow: nat, o: Order)
    requires 1 <= b <= MAXBUF && 1 <= sendWindow <= 0xFFFF && 1 <= recvWindow < 0x4000_0000
    ensures var c := Marked(b, sendWindow, recvWindow, o);
            |c.Chunk(1)| == b && c.Chunk(recvWindow + 2) != [] && c.Chunk(recvWindow + 2)[0] == 1 && c.file[b] == 0
  {
    var c := Marked(b, sendWindow, recvWindow, o);
    var start := b * (recvWindow + 1);
    MarkedValid(b, sendWindow, recvWindow, o);
    MultiplyOrdered(2, recvWindow + 1, b);
    assert |c.file| == start + b && 2 * b <= start;
    assert c.Offset(0) == 0 && c.Offset(1) == b;
    assert c.Offset(recvWindow + 1) == start && c.Offset(recvWindow + 2) == start + b;
  }

  lemma Quotient(w: nat, q: nat, r: nat)
    requires r < w
    ensures (w * q + r) / w == q
  {
    DivisionBounds(w * q + r, w);
    SmallMultiple(w, (w * q + r) / w - q);
    assert w * ((w * q + r) / w - q) == w * ((w * q + r) / w) - w * q;
  }

  /**
   With Ws >= Wr + 2 the ring aliases: if chunk Wr + 2 overtakes the others, it shares the slot of chunk 2 and is
   written in its place. No message is lost or duplicated.
   */
  lemma {:induction false} WideWindowCorrupts(b: nat, sendWindow: nat, recvWindow: nat, o: Order)
    returns (steps: seq<Step>)
    requires 1 <= b <= MAXBUF && recvWindow + 2 <= sendWindow <= 0xFFFF && 1 <= recvWindow < 0x4000_0000
    ensures Marked(b, sendWindow, recvWindow, o).Valid() && !Safe(Marked(b, sendWindow, recvWindow, o), steps)
  {
    var c := Marked(b, sendWindow, recvWindow, o);
    MarkedValid(b, sendWindow, recvWindow, o);
    MarkedChunks(b, sendWindow, recvWindow, o);
    var n := recvWindow + 2;
    FillRun(c, n);
    var sent := Turns(2 * n);
    steps := sent + [DataArrives(n - 1)] + [DataArrives(0)] + [DataArrives(0)];
    ExecSnoc(c, sent, DataArrives(n - 1));
    ExecSnoc(c, sent + [DataArrives(n - 1)], DataArrives(0));
    ExecSnoc(c, sent + [DataArrives(n - 1)] + [DataArrives(0)], DataArrives(0));
    OvertakenChunks(c, Exec(c, sent));
    var output := Exec(c, steps).rcv.output;
    assert output[b] == c.Chunk(n)[0];
  }

  lemma OvertakenChunks(c: Config, st: State)
    requires c.Valid() && c.Total() == c.recvWindow + 2 && SentOnly(c, st, c.Total())
    ensures var n := c.Total();
            Next(c, Next(c, Next(c, st, DataArrives(n - 1)), DataArrives(0)), DataArrives(0)).rcv.output
            == c.Chunk(1) + c.Chunk(n)
  {
    var n := c.Total();
    var last, one, two := st.data[n - 1], st.data[0], st.data[1];
    DecodeEncode(n, FLAG_DATA, c.Chunk(n));
    DecodeEncode(1, FLAG_DATA, c.Chunk(1));
    DecodeEncode(2, FLAG_DATA, c.Chunk(2));
    hide Encode, SenderInv, ReceiverStep;
    var rest := Without(st.data, n - 1);
    assert rest[0] == one && Without(rest, 0)[0] == two;
    AliasedDelivery(c, st.rcv, last, one, two);
  }

  /** Chunk Wr + 2, then chunk 1, then anything: the receiver takes the first of them for chunk 2. */
  lemma AliasedDelivery(c: Config, r: Receiver, last: Pdu, one: Pdu, other: Pdu)
    requires c.Valid() && r == InitReceiver(c)
    requires IsData(last) && IsData(one) && IsData(other)
    requires Seq(last) == c.recvWindow + 2 && Seq(one) == 1
    ensures var r1 := ReceiverStep(r, last).0;
            var r2 := ReceiverStep(r1, one).0;
            !r1.mode.Closed? && !r2.mode.Closed? &&
            ReceiverStep(r2, other).0.output == Payload(one) + Payload(last)
  {
    hide Encode;
    var r1 := ReceiverStep(r, last).0;
    var r2 := ReceiverStep(r1, one).0;
    ResidueRepeats(2, c.recvWindow);
    assert r1.ring == r.ring[IndexOf(r, 2) := Slot(true, Payload(last))];
    assert r2 == Receiver(Flush, 2, c.recvWindow + 2, r1.ring, Payload(one));
    FlushAlias(r2, Payload(last));
  }

  lemma FlushAlias(r: Receiver, payload: seq<byte>)
    requires r.expected == 2 <= r.highest && SlotOf(r, 2) == Slot(true, payload)
    requires forall i :: 0 <= i < |r.ring| && i != IndexOf(r, 2) ==> !r.ring[i].valid
    ensures FlushLoop(r).output == r.output + payload
  {
    var f := FlushOne(r);
    assert forall i :: 0 <= i < |f.ring| ==> !f.ring[i].valid;
    assert FlushLoop(r) == FlushLoop(f);
  }

  lemma PrefixIsSafe(c: Config, steps: seq<Step>)
    requires c.Valid() && WindowsFit(c)
    ensures Safe(c, steps)
  {
    PrefixSafety(c, steps);
  }

  lemma MarkedSizes(b: nat, sendWindow: nat, recvWindow: nat, o: Order)
    ensures var c := Marked(b, sendWindow, recvWindow, o);
            c == Config(c.file, b, sendWindow, recvWindow, o)
  {
  }

  /** Every run on every file writes only a prefix of that file. */
  ghost predicate AlwaysSafe(b: nat, sendWindow: nat, recvWindow: nat, o: Order) {
    forall file, steps ::
      Config(file, b, sendWindow, recvWindow, o).Valid() ==> Safe(Config(file, b, sendWindow, recvWindow, o), steps)
  }

  /**
   The exact condition for safety over all files and runs: the sender's window exceeds the receiver's ring by at
   most one.
   */
  lemma {:induction false} SafeExactlyWhenWindowsFit(b: nat, sendWindow: nat, recvWindow: nat, o: Order)
    requires 1 <= b <= MAXBUF && 1 <= sendWindow <= 0xFFFF && 1 <= recvWindow < 0x4000_0000
    ensures AlwaysSafe(b, sendWindow, recvWindow, o) <==> sendWindow <= recvWindow + 1
  {
    hide Safe, Marked;
    if sendWindow <= recvWindow + 1 {
      forall file, steps | Config(file, b, sendWindow, recvWindow, o).Valid()
        ensures Safe(Config(file, b, sendWindow, recvWindow, o), steps)
      {
        PrefixIsSafe(Config(file, b, sendWindow, recvWindow, o), steps);
      }
    } else {
      var steps := WideWindowCorrupts(b, sendWindow, recvWindow, o);
      var file := Marked(b, sendWindow, recvWindow, o).file;
      MarkedSizes(b, sendWindow, recvWindow, o);
      assert !Safe(Config(file, b, sendWindow, recvWindow, o), steps);
    }
  }

  /**
   The same for a request as the server takes it, on either kind of host: with the sizes in force in range, every
   run is safe if and only if the window in force exceeds the requested one by at most one.
   */
  lemma {:induction false} RequestSafeExactlyWhen(o: Order, window: nat, buffer: nat, name: seq<byte>)
    requires 1 <= window < 0x4000_0000
    requires var used := Used(o, Request(window, buffer, name));
             1 <= used.windowSize && 1 <= used.bufferSize <= MAXBUF
    ensures var used := Used(o, Request(window, buffer, name));
            AlwaysSafe(used.bufferSize, used.windowSize, window, o) <==> used.windowSize <= window + 1
    ensures o.Big? ==> var used := Used(o, Request(window, buffer, name));
                       AlwaysSafe(used.bufferSize, used.windowSize, window, o)
  {
    hide AlwaysSafe;
    var used := Used(o, Request(window, buffer, name));
    RequestRoundTrip(window, buffer, name);
    SafeExactlyWhenWindowsFit(used.bufferSize, used.windowSize, window, o);
  }

  /** On a little-endian host a request for window 5 and buffer 1024 runs with 1280 and 4, and is not safe. */
  lemma {:induction false} LittleEndianRequestUnsafe(name: seq<byte>)
    ensures var used := Used(Little, Request(5, 1024, name));
            used.windowSize == 1280 && used.bufferSize == 4 && !AlwaysSafe(4, 1280, 5, Little)
  {
    hide AlwaysSafe;
    RequestRoundTrip(5, 1024, name);
    var m := Request(5, 1024, name);
    SwappedWord(m[7], m[8]);
    SwappedWord(m[9], m[10]);
    RequestSafeExactlyWhen(Little, 5, 1024, name);
  }
}

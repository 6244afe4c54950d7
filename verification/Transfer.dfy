/** The parameters of one transfer, and the file cut into numbered chunks. */
module Transfers {
  import opened Bytes
  import opened Checksum

  const MAXBUF := 1400

  /** The file, the buffer size B, the sender's window size, the receiver's ring size and the hosts' byte order. */
  datatype Config = Config(file: seq<byte>, bufferSize: nat, sendWindow: nat, recvWindow: nat, order: Order)
  {
    /** The number N of data PDUs first sent: the file length over B, rounded up. */
    function Total(): nat
      requires bufferSize > 0
    {
      (|file| + bufferSize - 1) / bufferSize
    }

    /** Sizes the programs can work with, and a file whose sequence numbers do not wrap. */
    predicate Valid() {
      && 1 <= bufferSize <= MAXBUF
      && 1 <= sendWindow <= 0xFFFF
      && 1 <= recvWindow < 0x4000_0000
      && Total() + 1 < 0x1_0000_0000
    }

    /** The length of k whole buffers, or of the file if that is shorter: where chunk k ends. */
    function Offset(k: nat): (r: nat)
      ensures r <= |file|
    {
      if bufferSize * k <= |file| then bufferSize * k else |file|
    }

    /** Chunk k >= 1 as `fread` delivers it. */
    function Chunk(k: nat): seq<byte>
      requires k >= 1
    {
      OffsetMonotone(k - 1);
      file[Offset(k - 1)..Offset(k)]
    }

    /** The part of the file made of the first k chunks. */
    function Prefix(k: nat): seq<byte> {
      file[..Offset(k)]
    }

    lemma OffsetMonotone(k: nat)
      ensures Offset(k + 1) == if Offset(k) + bufferSize <= |file| then Offset(k) + bufferSize else |file|
      ensures Offset(k) <= Offset(k + 1)
    {
      assert bufferSize * (k + 1) == bufferSize * k + bufferSize;
    }

    lemma PrefixGrows(k: nat)
      ensures Prefix(k) + Chunk(k + 1) == Prefix(k + 1)
    {
      OffsetMonotone(k);
    }

    /** The file is used up exactly from chunk N on. */
    lemma EndOfFile(k: nat)
      requires Valid()
      ensures Offset(k) == |file| <==> k >= Total()
    {
      DivisionBounds(|file| + bufferSize - 1, bufferSize);
      assert bufferSize * (Total() - 1) == bufferSize * Total() - bufferSize;
      if k >= Total() {
        MultiplyOrdered(Total(), k, bufferSize);
      } else {
        MultiplyOrdered(k, Total() - 1, bufferSize);
      }
    }
  }
}

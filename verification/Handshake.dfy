/** The file request: what the client encodes and what the server takes out of it. */
module Handshake {
  import opened Bytes
  import opened Checksum
  import opened Pdus

  const FLAG_REQUEST: byte := 8

  /** The request PDU: `htons` truncates both sizes to sixteen bits. */
  function Request(window: nat, buffer: nat, name: seq<byte>): (m: Pdu)
    ensures |m| == 11 + |name|
  {
    Encode(0, FLAG_REQUEST, Store(Big, window % 0x1_0000) + Store(Big, buffer % 0x1_0000) + name)
  }

  /** The test on which the server forks a child for a client. */
  predicate Dispatches(m: Pdu) {
    m[6] == 8
  }

  datatype Accepted = Accepted(windowSize: u16, bufferSize: u16, name: seq<byte>)

  /** The values the first decode computes, with `ntohs`. */
  function Intended(m: Pdu): Accepted
    requires |m| >= 11
  {
    Accepted(Word(Big, m[7], m[8]), Word(Big, m[9], m[10]), m[11..])
  }

  /** The values `filename_state` ends with: both sizes are overwritten by the raw fields. */
  function Used(o: Order, m: Pdu): Accepted
    requires |m| >= 11
  {
    Accepted(Word(o, m[7], m[8]), Word(o, m[9], m[10]), m[11..])
  }

  /**
   What a request has on the wire: number 0, flag 8, a good checksum, both sizes modulo 65536 with the high byte
   first, and the name; hence it starts a child process, and the first decode finds what was asked for.
   */
  lemma {:induction false} RequestRoundTrip(window: nat, buffer: nat, name: seq<byte>)
    ensures var m := Request(window, buffer, name);
            |m| >= 11 && m[..4] == [0, 0, 0, 0] && m[6] == 8 && InCksum(Big, m) == 0 && InCksum(Little, m) == 0 &&
            m[7] as int * 0x100 + m[8] == window % 0x1_0000 &&
            m[9] as int * 0x100 + m[10] == buffer % 0x1_0000 && m[11..] == name
    ensures var m := Request(window, buffer, name);
            Dispatches(m) && Intended(m) == Accepted(window % 0x1_0000, buffer % 0x1_0000, name)
  {
    var m := Request(window, buffer, name);
    var payload := Store(Big, window % 0x1_0000) + Store(Big, buffer % 0x1_0000) + name;
    EncodeInBytes(0, FLAG_REQUEST, payload);
    assert m[7..] == payload;
    assert m[7] == payload[0] && m[8] == payload[1] && m[9] == payload[2] && m[10] == payload[3];
    assert m[11..] == payload[4..];
    WordOfStore(Big, window % 0x1_0000);
    WordOfStore(Big, buffer % 0x1_0000);
  }

  /**
   The sizes in force are the requested ones exactly on a network-order host, or when both requested sizes
   happen to have equal high and low bytes.
   */
  lemma {:induction false} UsedIsIntended(o: Order, window: nat, buffer: nat, name: seq<byte>)
    ensures var m := Request(window, buffer, name);
            var w, b := window % 0x1_0000, buffer % 0x1_0000;
            |m| >= 11 &&
            (Used(o, m) == Accepted(w, b, name) <==>
             o.Big? || (w / 0x100 == w % 0x100 && b / 0x100 == b % 0x100))
  {
    RequestRoundTrip(window, buffer, name);
    var m := Request(window, buffer, name);
    SwappedWord(m[7], m[8]);
    SwappedWord(m[9], m[10]);
  }

  lemma SwappedWord(first: byte, second: byte)
    ensures Word(Little, first, second) == Word(Big, first, second) <==> first == second
    ensures Word(Big, first, second) / 0x100 == first && Word(Big, first, second) % 0x100 == second
  {
  }
}

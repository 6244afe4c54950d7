/**
 The datagram layout shared by both programs: a four-byte sequence number, a two-byte checksum,
 a one-byte flag and the payload.
 */
module Pdus {
  import opened Bytes
  import opened Checksum

  const HEADER := 7

  const FLAG_RR: byte := 5
  const FLAG_SREJ: byte := 6
  const FLAG_EOF: byte := 10
  const FLAG_DATA: byte := 16
  const FLAG_SREJ_REPLY: byte := 17
  const FLAG_TIMEOUT_RESEND: byte := 18
  const FLAG_EOF_ACK: byte := 35

  type Pdu = m: seq<byte> | HEADER <= |m| witness [0, 0, 0, 0, 0, 0, 0]

  function Seq(m: Pdu): u32 {
    Value32(m[..4])
  }

  function Flag(m: Pdu): byte {
    m[6]
  }

  function Payload(m: Pdu): seq<byte> {
    m[HEADER..]
  }

  /** A PDU with a given checksum field. */
  function Layout(seqNum: u32, ck: seq<byte>, flag: byte, payload: seq<byte>): Pdu
    requires |ck| == 2
  {
    Bytes32(seqNum) + ck + [flag] + payload
  }

  /** The bytes `createPDU` leaves in its buffer on a host of byte order `o`. */
  function EncodeOn(o: Order, seqNum: u32, flag: byte, payload: seq<byte>): Pdu {
    Layout(seqNum, Store(o, InCksum(o, Layout(seqNum, [0, 0], flag, payload))), flag, payload)
  }

  /** `createPDU` on a network-order host; by `EncodeOrderIndependent`, on any host. */
  function Encode(seqNum: u32, flag: byte, payload: seq<byte>): Pdu {
    EncodeOn(Big, seqNum, flag, payload)
  }

  predicate IsData(m: Pdu) {
    Flag(m) == FLAG_DATA || Flag(m) == FLAG_SREJ_REPLY || Flag(m) == FLAG_TIMEOUT_RESEND
  }

  /** Field extraction inverts `createPDU`. */
  lemma {:induction false} DecodeEncode(seqNum: u32, flag: byte, payload: seq<byte>)
    ensures var m := Encode(seqNum, flag, payload);
            Seq(m) == seqNum && Flag(m) == flag && Payload(m) == payload
  {
    var m := Encode(seqNum, flag, payload);
    assert m[..4] == Bytes32(seqNum);
    RoundTrip32(seqNum);
  }

  /** Rebuilding a PDU from its own header and `packet + 7` under another flag keeps number and payload. */
  lemma {:induction false} RetransmitRoundTrip(m: Pdu, flag: byte)
    ensures var r := Encode(Seq(m), flag, m[HEADER..]);
            Seq(r) == Seq(m) && Payload(r) == Payload(m) && Flag(r) == flag
    ensures var r := Encode(Seq(m), flag, m[HEADER..]);
            |r| == |m| && forall i :: 0 <= i < |m| && i != 4 && i != 5 && i != 6 ==> r[i] == m[i]
  {
    var r := Encode(Seq(m), flag, m[HEADER..]);
    DecodeEncode(Seq(m), flag, m[HEADER..]);
    ValueInjective(m[..4], r[..4]);
    forall i | 0 <= i < |m| && i != 4 && i != 5 && i != 6
      ensures r[i] == m[i]
    {
      if i < 4 {
        assert m[..4][i] == r[..4][i];
      } else {
        assert m[HEADER..][i - HEADER] == Payload(r)[i - HEADER];
      }
    }
  }

  lemma ValueInjective(s: seq<byte>, t: seq<byte>)
    requires |s| == |t| == 4 && Value32(s) == Value32(t)
    ensures s == t
  {
    var s0: int, s1: int, s2: int := s[0], s[1], s[2];
    var t0: int, t1: int, t2: int := t[0], t[1], t[2];
    LastDigit((s0 * 0x100 + s1) * 0x100 + s2, s[3], (t0 * 0x100 + t1) * 0x100 + t2, t[3]);
    LastDigit(s0 * 0x100 + s1, s[2], t0 * 0x100 + t1, t[2]);
    LastDigit(s0, s[1], t0, t[1]);
  }

  lemma LastDigit(a: nat, x: byte, b: nat, y: byte)
    ensures a * 0x100 + x == b * 0x100 + y ==> a == b && x == y
  {
  }

  /** RFC 1071, section 2(B), for whole PDUs: every host sends the same bytes. */
  lemma {:induction false} EncodeOrderIndependent(seqNum: u32, flag: byte, payload: seq<byte>)
    ensures EncodeOn(Little, seqNum, flag, payload) == Encode(seqNum, flag, payload)
  {
    StoredByteOrderIndependent(Layout(seqNum, [0, 0], flag, payload));
  }

  /** Splits the sum of a PDU into its checksum field and everything else. */
  lemma SumOfLayout(o: Order, seqNum: u32, ck: seq<byte>, flag: byte, payload: seq<byte>)
    requires |ck| == 2
    ensures Sum(o, Layout(seqNum, ck, flag, payload)) ==
            Sum(o, Layout(seqNum, [0, 0], flag, payload)) + Word(o, ck[0], ck[1])
  {
    var front, back := Bytes32(seqNum), [flag] + payload;
    assert Layout(seqNum, ck, flag, payload) == front + (ck + back);
    assert Layout(seqNum, [0, 0], flag, payload) == front + ([0, 0] + back);
    SumConcat(o, front, ck + back);
    SumConcat(o, front, [0, 0] + back);
    SumConcat(o, ck, back);
    SumConcat(o, [0, 0], back);
    assert ck[2..] == [];
  }

  /** Every PDU `createPDU` builds passes the `in_cksum(...) == 0` test, on either kind of host. */
  lemma {:induction false} ChecksumSound(o: Order, seqNum: u32, flag: byte, payload: seq<byte>)
    ensures InCksum(o, EncodeOn(o, seqNum, flag, payload)) == 0
  {
    var zeroed := Layout(seqNum, [0, 0], flag, payload);
    var ck := Store(o, InCksum(o, zeroed));
    SumOfLayout(o, seqNum, ck, flag, payload);
    ComplementCancels(Sum(o, zeroed));
    WordOfStore(o, InCksum(o, zeroed));
    var m := EncodeOn(o, seqNum, flag, payload);
    hide Sum, Layout, Fold;
    assert Sum(o, m) == Sum(o, zeroed) + InCksum(o, zeroed);
    ChecksOut(o, m);
  }

  /** A sum and the complement of its folded form make a nonzero multiple of 65535. */
  lemma ComplementCancels(x: nat)
    ensures x + (0xFFFF - Fold(x)) > 0 && (x + (0xFFFF - Fold(x))) % 0xFFFF == 0
  {
    FoldCanonical(x);
    var n := CanonicalForm(x);
    assert x + (0xFFFF - Fold(x)) == 0xFFFF * (n + 1);
  }

  /**
   What is on the wire, in bytes: the number with its most significant byte first, two bytes that make the
   checksum test succeed on either kind of host, the flag, and the payload.
   */
  lemma {:induction false} EncodeInBytes(seqNum: u32, flag: byte, payload: seq<byte>)
    ensures var m := Encode(seqNum, flag, payload);
            m[0] as int * 0x100_0000 + m[1] as int * 0x1_0000 + m[2] as int * 0x100 + m[3] == seqNum &&
            m[6] == flag && m[7..] == payload &&
            InCksum(Big, m) == 0 && InCksum(Little, m) == 0
  {
    var m := Encode(seqNum, flag, payload);
    DecodeEncode(seqNum, flag, payload);
    assert m[..4][0] == m[0] && m[..4][1] == m[1] && m[..4][2] == m[2] && m[..4][3] == m[3];
    ChecksumSound(Big, seqNum, flag, payload);
    ChecksumSound(Little, seqNum, flag, payload);
    EncodeOrderIndependent(seqNum, flag, payload);
  }

  lemma WordOfStore(o: Order, w: u16)
    ensures var s := Store(o, w); Word(o, s[0], s[1]) == w
  {
  }

  /** Changing any one byte of a PDU that passes the test makes the test fail. */
  lemma {:induction false} ByteErrorDetected(o: Order, m: seq<byte>, i: nat, b: byte)
    requires InCksum(o, m) == 0
    requires i < |m| && b != m[i]
    ensures InCksum(o, m[i := b]) != 0
  {
    ChecksOut(o, m);
    ChecksOut(o, m[i := b]);
    SumUpdate(o, m, i, b);
    var d := Weight(o, i) * (b - m[i]);
    assert 0 < d <= 0x100 * 0xFF || 0 < -d <= 0x100 * 0xFF;
    NotCongruent(Sum(o, m), d);
  }

  lemma NotCongruent(x: int, d: int)
    requires x % 0xFFFF == 0 && (0 < d < 0xFFFF || 0 < -d < 0xFFFF)
    ensures (x + d) % 0xFFFF != 0
  {
  }

  /** A number with bit `k` inverted. */
  function FlipBit(x: nat, k: nat): nat {
    if k == 0 then 2 * (x / 2) + 1 - x % 2 else 2 * FlipBit(x / 2, k - 1) + x % 2
  }

  function Pow2(k: nat): (p: nat)
    ensures p > 0
  {
    if k == 0 then 1 else 2 * Pow2(k - 1)
  }

  /** Flipping a bit inside the width stays inside the width and undoes itself; it adds or takes 2^k by that bit. */
  lemma {:induction false} FlipBitProper(x: nat, k: nat, width: nat)
    requires k < width && x < Pow2(width)
    ensures FlipBit(x, k) < Pow2(width) && FlipBit(x, k) != x && FlipBit(FlipBit(x, k), k) == x
    ensures FlipBit(x, k) == if x / Pow2(k) % 2 == 0 then x + Pow2(k) else x - Pow2(k)
  {
    var h, r, p := x / 2, x % 2, Pow2(width - 1);
    assert x == 2 * h + r && Pow2(width) == 2 * p && h < p;
    var f := if k == 0 then h else FlipBit(h, k - 1);
    var t := if k == 0 then 1 - r else r;
    HalvesOf(f, t);
    assert FlipBit(x, k) == 2 * f + t;
    if k > 0 {
      FlipBitProper(h, k - 1, width - 1);
      assert FlipBit(2 * f + t, k) == 2 * FlipBit(f, k - 1) + t;
      DivideByDouble(x, Pow2(k - 1));
    }
  }

  lemma DivideByDouble(x: nat, p: nat)
    requires p > 0
    ensures x / (2 * p) == x / 2 / p
  {
    var q := x / 2 / p;
    DivisionBounds(x / 2, p);
    assert 2 * p * q == 2 * (p * q);
    DivisionBounds(x, 2 * p);
    assert 2 * p * (x / (2 * p) - q) == 2 * p * (x / (2 * p)) - 2 * p * q;
    SmallMultiple(2 * p, x / (2 * p) - q);
  }

  lemma HalvesOf(h: nat, r: nat)
    requires r < 2
    ensures (2 * h + r) / 2 == h && (2 * h + r) % 2 == r
  {
  }

  /** Flipping any single bit of a PDU built by `createPDU` is detected. */
  lemma {:induction false} BitErrorDetected(o: Order, seqNum: u32, flag: byte, payload: seq<byte>, i: nat, k: nat)
    requires k < 8 && i < HEADER + |payload|
    ensures var m := EncodeOn(o, seqNum, flag, payload);
            FlipBit(m[i], k) < 0x100 && InCksum(o, m[i := FlipBit(m[i], k)]) != 0
  {
    var m := EncodeOn(o, seqNum, flag, payload);
    ChecksumSound(o, seqNum, flag, payload);
    assert Pow2(8) == 0x100;
    FlipBitProper(m[i], k, 8);
    ByteErrorDetected(o, m, i, FlipBit(m[i], k));
  }

  /**
   Overwriting one aligned 16-bit word of an accepted PDU goes undetected exactly when the two words are
   the two one's complement zeros and something else in the PDU is nonzero.
   */
  lemma {:induction false} WordErrorUndetected(o: Order, m: seq<byte>, i: nat, b0: byte, b1: byte)
    requires InCksum(o, m) == 0
    requires i % 2 == 0 && i + 1 < |m|
    requires [b0, b1] != m[i..i + 2]
    ensures var m' := m[i := b0][i + 1 := b1];
            var w, w' := Word(o, m[i], m[i + 1]), Word(o, b0, b1);
            InCksum(o, m') == 0 <==> Sum(o, m') > 0 && (w, w') in {(0, 0xFFFF), (0xFFFF, 0)}
  {
    var m' := m[i := b0][i + 1 := b1];
    ChecksOut(o, m);
    ChecksOut(o, m');
    SumOfWordUpdate(o, m, i, b0, b1);
    assert m[i..i + 2] == [m[i], m[i + 1]];
    var w: int, w': int := Word(o, m[i], m[i + 1]), Word(o, b0, b1);
    WordInjective(o, b0, b1, m[i], m[i + 1]);
    CongruentWords(Sum(o, m), w' - w);
  }

  lemma WordInjective(o: Order, a0: byte, a1: byte, b0: byte, b1: byte)
    ensures Word(o, a0, a1) == Word(o, b0, b1) ==> a0 == b0 && a1 == b1
  {
  }

  lemma SumOfWordUpdate(o: Order, m: seq<byte>, i: nat, b0: byte, b1: byte)
    requires i % 2 == 0 && i + 1 < |m|
    ensures var w: int, w': int := Word(o, m[i], m[i + 1]), Word(o, b0, b1);
            Sum(o, m[i := b0][i + 1 := b1]) == Sum(o, m) + (w' - w)
  {
    SumUpdate(o, m, i, b0);
    SumUpdate(o, m[i := b0], i + 1, b1);
  }

  lemma CongruentWords(x: nat, d: int)
    requires x % 0xFFFF == 0 && -0xFFFF <= d <= 0xFFFF && d != 0
    ensures (x + d) % 0xFFFF == 0 <==> d == 0xFFFF || d == -0xFFFF
  {
  }

  /** `createPDU`: fills the front of `buf` and returns the number of bytes used. */
  method CreatePdu(o: Order, buf: array<byte>, seqNum: u32, flag: byte, payload: seq<byte>) returns (len: nat)
    requires HEADER + |payload| <= buf.Length
    modifies buf
    ensures len == 7 + |payload|
    ensures buf[0] as int * 0x100_0000 + buf[1] as int * 0x1_0000 + buf[2] as int * 0x100 + buf[3] == seqNum
    ensures buf[6] == flag && buf[7..len] == payload
    ensures InCksum(o, buf[..len]) == 0
    ensures buf[..len] == EncodeOn(o, seqNum, flag, payload)
    ensures buf[len..] == old(buf[len..])
  {
    hide InCksum, Encode, Sum, Fold;
    len := 0;
    var net := Bytes32(seqNum);
    forall i | 0 <= i < 4 { buf[i] := net[i]; }
    len := len + 4;
    buf[len], buf[len + 1] := 0, 0;
    len := len + 2;
    buf[len] := flag;
    len := len + 1;
    forall i | 0 <= i < |payload| { buf[len + i] := payload[i]; }
    len := len + |payload|;
    assert buf[..len] == Layout(seqNum, [0, 0], flag, payload);
    var ck := ComputeInCksum(o, buf, len);
    var stored := Store(o, ck);
    buf[4], buf[5] := stored[0], stored[1];
    ghost var m := buf[..len];
    assert m == EncodeOn(o, seqNum, flag, payload);
    BuiltBytes(o, m, seqNum, flag, payload);
    assert m[0] == buf[0] && m[1] == buf[1] && m[2] == buf[2] && m[3] == buf[3];
    assert buf[7..len] == m[7..];
  }

  /** The seven bytes `send_rr` puts on the wire. */
  method CreateRr(o: Order, next: u32) returns (m: Pdu)
    ensures |m| == 7 && m[6] == 5
    ensures m[0] as int * 0x100_0000 + m[1] as int * 0x1_0000 + m[2] as int * 0x100 + m[3] == next
    ensures InCksum(o, m) == 0
    ensures m == Encode(next, FLAG_RR, [])
  {
    var pdu := new byte[7];
    var net := Bytes32(next);
    forall i | 0 <= i < 4 { pdu[i] := net[i]; }
    pdu[4], pdu[5] := 0, 0;
    pdu[6] := 5;
    m := StoreChecksum(o, pdu, next);
  }

  /** The seven bytes `send_srej` puts on the wire. */
  method CreateSrej(o: Order, missing: u32) returns (m: Pdu)
    ensures |m| == 7 && m[6] == 6
    ensures m[0] as int * 0x100_0000 + m[1] as int * 0x1_0000 + m[2] as int * 0x100 + m[3] == missing
    ensures InCksum(o, m) == 0
    ensures m == Encode(missing, FLAG_SREJ, [])
  {
    var pdu := new byte[7];
    var net := Bytes32(missing);
    forall i | 0 <= i < 4 { pdu[i] := net[i]; }
    pdu[4], pdu[5] := 0, 0;
    pdu[6] := 6;
    m := StoreChecksum(o, pdu, missing);
  }

  /** The last two lines of both: the checksum of the seven bytes goes into the zeroed field. */
  method StoreChecksum(o: Order, pdu: array<byte>, ghost seqNum: u32) returns (m: Pdu)
    requires pdu.Length == 7 && pdu[..] == Layout(seqNum, [0, 0], pdu[6], [])
    modifies pdu
    ensures m == Encode(seqNum, old(pdu[6]), []) && InCksum(o, m) == 0
    ensures m[0] as int * 0x100_0000 + m[1] as int * 0x1_0000 + m[2] as int * 0x100 + m[3] == seqNum
    ensures m[6] == old(pdu[6])
  {
    ghost var flag := pdu[6];
    assert pdu[..pdu.Length] == pdu[..];
    var ck := ComputeInCksum(o, pdu, pdu.Length);
    var stored := Store(o, ck);
    pdu[4], pdu[5] := stored[0], stored[1];
    assert pdu[..] == EncodeOn(o, seqNum, flag, []);
    EncodeOrderIndependent(seqNum, flag, []);
    m := pdu[..];
    BuiltBytes(o, m, seqNum, flag, []);
  }

  lemma BuiltBytes(o: Order, m: Pdu, seqNum: u32, flag: byte, payload: seq<byte>)
    requires m == EncodeOn(o, seqNum, flag, payload)
    ensures m[0] as int * 0x100_0000 + m[1] as int * 0x1_0000 + m[2] as int * 0x100 + m[3] == seqNum
    ensures m[6] == flag && m[7..] == payload && InCksum(o, m) == 0
  {
    EncodeOrderIndependent(seqNum, flag, payload);
    EncodeInBytes(seqNum, flag, payload);
  }

  /** The server's test of an EOF-ACK: recompute over a zeroed field and compare with `ntohs` of the field. */
  predicate CompareCheck(o: Order, m: Pdu) {
    Word(Big, m[4], m[5]) == InCksum(o, m[4 := 0][5 := 0])
  }

  /** A built PDU passes that comparison exactly on a network-order host or when its two checksum bytes agree. */
  lemma {:induction false} CompareCheckOnBuilt(o: Order, seqNum: u32, flag: byte, payload: seq<byte>)
    ensures var m := Encode(seqNum, flag, payload);
            CompareCheck(o, m) <==> o.Big? || m[4] == m[5]
  {
    EncodeOrderIndependent(seqNum, flag, payload);
    var m := EncodeOn(o, seqNum, flag, payload);
    var zeroed := Layout(seqNum, [0, 0], flag, payload);
    assert m[4 := 0][5 := 0] == zeroed;
    WordOfStore(o, InCksum(o, zeroed));
    assert m[4..6] == Store(o, InCksum(o, zeroed));
    assert m[4] == m[4..6][0] && m[5] == m[4..6][1];
  }

  /** On a network-order host the comparison implies the `in_cksum(...) == 0` test. */
  lemma {:induction false} CompareCheckImpliesZeroCheck(m: Pdu)
    requires CompareCheck(Big, m)
    ensures InCksum(Big, m) == 0
  {
    var zeroed := m[4 := 0][5 := 0];
    SumUpdate(Big, m, 4, 0);
    SumUpdate(Big, m[4 := 0], 5, 0);
    FoldCanonical(Sum(Big, zeroed));
    var n := CanonicalForm(Sum(Big, zeroed));
    assert Sum(Big, m) == 0xFFFF * (n + 1);
    ChecksOut(Big, m);
  }
}

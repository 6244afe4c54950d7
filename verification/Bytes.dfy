/** Fixed-width integers and the byte strings that travel in a datagram. */
module Bytes {

  type byte = x: int | 0 <= x < 0x100
  type u16 = x: int | 0 <= x < 0x1_0000
  type u32 = x: int | 0 <= x < 0x1_0000_0000

  /** `x++` on a `uint32_t`. */
  function Succ(x: u32): u32 {
    if x == 0xFFFF_FFFF then 0 else x + 1
  }

  /** The four bytes `htonl` followed by `memcpy` leaves in memory. */
  function Bytes32(x: u32): (s: seq<byte>)
    ensures |s| == 4
  {
    [x / 0x100_0000, x / 0x1_0000 % 0x100, x / 0x100 % 0x100, x % 0x100]
  }

  /** `memcpy` followed by `ntohl`. */
  function Value32(s: seq<byte>): u32
    requires |s| == 4
  {
    var a: int, b: int, c: int := s[0], s[1], s[2];
    a * 0x100_0000 + b * 0x1_0000 + c * 0x100 + s[3]
  }

  lemma RoundTrip32(x: u32)
    ensures Value32(Bytes32(x)) == x
  {
    var a, b := x / 0x100, x / 0x1_0000;
    assert x / 0x100_0000 == b / 0x100;
    assert b == a / 0x100;
  }

  /** Two numbers less than `w` apart that share a residue modulo `w` are equal. */
  lemma ResiduesDiffer(a: int, b: int, w: int)
    requires a <= b < a + w && a % w == b % w
    ensures a == b
  {
    SmallMultiple(w, b / w - a / w);
  }

  lemma SmallMultiple(w: int, q: int)
    requires w > 0
    ensures -w < w * q < w ==> q == 0
  {
    if q >= 1 {
      assert w * q >= w;
    } else if q <= -1 {
      assert w * q <= -w;
    }
  }

  /** Moving by exactly `w` keeps the residue. */
  lemma ResidueRepeats(a: int, w: int)
    requires w > 0
    ensures (a + w) % w == a % w
  {
    var q := (a + w) / w - a / w - 1;
    assert w * q == a % w - (a + w) % w;
    SmallMultiple(w, q);
  }

  lemma MultipleResidue(q: int, w: int)
    requires w > 0
    ensures (w * q) % w == 0
  {
    var d := q - w * q / w;
    assert w * d == (w * q) % w;
    SmallMultiple(w, d);
  }

  lemma MultiplyOrdered(a: int, b: int, w: int)
    requires a <= b && w >= 0
    ensures w * a <= w * b
  {
  }

  lemma DivisionBounds(x: int, w: int)
    requires w > 0
    ensures w * (x / w) <= x < w * (x / w) + w
  {
  }
}

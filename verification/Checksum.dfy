/**
 The Internet checksum (RFC 1071): the one's complement of the one's complement sum of the
 16-bit words of a buffer, an odd last byte being padded on the right with a zero byte.
 Words are read, and the result is stored, in the host's byte order.
 */
module Checksum {
  import opened Bytes

  datatype Order = Big | Little

  /** The 16-bit word a host reads from two adjacent bytes. */
  function Word(o: Order, first: byte, second: byte): u16 {
    if o.Big? then first * 0x100 + second else second * 0x100 + first
  }

  /** The two adjacent bytes a host writes for a 16-bit word. */
  function Store(o: Order, w: u16): (s: seq<byte>)
    ensures |s| == 2
  {
    if o.Big? then [w / 0x100, w % 0x100] else [w % 0x100, w / 0x100]
  }

  function Sum(o: Order, s: seq<byte>): nat {
    if |s| == 0 then 0
    else if |s| == 1 then Word(o, s[0], 0)
    else Word(o, s[0], s[1]) + Sum(o, s[2..])
  }

  /** End-around carry: fold the high part into the low sixteen bits until nothing is left of it. */
  function Fold(x: nat): u16 {
    if x < 0x1_0000 then x else Fold(x / 0x1_0000 + x % 0x1_0000)
  }

  function InCksum(o: Order, s: seq<byte>): u16 {
    0xFFFF - Fold(Sum(o, s))
  }

  /** `in_cksum` in the form of section 4.1 of RFC 1071. */
  method ComputeInCksum(o: Order, a: array<byte>, len: nat) returns (ck: u16)
    requires len <= a.Length
    ensures ck == InCksum(o, a[..len])
  {
    var sum, i := 0, 0;
    while len - i > 1
      invariant 0 <= i <= len
      invariant 0 <= sum
      invariant sum + Sum(o, a[i..len]) == Sum(o, a[..len])
    {
      assert a[i..len][2..] == a[i + 2..len];
      sum := sum + Word(o, a[i], a[i + 1]);
      i := i + 2;
    }
    if len - i > 0 {
      sum := sum + Word(o, a[i], 0);
    }
    while sum >= 0x1_0000
      invariant 0 <= sum
      invariant Fold(sum) == Fold(Sum(o, a[..len]))
    {
      sum := sum / 0x1_0000 + sum % 0x1_0000;
    }
    ck := 0xFFFF - sum;
  }

  /** The numerical example of RFC 1071, section 3, and a lone byte, which counts as the first of its word. */
  lemma NumericalExample()
    ensures InCksum(Big, [0x00, 0x01, 0xF2, 0x03, 0xF4, 0xF5, 0xF6, 0xF7]) == 0x220D
    ensures InCksum(Little, [0x00, 0x01, 0xF2, 0x03, 0xF4, 0xF5, 0xF6, 0xF7]) == 0x0D22
    ensures InCksum(Big, [0x01]) == 0xFEFF && InCksum(Little, [0x01]) == 0xFFFE
  {
    var s := [0x00, 0x01, 0xF2, 0x03, 0xF4, 0xF5, 0xF6, 0xF7];
    assert s[2..] == [0xF2, 0x03, 0xF4, 0xF5, 0xF6, 0xF7];
    assert s[2..][2..] == [0xF4, 0xF5, 0xF6, 0xF7];
    assert s[2..][2..][2..] == [0xF6, 0xF7];
    assert s[2..][2..][2..][2..] == [];
  }

  /** Folding picks the representative of the sum modulo 65535, with 65535 rather than 0 for a nonzero sum. */
  lemma {:induction false} FoldCanonical(x: nat)
    ensures Fold(x) == Canonical(x)
  {
    if x >= 0x1_0000 {
      var y := x / 0x1_0000 + x % 0x1_0000;
      FoldCanonical(y);
      var n := CanonicalForm(y);
      CanonicalUnique(x, Canonical(y), n + x / 0x1_0000);
    }
  }

  /** The check succeeds exactly on the nonzero multiples of 65535. */
  lemma ChecksOut(o: Order, s: seq<byte>)
    ensures InCksum(o, s) == 0 <==> Sum(o, s) > 0 && Sum(o, s) % 0xFFFF == 0
  {
    FoldCanonical(Sum(o, s));
  }

  lemma {:induction false} SumConcat(o: Order, s: seq<byte>, t: seq<byte>)
    requires |s| % 2 == 0
    ensures Sum(o, s + t) == Sum(o, s) + Sum(o, t)
  {
    if s == [] {
      assert s + t == t;
    } else {
      assert (s + t)[2..] == s[2..] + t;
      SumConcat(o, s[2..], t);
    }
  }

  /** What one byte contributes to the sum. */
  function Weight(o: Order, i: nat): nat {
    if (i % 2 == 0) == o.Big? then 0x100 else 1
  }

  lemma {:induction false} SumUpdate(o: Order, s: seq<byte>, i: nat, b: byte)
    requires i < |s|
    ensures Sum(o, s[i := b]) == Sum(o, s) + Weight(o, i) * (b - s[i])
  {
    if i >= 2 {
      assert s[i := b][2..] == s[2..][i - 2 := b];
      SumUpdate(o, s[2..], i - 2, b);
      assert (i - 2) % 2 == i % 2;
    } else {
      assert |s| >= 2 ==> s[i := b][2..] == s[2..];
    }
  }

  function EvenBytes(s: seq<byte>): nat {
    if |s| == 0 then 0 else if |s| == 1 then s[0] else s[0] + EvenBytes(s[2..])
  }

  /** Swapping the bytes of every word multiplies the sum by 256, modulo 65535. */
  lemma {:induction false} SwapScalesSum(s: seq<byte>)
    ensures 0x100 * Sum(Big, s) == Sum(Little, s) + 0xFFFF * EvenBytes(s)
  {
    if |s| >= 2 {
      SwapScalesSum(s[2..]);
    }
  }

  /** RFC 1071, section 2(B): the stored checksum does not depend on the host's byte order. */
  lemma {:induction false} StoredByteOrderIndependent(s: seq<byte>)
    ensures Store(Little, InCksum(Little, s)) == Store(Big, InCksum(Big, s))
  {
    SwapScalesSum(s);
    SumZeroTogether(s);
    FoldCanonical(Sum(Big, s));
    FoldCanonical(Sum(Little, s));
    CanonicalSwap(Sum(Big, s), Sum(Little, s), EvenBytes(s));
    StoreSwapped(Fold(Sum(Big, s)));
  }

  function Canonical(x: nat): u16 {
    if x == 0 then 0 else if x % 0xFFFF == 0 then 0xFFFF else x % 0xFFFF
  }

  lemma CanonicalForm(x: nat) returns (n: nat)
    ensures x == Canonical(x) + 0xFFFF * n
  {
    n := if x == 0 then 0 else if x % 0xFFFF == 0 then x / 0xFFFF - 1 else x / 0xFFFF;
  }

  lemma CanonicalUnique(x: nat, c: int, n: int)
    requires x > 0 && 1 <= c <= 0xFFFF && x == c + 0xFFFF * n
    ensures Canonical(x) == c
  {
    if c == 0xFFFF {
      assert x == 0xFFFF * (n + 1);
    }
  }

  lemma CanonicalSwap(b: nat, l: nat, k: nat)
    requires 0x100 * b == l + 0xFFFF * k
    requires b == 0 <==> l == 0
    ensures Canonical(l) == Canonical(b) % 0x100 * 0x100 + Canonical(b) / 0x100
  {
    var n := CanonicalForm(b);
    var f := Canonical(b);
    if b != 0 {
      CanonicalUnique(l, f % 0x100 * 0x100 + f / 0x100, f / 0x100 + 0x100 * n - k);
    }
  }

  lemma StoreSwapped(f: u16)
    ensures Store(Little, 0xFFFF - (f % 0x100 * 0x100 + f / 0x100)) == Store(Big, 0xFFFF - f)
  {
    var h, t := f / 0x100, f % 0x100;
    Digits(t, h);
    Digits(0xFF - t, 0xFF - h);
    Digits(0xFF - h, 0xFF - t);
  }

  lemma Digits(h: byte, t: byte)
    ensures var w := (h as int) * 0x100 + t; w / 0x100 == h && w % 0x100 == t
  {
  }

  lemma {:induction false} SumZeroTogether(s: seq<byte>)
    ensures Sum(Big, s) == 0 <==> Sum(Little, s) == 0
  {
    if |s| >= 2 {
      SumZeroTogether(s[2..]);
    }
  }
}

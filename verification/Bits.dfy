/**
 Addresses as byte strings, seen in two ways: as strings of bits (what masks act on)
 and as big-endian numbers (what comparisons act on).
 */
module Bits {
  import opened Arithmetic

  type Byte = bv8

  /** Bit `k` of a byte, counting from the most significant one. */
  predicate BitOf(b: Byte, k: nat)
    requires k < 8
  {
    b & BitMask(7 - k) != 0
  }

  /** The Go expression `1 << i` on a byte. */
  function BitMask(i: nat): Byte
    requires i < 8
  {
    match i
    case 0 => 0x01
    case 1 => 0x02
    case 2 => 0x04
    case 3 => 0x08
    case 4 => 0x10
    case 5 => 0x20
    case 6 => 0x40
    case _ => 0x80
  }

  predicate Bit(a: seq<Byte>, i: nat)
    requires i < 8 * |a|
  {
    BitOf(a[i / 8], i % 8)
  }

  function AllBits(a: seq<Byte>): (s: seq<bool>)
    ensures |s| == 8 * |a|
  {
    seq(8 * |a|, i requires 0 <= i < 8 * |a| => Bit(a, i))
  }

  /** The big-endian unsigned number that a byte string spells. */
  function Value(a: seq<Byte>): nat {
    if |a| == 0 then 0 else 256 * Value(a[..|a| - 1]) + a[|a| - 1] as int
  }

  function NatOf(s: seq<bool>): nat {
    if |s| == 0 then 0 else 2 * NatOf(s[..|s| - 1]) + (if s[|s| - 1] then 1 else 0)
  }

  function Pow2(n: nat): (r: nat)
    ensures r >= 1
  {
    if n == 0 then 1 else 2 * Pow2(n - 1)
  }

  // ---------------------------------------------------------------- bytes and bits

  function Digit(b: bool): nat {
    if b then 1 else 0
  }

  lemma ByteIsItsBits(b: Byte)
    ensures b as int ==
              128 * Digit(BitOf(b, 0)) + 64 * Digit(BitOf(b, 1)) + 32 * Digit(BitOf(b, 2)) + 16 * Digit(BitOf(b, 3))
              + 8 * Digit(BitOf(b, 4)) + 4 * Digit(BitOf(b, 5)) + 2 * Digit(BitOf(b, 6)) + Digit(BitOf(b, 7))
  {
  }

  lemma {:induction false} NatOfConcat(p: seq<bool>, q: seq<bool>)
    ensures NatOf(p + q) == NatOf(p) * Pow2(|q|) + NatOf(q)
  {
    if |q| == 0 {
      assert p + q == p;
    } else {
      var q' := q[..|q| - 1];
      NatOfConcat(p, q');
      assert (p + q)[..|p + q| - 1] == p + q';
      assert NatOf(p) * Pow2(|q|) == 2 * (NatOf(p) * Pow2(|q'|)) by {
        MulSwap(NatOf(p), Pow2(|q'|));
      }
    }
  }

  lemma MulSwap(x: int, y: int)
    ensures x * (2 * y) == 2 * (x * y)
  {
  }

  lemma NextBit(q: seq<bool>, k: nat)
    requires k < |q|
    ensures NatOf(q[..k + 1]) == 2 * NatOf(q[..k]) + Digit(q[k])
  {
    assert q[..k + 1][..k] == q[..k];
  }

  lemma EightBits(q: seq<bool>)
    requires |q| == 8
    ensures NatOf(q) ==
              128 * Digit(q[0]) + 64 * Digit(q[1]) + 32 * Digit(q[2]) + 16 * Digit(q[3])
              + 8 * Digit(q[4]) + 4 * Digit(q[5]) + 2 * Digit(q[6]) + Digit(q[7])
  {
    FourBits(q, 0, Digit(q[0]), Digit(q[1]), Digit(q[2]), Digit(q[3]));
    FourBits(q, 4, Digit(q[4]), Digit(q[5]), Digit(q[6]), Digit(q[7]));
    assert q[..0] == [] && q[..8] == q;
  }

  lemma FourBits(q: seq<bool>, k: nat, a: nat, b: nat, c: nat, d: nat)
    requires k + 4 <= |q|
    requires a == Digit(q[k]) && b == Digit(q[k + 1]) && c == Digit(q[k + 2]) && d == Digit(q[k + 3])
    ensures NatOf(q[..k + 4]) == 16 * NatOf(q[..k]) + 8 * a + 4 * b + 2 * c + d
  {
    NextBit(q, k);
    NextBit(q, k + 1);
    NextBit(q, k + 2);
    NextBit(q, k + 3);
  }

  lemma LastByte(a: seq<Byte>)
    requires |a| > 0
    ensures AllBits(a) == AllBits(a[..|a| - 1]) + AllBits([a[|a| - 1]])
  {
    var a' := a[..|a| - 1];
    var s := AllBits(a') + AllBits([a[|a| - 1]]);
    forall i | 0 <= i < 8 * |a| ensures AllBits(a)[i] == s[i] {
      if i < 8 * |a'| {
        assert a[i / 8] == a'[i / 8];
      } else {
        assert i / 8 == |a'| && i % 8 == i - 8 * |a'|;
      }
    }
  }

  lemma OneByte(b: Byte)
    ensures NatOf(AllBits([b])) == b as int
  {
    var q := AllBits([b]);
    BitOfOne(b, 0);
    BitOfOne(b, 1);
    BitOfOne(b, 2);
    BitOfOne(b, 3);
    BitOfOne(b, 4);
    BitOfOne(b, 5);
    BitOfOne(b, 6);
    BitOfOne(b, 7);
    EightBits(q);
    ByteIsItsBits(b);
  }

  lemma BitOfOne(b: Byte, k: nat)
    requires k < 8
    ensures AllBits([b])[k] == BitOf(b, k)
  {
    assert k / 8 == 0 && k % 8 == k;
  }

  /** The two views of an address agree: its bits, read as a binary numeral, spell its value. */
  lemma {:induction false} ValueOfBits(a: seq<Byte>)
    ensures Value(a) == NatOf(AllBits(a))
  {
    if |a| > 0 {
      var a', last := a[..|a| - 1], [a[|a| - 1]];
      ValueOfBits(a');
      LastByte(a);
      NatOfConcat(AllBits(a'), AllBits(last));
      OneByte(a[|a| - 1]);
      assert Pow2(8) == 256;
    }
  }

  // ---------------------------------------------------------------- prefixes and order

  lemma {:induction false} NatOfBound(s: seq<bool>)
    ensures NatOf(s) < Pow2(|s|)
  {
    if |s| > 0 {
      NatOfBound(s[..|s| - 1]);
    }
  }

  lemma {:induction false} NatOfConstant(s: seq<bool>, b: bool)
    requires forall i :: 0 <= i < |s| ==> s[i] == b
    ensures NatOf(s) == if b then Pow2(|s|) - 1 else 0
  {
    if |s| > 0 {
      NatOfConstant(s[..|s| - 1], b);
    }
  }

  lemma {:induction false} NatOfInjective(s: seq<bool>, t: seq<bool>)
    requires |s| == |t| && NatOf(s) == NatOf(t)
    ensures s == t
  {
    if |s| > 0 {
      NatOfInjective(s[..|s| - 1], t[..|t| - 1]);
      assert s == s[..|s| - 1] + [s[|s| - 1]];
      assert t == t[..|t| - 1] + [t[|t| - 1]];
    }
  }

  /** Writing a number as `x * m + r` with `r < m` orders first by `x`. */
  lemma Digits(x: nat, r: nat, y: nat, q: nat, m: nat)
    requires r < m && q < m && x * m + r <= y * m + q
    ensures x <= y
  {
    if x > y {
      MulMonotone(y + 1, x, m);
    }
  }

  /** A bit string between two others that share their first `n` bits shares those bits too. */
  lemma BetweenKeepsPrefix(lo: seq<bool>, s: seq<bool>, hi: seq<bool>, n: nat)
    requires |lo| == |s| == |hi| && n <= |s|
    requires lo[..n] == hi[..n]
    requires NatOf(lo) <= NatOf(s) <= NatOf(hi)
    ensures s[..n] == lo[..n]
  {
    SplitAt(lo, n);
    SplitAt(s, n);
    SplitAt(hi, n);
    var m := Pow2(|s| - n);
    Digits(NatOf(lo[..n]), NatOf(lo[n..]), NatOf(s[..n]), NatOf(s[n..]), m);
    Digits(NatOf(s[..n]), NatOf(s[n..]), NatOf(hi[..n]), NatOf(hi[n..]), m);
    NatOfInjective(s[..n], lo[..n]);
  }

  lemma SplitAt(s: seq<bool>, n: nat)
    requires n <= |s|
    ensures NatOf(s) == NatOf(s[..n]) * Pow2(|s| - n) + NatOf(s[n..])
    ensures NatOf(s[n..]) < Pow2(|s| - n)
  {
    assert s == s[..n] + s[n..];
    NatOfConcat(s[..n], s[n..]);
    NatOfBound(s[n..]);
  }

  lemma BlockEnd(s: seq<bool>, n: nat, b: bool)
    requires n <= |s|
    requires forall i :: n <= i < |s| ==> s[i] == b
    ensures NatOf(s) == NatOf(s[..n]) * Pow2(|s| - n) + if b then Pow2(|s| - n) - 1 else 0
  {
    SplitAt(s, n);
    forall i | 0 <= i < |s[n..]| ensures s[n..][i] == b {
      assert s[n..][i] == s[n + i];
    }
    NatOfConstant(s[n..], b);
  }

  /**
   The block of strings with a given `n`-bit prefix is the interval from that prefix
   followed by zeros to that prefix followed by ones.
   */
  lemma PrefixIsInterval(lo: seq<bool>, s: seq<bool>, hi: seq<bool>, n: nat)
    requires |lo| == |s| == |hi| && n <= |s|
    requires lo[..n] == hi[..n]
    requires forall i :: n <= i < |lo| ==> !lo[i]
    requires forall i :: n <= i < |hi| ==> hi[i]
    ensures NatOf(lo) <= NatOf(s) <= NatOf(hi) <==> s[..n] == lo[..n]
    ensures NatOf(hi) - NatOf(lo) == Pow2(|s| - n) - 1
  {
    BlockEnd(lo, n, false);
    BlockEnd(hi, n, true);
    if s[..n] == lo[..n] {
      SplitAt(s, n);
    } else if NatOf(lo) <= NatOf(s) <= NatOf(hi) {
      BetweenKeepsPrefix(lo, s, hi, n);
    }
  }
}

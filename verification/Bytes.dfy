/**
 Bytes, little-endian numbers and the in-place byte reversal of `scale.Reverse`.
 A byte is an integer below 256; the shifts and masks of the Go code are written as
 multiplication, division and remainder, which is what they are on unsigned values.
 */
module Bytes {

  type byte = x: int | 0 <= x < 256

  /** 256 to the power `n`: the number of values that `n` bytes can hold. */
  function Pow256(n: nat): (p: nat)
    ensures p >= 1
  {
    if n == 0 then 1 else 256 * Pow256(n - 1)
  }

  /** The `n` low bytes of `v`, least significant first. */
  function LittleEndian(v: nat, n: nat): (bs: seq<byte>)
    ensures |bs| == n
    decreases n
  {
    if n == 0 then [] else [v % 256] + LittleEndian(v / 256, n - 1)
  }

  /** The number whose little-endian bytes are `bs`. */
  function FromLittleEndian(bs: seq<byte>): nat {
    if bs == [] then 0 else bs[0] + 256 * FromLittleEndian(bs[1..])
  }

  /** The number of bytes of `v` without leading zeros: the length of `big.Int.Bytes`. */
  function NumBytes(v: nat): nat {
    if v == 0 then 0 else 1 + NumBytes(v / 256)
  }

  /** The bytes of `s`, last first. */
  function Reversed(s: seq<byte>): (r: seq<byte>)
    ensures |r| == |s|
  {
    seq(|s|, i requires 0 <= i < |s| => s[|s| - 1 - i])
  }

  /** `big.Int.Bytes`: big-endian, no leading zeros, empty for zero. */
  function BigIntBytes(v: nat): (bs: seq<byte>)
    ensures |bs| == NumBytes(v)
  {
    Reversed(LittleEndian(v, NumBytes(v)))
  }

  /** `big.Int.SetBytes`: the number whose big-endian bytes are `bs`. */
  function SetBytes(bs: seq<byte>): nat {
    FromLittleEndian(Reversed(bs))
  }

  lemma {:induction false} FromLittleEndianBound(bs: seq<byte>)
    ensures FromLittleEndian(bs) < Pow256(|bs|)
  {
    if bs != [] {
      FromLittleEndianBound(bs[1..]);
    }
  }

  lemma SetBytesBound(bs: seq<byte>)
    ensures SetBytes(bs) < Pow256(|bs|)
  {
    FromLittleEndianBound(Reversed(bs));
  }

  /** `NumBytes(v)` bytes hold `v`, and one byte less does not. */
  lemma {:induction false} NumBytesBounds(v: nat)
    ensures v < Pow256(NumBytes(v))
    ensures v > 0 ==> NumBytes(v) > 0 && Pow256(NumBytes(v) - 1) <= v
  {
    if v > 0 {
      NumBytesBounds(v / 256);
    }
  }

  lemma ReversedTwice(s: seq<byte>)
    ensures Reversed(Reversed(s)) == s
  {
  }

  lemma Pow256Monotone(m: nat, n: nat)
    requires m <= n
    ensures Pow256(m) <= Pow256(n)
  {
    if m < n {
      Pow256Monotone(m, n - 1);
    }
  }

  /** The two conversions are inverse to each other: on numbers that fit ... */
  lemma {:induction false} LittleEndianRoundTrip(v: nat, n: nat)
    requires v < Pow256(n)
    ensures FromLittleEndian(LittleEndian(v, n)) == v
    decreases n
  {
    if n > 0 {
      LittleEndianRoundTrip(v / 256, n - 1);
      assert LittleEndian(v, n)[1..] == LittleEndian(v / 256, n - 1);
    }
  }

  /** ... and on byte strings. */
  lemma {:induction false} FromLittleEndianRoundTrip(bs: seq<byte>)
    ensures LittleEndian(FromLittleEndian(bs), |bs|) == bs
  {
    if bs != [] {
      FromLittleEndianRoundTrip(bs[1..]);
      var v := FromLittleEndian(bs);
      assert v % 256 == bs[0] && v / 256 == FromLittleEndian(bs[1..]);
      assert bs == [bs[0]] + bs[1..];
    }
  }

  lemma FromLittleEndianInjective(a: seq<byte>, b: seq<byte>)
    requires |a| == |b| && FromLittleEndian(a) == FromLittleEndian(b)
    ensures a == b
  {
    FromLittleEndianRoundTrip(a);
    FromLittleEndianRoundTrip(b);
  }

  lemma {:induction false} FromLittleEndianTop(a: seq<byte>, top: byte)
    ensures FromLittleEndian(a + [top]) == FromLittleEndian(a) + Pow256(|a|) * top
  {
    if a == [] {
      assert a + [top] == [top];
      assert [top][1..] == [];
    } else {
      FromLittleEndianTop(a[1..], top);
      assert (a + [top])[1..] == a[1..] + [top];
      assert 256 * (Pow256(|a| - 1) * top) == Pow256(|a|) * top;
    }
  }

  /** A number that fits in `n` bytes has at most `n` bytes. */
  lemma {:induction false} NumBytesIsLeast(v: nat, n: nat)
    requires v < Pow256(n)
    ensures NumBytes(v) <= n
  {
    if v > 0 {
      NumBytesIsLeast(v / 256, n - 1);
    }
  }

  /** High zero bytes do not change a little-endian number. */
  lemma {:induction false} LittleEndianPads(v: nat, m: nat, n: nat)
    requires v < Pow256(m) && m <= n
    ensures LittleEndian(v, n) == LittleEndian(v, m) + seq(n - m, _ => 0)
    decreases n
  {
    if m == 0 {
      LittleEndianZero(n);
    } else {
      LittleEndianPads(v / 256, m - 1, n - 1);
    }
  }

  lemma {:induction false} LittleEndianZero(n: nat)
    ensures LittleEndian(0, n) == seq(n, _ => 0)
  {
    if n > 0 {
      LittleEndianZero(n - 1);
    }
  }

  lemma {:induction false} NextMultiple(d: nat, a: nat, b: nat)
    requires a < b
    ensures d * a + d <= d * b
    decreases b
  {
    assert d * b == d * (b - 1) + d;
    if a < b - 1 {
      NextMultiple(d, a, b - 1);
    }
  }

  lemma QuotientIs(n: nat, d: nat, q: nat, r: nat)
    requires n == d * q + r && r < d
    ensures n / d == q
  {
    assert n == d * (n / d) + n % d;
    if n / d < q {
      NextMultiple(d, n / d, q);
    } else if q < n / d {
      NextMultiple(d, q, n / d);
    }
  }

  lemma Distribute(d: nat, p: nat, q: nat, r: nat)
    ensures d * (p * q + r) == d * p * q + d * r
  {
    assert d * (p * q + r) == d * (p * q) + d * r;
    assert d * (p * q) == d * p * q;
  }

  lemma Divided(n: nat, d: nat) returns (q: nat, r: nat)
    requires d > 0
    ensures q == n / d && n == d * q + r && r < d
  {
    q, r := n / d, n % d;
  }

  lemma WholeParts(n: nat, d: nat, p: nat, m: nat, a: nat, q: nat, r: nat)
    requires n == d * m + a && a < d && m == p * q + r && r < p
    ensures d * r + a < d * p && n == d * p * q + (d * r + a)
  {
    Distribute(d, p, q, r);
    NextMultiple(d, r, p);
  }

  lemma DivideTwice(n: nat, d: nat, p: nat)
    requires d > 0 && p > 0
    ensures d * p > 0 && n / d / p == n / (d * p)
  {
    var m, a := Divided(n, d);
    var q, r := Divided(m, p);
    WholeParts(n, d, p, m, a, q, r);
    QuotientIs(n, d * p, q, d * r + a);
  }

  /** `scale.Reverse`: swaps the two ends of the array inwards. */
  method Reverse(b: array<byte>)
    modifies b
    ensures b[..] == Reversed(old(b[..]))
  {
    var i, j := 0, b.Length - 1;
    while i < j
      invariant 0 <= i && j == b.Length - 1 - i && i <= j + 1
      invariant forall k :: 0 <= k < b.Length && !(i <= k <= j) ==> b[k] == old(b[b.Length - 1 - k])
      invariant forall k :: i <= k <= j ==> b[k] == old(b[k])
    {
      b[i], b[j] := b[j], b[i];
      i, j := i + 1, j - 1;
    }
  }
}

/** Bit vectors (`types/bitvec.go`): the number of bytes, computed through a float64, and the order of bits. */
module BitVecs {
  import opened Bytes

  const TWO_TO_53: nat := 0x20_0000_0000_0000

  /** The distance between neighbouring float64 numbers at a number. */
  function Spacing(n: nat): (u: nat)
    ensures u > 0
  {
    if n < TWO_TO_53 then 1 else 2 * Spacing(n / 2)
  }

  /** The multiple of `u` nearest to a number, and of two that are equally near the even one. */
  function Nearest(n: nat, u: nat): nat
    requires u > 0
  {
    var q, r := n / u, n % u;
    if 2 * r > u || (2 * r == u && q % 2 == 1) then (q + 1) * u else q * u
  }

  /** `GetMinimumNumberOfBytes` after the length was read: division by 8 and rounding up are exact, the
      conversion to a float64 before them is not. */
  function ByteCount(bits: nat): nat {
    (Nearest(bits, Spacing(bits)) + 7) / 8
  }

  /** No multiple of `u` is nearer to a number than it should be: below the last multiple of 8 before
      it, or beyond the next one. */
  predicate Countable(bits: nat, u: nat)
    requires u > 0
  {
    if u <= 4 then bits % 8 == 0 || bits % 8 > u / 2
    else if u == 8 then bits % 8 == 0 || bits % 8 > 4 || (bits % 8 == 4 && bits / 8 % 2 == 1)
    else bits % u == 0 || bits % u > u - 8
  }

  lemma {:induction false} SpacingIsPower(n: nat)
    ensures Spacing(n) in {1, 2, 4, 8} || Spacing(n) % 16 == 0
  {
    if n >= TWO_TO_53 {
      SpacingIsPower(n / 2);
    }
  }

  /** The count is the least number of bytes that holds the bits if and only if the spacing at that
      number lets it. It is up to 2^53 bits, and is one byte short for one bit more. */
  lemma ByteCountExactly(bits: nat)
    ensures ByteCount(bits) == (bits + 7) / 8 <==> Countable(bits, Spacing(bits))
    ensures bits <= TWO_TO_53 ==> Countable(bits, Spacing(bits))
    ensures ByteCount(TWO_TO_53 + 1) == TWO_TO_53 / 8
  {
    SpacingIsPower(bits);
    var u := Spacing(bits);
    assert Spacing(TWO_TO_53) == 2 && Spacing(TWO_TO_53 + 1) == 2;
    assert bits < TWO_TO_53 ==> u == 1;
    hide Spacing, Nearest;
    if u % 16 == 0 {
      WideSpacing(bits, u / 16);
    } else {
      NarrowSpacing(bits, u);
    }
    NarrowSpacing(TWO_TO_53 + 1, 2);
    assert Nearest(TWO_TO_53 + 1, 2) == TWO_TO_53 by {
      HalfWay(TWO_TO_53 / 4);
    }
  }

  lemma HalfWay(k: nat)
    ensures Nearest(4 * k + 1, 2) == 4 * k
  {
    assert (4 * k + 1) / 2 == 2 * k;
  }

  lemma NarrowSpacing(bits: nat, u: nat)
    requires u in {1, 2, 4, 8}
    ensures (Nearest(bits, u) + 7) / 8 == (bits + 7) / 8 <==> Countable(bits, u)
  {
    var k, r := bits / 8, bits % 8;
    OneApart(k, r);
    TwoApart(k, r);
    FourApart(k, r);
    EightApart(k, r);
    hide Nearest;
    SameBytes(k, r, Nearest(bits, u));
  }

  /** A number up to the next multiple of 8 needs the same bytes unless one of the two is the multiple before. */
  lemma SameBytes(k: nat, r: nat, x: nat)
    requires r < 8 && 8 * k <= x <= 8 * k + 8
    ensures (x + 7) / 8 == (8 * k + r + 7) / 8 <==> (x == 8 * k <==> r == 0)
  {
  }

  lemma OneApart(k: nat, r: nat)
    requires r < 8
    ensures Nearest(8 * k + r, 1) == 8 * k + r
  {
  }

  lemma TwoApart(k: nat, r: nat)
    requires r < 8
    ensures 8 * k <= Nearest(8 * k + r, 2) <= 8 * k + 8 && (Nearest(8 * k + r, 2) == 8 * k <==> r <= 1)
  {
    var n := 8 * k + r;
    assert n / 2 == 4 * k + r / 2 && n % 2 == r % 2;
  }

  lemma FourApart(k: nat, r: nat)
    requires r < 8
    ensures 8 * k <= Nearest(8 * k + r, 4) <= 8 * k + 8 && (Nearest(8 * k + r, 4) == 8 * k <==> r <= 2)
  {
    var n := 8 * k + r;
    assert n / 4 == 2 * k + r / 4 && n % 4 == r % 4;
  }

  lemma EightApart(k: nat, r: nat)
    requires r < 8
    ensures Nearest(8 * k + r, 8) == if r > 4 || (r == 4 && k % 2 == 1) then 8 * k + 8 else 8 * k
  {
    var n := 8 * k + r;
    assert n / 8 == k && n % 8 == r;
  }

  lemma WideSpacing(bits: nat, w: nat)
    requires w > 0
    ensures (Nearest(bits, 16 * w) + 7) / 8 == (bits + 7) / 8 <==> Countable(bits, 16 * w)
  {
    var u := 16 * w;
    var q, r := bits / u, bits % u;
    var base := q * (2 * w);
    assert q * u == 8 * base && (q + 1) * u == 8 * base + u;
    assert bits == 8 * base + r;
    assert (8 * base + 7) / 8 == base && (8 * base + u + 7) / 8 == base + 2 * w;
    assert (bits + 7) / 8 == base + (r + 7) / 8;
  }

  // ------------------------------------------------------------------ the order of bits

  /** `bits.Reverse8`. */
  function ReverseBits(b: byte): byte {
    b % 2 * 128 + b / 2 % 2 * 64 + b / 4 % 2 * 32 + b / 8 % 2 * 16
    + b / 16 % 2 * 8 + b / 32 % 2 * 4 + b / 64 % 2 * 2 + b / 128
  }

  const BIT: seq<nat> := [1, 2, 4, 8, 16, 32, 64, 128]

  function Bit(b: byte, k: nat): nat
    requires k < 8
  {
    b / BIT[k] % 2
  }

  /** Two bytes with the same bits in opposite order. */
  predicate Mirrored(a: byte, b: byte) {
    forall k :: 0 <= k < 8 ==> Bit(a, k) == Bit(b, 7 - k)
  }

  /** The number with these bits, the lowest one first. */
  function Sum(xs: seq<nat>): nat {
    if xs == [] then 0 else xs[0] + 2 * Sum(xs[1..])
  }

  predicate AllBits(xs: seq<nat>) {
    forall k :: 0 <= k < |xs| ==> xs[k] < 2
  }

  function Power(k: nat): (p: nat)
    ensures p > 0
  {
    if k == 0 then 1 else 2 * Power(k - 1)
  }

  /** Bit k of the number is the k-th bit. */
  lemma {:induction false} SumBits(xs: seq<nat>, k: nat)
    requires AllBits(xs) && k < |xs|
    ensures Sum(xs) / Power(k) % 2 == xs[k]
  {
    var tail := xs[1..];
    if k > 0 {
      assert Sum(xs) / 2 == Sum(tail);
      SumBits(tail, k - 1);
      DivideTwice(Sum(xs), 2, Power(k - 1));
    }
  }

  /** A number is the sum of its bits. */
  lemma {:induction false} BitsSum(n: nat, xs: seq<nat>)
    requires n < Power(|xs|) && forall k :: 0 <= k < |xs| ==> xs[k] == n / Power(k) % 2
    ensures Sum(xs) == n
  {
    if xs != [] {
      var tail := xs[1..];
      forall k | 0 <= k < |tail|
        ensures tail[k] == n / 2 / Power(k) % 2
      {
        DivideTwice(n, 2, Power(k));
        assert tail[k] == xs[k + 1];
      }
      BitsSum(n / 2, tail);
      assert xs[0] == n / Power(0) % 2;
    }
  }

  lemma Powers()
    ensures Power(8) == 256 && forall k :: 0 <= k < 8 ==> Power(k) == BIT[k]
  {
    assert Power(1) == 2 && Power(2) == 4 && Power(3) == 8 && Power(4) == 16;
    assert Power(5) == 32 && Power(6) == 64 && Power(7) == 128 && Power(8) == 256;
  }

  function BitsOf(b: byte): (xs: seq<nat>)
    ensures |xs| == 8 && AllBits(xs)
  {
    seq(8, k requires 0 <= k < 8 => Bit(b, k))
  }

  lemma ByteIsBits(b: byte)
    ensures Sum(BitsOf(b)) == b
  {
    Powers();
    hide Power;
    BitsSum(b, BitsOf(b));
  }

  function Backwards(xs: seq<nat>): seq<nat> {
    seq(|xs|, k requires 0 <= k < |xs| => xs[|xs| - 1 - k])
  }

  lemma SumFrom(xs: seq<nat>, k: nat)
    requires k < |xs|
    ensures Sum(xs[k..]) == xs[k] + 2 * Sum(xs[k + 1..])
  {
    assert xs[k..][1..] == xs[k + 1..];
  }

  lemma SumOfEight(xs: seq<nat>)
    requires |xs| == 8
    ensures Sum(xs) ==
      xs[0] + 2 * xs[1] + 4 * xs[2] + 8 * xs[3] + 16 * xs[4] + 32 * xs[5] + 64 * xs[6] + 128 * xs[7]
  {
    assert xs[0..] == xs && Sum(xs[8..]) == 0;
    hide Sum;
    SumFrom(xs, 0);
    SumFrom(xs, 1);
    SumFrom(xs, 2);
    SumFrom(xs, 3);
    SumFrom(xs, 4);
    SumFrom(xs, 5);
    SumFrom(xs, 6);
    SumFrom(xs, 7);
  }

  lemma ReverseBitsMirror(a: byte)
    ensures ReverseBits(a) == Sum(Backwards(BitsOf(a))) && Mirrored(a, ReverseBits(a))
  {
    var xs, b := Backwards(BitsOf(a)), ReverseBits(a);
    SumOfEight(xs);
    assert Sum(xs) == b;
    hide Sum, ReverseBits;
    forall k | 0 <= k < 8
      ensures Bit(a, k) == Bit(b, 7 - k)
    {
      SumBits(xs, 7 - k);
      Powers();
    }
  }

  lemma MirroredAt(a: byte, b: byte, k: nat)
    requires Mirrored(a, b) && k < 8
    ensures BitsOf(a)[k] == BitsOf(b)[7 - k]
  {
    assert Bit(a, k) == Bit(b, 7 - k);
  }

  /** `bits.Reverse8`: bit k of the byte is bit 7 - k of the result, and no other byte has these bits. */
  lemma ReverseBitsExactly(a: byte, b: byte)
    ensures Mirrored(a, b) <==> b == ReverseBits(a)
  {
    ReverseBitsMirror(a);
    ByteIsBits(b);
    hide Sum, ReverseBits, Bit, BitsOf, Mirrored;
    if Mirrored(a, b) {
      var xs, ys := Backwards(BitsOf(a)), BitsOf(b);
      forall k | 0 <= k < 8
        ensures ys[k] == xs[k]
      {
        MirroredAt(a, b, 7 - k);
      }
      assert xs == ys;
    }
  }
}

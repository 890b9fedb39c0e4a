/**
 Fixed-width big integers: the big-endian byte conversions of `types/int.go` and
 `types/uint.go`, and the little-endian streams of I128, I256, U128 and U256.
 */
module BigInts {
  import opened Bytes
  import opened Compact
  import opened Options

  // ------------------------------------------------------------------ specification

  /** The largest magnitude of a negative number in `n` bytes: 2^(8n-1), which is 1 for no
      bytes because `big.Int.Exp` gives 1 for a negative exponent. */
  function MaxNeg(n: nat): (m: int)
    ensures m >= 1
  {
    if n == 0 then 1 else 128 * Pow256(n - 1)
  }

  function Complement(bs: seq<byte>): (r: seq<byte>)
    ensures |r| == |bs|
  {
    seq(|bs|, i requires 0 <= i < |bs| => 255 - bs[i])
  }

  /** The `n` big-endian bytes of a number that fits. */
  function BigEndian(v: nat, n: nat): (bs: seq<byte>)
    ensures |bs| == n
  {
    Reversed(LittleEndian(v, n))
  }

  /** `BigIntToIntBytes`: two's complement, big-endian. */
  function ToIntBytes(i: int, n: nat): (r: Option<seq<byte>>)
    ensures r.Some? <==> -MaxNeg(n) <= i < MaxNeg(n)
    ensures r.Some? ==> |r.value| == n
  {
    if i >= 0 then
      if i > MaxNeg(n) - 1 then None else Some(BigEndian(i, n))
    else
      if -i > MaxNeg(n) then None else Some(Complement(BigEndian(-(i + 1), n)))
  }

  /** `IntBytesToBigInt`. */
  function FromIntBytes(b: seq<byte>): (r: Option<int>)
  {
    if b == [] then None
    else if b[0] < 128 then Some(SetBytes(b))
    else Some(-(SetBytes(Complement(b)) + 1))
  }

  /** `BigIntToUintBytes`: refused when negative or above 2^(8n), and a panic when the number has
      more bytes than the buffer, where the start of the slice to copy to is negative. That is
      so for the one number that the bound lets through with `>` in place of `>=`. */
  function ToUintBytes(i: int, n: nat): (w: Written)
    ensures w.Bytes? <==> 0 <= i < Pow256(n)
    ensures w.Panics? <==> i == Pow256(n)
    ensures w.Bytes? ==> |w.bytes| == n
  {
    if i < 0 || i > Pow256(n) then Refused
    else
      SliceBound(i, n);
      if |BigIntBytes(i)| > n then Panics else Bytes(BigEndian(i, n))
  }

  // ------------------------------------------------------------------ properties

  /** The bytes of a number fit in a buffer exactly when the number is below 256^n. */
  lemma SliceBound(v: nat, n: nat)
    ensures |BigIntBytes(v)| <= n <==> v < Pow256(n)
  {
    NumBytesBounds(v);
    if v < Pow256(n) {
      NumBytesIsLeast(v, n);
    } else if NumBytes(v) <= n {
      Pow256Monotone(NumBytes(v), n);
    }
  }

  lemma SetBytesBigEndian(v: nat, n: nat)
    requires v < Pow256(n)
    ensures SetBytes(BigEndian(v, n)) == v
  {
    ReversedTwice(LittleEndian(v, n));
    LittleEndianRoundTrip(v, n);
  }

  lemma BigEndianSetBytes(b: seq<byte>)
    ensures BigEndian(SetBytes(b), |b|) == b
  {
    FromLittleEndianRoundTrip(Reversed(b));
    ReversedTwice(b);
  }

  lemma HalfRange(n: nat)
    requires n > 0
    ensures Pow256(n) == 2 * MaxNeg(n)
  {
  }

  lemma TopByteDecides(low: nat, p: nat, top: nat)
    requires low < p
    ensures top < 128 <==> low + p * top < 128 * p
  {
    if top < 128 {
      assert p * top <= p * 127;
    } else {
      assert p * top >= p * 128;
    }
  }

  /** The sign bit tells which half of the range a big-endian number is in. */
  lemma SignBit(b: seq<byte>)
    requires b != []
    ensures b[0] < 128 <==> SetBytes(b) < MaxNeg(|b|)
  {
    var low := Reversed(b)[..|b| - 1];
    assert Reversed(b) == low + [b[0]];
    FromLittleEndianTop(low, b[0]);
    FromLittleEndianBound(low);
    TopByteDecides(FromLittleEndian(low), Pow256(|b| - 1), b[0]);
  }

  lemma {:induction false} FromLittleEndianComplement(bs: seq<byte>)
    ensures FromLittleEndian(Complement(bs)) == Pow256(|bs|) - 1 - FromLittleEndian(bs)
  {
    if bs != [] {
      FromLittleEndianComplement(bs[1..]);
      assert Complement(bs)[1..] == Complement(bs[1..]);
    }
  }

  lemma ComplementReversed(b: seq<byte>)
    ensures Reversed(Complement(b)) == Complement(Reversed(b))
    ensures Complement(Complement(b)) == b
  {
  }

  lemma SetBytesComplement(b: seq<byte>)
    ensures SetBytes(Complement(b)) == Pow256(|b|) - 1 - SetBytes(b)
    ensures Complement(Complement(b)) == b
  {
    ComplementReversed(b);
    FromLittleEndianComplement(Reversed(b));
  }

  /** The bytes are those of the number modulo 2^(8n). */
  lemma IntBytesAreResidue(i: int, n: nat)
    requires n > 0 && ToIntBytes(i, n).Some?
    ensures SetBytes(ToIntBytes(i, n).value) == if i >= 0 then i else i + Pow256(n)
  {
    hide BigEndian, SetBytes, Complement, Pow256;
    HalfRange(n);
    if i >= 0 {
      SetBytesBigEndian(i, n);
    } else {
      SetBytesBigEndian(-(i + 1), n);
      SetBytesComplement(BigEndian(-(i + 1), n));
    }
  }

  /** `IntBytesToBigInt` inverts `BigIntToIntBytes`, for every width. */
  lemma IntBytesRoundTrip(i: int, n: nat)
    requires n > 0 && ToIntBytes(i, n).Some?
    ensures FromIntBytes(ToIntBytes(i, n).value) == Some(i)
  {
    var b := ToIntBytes(i, n).value;
    IntBytesAreResidue(i, n);
    HalfRange(n);
    SignBit(b);
    SetBytesComplement(b);
  }

  /** `BigIntToIntBytes` inverts `IntBytesToBigInt`: every byte string is hit once. */
  lemma FromIntBytesRoundTrip(b: seq<byte>)
    requires b != []
    ensures FromIntBytes(b).Some? && ToIntBytes(FromIntBytes(b).value, |b|) == Some(b)
  {
    SignBit(b);
    SetBytesBound(b);
    HalfRange(|b|);
    SetBytesComplement(b);
    if b[0] < 128 {
      BigEndianSetBytes(b);
    } else {
      BigEndianSetBytes(Complement(b));
    }
  }

  // ------------------------------------------------------------------ the conversions

  /** Copies the bytes of `v` to the end of a buffer of `n` zeros. */
  method PadLeft(v: nat, n: nat) returns (res: array<byte>)
    requires v < Pow256(n)
    ensures fresh(res) && res[..] == BigEndian(v, n)
  {
    res := new byte[n](_ => 0);
    var bs := BigIntBytes(v);
    NumBytesIsLeast(v, n);
    NumBytesBounds(v);
    var off := n - |bs|;
    for k := 0 to |bs|
      invariant forall m :: 0 <= m < n && !(off <= m < off + k) ==> res[m] == 0
      invariant forall m :: off <= m < off + k ==> res[m] == bs[m - off]
    {
      res[off + k] := bs[k];
    }
    LittleEndianPads(v, |bs|, n);
  }

  method ComplementInPlace(a: array<byte>)
    modifies a
    ensures a[..] == Complement(old(a[..]))
  {
    for j := 0 to a.Length
      invariant forall k :: 0 <= k < j ==> a[k] == 255 - old(a[k])
      invariant forall k :: j <= k < a.Length ==> a[k] == old(a[k])
    {
      a[j] := 255 - a[j];
    }
  }

  method BigIntToIntBytes(i: int, bytelen: nat) returns (ok: bool, res: array<byte>)
    ensures fresh(res)
    ensures ok == ToIntBytes(i, bytelen).Some?
    ensures ok ==> Some(res[..]) == ToIntBytes(i, bytelen)
  {
    var maxNeg := MaxNeg(bytelen);
    var maxPos := maxNeg - 1;
    if i >= 0 {
      if i > maxPos {
        res := new byte[0];
        return false, res;
      }
      res := PadLeft(i, bytelen);
      return true, res;
    }
    if -i > maxNeg {
      res := new byte[0];
      return false, res;
    }
    res := PadLeft(-(i + 1), bytelen);
    ComplementInPlace(res);
    return true, res;
  }

  /** What the bounds check and the copy make of an unsigned number: the panic is that of the
      slice expression, whose start is negative when the number has too many bytes. */
  method BigIntToUintBytes(i: int, bytelen: nat) returns (w: Written, res: array<byte>)
    ensures fresh(res) && w == ToUintBytes(i, bytelen)
    ensures w.Bytes? ==> res[..] == w.bytes
  {
    res := new byte[0];
    if i < 0 {
      return Refused, res;
    }
    var max := Pow256(bytelen);
    if i > max {
      return Refused, res;
    }
    SliceBound(i, bytelen);
    var start := bytelen - |BigIntBytes(i)|;
    if start < 0 {
      return Panics, res;
    }
    res := PadLeft(i, bytelen);
    w := Bytes(res[..]);
  }

  method IntBytesToBigInt(b: array<byte>) returns (ok: bool, v: int)
    ensures ok == FromIntBytes(b[..]).Some?
    ensures ok ==> FromIntBytes(b[..]) == Some(v)
  {
    if b.Length == 0 {
      return false, 0;
    }
    if b[0] < 128 {
      return true, SetBytes(b[..]);
    }
    var t := new byte[b.Length](i requires 0 <= i < b.Length reads b => b[i]);
    assert t[..] == b[..];
    ComplementInPlace(t);
    var res: int := SetBytes(t[..]);
    res := res + 1;
    return true, -res;
  }
}

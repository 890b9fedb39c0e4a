/**
 Compact unsigned integers of the SCALE codec (appendix A.2.2 of the Polkadot Protocol
 Specification), as `scale/codec.go` writes and reads them.
 */
module Compact {
  import opened Bytes

  /** What reading from the stream gave. `rest` is what is left of the stream; a failed read
      has taken everything that was there. */
  datatype Read<+T> = Ok(value: T, rest: seq<byte>) | Err(rest: seq<byte>)

  /** What encoding gave: the bytes to write, an error value, or a run-time panic. */
  datatype Written = Bytes(bytes: seq<byte>) | Refused | Panics

  const LIMIT1: nat := 64           // 1 << 6
  const LIMIT2: nat := 16384        // 1 << 14
  const LIMIT4: nat := 1073741824   // 1 << 30

  // ------------------------------------------------------------------ specification

  /** `Encoder.EncodeUintCompact`: one, two or four bytes with the mode in the two low bits,
      or a length byte and the little-endian bytes of the number. */
  function EncodeCompact(v: int): (w: Written)
    ensures !w.Panics?
    ensures 0 <= v < LIMIT4 ==> w.Bytes? && |w.bytes| <= 4
  {
    if v < 0 then Refused
    else if v < LIMIT1 then Bytes([v * 4])
    else if v < LIMIT2 then Bytes(LittleEndian(v * 4 + 1, 2))
    else if v < LIMIT4 then Bytes(LittleEndian(v * 4 + 2, 4))
    else BigForm(v)
  }

  function BigForm(v: nat): (w: Written)
    requires v >= LIMIT4
    ensures w.Bytes? <==> NumBytes(v) <= 67
    ensures w.Bytes? ==> |w.bytes| == NumBytes(v) + 1
    ensures !w.Panics?
  {
    var numBytes := NumBytes(v);
    if numBytes > 67 then Refused
    else
      FourBytesAtLeast(v);
      Bytes([(numBytes - 4) * 4 + 3] + LittleEndian(v, numBytes))
  }

  /** `Decoder.Read` of `n` bytes from an in-memory stream. */
  function ReadBytes(input: seq<byte>, n: nat): (r: Read<seq<byte>>)
  {
    if |input| < n then Err([]) else Ok(input[..n], input[n..])
  }

  /** `Decoder.DecodeUintCompact`. It does not insist on the shortest form. */
  function DecodeCompact(input: seq<byte>): (r: Read<nat>)
    ensures r.Ok? ==> |r.rest| < |input|
  {
    if input == [] then Err([]) else DecodeMode(input[0] % 4, input[0] / 4, input[1..])
  }

  /** The rest of a compact integer, by the two mode bits and the six other bits of its
      first byte. */
  function DecodeMode(mode: nat, high: nat, tail: seq<byte>): (r: Read<nat>)
    requires mode < 4 && high < 64
    ensures r.Ok? ==> |r.rest| <= |tail|
  {
    if mode == 0 then Ok(high, tail)
    else if mode == 1 then
      if tail == [] then Err([]) else Ok(tail[0] * 64 + high, tail[1..])
    else if mode == 2 then
      match ReadBytes(tail, 3)
      case Err(rest) => Err(rest)
      case Ok(bs, rest) => Ok(FromLittleEndian([high * 4 + mode] + bs) / 4, rest)
    else
      match ReadBytes(tail, high + 4)
      case Err(rest) => Err(rest)
      case Ok(bs, rest) => Ok(FromLittleEndian(bs), rest)
  }

  // ------------------------------------------------------------------ properties

  lemma FourBytesAtLeast(v: nat)
    requires v >= LIMIT4
    ensures NumBytes(v) >= 4
  {
    assert Pow256(3) == 16777216;
    NumBytesBounds(v);
    if NumBytes(v) < 4 {
      Pow256Monotone(NumBytes(v), 3);
    }
  }

  /** Encoding succeeds exactly below 2^536 = 256^67. */
  lemma EncodeCompactSucceeds(v: int)
    ensures EncodeCompact(v).Bytes? <==> 0 <= v < Pow256(67)
  {
    if v >= 0 {
      if v < Pow256(67) {
        NumBytesIsLeast(v, 67);
      } else {
        Pow256Monotone(4, 67);
        assert Pow256(4) == 4294967296;
        NumBytesBounds(v);
        if NumBytes(v) <= 67 {
          Pow256Monotone(NumBytes(v), 67);
        }
      }
    }
  }

  lemma LittleEndian2(low: byte, high: byte)
    ensures LittleEndian(high as nat * 256 + low, 2) == [low, high]
  {
    var w := high as nat * 256 + low;
    assert w % 256 == low && w / 256 == high;
    assert LittleEndian(high, 1) == [high];
  }

  /** The first byte of a compact integer splits into its six high and two low bits. */
  lemma DecodeFirst(high: nat, mode: nat, tail: seq<byte>)
    requires high < 64 && mode < 4
    ensures DecodeCompact([high * 4 + mode] + tail) == DecodeMode(mode, high, tail)
  {
    var b: byte := high * 4 + mode;
    assert b % 4 == mode && b / 4 == high;
    assert ([b] + tail)[1..] == tail;
  }

  lemma ReadBack(bs: seq<byte>, rest: seq<byte>)
    ensures ReadBytes(bs + rest, |bs|) == Ok(bs, rest)
  {
    assert (bs + rest)[..|bs|] == bs && (bs + rest)[|bs|..] == rest;
  }

  /** Two bytes hold `64 * q + r` with `r` beside the mode bits. */
  lemma TwoByteForm(q: byte, r: nat)
    requires r < 64
    ensures LittleEndian((q as nat * 64 + r) * 4 + 1, 2) == [r * 4 + 1, q]
  {
    LittleEndian2(r * 4 + 1, q);
    assert (q as nat * 64 + r) * 4 + 1 == q as nat * 256 + (r * 4 + 1);
  }

  lemma TwoByteRoundTrip(q: byte, r: nat, rest: seq<byte>)
    requires r < 64
    ensures var v := q as nat * 64 + r;
      DecodeCompact(LittleEndian(v * 4 + 1, 2) + rest) == Ok(v, rest)
  {
    hide LittleEndian;
    TwoByteForm(q, r);
    assert [r * 4 + 1, q] + rest == [r * 4 + 1] + ([q] + rest);
    DecodeFirst(r, 1, [q] + rest);
    assert ([q] + rest)[1..] == rest;
  }

  /** Four bytes hold `64 * q + r` with `r` beside the mode bits. */
  lemma FourByteForm(q: nat, r: nat)
    requires r < 64
    ensures LittleEndian((q * 64 + r) * 4 + 2, 4) == [r * 4 + 2] + LittleEndian(q, 3)
  {
    var w := (q * 64 + r) * 4 + 2;
    assert w == q * 256 + (r * 4 + 2);
    assert w % 256 == r * 4 + 2 && w / 256 == q;
  }

  lemma FourByteRoundTrip(q: nat, r: nat, rest: seq<byte>)
    requires q < Pow256(3) && r < 64
    ensures var v := q * 64 + r;
      DecodeCompact(LittleEndian(v * 4 + 2, 4) + rest) == Ok(v, rest)
  {
    hide LittleEndian, Pow256;
    FourByteForm(q, r);
    var bs := LittleEndian(q, 3);
    assert [r * 4 + 2] + bs + rest == [r * 4 + 2] + (bs + rest);
    DecodeFirst(r, 2, bs + rest);
    ReadBack(bs, rest);
    LittleEndianRoundTrip(q, 3);
    FourByteValue(r, bs);
  }

  lemma FourByteValue(r: nat, bs: seq<byte>)
    requires r < 64
    ensures FromLittleEndian([r * 4 + 2] + bs) / 4 == FromLittleEndian(bs) * 64 + r
  {
    assert ([r * 4 + 2] + bs)[1..] == bs;
  }

  lemma BigRoundTrip(v: nat, rest: seq<byte>)
    requires v >= LIMIT4 && BigForm(v).Bytes?
    ensures DecodeCompact(BigForm(v).bytes + rest) == Ok(v, rest)
  {
    hide LittleEndian, FromLittleEndian, Pow256, NumBytes;
    var n := NumBytes(v);
    FourBytesAtLeast(v);
    var bs := LittleEndian(v, n);
    assert BigForm(v).bytes + rest == [(n - 4) * 4 + 3] + (bs + rest);
    DecodeFirst(n - 4, 3, bs + rest);
    ReadBack(bs, rest);
    NumBytesBounds(v);
    LittleEndianRoundTrip(v, n);
  }

  /** Decoding what was encoded gives the number back and leaves exactly what followed. */
  lemma CompactRoundTrip(v: int, rest: seq<byte>)
    requires EncodeCompact(v).Bytes?
    ensures DecodeCompact(EncodeCompact(v).bytes + rest) == Ok(v, rest)
  {
    hide LittleEndian, FromLittleEndian, NumBytes;
    if v < LIMIT1 {
      DecodeFirst(v, 0, rest);
    } else if v < LIMIT2 {
      TwoByteRoundTrip(v / 64, v % 64, rest);
    } else if v < LIMIT4 {
      assert Pow256(3) == 16777216;
      FourByteRoundTrip(v / 64, v % 64, rest);
    } else {
      BigRoundTrip(v, rest);
    }
  }

  lemma BigFormIsShortest(n: nat, tail: seq<byte>, v: nat)
    requires 4 <= n <= 67 && |tail| == n && v == FromLittleEndian(tail) && v >= LIMIT4
    ensures BigForm(v).Bytes? && |BigForm(v).bytes| <= n + 1
    ensures |BigForm(v).bytes| == n + 1 ==> BigForm(v).bytes == [(n - 4) * 4 + 3] + tail
  {
    FromLittleEndianBound(tail);
    NumBytesIsLeast(v, n);
    FromLittleEndianRoundTrip(tail);
  }

  /** A string that decodes to `v` in the two-byte or four-byte mode is the encoding in
      that mode, and `v` is in its range. */
  lemma ShortModes(mode: nat, high: nat, tail: seq<byte>, v: nat)
    requires mode < 3 && high < 64 && DecodeMode(mode, high, tail) == Ok(v, [])
    ensures mode == 0 ==> tail == [] && v == high
    ensures mode == 1 ==> v < LIMIT2 && [high * 4 + 1] + tail == LittleEndian(v * 4 + 1, 2)
    ensures mode == 2 ==> v < LIMIT4 && [high * 4 + 2] + tail == LittleEndian(v * 4 + 2, 4)
  {
    hide LittleEndian, FromLittleEndian;
    if mode == 1 {
      assert tail == [tail[0]];
      TwoByteForm(tail[0], high);
    } else if mode == 2 {
      assert tail[..3] == tail;
      FourByteValue(high, tail);
      FourByteForm(FromLittleEndian(tail), high);
      FromLittleEndianRoundTrip(tail);
      FromLittleEndianBound(tail);
      assert Pow256(3) == 16777216;
    }
  }

  /** `EncodeCompact(v)` is the one shortest string among all that decode to `v`. */
  lemma CompactIsShortest(bs: seq<byte>, v: nat)
    requires DecodeCompact(bs) == Ok(v, [])
    ensures EncodeCompact(v).Bytes?
    ensures |EncodeCompact(v).bytes| <= |bs|
    ensures |EncodeCompact(v).bytes| == |bs| ==> EncodeCompact(v).bytes == bs
  {
    hide LittleEndian, FromLittleEndian, Pow256, NumBytes;
    var high, mode, tail := bs[0] / 4, bs[0] % 4, bs[1..];
    assert bs == [high * 4 + mode] + tail;
    if mode < 3 {
      ShortModes(mode, high, tail, v);
    } else {
      assert tail[..high + 4] == tail;
      if v >= LIMIT4 {
        BigFormIsShortest(high + 4, tail, v);
      }
    }
  }

  /** What the bytes of a canonical form look like: no mode is used that a shorter one could
      replace, and no high byte is zero. */
  predicate Canonical(bs: seq<byte>)
    requires bs != []
  {
    var high, mode, tail := bs[0] / 4, bs[0] % 4, bs[1..];
    if mode == 0 then true
    else if mode == 1 then tail != [] && tail[0] != 0
    else if mode == 2 then |tail| == 3 && (tail[1] != 0 || tail[2] != 0)
    else |tail| == high + 4 && tail[|tail| - 1] >= if high == 0 then 64 else 1
  }

  lemma ThreeBytes(tail: seq<byte>)
    requires |tail| == 3
    ensures FromLittleEndian(tail) == tail[0] as nat + 256 * tail[1] as nat + 65536 * tail[2] as nat
  {
    assert tail[1..][1..] == tail[2..] && tail[2..][1..] == [];
    assert FromLittleEndian(tail[2..]) == tail[2];
    assert FromLittleEndian(tail[1..]) == tail[1] as nat + 256 * tail[2] as nat;
  }

  /** In the big mode the highest byte places the number between powers of 256. */
  lemma TopByteBounds(tail: seq<byte>, top: nat)
    requires tail != [] && top == tail[|tail| - 1]
    ensures Pow256(|tail| - 1) * top <= FromLittleEndian(tail) < Pow256(|tail| - 1) * (top + 1)
  {
    hide FromLittleEndian, Pow256;
    var low := tail[..|tail| - 1];
    assert tail == low + [tail[|tail| - 1]];
    FromLittleEndianTop(low, tail[|tail| - 1]);
    FromLittleEndianBound(low);
  }

  /** It tells whether the number needs all its bytes. */
  lemma TopByteCounts(tail: seq<byte>, top: nat)
    requires tail != [] && top == tail[|tail| - 1]
    ensures NumBytes(FromLittleEndian(tail)) <= |tail|
    ensures NumBytes(FromLittleEndian(tail)) == |tail| <==> top > 0
  {
    hide FromLittleEndian, Pow256, NumBytes;
    var n, v := |tail|, FromLittleEndian(tail);
    TopByteBounds(tail, top);
    FromLittleEndianBound(tail);
    NumBytesIsLeast(v, n);
    if top == 0 {
      NumBytesIsLeast(v, n - 1);
    } else {
      TopIsLarge(Pow256(n - 1), top, v);
      NumBytesBounds(v);
      if NumBytes(v) < n {
        Pow256Monotone(NumBytes(v), n - 1);
      }
    }
  }

  lemma TopIsLarge(p: nat, top: nat, v: nat)
    requires top > 0 && p * top <= v
    ensures p <= v
  {
    assert p * top >= p;
  }

  lemma BigModeCanonical(high: nat, tail: seq<byte>, v: nat)
    requires high < 64 && |tail| == high + 4 && v == FromLittleEndian(tail)
    ensures (v >= LIMIT4 && NumBytes(v) == |tail|) <==> tail[|tail| - 1] >= if high == 0 then 64 else 1
  {
    assert Pow256(3) == 16777216 && Pow256(4) == 4294967296;
    hide FromLittleEndian, NumBytes, Pow256;
    var top: nat := tail[|tail| - 1];
    TopByteCounts(tail, top);
    TopByteBounds(tail, top);
    if high > 0 && top > 0 {
      Pow256Monotone(4, |tail| - 1);
      TopIsLarge(Pow256(|tail| - 1), top, v);
    }
  }

  /** Among the byte strings that the decoder accepts, those that the encoder writes are exactly
      the ones with no idle high bits: it accepts every other form of the same number too. */
  lemma CanonicalExactly(bs: seq<byte>, v: nat)
    requires DecodeCompact(bs) == Ok(v, [])
    ensures EncodeCompact(v) == Bytes(bs) <==> Canonical(bs)
  {
    hide LittleEndian, FromLittleEndian, NumBytes;
    var high: nat, mode: nat, tail := bs[0] / 4, bs[0] % 4, bs[1..];
    CompactIsShortest(bs, v);
    if mode < 3 {
      ShortModes(mode, high, tail, v);
      if mode == 1 {
        assert tail == [tail[0]] && v == tail[0] * 64 + high;
      } else if mode == 2 {
        assert tail[..3] == tail;
        FourByteValue(high, tail);
        ThreeBytes(tail);
      }
    } else {
      assert tail[..high + 4] == tail;
      BigModeCanonical(high, tail, v);
    }
  }

  /** What is accepted has at most 68 bytes. */
  lemma AcceptedIsShort(bs: seq<byte>, v: nat)
    requires DecodeCompact(bs) == Ok(v, [])
    ensures |bs| <= 68
  {
    hide FromLittleEndian;
    assert |bs[1..]| == |bs| - 1;
  }

  /** The form with all 67 bytes, of a number that needs fewer. */
  lemma LongForm(v: nat)
    requires v < Pow256(66)
    ensures DecodeCompact([255] + LittleEndian(v, 67)) == Ok(v, [])
    ensures EncodeCompact(v) != Bytes([255] + LittleEndian(v, 67))
  {
    Pow256Monotone(66, 67);
    NumBytesIsLeast(v, 66);
    hide LittleEndian, FromLittleEndian, Pow256, NumBytes;
    var tail := LittleEndian(v, 67);
    DecodeFirst(63, 3, tail);
    assert tail + [] == tail;
    ReadBack(tail, []);
    LittleEndianRoundTrip(v, 67);
    assert v >= LIMIT4 ==> |BigForm(v).bytes| == NumBytes(v) + 1;
  }

  /** The decoder accepts another form than the encoder's exactly for the numbers below 2^528: only
      those that need all 67 bytes have a single one. */
  lemma LongerFormExactly(v: nat)
    ensures (exists bs :: DecodeCompact(bs) == Ok(v, []) && EncodeCompact(v) != Bytes(bs)) <==> v < Pow256(66)
  {
    if v < Pow256(66) {
      LongForm(v);
    } else {
      forall bs | DecodeCompact(bs) == Ok(v, [])
        ensures EncodeCompact(v) == Bytes(bs)
      {
        OnlyForm(bs, v);
      }
    }
  }

  lemma OnlyForm(bs: seq<byte>, v: nat)
    requires DecodeCompact(bs) == Ok(v, []) && v >= Pow256(66)
    ensures EncodeCompact(v) == Bytes(bs)
  {
    CompactIsShortest(bs, v);
    AcceptedIsShort(bs, v);
    Pow256Monotone(4, 66);
    assert Pow256(4) == 4294967296;
    NumBytesBounds(v);
    if NumBytes(v) <= 66 {
      Pow256Monotone(NumBytes(v), 66);
    }
  }

  // ------------------------------------------------------------------ the streams

  /** `scale.Encoder` over an in-memory writer. */
  class Encoder {
    var out: seq<byte>

    constructor ()
      ensures out == []
    {
      out := [];
    }

    method Write(bytes: seq<byte>)
      modifies this
      ensures out == old(out) + bytes
    {
      out := out + bytes;
    }

    method PushByte(b: byte)
      modifies this
      ensures out == old(out) + [b]
    {
      Write([b]);
    }

    /** `EncodeUintCompact`: nothing is written when the number is refused. */
    method EncodeUintCompact(v: int) returns (ok: bool)
      modifies this
      ensures ok == EncodeCompact(v).Bytes?
      ensures out == if ok then old(out) + EncodeCompact(v).bytes else old(out)
    {
      if v < 0 {
        return false;
      }
      if v < LIMIT4 {
        if v < LIMIT1 {
          PushByte(v * 4);
        } else if v < LIMIT2 {
          Write(LittleEndian(v * 4 + 1, 2));
        } else {
          Write(LittleEndian(v * 4 + 2, 4));
        }
        return true;
      }
      ok := EncodeBig(v);
    }

    /** The last mode of `EncodeUintCompact`: a length byte, then the reversed bytes. */
    method EncodeBig(v: nat) returns (ok: bool)
      requires v >= LIMIT4
      modifies this
      ensures ok == (NumBytes(v) <= 67)
      ensures out == if ok then old(out) + BigForm(v).bytes else old(out)
    {
      var bytes := BigIntBytes(v);
      var numBytes := |bytes|;
      if numBytes > 255 {
        return false;
      }
      FourBytesAtLeast(v);
      var topSixBits := numBytes - 4;
      if topSixBits > 63 {
        return false;
      }
      PushByte(topSixBits * 4 + 3);
      var buf := new byte[numBytes](i requires 0 <= i < numBytes => bytes[i]);
      assert buf[..] == bytes;
      Reverse(buf);
      ReversedTwice(LittleEndian(v, numBytes));
      Write(buf[..]);
      return true;
    }
  }

  /** `scale.Decoder` over an in-memory reader. */
  class Decoder {
    var input: seq<byte>

    constructor (bytes: seq<byte>)
      ensures input == bytes
    {
      input := bytes;
    }

    /** `Read` into a buffer: one `Read` of the underlying reader, and an error when the
        buffer was not filled. */
    method Read(buf: array<byte>) returns (ok: bool)
      modifies this, buf
      ensures ok == ReadBytes(old(input), buf.Length).Ok?
      ensures input == ReadBytes(old(input), buf.Length).rest
      ensures ok ==> buf[..] == ReadBytes(old(input), buf.Length).value
      ensures !ok ==> forall k :: |old(input)| <= k < buf.Length ==> buf[k] == old(buf[k])
    {
      var c := if |input| < buf.Length then |input| else buf.Length;
      for i := 0 to c
        invariant input == old(input)
        invariant forall k :: 0 <= k < i ==> buf[k] == input[k]
        invariant forall k :: i <= k < buf.Length ==> buf[k] == old(buf[k])
      {
        buf[i] := input[i];
      }
      ok := c == buf.Length;
      input := input[c..];
    }

    /** `ReadOneByte`: on a read error the byte is zero. */
    method ReadOneByte() returns (b: byte, ok: bool)
      modifies this
      ensures ok == (old(input) != [])
      ensures ok ==> b == old(input)[0] && input == old(input)[1..]
      ensures !ok ==> b == 0 && input == []
    {
      var buf := new byte[1](_ => 0);
      ok := Read(buf);
      b := buf[0];
      assert ok ==> buf[..][0] == old(input)[..1][0];
    }

    /** `DecodeUintCompact`. */
    method DecodeUintCompact() returns (v: nat, ok: bool)
      modifies this
      ensures ok == DecodeCompact(old(input)).Ok?
      ensures ok ==> v == DecodeCompact(old(input)).value
      ensures input == DecodeCompact(old(input)).rest
    {
      var b, got := ReadOneByte();
      if !got {
        return 0, false;
      }
      var mode := b % 4;
      if mode == 0 {
        return b / 4, true;
      } else if mode == 1 {
        var bb, got2 := ReadOneByte();
        if !got2 {
          return 0, false;
        }
        var high: nat := bb;
        return high * 64 + b / 4, true;
      } else if mode == 2 {
        var buf := new byte[3](_ => 0);
        var got3 := Read(buf);
        if !got3 {
          return 0, false;
        }
        assert b / 4 * 4 + b % 4 == b;
        return FromLittleEndian([b] + buf[..]) / 4, true;
      } else {
        var buf := new byte[b / 4 + 4](_ => 0);
        var gotAll := Read(buf);
        if !gotAll {
          return 0, false;
        }
        ghost var bs := buf[..];
        Reverse(buf);
        ReversedTwice(bs);
        return SetBytes(buf[..]), true;
      }
    }
  }
}

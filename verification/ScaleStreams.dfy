/**
 The codec as it runs: `Encoder.Encode` appends to a stream and `Decoder.Decode` consumes
 one, element by element. Both are proved to do what `Scale.Encode` and `Scale.Decode` say.
 */
module ScaleStreams {
  import opened Bytes
  import opened Compact
  import opened BigInts
  import opened Scale

  /** How an encoding ended. */
  datatype Status = Success | Error | Panic

  function StatusOf(w: Written): Status {
    match w
    case Bytes(_) => Success
    case Refused => Error
    case Panics => Panic
  }

  /** What a decoding returned; the position of the stream is in the decoder. */
  datatype Result<+T> = Value(value: T) | Failure | Crash

  /** `r` and the position `rest` are the outcome `o`. */
  predicate Agrees<T(==)>(r: Result<T>, rest: seq<byte>, o: Outcome<T>) {
    match o
    case Decoded(v, left) => r == Value(v) && rest == left
    case Failed(left) => r == Failure && rest == left
    case Panicked => r == Crash
  }

  function ListResult(ty: Ty, r: Result<seq<Val>>): Result<Val> {
    match r
    case Value(vs) => Value(Listed(ty, vs))
    case Failure => Failure
    case Crash => Crash
  }

  /** `Encoder.Encode`. An error leaves what was written before it in the stream. */
  method EncodeValue(enc: Encoder, v: Val) returns (s: Status)
    modifies enc
    ensures s == StatusOf(Encode(v))
    ensures s.Success? ==> enc.out == old(enc.out) + Encode(v).bytes
    ensures old(enc.out) <= enc.out
    decreases v, 0
  {
    hide EncodeLength, EncodeItems, EncodeBigUint, EncodeBigInt, LittleEndian, EncodeCompact;
    match v
    case VString(bs) =>
      s := EncodeString(enc, bs);
    case VArray(items) =>
      s := EncodeElements(enc, items);
    case VSlice(items) =>
      s := WriteLength(enc, |items|);
      if s.Success? {
        s := EncodeElements(enc, items);
      }
    case VStruct(items) =>
      s := EncodeElements(enc, items);
    case VNone =>
      enc.PushByte(0);
      s := Success;
    case VSome(x) =>
      enc.PushByte(1);
      s := EncodeValue(enc, x);
    case _ =>
      s := EncodeScalar(enc, v);
  }

  method EncodeString(enc: Encoder, bs: seq<byte>) returns (s: Status)
    modifies enc
    ensures s == StatusOf(Encode(VString(bs)))
    ensures s.Success? ==> enc.out == old(enc.out) + Encode(VString(bs)).bytes
    ensures old(enc.out) <= enc.out
  {
    hide EncodeLength;
    s := WriteLength(enc, |bs|);
    if s.Success? {
      enc.Write(bs);
    }
  }

  /** The kinds without components. */
  predicate Scalar(v: Val) {
    v.VBool? || v.VUint? || v.VInt? || v.VCompact? || v.VBigUint? || v.VBigInt? || v.VOptionBool?
  }

  method EncodeScalar(enc: Encoder, v: Val) returns (s: Status)
    requires Scalar(v)
    modifies enc
    ensures s == StatusOf(Encode(v))
    ensures enc.out == if s.Success? then old(enc.out) + Encode(v).bytes else old(enc.out)
  {
    match v
    case VBool(b) =>
      enc.PushByte(if b then 1 else 0);
      s := Success;
    case VUint(w, n) =>
      enc.Write(LittleEndian(n, w));
      s := Success;
    case VInt(w, i) =>
      enc.Write(LittleEndian(i % Pow256(w), w));
      s := Success;
    case VCompact(i) =>
      var ok := enc.EncodeUintCompact(i);
      s := if ok then Success else Error;
    case VBigUint(w, i) =>
      var bytes, b := BigIntToUintBytes(i, w);
      if bytes.Bytes? {
        Reverse(b);
        enc.Write(b[..]);
      }
      s := StatusOf(bytes);
    case VBigInt(w, i) =>
      var ok, b := BigIntToIntBytes(i, w);
      if ok {
        Reverse(b);
        enc.Write(b[..]);
      }
      s := if ok then Success else Error;
    case VOptionBool(has, flag) =>
      enc.PushByte(if !has then 0 else if flag then 1 else 2);
      s := Success;
  }

  /** The length prefix of a collection. */
  method WriteLength(enc: Encoder, n: nat) returns (s: Status)
    modifies enc
    ensures s == StatusOf(EncodeLength(n))
    ensures enc.out == if s.Success? then old(enc.out) + EncodeLength(n).bytes else old(enc.out)
  {
    if n > MAX_UINT32 {
      return Error;
    }
    ShortLengthsEncode(n);
    var ok := enc.EncodeUintCompact(n);
    return Success;
  }

  /** The loop over the elements of an array or slice, or over the fields of a struct. */
  method EncodeElements(enc: Encoder, vs: seq<Val>) returns (s: Status)
    modifies enc
    ensures s == StatusOf(EncodeItems(vs))
    ensures s.Success? ==> enc.out == old(enc.out) + EncodeItems(vs).bytes
    ensures old(enc.out) <= enc.out
    decreases vs, 1
  {
    ghost var done: seq<byte> := [];
    ThenStarts(EncodeItems(vs));
    assert vs[0..] == vs;
    for i := 0 to |vs|
      invariant enc.out == old(enc.out) + done
      invariant EncodeItems(vs) == Then(Bytes(done), EncodeItems(vs[i..]))
    {
      assert vs[i..][1..] == vs[i + 1..];
      s := EncodeValue(enc, vs[i]);
      if !s.Success? {
        return;
      }
      ThenAssociates(done, Encode(vs[i]).bytes, EncodeItems(vs[i + 1..]));
      done := done + Encode(vs[i]).bytes;
    }
    s := Success;
  }

  lemma ThenStarts(w: Written)
    ensures Then(Bytes([]), w) == w
  {
    if w.Bytes? {
      assert [] + w.bytes == w.bytes;
    }
  }

  lemma ThenAssociates(a: seq<byte>, b: seq<byte>, w: Written)
    ensures Then(Bytes(a), Then(Bytes(b), w)) == Then(Bytes(a + b), w)
  {
    if w.Bytes? {
      assert a + (b + w.bytes) == a + b + w.bytes;
    }
  }

  /** `Decoder.Decode`. */
  method DecodeValue(dec: Decoder, ty: Ty) returns (r: Result<Val>)
    modifies dec
    ensures Agrees(r, dec.input, Decode(ty, old(dec.input)))
    decreases ty, 0
  {
    match ty
    case TBool =>
      var bs := ReadFixed(dec, 1);
      r := if bs.Value? then Value(VBool(bs.value[0] != 0)) else Failure;
    case TUint(w) =>
      var bs := ReadFixed(dec, w);
      r := if bs.Value? then Value(VUint(w, FromLittleEndian(bs.value))) else Failure;
    case TInt(w) =>
      var bs := ReadFixed(dec, w);
      r := if bs.Value? then Value(VInt(w, Signed(bs.value))) else Failure;
    case TCompact =>
      var n, ok := dec.DecodeUintCompact();
      r := if ok then Value(VCompact(n)) else Failure;
    case TBigUint(w) =>
      r := ReadUnsigned(dec, w);
    case TBigInt(w) =>
      r := ReadSigned(dec, w);
    case TString =>
      var n := DecodeCount(dec);
      if !n.Value? {
        return if n.Failure? then Failure else Crash;
      }
      var bs := ReadFixed(dec, n.value);
      r := if bs.Value? then Value(VString(bs.value)) else Failure;
    case TArray(n, e) =>
      var items := DecodeElements(dec, e, n);
      r := ListResult(ty, items);
    case TSlice(e) =>
      var n := DecodeCount(dec);
      if !n.Value? {
        return if n.Failure? then Failure else Crash;
      }
      var items := DecodeElements(dec, e, n.value);
      r := ListResult(ty, items);
    case TStruct(tys) =>
      var items := DecodeStruct(dec, tys);
      r := ListResult(ty, items);
    case TOption(e) =>
      var b, _ := dec.ReadOneByte();
      if b == 0 {
        r := Value(VNone);
      } else if b == 1 {
        var inner := DecodeValue(dec, e);
        r := if inner.Value? then Value(VSome(inner.value)) else inner;
      } else {
        r := Failure;
      }
    case TOptionBool =>
      var b, _ := dec.ReadOneByte();
      if b == 0 {
        r := Value(VOptionBool(false, false));
      } else if b == 1 {
        r := Value(VOptionBool(true, true));
      } else if b == 2 {
        r := Value(VOptionBool(true, false));
      } else {
        r := Failure;
      }
    case TAny =>
      r := Failure;
  }

  method ReadFixed(dec: Decoder, n: nat) returns (r: Result<seq<byte>>)
    modifies dec
    ensures match ReadBytes(old(dec.input), n)
            case Ok(bs, rest) => r == Value(bs) && |bs| == n && dec.input == rest
            case Err(rest) => r == Failure && dec.input == rest
  {
    var buf := new byte[n](_ => 0);
    var ok := dec.Read(buf);
    r := if ok then Value(buf[..]) else Failure;
  }

  /** `U128.Decode`, `U256.Decode`: the bytes are reversed in place before they are a number. */
  method ReadUnsigned(dec: Decoder, w: nat) returns (r: Result<Val>)
    modifies dec
    ensures match ReadBytes(old(dec.input), w)
            case Ok(bs, rest) => r == Value(VBigUint(w, SetBytes(Reversed(bs)))) && dec.input == rest
            case Err(rest) => r == Failure && dec.input == rest
  {
    var buf := new byte[w](_ => 0);
    var ok := dec.Read(buf);
    if !ok {
      return Failure;
    }
    Reverse(buf);
    return Value(VBigUint(w, SetBytes(buf[..])));
  }

  /** `I128.Decode`, `I256.Decode`: little-endian on the stream, big-endian for the integer. */
  method ReadSigned(dec: Decoder, w: nat) returns (r: Result<Val>)
    modifies dec
    ensures match ReadBytes(old(dec.input), w)
            case Ok(bs, rest) => r == Value(VBigInt(w, FromIntBytes(Reversed(bs)).GetOr(0))) && dec.input == rest
            case Err(rest) => r == Failure && dec.input == rest
  {
    var buf := new byte[w](_ => 0);
    var ok := dec.Read(buf);
    if !ok {
      return Failure;
    }
    Reverse(buf);
    var known, i := IntBytesToBigInt(buf);
    return Value(VBigInt(w, if known then i else 0));
  }

  /** The length prefix of a slice; the error of reading it is dropped. */
  method DecodeCount(dec: Decoder) returns (r: Result<nat>)
    modifies dec
    ensures Agrees(r, dec.input, DecodeLength(old(dec.input)))
  {
    var n, ok := dec.DecodeUintCompact();
    if !ok {
      return Crash;
    }
    var low := n % TWO_TO_64;
    if low > MAX_UINT32 {
      return Failure;
    }
    return Value(low);
  }

  /** The loop over the elements of an array or slice. */
  method DecodeElements(dec: Decoder, e: Ty, n: nat) returns (r: Result<seq<Val>>)
    modifies dec
    ensures Agrees(r, dec.input, DecodeItems(e, n, old(dec.input)))
    decreases e, 1
  {
    var items: seq<Val> := [];
    PrependNothing(DecodeItems(e, n, dec.input));
    for i := 0 to n
      invariant DecodeItems(e, n, old(dec.input)) == Prepend(items, DecodeItems(e, n - i, dec.input))
    {
      var item := DecodeValue(dec, e);
      if !item.Value? {
        return if item.Failure? then Failure else Crash;
      }
      PrependAssociates(items, item.value, DecodeItems(e, n - i - 1, dec.input));
      items := items + [item.value];
    }
    assert items + [] == items;
    r := Value(items);
  }

  /** The loop over the fields of a struct. */
  method DecodeStruct(dec: Decoder, tys: seq<Ty>) returns (r: Result<seq<Val>>)
    modifies dec
    ensures Agrees(r, dec.input, DecodeFields(tys, old(dec.input)))
    decreases tys, 1
  {
    var items: seq<Val> := [];
    PrependNothing(DecodeFields(tys, dec.input));
    assert tys[0..] == tys;
    for i := 0 to |tys|
      invariant DecodeFields(tys, old(dec.input)) == Prepend(items, DecodeFields(tys[i..], dec.input))
    {
      assert tys[i..][1..] == tys[i + 1..];
      var item := DecodeValue(dec, tys[i]);
      if !item.Value? {
        return if item.Failure? then Failure else Crash;
      }
      PrependAssociates(items, item.value, DecodeFields(tys[i + 1..], dec.input));
      items := items + [item.value];
    }
    assert items + [] == items;
    r := Value(items);
  }

  lemma PrependNothing(r: Outcome<seq<Val>>)
    ensures Prepend([], r) == r
  {
    if r.Decoded? {
      assert [] + r.value == r.value;
    }
  }

  lemma PrependAssociates(vs: seq<Val>, v: Val, r: Outcome<seq<Val>>)
    ensures Prepend(vs, Prepend([v], r)) == Prepend(vs + [v], r)
  {
    if r.Decoded? {
      assert vs + ([v] + r.value) == vs + [v] + r.value;
    }
  }
}

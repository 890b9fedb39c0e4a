/**
 The SCALE codec of `scale/codec.go` with reflection replaced by an explicit universe of
 types and values. `Encode` and `Decode` say what is written and read; the loops over the
 streams are in `ScaleStreams`.
 */
module Scale {
  import opened Bytes
  import opened Compact
  import opened BigInts
  import opened Options

  /** The types the codec is used at. `TAny` is an interface, which it refuses. */
  datatype Ty =
    | TBool
    | TUint(width: nat)
    | TInt(width: nat)
    | TCompact
    | TBigUint(width: nat)
    | TBigInt(width: nat)
    | TString
    | TArray(len: nat, elem: Ty)
    | TSlice(elem: Ty)
    | TStruct(fields: seq<Ty>)
    | TOption(elem: Ty)
    | TOptionBool
    | TAny

  /** Values carry their kind, as `reflect` finds it. Numbers of fixed width are in range
      when the value has a type (`HasType`). */
  datatype Val =
    | VBool(b: bool)
    | VUint(width: nat, n: nat)
    | VInt(width: nat, i: int)
    | VCompact(i: int)
    | VBigUint(width: nat, i: int)
    | VBigInt(width: nat, i: int)
    | VString(bytes: seq<byte>)
    | VArray(items: seq<Val>)
    | VSlice(items: seq<Val>)
    | VStruct(items: seq<Val>)
    | VNone
    | VSome(value: Val)
    | VOptionBool(hasValue: bool, flag: bool)

  /** What decoding gave. `rest` is what is left of the stream, also after an error. */
  datatype Outcome<+T> = Decoded(value: T, rest: seq<byte>) | Failed(rest: seq<byte>) | Panicked

  const MAX_UINT32: nat := 4294967295
  const TWO_TO_64: nat := 18446744073709551616

  predicate HasType(v: Val, ty: Ty)
    decreases ty, 0
  {
    match ty
    case TBool => v.VBool?
    case TUint(w) => v.VUint? && v.width == w && v.n < Pow256(w)
    case TInt(w) => v.VInt? && v.width == w && w > 0 && -MaxNeg(w) <= v.i < MaxNeg(w)
    case TCompact => v.VCompact?
    case TBigUint(w) => v.VBigUint? && v.width == w
    case TBigInt(w) => v.VBigInt? && v.width == w && w > 0
    case TString => v.VString?
    case TArray(n, e) => v.VArray? && |v.items| == n && AllHaveType(v.items, e)
    case TSlice(e) => v.VSlice? && AllHaveType(v.items, e)
    case TStruct(tys) => v.VStruct? && FieldsHaveTypes(v.items, tys)
    case TOption(e) => v.VNone? || (v.VSome? && HasType(v.value, e))
    case TOptionBool => v.VOptionBool? && (v.flag ==> v.hasValue)
    case TAny => false
  }

  predicate AllHaveType(vs: seq<Val>, e: Ty)
    decreases e, 1
  {
    forall i :: 0 <= i < |vs| ==> HasType(vs[i], e)
  }

  predicate FieldsHaveTypes(vs: seq<Val>, tys: seq<Ty>)
    decreases tys, 0
  {
    |vs| == |tys| && (tys == [] || (HasType(vs[0], tys[0]) && FieldsHaveTypes(vs[1..], tys[1..])))
  }

  // ------------------------------------------------------------------ encoding

  /** Two writes in a row; the second is not made when the first did not succeed. */
  function Then(a: Written, b: Written): (w: Written)
    ensures w.Bytes? <==> a.Bytes? && b.Bytes?
    ensures w.Bytes? ==> w.bytes == a.bytes + b.bytes
  {
    if !a.Bytes? then a else if !b.Bytes? then b else Bytes(a.bytes + b.bytes)
  }

  /** `Encoder.Encode`, by the kind of the value. */
  function Encode(v: Val): (w: Written)
    decreases v, 0
  {
    match v
    case VBool(b) => Bytes([if b then 1 else 0])
    case VUint(w, n) => Bytes(LittleEndian(n, w))
    case VInt(w, i) => Bytes(LittleEndian(i % Pow256(w), w))
    case VCompact(i) => EncodeCompact(i)
    case VBigUint(w, i) => EncodeBigUint(i, w)
    case VBigInt(w, i) => EncodeBigInt(i, w)
    case VString(bs) => Then(EncodeLength(|bs|), Bytes(bs))
    case VArray(items) => EncodeItems(items)
    case VSlice(items) => Then(EncodeLength(|items|), EncodeItems(items))
    case VStruct(items) => EncodeItems(items)
    case VNone => Bytes([0])
    case VSome(x) => Then(Bytes([1]), Encode(x))
    case VOptionBool(has, flag) => Bytes([if !has then 0 else if flag then 1 else 2])
  }

  /** The elements of an array or slice, or the fields of a struct, one after the other. */
  function EncodeItems(vs: seq<Val>): (w: Written)
    decreases vs, 0
  {
    if vs == [] then Bytes([]) else Then(Encode(vs[0]), EncodeItems(vs[1..]))
  }

  /** The length prefix of a collection. */
  function EncodeLength(n: nat): (w: Written)
    ensures w.Bytes? <==> n <= MAX_UINT32
  {
    if n > MAX_UINT32 then Refused
    else
      ShortLengthsEncode(n);
      EncodeCompact(n)
  }

  lemma ShortLengthsEncode(n: nat)
    requires n <= MAX_UINT32
    ensures EncodeCompact(n).Bytes?
  {
    assert Pow256(4) == 4294967296;
    Pow256Monotone(4, 67);
    EncodeCompactSucceeds(n);
  }

  /** `U128.Encode`, `U256.Encode`. */
  function EncodeBigUint(i: int, w: nat): Written {
    match ToUintBytes(i, w)
    case Bytes(bs) => Bytes(Reversed(bs))
    case other => other
  }

  /** `I128.Encode`, `I256.Encode`. */
  function EncodeBigInt(i: int, w: nat): Written {
    match ToIntBytes(i, w)
    case None => Refused
    case Some(bs) => Bytes(Reversed(bs))
  }

  // ------------------------------------------------------------------ decoding

  /** The number with these little-endian bytes in two's complement. */
  function Signed(bs: seq<byte>): int {
    var n := FromLittleEndian(bs);
    if n < MaxNeg(|bs|) then n else n - Pow256(|bs|)
  }

  /** The types read as a fixed number of bytes. */
  predicate Fixed(ty: Ty) {
    ty.TBool? || ty.TUint? || ty.TInt? || ty.TBigUint? || ty.TBigInt?
  }

  function FixedWidth(ty: Ty): nat
    requires Fixed(ty)
  {
    if ty.TBool? then 1 else ty.width
  }

  /** The value of a fixed-width type with these bytes. */
  function Interpret(ty: Ty, bs: seq<byte>): Val
    requires Fixed(ty)
  {
    match ty
    case TBool => VBool(bs != [] && bs[0] != 0)
    case TUint(w) => VUint(w, FromLittleEndian(bs))
    case TInt(w) => VInt(w, Signed(bs))
    case TBigUint(w) => VBigUint(w, SetBytes(Reversed(bs)))
    case TBigInt(w) => VBigInt(w, FromIntBytes(Reversed(bs)).GetOr(0))
  }

  /** `Decoder.DecodeIntoReflectValue`, by the type of the target. */
  function Decode(ty: Ty, input: seq<byte>): (r: Outcome<Val>)
    decreases ty, 2
  {
    match ty
    case TArray(n, e) => AsList(ty, DecodeItems(e, n, input))
    case TSlice(e) =>
      (match DecodeLength(input)
       case Failed(rest) => Failed(rest)
       case Panicked => Panicked
       case Decoded(n, rest) => AsList(ty, DecodeItems(e, n, rest)))
    case TStruct(tys) => AsList(ty, DecodeFields(tys, input))
    case TOption(e) =>
      var (b, rest) := ByteOrZero(input);
      if b == 0 then Decoded(VNone, rest)
      else if b == 1 then AsSome(Decode(e, rest))
      else Failed(rest)
    case _ => if Fixed(ty) then DecodeFixed(ty, input) else DecodeLeaf(ty, input)
  }

  function DecodeFixed(ty: Ty, input: seq<byte>): (r: Outcome<Val>)
    requires Fixed(ty)
  {
    match ReadBytes(input, FixedWidth(ty))
    case Ok(bs, rest) => Decoded(Interpret(ty, bs), rest)
    case Err(rest) => Failed(rest)
  }

  /** The remaining types without components. */
  function DecodeLeaf(ty: Ty, input: seq<byte>): (r: Outcome<Val>) {
    match ty
    case TCompact =>
      (match DecodeCompact(input)
       case Ok(n, rest) => Decoded(VCompact(n), rest)
       case Err(rest) => Failed(rest))
    case TString =>
      (match DecodeLength(input)
       case Failed(rest) => Failed(rest)
       case Panicked => Panicked
       case Decoded(n, rest) =>
         match ReadBytes(rest, n)
         case Ok(bs, left) => Decoded(VString(bs), left)
         case Err(left) => Failed(left))
    case TOptionBool =>
      var (b, rest) := ByteOrZero(input);
      if b == 0 then Decoded(VOptionBool(false, false), rest)
      else if b == 1 then Decoded(VOptionBool(true, true), rest)
      else if b == 2 then Decoded(VOptionBool(true, false), rest)
      else Failed(rest)
    case _ => Failed(input)
  }

  /** `ReadOneByte` with its error ignored, as `DecodeOption` and `OptionBool.Decode` do: at
      the end of the stream the byte is zero. */
  function ByteOrZero(input: seq<byte>): (byte, seq<byte>) {
    if input == [] then (0, []) else (input[0], input[1..])
  }

  /** The length of a collection. The read error is ignored and the nil big integer panics;
      otherwise the low 64 bits decide. */
  function DecodeLength(input: seq<byte>): (r: Outcome<nat>)
  {
    match DecodeCompact(input)
    case Err(_) => Panicked
    case Ok(n, rest) =>
      var low := n % TWO_TO_64;
      if low > MAX_UINT32 then Failed(rest) else Decoded(low, rest)
  }

  function DecodeItems(e: Ty, n: nat, input: seq<byte>): (r: Outcome<seq<Val>>)
    decreases e, 3, n
  {
    if n == 0 then Decoded([], input)
    else match Decode(e, input)
      case Failed(rest) => Failed(rest)
      case Panicked => Panicked
      case Decoded(v, rest) => Prepend([v], DecodeItems(e, n - 1, rest))
  }

  function DecodeFields(tys: seq<Ty>, input: seq<byte>): (r: Outcome<seq<Val>>)
    decreases tys, 0
  {
    if tys == [] then Decoded([], input)
    else match Decode(tys[0], input)
      case Failed(rest) => Failed(rest)
      case Panicked => Panicked
      case Decoded(v, rest) => Prepend([v], DecodeFields(tys[1..], rest))
  }

  function Prepend(vs: seq<Val>, r: Outcome<seq<Val>>): Outcome<seq<Val>> {
    if r.Decoded? then Decoded(vs + r.value, r.rest) else r
  }

  function Listed(ty: Ty, vs: seq<Val>): Val {
    if ty.TArray? then VArray(vs) else if ty.TSlice? then VSlice(vs) else VStruct(vs)
  }

  function AsList(ty: Ty, r: Outcome<seq<Val>>): Outcome<Val> {
    match r
    case Decoded(vs, rest) => Decoded(Listed(ty, vs), rest)
    case Failed(rest) => Failed(rest)
    case Panicked => Panicked
  }

  function AsSome(r: Outcome<Val>): Outcome<Val> {
    if r.Decoded? then Decoded(VSome(r.value), r.rest) else r
  }

  // ------------------------------------------------------------------ round trip

  lemma LengthRoundTrip(n: nat, rest: seq<byte>)
    requires EncodeLength(n).Bytes?
    ensures DecodeLength(EncodeLength(n).bytes + rest) == Decoded(n, rest)
  {
    CompactRoundTrip(n, rest);
  }

  lemma Residue(i: int, p: nat)
    requires p > 0 && 0 <= i + p && i < p
    ensures i % p == if i >= 0 then i else i + p
  {
    if i < 0 {
      assert (i + p) % p == i % p;
    }
  }

  lemma SignedRoundTrip(i: int, w: nat)
    requires w > 0 && -MaxNeg(w) <= i < MaxNeg(w)
    ensures Signed(LittleEndian(i % Pow256(w), w)) == i
  {
    HalfRange(w);
    Residue(i, Pow256(w));
    LittleEndianRoundTrip(i % Pow256(w), w);
  }

  lemma BigIntRoundTrip(i: int, w: nat)
    requires w > 0 && ToIntBytes(i, w).Some?
    ensures FromIntBytes(Reversed(Reversed(ToIntBytes(i, w).value))) == Some(i)
  {
    ReversedTwice(ToIntBytes(i, w).value);
    IntBytesRoundTrip(i, w);
  }

  /** The bytes of a fixed-width value are as many as its type says and mean the value. */
  lemma FixedRoundTrip(v: Val, ty: Ty)
    requires Fixed(ty) && HasType(v, ty) && Encode(v).Bytes?
    ensures |Encode(v).bytes| == FixedWidth(ty) && Interpret(ty, Encode(v).bytes) == v
  {
    match ty
    case TBool =>
    case TUint(w) => LittleEndianRoundTrip(v.n, w);
    case TInt(w) => SignedRoundTrip(v.i, w);
    case TBigUint(w) =>
      ReversedTwice(BigEndian(v.i, w));
      SetBytesBigEndian(v.i, w);
    case TBigInt(w) => BigIntRoundTrip(v.i, w);
  }

  lemma StringRoundTrip(s: seq<byte>, rest: seq<byte>)
    requires Encode(VString(s)).Bytes?
    ensures DecodeLeaf(TString, Encode(VString(s)).bytes + rest) == Decoded(VString(s), rest)
  {
    hide EncodeCompact, DecodeCompact, EncodeLength, DecodeLength;
    LengthRoundTrip(|s|, s + rest);
    assert Encode(VString(s)).bytes + rest == EncodeLength(|s|).bytes + (s + rest);
    ReadBack(s, rest);
  }

  lemma OptionRoundTrip(tag: seq<byte>, body: seq<byte>, rest: seq<byte>)
    requires |tag| == 1
    ensures ByteOrZero(tag + body + rest) == (tag[0], body + rest)
    ensures ByteOrZero(tag + rest) == (tag[0], rest)
  {
    assert (tag + body + rest)[1..] == body + rest;
    assert (tag + rest)[1..] == rest;
  }

  /** The structural round trip: decoding what was encoded, whatever follows it, gives the
      value back and leaves exactly what followed. */
  lemma {:induction false} RoundTrip(v: Val, ty: Ty, rest: seq<byte>)
    requires HasType(v, ty) && Encode(v).Bytes?
    ensures Decode(ty, Encode(v).bytes + rest) == Decoded(v, rest)
    decreases ty, 0
  {
    match ty
    case TArray(n, e) => ItemsRoundTrip(v.items, e, rest);
    case TSlice(e) => SliceRoundTrip(v.items, e, rest);
    case TStruct(tys) => FieldsRoundTrip(v.items, tys, rest);
    case TOption(e) =>
      if v.VSome? {
        OptionRoundTrip([1], Encode(v.value).bytes, rest);
        RoundTrip(v.value, e, rest);
      } else {
        OptionRoundTrip([0], [], rest);
      }
    case TCompact => CompactRoundTrip(v.i, rest);
    case TString => StringRoundTrip(v.bytes, rest);
    case TOptionBool => OptionRoundTrip(Encode(v).bytes, [], rest);
    case TAny =>
    case _ =>
      FixedRoundTrip(v, ty);
      ReadBack(Encode(v).bytes, rest);
  }

  lemma {:induction false} SliceRoundTrip(vs: seq<Val>, e: Ty, rest: seq<byte>)
    requires AllHaveType(vs, e) && Encode(VSlice(vs)).Bytes?
    ensures Decode(TSlice(e), Encode(VSlice(vs)).bytes + rest) == Decoded(VSlice(vs), rest)
    decreases e, 2
  {
    hide EncodeCompact, DecodeCompact, EncodeLength, DecodeLength, EncodeItems, DecodeItems;
    var body := EncodeItems(vs).bytes;
    LengthRoundTrip(|vs|, body + rest);
    assert Encode(VSlice(vs)).bytes + rest == EncodeLength(|vs|).bytes + (body + rest);
    ItemsRoundTrip(vs, e, rest);
  }

  lemma {:induction false} ItemsRoundTrip(vs: seq<Val>, e: Ty, rest: seq<byte>)
    requires AllHaveType(vs, e) && EncodeItems(vs).Bytes?
    ensures DecodeItems(e, |vs|, EncodeItems(vs).bytes + rest) == Decoded(vs, rest)
    decreases e, 1, |vs|
  {
    hide Encode, Decode, HasType;
    if vs == [] {
      assert EncodeItems(vs).bytes + rest == rest;
    } else {
      var head, tail := Encode(vs[0]).bytes, EncodeItems(vs[1..]).bytes;
      assert EncodeItems(vs).bytes + rest == head + (tail + rest);
      RoundTrip(vs[0], e, tail + rest);
      ItemsRoundTrip(vs[1..], e, rest);
      assert [vs[0]] + vs[1..] == vs;
    }
  }

  lemma {:induction false} FieldsRoundTrip(vs: seq<Val>, tys: seq<Ty>, rest: seq<byte>)
    requires FieldsHaveTypes(vs, tys) && EncodeItems(vs).Bytes?
    ensures DecodeFields(tys, EncodeItems(vs).bytes + rest) == Decoded(vs, rest)
    decreases tys, 0
  {
    hide Encode, Decode, HasType;
    if tys == [] {
      assert EncodeItems(vs).bytes + rest == rest;
    } else {
      var head, tail := Encode(vs[0]).bytes, EncodeItems(vs[1..]).bytes;
      assert EncodeItems(vs).bytes + rest == head + (tail + rest);
      RoundTrip(vs[0], tys[0], tail + rest);
      FieldsRoundTrip(vs[1..], tys[1..], rest);
      assert [vs[0]] + vs[1..] == vs;
    }
  }

  /** No encoding is a proper prefix of another of the same type, and no two values of one
      type share an encoding. */
  lemma PrefixFree(v1: Val, v2: Val, ty: Ty, more: seq<byte>)
    requires HasType(v1, ty) && HasType(v2, ty)
    requires Encode(v1).Bytes? && Encode(v2).Bytes?
    requires Encode(v2).bytes == Encode(v1).bytes + more
    ensures v1 == v2 && more == []
  {
    RoundTrip(v1, ty, more);
    RoundTrip(v2, ty, []);
    assert Encode(v2).bytes + [] == Encode(v2).bytes;
  }

  // ------------------------------------------------------------------ when encoding succeeds

  /** Every big number is in its range and every collection below 2^32 elements. */
  predicate Encodable(v: Val)
    decreases v, 0
  {
    match v
    case VCompact(i) => 0 <= i < Pow256(67)
    case VBigUint(w, i) => 0 <= i < Pow256(w)
    case VBigInt(w, i) => -MaxNeg(w) <= i < MaxNeg(w)
    case VString(bs) => |bs| <= MAX_UINT32
    case VArray(items) => AllEncodable(items)
    case VSlice(items) => |items| <= MAX_UINT32 && AllEncodable(items)
    case VStruct(items) => AllEncodable(items)
    case VSome(x) => Encodable(x)
    case _ => true
  }

  predicate AllEncodable(vs: seq<Val>)
    decreases vs, 0
  {
    forall i :: 0 <= i < |vs| ==> Encodable(vs[i])
  }

  lemma {:induction false} EncodeSucceeds(v: Val)
    ensures Encode(v).Bytes? <==> Encodable(v)
    decreases v, 0
  {
    match v
    case VCompact(i) => EncodeCompactSucceeds(i);
    case VArray(items) => EncodeItemsSucceeds(items);
    case VSlice(items) => EncodeItemsSucceeds(items);
    case VStruct(items) => EncodeItemsSucceeds(items);
    case VSome(x) => EncodeSucceeds(x);
    case _ =>
  }

  lemma {:induction false} EncodeItemsSucceeds(vs: seq<Val>)
    ensures EncodeItems(vs).Bytes? <==> AllEncodable(vs)
    decreases vs, 0
  {
    if vs != [] {
      EncodeSucceeds(vs[0]);
      EncodeItemsSucceeds(vs[1..]);
      assert forall i :: 1 <= i < |vs| ==> vs[i] == vs[1..][i - 1];
    }
  }

  // ------------------------------------------------------------------ what is decoded is typed

  /** Signed numbers have at least one byte. */
  predicate Sized(ty: Ty)
    decreases ty
  {
    match ty
    case TInt(w) => w > 0
    case TBigInt(w) => w > 0
    case TArray(_, e) => Sized(e)
    case TSlice(e) => Sized(e)
    case TOption(e) => Sized(e)
    case TStruct(tys) => forall i :: 0 <= i < |tys| ==> Sized(tys[i])
    case _ => true
  }

  lemma FixedHasType(ty: Ty, bs: seq<byte>)
    requires Fixed(ty) && Sized(ty) && |bs| == FixedWidth(ty)
    ensures HasType(Interpret(ty, bs), ty)
  {
    FromLittleEndianBound(bs);
    if ty.TInt? {
      HalfRange(ty.width);
    }
  }

  /** Whatever the bytes, a value that is decoded at a type has that type. */
  lemma {:induction false} DecodedHasType(ty: Ty, input: seq<byte>)
    requires Sized(ty) && Decode(ty, input).Decoded?
    ensures HasType(Decode(ty, input).value, ty)
    decreases ty, 2
  {
    hide DecodeCompact, DecodeLength, Interpret;
    match ty
    case TArray(n, e) => ItemsHaveType(e, n, input);
    case TSlice(e) =>
      var len := DecodeLength(input);
      ItemsHaveType(e, len.value, len.rest);
    case TStruct(tys) => FieldsHaveType(tys, input);
    case TOption(e) =>
      var (b, rest) := ByteOrZero(input);
      if b == 1 {
        DecodedHasType(e, rest);
      }
    case TCompact =>
    case TString =>
    case TOptionBool =>
    case TAny =>
    case _ => FixedHasType(ty, input[..FixedWidth(ty)]);
  }

  lemma {:induction false} ItemsHaveType(e: Ty, n: nat, input: seq<byte>)
    requires Sized(e) && DecodeItems(e, n, input).Decoded?
    ensures var vs := DecodeItems(e, n, input).value; |vs| == n && AllHaveType(vs, e)
    decreases e, 3, n
  {
    hide Decode;
    if n > 0 {
      DecodedHasType(e, input);
      ItemsHaveType(e, n - 1, Decode(e, input).rest);
    }
  }

  lemma {:induction false} FieldsHaveType(tys: seq<Ty>, input: seq<byte>)
    requires (forall i :: 0 <= i < |tys| ==> Sized(tys[i])) && DecodeFields(tys, input).Decoded?
    ensures FieldsHaveTypes(DecodeFields(tys, input).value, tys)
    decreases tys, 0
  {
    hide Decode;
    if tys != [] {
      DecodedHasType(tys[0], input);
      FieldsHaveType(tys[1..], Decode(tys[0], input).rest);
      var vs := DecodeFields(tys, input).value;
      assert vs[1..] == DecodeFields(tys[1..], Decode(tys[0], input).rest).value;
    }
  }
}

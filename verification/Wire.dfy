/**
 The SCALE format itself (appendix A.2.2 of the Polkadot Protocol Specification), stated byte by
 byte and apart from the codec: which bytes are a form of a value at a type. The encoder writes
 exactly the written forms, and the decoder accepts exactly the readable ones.
 */
module Wire {
  import opened Bytes
  import opened BigInts
  import opened Compact
  import opened Scale

  // ------------------------------------------------------------------ numbers

  /** The bytes are the digits of a number to the base 256, the lowest one first. */
  predicate Number(bs: seq<byte>, n: nat) {
    n < Pow256(|bs|) && forall i :: 0 <= i < |bs| ==> bs[i] == n / Pow256(i) % 256
  }

  /** The same for a signed number: a negative one is written as its residue. */
  predicate SignedNumber(bs: seq<byte>, i: int) {
    0 <= 2 * i + Pow256(|bs|) && 2 * i < Pow256(|bs|) && Number(bs, if i < 0 then i + Pow256(|bs|) else i)
  }

  /** The i-th of the little-endian bytes is the i-th digit. */
  lemma {:induction false} LittleEndianDigits(v: nat, n: nat, i: nat)
    requires i < n
    ensures LittleEndian(v, n)[i] == v / Pow256(i) % 256
    decreases n
  {
    if i > 0 {
      LittleEndianDigits(v / 256, n - 1, i - 1);
      DivideTwice(v, 256, Pow256(i - 1));
    }
  }

  /** So is the i-th of the big-endian ones, from the other end. */
  lemma BigEndianDigits(v: nat, n: nat, i: nat)
    requires i < n
    ensures BigEndian(v, n)[i] == v / Pow256(n - 1 - i) % 256
  {
    LittleEndianDigits(v, n, n - 1 - i);
  }

  lemma NumberIs(bs: seq<byte>, n: nat)
    ensures Number(bs, n) <==> FromLittleEndian(bs) == n
  {
    FromLittleEndianBound(bs);
    FromLittleEndianRoundTrip(bs);
    hide LittleEndian, FromLittleEndian, Pow256;
    if n < Pow256(|bs|) {
      LittleEndianRoundTrip(n, |bs|);
      forall i | 0 <= i < |bs|
        ensures LittleEndian(n, |bs|)[i] == n / Pow256(i) % 256
      {
        LittleEndianDigits(n, |bs|, i);
      }
      if Number(bs, n) {
        assert bs == LittleEndian(n, |bs|);
      }
    }
  }

  // ------------------------------------------------------------------ compact integers

  /** How bytes are a form: as the encoder writes them, as the decoder takes them while more may
      follow, or as it takes them at the end of the stream. */
  datatype How = AsWritten | Readable | AtEnd

  predicate CompactForm(bs: seq<byte>, n: nat, how: How) {
    && bs != []
    && (match bs[0] % 4
        case 0 => |bs| == 1 && bs[0] == 4 * n
        case 1 => |bs| == 2 && Number(bs, 4 * n + 1)
        case 2 => |bs| == 4 && Number(bs, 4 * n + 2)
        case _ => |bs| == bs[0] / 4 + 5 && Number(bs[1..], n))
    && (how.AsWritten? ==> Canonical(bs))
  }

  lemma CompactRead(bs: seq<byte>, n: nat, how: How)
    requires !how.AsWritten?
    ensures CompactForm(bs, n, how) <==> CompactForm(bs, n, Readable)
  {
  }

  lemma CompactFormIs(bs: seq<byte>, n: nat)
    ensures CompactForm(bs, n, Readable) <==> DecodeCompact(bs) == Ok(n, [])
  {
    if bs != [] {
      var high, mode, tail := bs[0] / 4, bs[0] % 4, bs[1..];
      hide FromLittleEndian, Number;
      if mode == 1 {
        TwoByteFormIs(bs, n);
      } else if mode == 2 {
        FourByteFormIs(bs, n);
      } else if mode == 3 {
        NumberIs(tail, n);
        assert |tail| == high + 4 ==> tail[..high + 4] == tail;
      }
    }
  }

  lemma TwoByteFormIs(bs: seq<byte>, n: nat)
    requires bs != [] && bs[0] % 4 == 1
    ensures |bs| == 2 && Number(bs, 4 * n + 1) <==> DecodeMode(1, bs[0] / 4, bs[1..]) == Ok(n, [])
  {
    NumberIs(bs, 4 * n + 1);
    hide Number;
    if |bs| == 2 {
      assert bs[1..][1..] == [];
      assert FromLittleEndian(bs[1..]) == bs[1] + 256 * FromLittleEndian([]);
    }
  }

  lemma FourByteFormIs(bs: seq<byte>, n: nat)
    requires bs != [] && bs[0] % 4 == 2
    ensures |bs| == 4 && Number(bs, 4 * n + 2) <==> DecodeMode(2, bs[0] / 4, bs[1..]) == Ok(n, [])
  {
    var tail := bs[1..];
    QuarterIs(bs[0], FromLittleEndian(tail), FromLittleEndian(bs), n);
    hide Number, FromLittleEndian;
    NumberIs(bs, 4 * n + 2);
    if |tail| == 3 {
      assert tail[..3] == tail && [bs[0] / 4 * 4 + 2] + tail == bs;
    }
  }

  lemma QuarterIs(b: nat, y: nat, x: nat, n: nat)
    requires b % 4 == 2 && x == b + 256 * y
    ensures x == 4 * n + 2 <==> x / 4 == n
  {
    assert x == 4 * (b / 4 + 64 * y) + 2;
  }

  lemma DecodePrefix(input: seq<byte>)
    requires DecodeCompact(input).Ok?
    ensures var r := DecodeCompact(input); var k := |input| - |r.rest|;
      k >= 0 && r.rest == input[k..] && DecodeCompact(input[..k]) == Ok(r.value, [])
  {
    var r := DecodeCompact(input);
    var k := |input| - |r.rest|;
    var tail := input[1..];
    assert input[..k][1..] == tail[..k - 1];
    hide FromLittleEndian;
    assert forall n: nat :: n <= |tail| ==> tail[..n][..n] == tail[..n] && tail[..n][n..] == [];
  }

  lemma DecodeMore(bs: seq<byte>, n: nat, rest: seq<byte>)
    requires DecodeCompact(bs) == Ok(n, [])
    ensures DecodeCompact(bs + rest) == Ok(n, rest)
  {
    hide FromLittleEndian;
    var tail := bs[1..];
    assert (bs + rest)[1..] == tail + rest;
    assert (tail + rest)[..|tail|] == tail && (tail + rest)[|tail|..] == rest;
    assert tail[..|tail|] == tail;
  }

  /** The rest of the stream, and the bytes before it. */
  predicate Leaves(input: seq<byte>, rest: seq<byte>) {
    |rest| <= |input| && input[|input| - |rest|..] == rest
  }

  function Taken(input: seq<byte>, rest: seq<byte>): seq<byte>
    requires Leaves(input, rest)
  {
    input[..|input| - |rest|]
  }

  /** The decoder of compact integers accepts exactly the readable forms. */
  lemma CompactReadExactly(input: seq<byte>, n: nat, rest: seq<byte>)
    ensures DecodeCompact(input) == Ok(n, rest) <==>
      Leaves(input, rest) && CompactForm(Taken(input, rest), n, Readable)
  {
    hide DecodeCompact, CompactForm;
    if DecodeCompact(input) == Ok(n, rest) {
      DecodePrefix(input);
      CompactFormIs(Taken(input, rest), n);
    }
    if Leaves(input, rest) && CompactForm(Taken(input, rest), n, Readable) {
      CompactFormIs(Taken(input, rest), n);
      DecodeMore(Taken(input, rest), n, rest);
      assert Taken(input, rest) + rest == input;
    }
  }

  /** The encoder of compact integers writes exactly the written form. */
  lemma CompactWrittenExactly(n: nat, bs: seq<byte>)
    ensures EncodeCompact(n) == Bytes(bs) <==> CompactForm(bs, n, AsWritten)
  {
    CompactFormIs(bs, n);
    if EncodeCompact(n) == Bytes(bs) {
      CompactRoundTrip(n, []);
      assert bs + [] == bs;
    }
    hide EncodeCompact, DecodeCompact;
    if DecodeCompact(bs) == Ok(n, []) {
      assert bs != [] by {
        assert CompactForm(bs, n, Readable);
      }
      CanonicalExactly(bs, n);
    }
  }

  // ------------------------------------------------------------------ values

  /** The bytes are a form of the value at the type. */
  ghost predicate Form(ty: Ty, v: Val, bs: seq<byte>, how: How)
    decreases ty, 2
  {
    match ty
    case TBool => v.VBool? && |bs| == 1 && (v.b <==> bs[0] != 0) && (how.AsWritten? ==> bs[0] <= 1)
    case TUint(w) => v.VUint? && v.width == w && |bs| == w && Number(bs, v.n)
    case TInt(w) => v.VInt? && v.width == w && |bs| == w && SignedNumber(bs, v.i)
    case TCompact => v.VCompact? && v.i >= 0 && CompactForm(bs, v.i, how)
    case TBigUint(w) => v.VBigUint? && v.width == w && |bs| == w && v.i >= 0 && Number(bs, v.i)
    case TBigInt(w) => v.VBigInt? && v.width == w && |bs| == w && SignedNumber(bs, v.i)
    case TString => v.VString? && exists k: nat :: LengthForm(bs, k, |v.bytes|, how) && bs[k..] == v.bytes
    case TArray(n, e) => v.VArray? && |v.items| == n && ItemsForm(e, v.items, bs, how)
    case TSlice(e) =>
      v.VSlice? && exists k: nat :: LengthForm(bs, k, |v.items|, how) && ItemsForm(e, v.items, bs[k..], how)
    case TStruct(tys) => v.VStruct? && FieldsForm(tys, v.items, bs, how)
    case TOption(e) =>
      || (v == VNone && (bs == [0] || (bs == [] && how.AtEnd?)))
      || (v.VSome? && bs != [] && bs[0] == 1 && Form(e, v.value, bs[1..], how))
    case TOptionBool =>
      || (v == VOptionBool(false, false) && (bs == [0] || (bs == [] && how.AtEnd?)))
      || (v == VOptionBool(true, true) && bs == [1])
      || (v == VOptionBool(true, false) && bs == [2])
    case TAny => false
  }

  /** The first `k` bytes are the length of a collection. */
  ghost predicate LengthForm(bs: seq<byte>, k: nat, len: nat, how: How) {
    k <= |bs| &&
    if how.AsWritten? then len < 0x1_0000_0000 && CompactForm(bs[..k], len, how) else ReadLength(bs[..k], len)
  }

  /** A reader goes by the low 64 bits, and takes no more than 2^32 - 1 elements. */
  ghost predicate ReadLength(bs: seq<byte>, len: nat) {
    len < 0x1_0000_0000 && exists n: nat :: CompactForm(bs, n, Readable) && n % 0x1_0000_0000_0000_0000 == len
  }

  /** What comes before something else is not at the end. */
  function Before(how: How, more: seq<byte>): How {
    if how.AtEnd? && more != [] then Readable else how
  }

  /** Elements one after the other. */
  ghost predicate ItemsForm(e: Ty, vs: seq<Val>, bs: seq<byte>, how: How)
    decreases e, 3, |vs|
  {
    if vs == [] then bs == [] else exists k: nat :: FirstItem(e, vs, bs, k, how)
  }

  ghost predicate FirstItem(e: Ty, vs: seq<Val>, bs: seq<byte>, k: nat, how: How)
    requires vs != []
    decreases e, 3, |vs|, 0
  {
    k <= |bs| && Form(e, vs[0], bs[..k], Before(how, bs[k..])) && ItemsForm(e, vs[1..], bs[k..], how)
  }

  ghost predicate FieldsForm(tys: seq<Ty>, vs: seq<Val>, bs: seq<byte>, how: How)
    decreases tys, 1
  {
    |vs| == |tys| && if tys == [] then bs == [] else exists k: nat :: FirstField(tys, vs, bs, k, how)
  }

  ghost predicate FirstField(tys: seq<Ty>, vs: seq<Val>, bs: seq<byte>, k: nat, how: How)
    requires |vs| == |tys| && tys != []
    decreases tys, 0
  {
    k <= |bs| && Form(tys[0], vs[0], bs[..k], Before(how, bs[k..])) && FieldsForm(tys[1..], vs[1..], bs[k..], how)
  }

  // ------------------------------------------------------------------ the decoder

  lemma SignedIs(bs: seq<byte>, i: int)
    ensures SignedNumber(bs, i) <==> Signed(bs) == i
  {
    var p, n := Pow256(|bs|), FromLittleEndian(bs);
    FromLittleEndianBound(bs);
    assert p == if bs == [] then 1 else 2 * MaxNeg(|bs|);
    hide FromLittleEndian, Number, Pow256;
    if 0 <= 2 * i + p && 2 * i < p {
      NumberIs(bs, if i < 0 then i + p else i);
    }
  }

  lemma BigSignedIs(bs: seq<byte>)
    ensures FromIntBytes(Reversed(bs)).GetOr(0) == Signed(bs)
  {
    ReversedTwice(bs);
    if bs != [] {
      var b := Reversed(bs);
      hide FromLittleEndian, Reversed;
      SignBit(b);
      SetBytesComplement(b);
    }
  }

  lemma FixedForm(ty: Ty, v: Val, bs: seq<byte>, how: How)
    requires Fixed(ty) && !how.AsWritten?
    ensures Form(ty, v, bs, how) <==> |bs| == FixedWidth(ty) && Interpret(ty, bs) == v
  {
    hide FromLittleEndian, Number, SignedNumber, Signed, FromIntBytes;
    match ty
    case TBool =>
    case TUint(w) => if v.VUint? { NumberIs(bs, v.n); }
    case TInt(w) => if v.VInt? { SignedIs(bs, v.i); }
    case TBigUint(w) =>
      ReversedTwice(bs);
      if v.VBigUint? && v.i >= 0 { NumberIs(bs, v.i); }
    case TBigInt(w) =>
      BigSignedIs(bs);
      if v.VBigInt? { SignedIs(bs, v.i); }
  }

  /** How the bytes before `rest` are taken. */
  function Ending(rest: seq<byte>): How {
    if rest == [] then AtEnd else Readable
  }

  /** A form is taken this way: at the end only if nothing follows. */
  predicate Fits(how: How, rest: seq<byte>) {
    how.Readable? || (how.AtEnd? && rest == [])
  }

  lemma Split(input: seq<byte>, mid: seq<byte>, rest: seq<byte>)
    requires Leaves(input, mid) && Leaves(mid, rest)
    ensures Leaves(input, rest)
    ensures var k, bs := |input| - |mid|, Taken(input, rest);
      k <= |bs| && bs[..k] == Taken(input, mid) && bs[k..] == Taken(mid, rest)
    ensures Before(Ending(rest), Taken(mid, rest)) == Ending(mid)
  {
  }

  lemma LengthExactly(input: seq<byte>, len: nat, rest: seq<byte>)
    ensures DecodeLength(input) == Decoded(len, rest) <==> Leaves(input, rest) && ReadLength(Taken(input, rest), len)
  {
    hide DecodeCompact, CompactForm;
    var r := DecodeCompact(input);
    if r.Ok? {
      CompactReadExactly(input, r.value, r.rest);
    }
    if Leaves(input, rest) && ReadLength(Taken(input, rest), len) {
      var n: nat :| CompactForm(Taken(input, rest), n, Readable) && n % 0x1_0000_0000_0000_0000 == len;
      CompactReadExactly(input, n, rest);
    }
  }

  /** What was decoded is a form. */
  lemma {:induction false} DecodedIsForm(ty: Ty, input: seq<byte>)
    requires Decode(ty, input).Decoded?
    ensures var r := Decode(ty, input); Leaves(input, r.rest) && Form(ty, r.value, Taken(input, r.rest), Ending(r.rest))
    decreases ty, 2
  {
    hide Decode, Form, Taken, Leaves;
    match ty
    case TArray(n, e) => DecodedArrayForm(n, e, input);
    case TSlice(e) => DecodedSliceForm(e, input);
    case TStruct(tys) => DecodedStructForm(tys, input);
    case TOption(e) => DecodedOptionForm(e, input);
    case _ => DecodedLeafForm(ty, input);
  }

  lemma {:induction false} DecodedArrayForm(n: nat, e: Ty, input: seq<byte>)
    requires Decode(TArray(n, e), input).Decoded?
    ensures var r := Decode(TArray(n, e), input);
      Leaves(input, r.rest) && Form(TArray(n, e), r.value, Taken(input, r.rest), Ending(r.rest))
    decreases e, 4
  {
    hide DecodeItems, ItemsForm;
    DecodedItemsForm(e, n, input);
  }

  lemma {:induction false} DecodedSliceForm(e: Ty, input: seq<byte>)
    requires Decode(TSlice(e), input).Decoded?
    ensures var r := Decode(TSlice(e), input);
      Leaves(input, r.rest) && Form(TSlice(e), r.value, Taken(input, r.rest), Ending(r.rest))
    decreases e, 4
  {
    hide DecodeLength, DecodeItems, LengthForm, ItemsForm, Taken;
    var len := DecodeLength(input);
    DecodedItemsForm(e, len.value, len.rest);
    LengthThen(input, len.value, len.rest, DecodeItems(e, len.value, len.rest).rest);
  }

  lemma {:induction false} DecodedStructForm(tys: seq<Ty>, input: seq<byte>)
    requires Decode(TStruct(tys), input).Decoded?
    ensures var r := Decode(TStruct(tys), input);
      Leaves(input, r.rest) && Form(TStruct(tys), r.value, Taken(input, r.rest), Ending(r.rest))
    decreases tys, 1
  {
    hide DecodeFields, FieldsForm;
    DecodedFieldsForm(tys, input);
  }

  lemma {:induction false} DecodedOptionForm(e: Ty, input: seq<byte>)
    requires Decode(TOption(e), input).Decoded?
    ensures var r := Decode(TOption(e), input);
      Leaves(input, r.rest) && Form(TOption(e), r.value, Taken(input, r.rest), Ending(r.rest))
    decreases e, 4
  {
    OptionStep(e, input);
    hide Decode, Form, Taken;
    if input != [] && input[0] == 1 {
      DecodedIsForm(e, input[1..]);
      SomeForm(e, input, Decode(e, input[1..]).value, Decode(e, input[1..]).rest);
    } else {
      NoneForm(e, input);
    }
  }

  lemma OptionStep(e: Ty, input: seq<byte>)
    ensures input == [] ==> Decode(TOption(e), input) == Decoded(VNone, [])
    ensures input != [] && input[0] == 0 ==> Decode(TOption(e), input) == Decoded(VNone, input[1..])
    ensures input != [] && input[0] == 1 ==> Decode(TOption(e), input) == AsSome(Decode(e, input[1..]))
    ensures input != [] && input[0] > 1 ==> Decode(TOption(e), input).Failed?
  {
  }

  lemma SomeForm(e: Ty, input: seq<byte>, v: Val, rest: seq<byte>)
    requires input != [] && input[0] == 1 && Leaves(input[1..], rest)
    requires Form(e, v, Taken(input[1..], rest), Ending(rest))
    ensures Leaves(input, rest) && Form(TOption(e), VSome(v), Taken(input, rest), Ending(rest))
  {
    TagThen(input, rest);
    assert Taken(input, rest)[1..] == Taken(input[1..], rest);
  }

  lemma NoneForm(e: Ty, input: seq<byte>)
    requires input == [] || input[0] == 0
    ensures var rest := if input == [] then [] else input[1..];
      Leaves(input, rest) && Form(TOption(e), VNone, Taken(input, rest), Ending(rest))
  {
  }

  lemma DecodedLeafForm(ty: Ty, input: seq<byte>)
    requires Decode(ty, input).Decoded? && !ty.TArray? && !ty.TSlice? && !ty.TStruct? && !ty.TOption?
    ensures var r := Decode(ty, input); Leaves(input, r.rest) && Form(ty, r.value, Taken(input, r.rest), Ending(r.rest))
  {
    hide DecodeLength, DecodeCompact, LengthForm, CompactForm, DecodeFixed;
    var r := Decode(ty, input);
    match ty
    case TCompact =>
      CompactReadExactly(input, r.value.i, r.rest);
      CompactRead(Taken(input, r.rest), r.value.i, Ending(r.rest));
    case TString =>
      var mid := DecodeLength(input).rest;
      assert Taken(mid, r.rest) == r.value.bytes;
      LengthThen(input, DecodeLength(input).value, mid, r.rest);
    case TOptionBool => TagThen(input, r.rest);
    case TAny =>
    case _ =>
      hide Form;
      DecodedFixedForm(ty, input);
  }

  lemma DecodedFixedForm(ty: Ty, input: seq<byte>)
    requires Fixed(ty) && DecodeFixed(ty, input).Decoded?
    ensures var r := DecodeFixed(ty, input);
      Leaves(input, r.rest) && Form(ty, r.value, Taken(input, r.rest), Ending(r.rest))
  {
    hide Interpret, Form;
    var r := DecodeFixed(ty, input);
    FixedForm(ty, r.value, input[..FixedWidth(ty)], Ending(r.rest));
  }

  /** A length and what follows it. */
  lemma LengthThen(input: seq<byte>, len: nat, mid: seq<byte>, rest: seq<byte>)
    requires DecodeLength(input) == Decoded(len, mid) && Leaves(mid, rest)
    ensures Leaves(input, rest) && Leaves(input, mid)
    ensures var k, bs := |input| - |mid|, Taken(input, rest);
      k <= |bs| && LengthForm(bs, k, len, Ending(rest)) && bs[k..] == Taken(mid, rest)
  {
    hide DecodeLength, ReadLength;
    LengthExactly(input, len, mid);
    Split(input, mid, rest);
  }

  /** A tag byte and what follows it. */
  lemma TagThen(input: seq<byte>, rest: seq<byte>)
    requires Leaves(if input == [] then [] else input[1..], rest)
    ensures Leaves(input, rest)
    ensures input == [] ==> Taken(input, rest) == []
    ensures input != [] ==> Taken(input, rest) == [input[0]] + Taken(input[1..], rest)
  {
  }

  lemma {:induction false} DecodedItemsForm(e: Ty, n: nat, input: seq<byte>)
    requires DecodeItems(e, n, input).Decoded?
    ensures var r := DecodeItems(e, n, input);
      |r.value| == n && Leaves(input, r.rest) && ItemsForm(e, r.value, Taken(input, r.rest), Ending(r.rest))
    decreases e, 3, n
  {
    hide Decode, Form;
    if n > 0 {
      var r, head := DecodeItems(e, n, input), Decode(e, input);
      DecodedIsForm(e, input);
      DecodedItemsForm(e, n - 1, head.rest);
      Split(input, head.rest, r.rest);
      assert r.value[1..] == DecodeItems(e, n - 1, head.rest).value;
      assert FirstItem(e, r.value, Taken(input, r.rest), |input| - |head.rest|, Ending(r.rest));
    }
  }

  lemma {:induction false} DecodedFieldsForm(tys: seq<Ty>, input: seq<byte>)
    requires DecodeFields(tys, input).Decoded?
    ensures var r := DecodeFields(tys, input);
      |r.value| == |tys| && Leaves(input, r.rest) && FieldsForm(tys, r.value, Taken(input, r.rest), Ending(r.rest))
    decreases tys, 0
  {
    hide Decode, Form;
    if tys != [] {
      var r, head := DecodeFields(tys, input), Decode(tys[0], input);
      DecodedIsForm(tys[0], input);
      DecodedFieldsForm(tys[1..], head.rest);
      Split(input, head.rest, r.rest);
      assert r.value[1..] == DecodeFields(tys[1..], head.rest).value;
      assert FirstField(tys, r.value, Taken(input, r.rest), |input| - |head.rest|, Ending(r.rest));
    }
  }

  /** A form is decoded. */
  lemma {:induction false} FormIsDecoded(ty: Ty, v: Val, bs: seq<byte>, how: How, rest: seq<byte>)
    requires Form(ty, v, bs, how) && Fits(how, rest)
    ensures Decode(ty, bs + rest) == Decoded(v, rest)
    decreases ty, 2
  {
    hide DecodeLength, DecodeItems, DecodeFields, DecodeFixed, DecodeLeaf;
    hide ReadLength, CompactForm, Number, SignedNumber, ItemsForm, FieldsForm;
    match ty
    case TArray(n, e) => FormItemsDecoded(e, v.items, bs, how, rest);
    case TSlice(e) =>
      var k: nat :| LengthForm(bs, k, |v.items|, how) && ItemsForm(e, v.items, bs[k..], how);
      LengthRead(bs, k, |v.items|, how, rest);
      FormItemsDecoded(e, v.items, bs[k..], how, rest);
    case TStruct(tys) => FormFieldsDecoded(tys, v.items, bs, how, rest);
    case TOption(e) =>
      assert bs != [] ==> (bs + rest)[1..] == bs[1..] + rest;
      if v.VSome? {
        FormIsDecoded(e, v.value, bs[1..], how, rest);
      }
    case TCompact => FormLeafDecoded(ty, v, bs, how, rest);
    case TString => FormLeafDecoded(ty, v, bs, how, rest);
    case TOptionBool => FormLeafDecoded(ty, v, bs, how, rest);
    case TAny =>
    case _ => FormFixedDecoded(ty, v, bs, how, rest);
  }

  lemma FormLeafDecoded(ty: Ty, v: Val, bs: seq<byte>, how: How, rest: seq<byte>)
    requires Form(ty, v, bs, how) && Fits(how, rest) && (ty.TCompact? || ty.TString? || ty.TOptionBool?)
    ensures DecodeLeaf(ty, bs + rest) == Decoded(v, rest)
  {
    hide DecodeLength, DecodeCompact, ReadLength, CompactForm;
    match ty
    case TCompact =>
      assert Taken(bs + rest, rest) == bs;
      CompactRead(bs, v.i, how);
      CompactReadExactly(bs + rest, v.i, rest);
    case TString =>
      var k: nat :| LengthForm(bs, k, |v.bytes|, how) && bs[k..] == v.bytes;
      LengthRead(bs, k, |v.bytes|, how, rest);
      ReadBack(v.bytes, rest);
    case TOptionBool => assert bs != [] ==> (bs + rest)[1..] == bs[1..] + rest;
  }

  lemma FormFixedDecoded(ty: Ty, v: Val, bs: seq<byte>, how: How, rest: seq<byte>)
    requires Form(ty, v, bs, how) && Fits(how, rest) && Fixed(ty)
    ensures DecodeFixed(ty, bs + rest) == Decoded(v, rest)
  {
    hide Interpret, Form;
    FixedForm(ty, v, bs, how);
    ReadBack(bs, rest);
  }

  lemma LengthRead(bs: seq<byte>, k: nat, len: nat, how: How, rest: seq<byte>)
    requires LengthForm(bs, k, len, how) && !how.AsWritten?
    ensures k <= |bs| && DecodeLength(bs + rest) == Decoded(len, bs[k..] + rest)
  {
    hide DecodeLength, ReadLength;
    assert Taken(bs + rest, bs[k..] + rest) == bs[..k];
    LengthExactly(bs + rest, len, bs[k..] + rest);
  }

  lemma {:induction false} FormItemsDecoded(e: Ty, vs: seq<Val>, bs: seq<byte>, how: How, rest: seq<byte>)
    requires ItemsForm(e, vs, bs, how) && Fits(how, rest)
    ensures DecodeItems(e, |vs|, bs + rest) == Decoded(vs, rest)
    decreases e, 3, |vs|
  {
    hide Decode, Form;
    if vs == [] {
      assert bs + rest == rest;
    } else {
      var k: nat :| FirstItem(e, vs, bs, k, how);
      assert bs[..k] + (bs[k..] + rest) == bs + rest;
      FormIsDecoded(e, vs[0], bs[..k], Before(how, bs[k..]), bs[k..] + rest);
      FormItemsDecoded(e, vs[1..], bs[k..], how, rest);
      assert [vs[0]] + vs[1..] == vs;
    }
  }

  lemma {:induction false} FormFieldsDecoded(tys: seq<Ty>, vs: seq<Val>, bs: seq<byte>, how: How, rest: seq<byte>)
    requires FieldsForm(tys, vs, bs, how) && Fits(how, rest)
    ensures DecodeFields(tys, bs + rest) == Decoded(vs, rest)
    decreases tys, 0
  {
    hide Decode, Form;
    if tys == [] {
      assert bs + rest == rest;
    } else {
      var k: nat :| FirstField(tys, vs, bs, k, how);
      assert bs[..k] + (bs[k..] + rest) == bs + rest;
      FormIsDecoded(tys[0], vs[0], bs[..k], Before(how, bs[k..]), bs[k..] + rest);
      FormFieldsDecoded(tys[1..], vs[1..], bs[k..], how, rest);
      assert [vs[0]] + vs[1..] == vs;
    }
  }

  /** The decoder gives a value exactly when the bytes before the rest are a form of it. */
  lemma DecodeExactly(ty: Ty, input: seq<byte>, v: Val, rest: seq<byte>)
    ensures Decode(ty, input) == Decoded(v, rest) <==>
      Leaves(input, rest) && Form(ty, v, Taken(input, rest), Ending(rest))
  {
    hide Decode, Form;
    if Decode(ty, input) == Decoded(v, rest) {
      DecodedIsForm(ty, input);
    }
    if Leaves(input, rest) && Form(ty, v, Taken(input, rest), Ending(rest)) {
      FormIsDecoded(ty, v, Taken(input, rest), Ending(rest), rest);
      assert Taken(input, rest) + rest == input;
    }
  }

  // ------------------------------------------------------------------ the encoder

  lemma UnsignedWritten(n: nat, w: nat, bs: seq<byte>)
    requires n < Pow256(w)
    ensures LittleEndian(n, w) == bs <==> |bs| == w && Number(bs, n)
  {
    NumberIs(bs, n);
    LittleEndianRoundTrip(n, w);
    if |bs| == w {
      FromLittleEndianRoundTrip(bs);
    }
  }

  lemma SignedWritten(i: int, w: nat, bs: seq<byte>)
    requires w > 0 && -MaxNeg(w) <= i < MaxNeg(w)
    ensures LittleEndian(i % Pow256(w), w) == bs <==> |bs| == w && SignedNumber(bs, i)
  {
    HalfRange(w);
    hide LittleEndian, Number, Pow256, MaxNeg;
    Residue(i, Pow256(w));
    ResidueWritten(i, i % Pow256(w), w, bs);
  }

  lemma ResidueWritten(i: int, n: nat, w: nat, bs: seq<byte>)
    requires 0 <= 2 * i + Pow256(w) && 2 * i < Pow256(w) && n == if i < 0 then i + Pow256(w) else i
    ensures LittleEndian(n, w) == bs <==> |bs| == w && SignedNumber(bs, i)
  {
    hide LittleEndian, Number, Pow256;
    UnsignedWritten(n, w, bs);
  }

  lemma BigUnsignedWritten(i: int, w: nat, bs: seq<byte>)
    ensures EncodeBigUint(i, w) == Bytes(bs) <==> |bs| == w && i >= 0 && Number(bs, i)
  {
    hide LittleEndian, Number, Pow256;
    if 0 <= i < Pow256(w) {
      ReversedTwice(LittleEndian(i, w));
      UnsignedWritten(i, w, bs);
    } else if i >= 0 && |bs| == w {
      assert Number(bs, i) ==> i < Pow256(w) by {
        NumberIs(bs, i);
        FromLittleEndianBound(bs);
      }
    }
  }

  lemma BigSignedWritten(i: int, w: nat, bs: seq<byte>)
    requires w > 0
    ensures EncodeBigInt(i, w) == Bytes(bs) <==> |bs| == w && SignedNumber(bs, i)
  {
    SignedIs(bs, i);
    BigSignedIs(bs);
    ReversedTwice(bs);
    hide SignedNumber, Signed, ToIntBytes, FromIntBytes, Reversed;
    if EncodeBigInt(i, w) == Bytes(bs) {
      ReversedTwice(ToIntBytes(i, w).value);
      IntBytesRoundTrip(i, w);
      assert |bs| == w;
    }
    if |bs| == w && SignedNumber(bs, i) {
      FromIntBytesRoundTrip(Reversed(bs));
    }
  }

  lemma LengthWritten(n: nat, bs: seq<byte>)
    ensures EncodeLength(n) == Bytes(bs) <==> n < 0x1_0000_0000 && CompactForm(bs, n, AsWritten)
  {
    CompactWrittenExactly(n, bs);
  }

  /** Two writes in a row. */
  lemma ThenExactly(a: Written, b: Written, bs: seq<byte>)
    ensures Then(a, b) == Bytes(bs) <==> exists k: nat :: k <= |bs| && a == Bytes(bs[..k]) && b == Bytes(bs[k..])
  {
    if Then(a, b) == Bytes(bs) {
      assert bs[..|a.bytes|] == a.bytes && bs[|a.bytes|..] == b.bytes;
    }
    forall k: nat | k <= |bs| && a == Bytes(bs[..k]) && b == Bytes(bs[k..])
      ensures Then(a, b) == Bytes(bs)
    {
      assert bs[..k] + bs[k..] == bs;
    }
  }

  /** The encoder writes exactly the written form of a value. */
  lemma {:induction false} EncodeExactly(ty: Ty, v: Val, bs: seq<byte>)
    requires HasType(v, ty)
    ensures Encode(v) == Bytes(bs) <==> Form(ty, v, bs, AsWritten)
    decreases ty, 2
  {
    hide EncodeCompact, EncodeLength, EncodeBigUint, EncodeBigInt, CompactForm, Number, SignedNumber, LittleEndian;
    hide ItemsForm, FieldsForm, EncodeItems, Pow256;
    match ty
    case TBool => assert |bs| == 1 ==> bs == [bs[0]];
    case TUint(w) => UnsignedWritten(v.n, w, bs);
    case TInt(w) => SignedWritten(v.i, w, bs);
    case TCompact => CompactOrRefused(v.i, bs);
    case TBigUint(w) => BigUnsignedWritten(v.i, w, bs);
    case TBigInt(w) => BigSignedWritten(v.i, w, bs);
    case TString => StringWritten(v.bytes, bs);
    case TArray(n, e) => ItemsWritten(e, v.items, bs);
    case TSlice(e) => SliceWritten(e, v.items, bs);
    case TStruct(tys) => FieldsWritten(tys, v.items, bs);
    case TOption(e) =>
      if v.VSome? {
        if bs != [] {
          assert bs == [bs[0]] + bs[1..];
          EncodeExactly(e, v.value, bs[1..]);
        }
        assert Then(Bytes([1]), Encode(v.value)) == Bytes(bs) ==> bs[1..] == Encode(v.value).bytes;
      }
    case TOptionBool =>
  }

  lemma CompactOrRefused(i: int, bs: seq<byte>)
    ensures EncodeCompact(i) == Bytes(bs) <==> i >= 0 && CompactForm(bs, i, AsWritten)
  {
    if i >= 0 {
      CompactWrittenExactly(i, bs);
    }
  }

  lemma StringWritten(chars: seq<byte>, bs: seq<byte>)
    ensures Encode(VString(chars)) == Bytes(bs) <==>
      exists k: nat :: LengthForm(bs, k, |chars|, AsWritten) && bs[k..] == chars
  {
    hide EncodeLength, CompactForm;
    ThenExactly(EncodeLength(|chars|), Bytes(chars), bs);
    forall k: nat | k <= |bs|
      ensures LengthForm(bs, k, |chars|, AsWritten) <==> EncodeLength(|chars|) == Bytes(bs[..k])
    {
      LengthWritten(|chars|, bs[..k]);
    }
  }

  lemma {:induction false} SliceWritten(e: Ty, vs: seq<Val>, bs: seq<byte>)
    requires AllHaveType(vs, e)
    ensures Encode(VSlice(vs)) == Bytes(bs) <==>
      exists k: nat :: LengthForm(bs, k, |vs|, AsWritten) && ItemsForm(e, vs, bs[k..], AsWritten)
    decreases e, 4
  {
    hide EncodeLength, CompactForm, ItemsForm, EncodeItems;
    ThenExactly(EncodeLength(|vs|), EncodeItems(vs), bs);
    forall k: nat | k <= |bs|
      ensures LengthForm(bs, k, |vs|, AsWritten) <==> EncodeLength(|vs|) == Bytes(bs[..k])
      ensures ItemsForm(e, vs, bs[k..], AsWritten) <==> EncodeItems(vs) == Bytes(bs[k..])
    {
      LengthWritten(|vs|, bs[..k]);
      ItemsWritten(e, vs, bs[k..]);
    }
  }

  lemma {:induction false} ItemsWritten(e: Ty, vs: seq<Val>, bs: seq<byte>)
    requires AllHaveType(vs, e)
    ensures EncodeItems(vs) == Bytes(bs) <==> ItemsForm(e, vs, bs, AsWritten)
    decreases e, 3, |vs|
  {
    hide Encode, Form, HasType;
    if vs != [] {
      ThenExactly(Encode(vs[0]), EncodeItems(vs[1..]), bs);
      forall k: nat | k <= |bs|
        ensures FirstItem(e, vs, bs, k, AsWritten) <==>
          Encode(vs[0]) == Bytes(bs[..k]) && EncodeItems(vs[1..]) == Bytes(bs[k..])
      {
        EncodeExactly(e, vs[0], bs[..k]);
        ItemsWritten(e, vs[1..], bs[k..]);
      }
    }
  }

  lemma {:induction false} FieldsWritten(tys: seq<Ty>, vs: seq<Val>, bs: seq<byte>)
    requires FieldsHaveTypes(vs, tys)
    ensures EncodeItems(vs) == Bytes(bs) <==> FieldsForm(tys, vs, bs, AsWritten)
    decreases tys, 0
  {
    hide Encode, Form, HasType;
    if tys != [] {
      ThenExactly(Encode(vs[0]), EncodeItems(vs[1..]), bs);
      forall k: nat | k <= |bs|
        ensures FirstField(tys, vs, bs, k, AsWritten) <==>
          Encode(vs[0]) == Bytes(bs[..k]) && EncodeItems(vs[1..]) == Bytes(bs[k..])
      {
        EncodeExactly(tys[0], vs[0], bs[..k]);
        FieldsWritten(tys[1..], vs[1..], bs[k..]);
      }
    }
  }
}

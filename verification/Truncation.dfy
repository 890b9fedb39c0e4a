/** What decoding makes of an encoding that was cut short. */
module Truncation {
  import opened Bytes
  import opened Compact
  import opened Scale

  /** No option and no `OptionBool` anywhere in the type: these take the end of the stream for a
      zero byte. */
  predicate NoOptions(ty: Ty)
    decreases ty
  {
    match ty
    case TArray(_, e) => NoOptions(e)
    case TSlice(e) => NoOptions(e)
    case TStruct(tys) => forall i :: 0 <= i < |tys| ==> NoOptions(tys[i])
    case TOption(_) => false
    case TOptionBool => false
    case _ => true
  }

  lemma ReadExtends(input: seq<byte>, n: nat, more: seq<byte>)
    requires ReadBytes(input, n).Ok?
    ensures var r := ReadBytes(input, n); ReadBytes(input + more, n) == Ok(r.value, r.rest + more)
  {
    assert (input + more)[..n] == input[..n];
    assert (input + more)[n..] == input[n..] + more;
  }

  lemma CompactExtends(input: seq<byte>, more: seq<byte>)
    requires DecodeCompact(input).Ok?
    ensures var r := DecodeCompact(input); DecodeCompact(input + more) == Ok(r.value, r.rest + more)
  {
    hide FromLittleEndian, Pow256;
    var high, mode, tail := input[0] / 4, input[0] % 4, input[1..];
    assert (input + more)[1..] == tail + more && (input + more)[0] == input[0];
    if mode == 1 {
      assert (tail + more)[1..] == tail[1..] + more;
    } else if mode == 2 {
      ReadExtends(tail, 3, more);
    } else if mode == 3 {
      ReadExtends(tail, high + 4, more);
    }
  }

  lemma LengthExtends(input: seq<byte>, more: seq<byte>)
    requires DecodeLength(input).Decoded?
    ensures var r := DecodeLength(input); DecodeLength(input + more) == Decoded(r.value, r.rest + more)
  {
    hide DecodeCompact;
    CompactExtends(input, more);
  }

  /** A type without options reads no further than it must: bytes that follow what was decoded
      change neither the value nor where it ended. */
  lemma {:induction false} DecodeExtends(ty: Ty, input: seq<byte>, more: seq<byte>)
    requires NoOptions(ty) && Decode(ty, input).Decoded?
    ensures var r := Decode(ty, input); Decode(ty, input + more) == Decoded(r.value, r.rest + more)
    decreases ty, 2
  {
    hide DecodeCompact, DecodeLength, Interpret;
    match ty
    case TArray(n, e) => ItemsExtend(e, n, input, more);
    case TSlice(e) =>
      LengthExtends(input, more);
      var len := DecodeLength(input);
      ItemsExtend(e, len.value, len.rest, more);
    case TStruct(tys) => FieldsExtend(tys, input, more);
    case TCompact => CompactExtends(input, more);
    case TString =>
      LengthExtends(input, more);
      var len := DecodeLength(input);
      ReadExtends(len.rest, len.value, more);
    case TAny =>
    case TOption(_) =>
    case TOptionBool =>
    case _ => ReadExtends(input, FixedWidth(ty), more);
  }

  lemma {:induction false} ItemsExtend(e: Ty, n: nat, input: seq<byte>, more: seq<byte>)
    requires NoOptions(e) && DecodeItems(e, n, input).Decoded?
    ensures var r := DecodeItems(e, n, input); DecodeItems(e, n, input + more) == Decoded(r.value, r.rest + more)
    decreases e, 3, n
  {
    hide Decode;
    if n > 0 {
      DecodeExtends(e, input, more);
      ItemsExtend(e, n - 1, Decode(e, input).rest, more);
    }
  }

  lemma {:induction false} FieldsExtend(tys: seq<Ty>, input: seq<byte>, more: seq<byte>)
    requires (forall i :: 0 <= i < |tys| ==> NoOptions(tys[i])) && DecodeFields(tys, input).Decoded?
    ensures var r := DecodeFields(tys, input); DecodeFields(tys, input + more) == Decoded(r.value, r.rest + more)
    decreases tys, 0
  {
    hide Decode;
    if tys != [] {
      DecodeExtends(tys[0], input, more);
      FieldsExtend(tys[1..], Decode(tys[0], input).rest, more);
    }
  }

  /** An encoding of a type without options that was cut short is never decoded: every proper prefix
      gives an error or a panic. */
  lemma TruncatedIsRejected(v: Val, ty: Ty, kept: seq<byte>, lost: seq<byte>)
    requires HasType(v, ty) && Encode(v) == Bytes(kept + lost) && NoOptions(ty) && lost != []
    ensures !Decode(ty, kept).Decoded?
  {
    hide Decode, Encode, HasType;
    assert kept + lost + [] == kept + lost;
    RoundTrip(v, ty, []);
    if Decode(ty, kept).Decoded? {
      DecodeExtends(ty, kept, lost);
    }
  }

  // ------------------------------------------------------------------ truncated lengths

  /** Every proper prefix of a length makes reading it panic, on the nil number, and with it the
      decoding of a slice or string. */
  lemma TruncatedLengthPanics(n: nat, kept: seq<byte>, lost: seq<byte>)
    requires EncodeLength(n) == Bytes(kept + lost) && lost != []
    ensures DecodeLength(kept).Panicked?
    ensures Decode(TString, kept).Panicked? && forall e :: Decode(TSlice(e), kept).Panicked?
  {
    hide EncodeCompact;
    assert kept + lost + [] == kept + lost;
    CompactRoundTrip(n, []);
    if DecodeCompact(kept).Ok? {
      CompactExtends(kept, lost);
    }
  }

  // ------------------------------------------------------------------ which types can be cut

  /** The type has a value. */
  predicate Inhabited(ty: Ty)
    decreases ty, 1
  {
    match ty
    case TInt(w) => w > 0
    case TBigInt(w) => w > 0
    case TArray(n, e) => n == 0 || Inhabited(e)
    case TStruct(tys) => AllInhabited(tys)
    case TAny => false
    case _ => true
  }

  predicate AllInhabited(tys: seq<Ty>)
    decreases tys, 0
  {
    tys == [] || (Inhabited(tys[0]) && AllInhabited(tys[1..]))
  }

  /** The type is decoded from nothing at all. */
  predicate Empties(ty: Ty)
    decreases ty, 1
  {
    match ty
    case TArray(n, e) => n == 0 || Empties(e)
    case TStruct(tys) => AllEmpty(tys)
    case TOption(_) => true
    case TOptionBool => true
    case _ => Fixed(ty) && FixedWidth(ty) == 0
  }

  predicate AllEmpty(tys: seq<Ty>)
    decreases tys, 0
  {
    tys == [] || (Empties(tys[0]) && AllEmpty(tys[1..]))
  }

  /** An option or `OptionBool`; a non-empty array or a slice of such a type; a struct with such a field
      after which every field is decoded from nothing. */
  predicate Cuttable(ty: Ty)
    decreases ty, 1
  {
    match ty
    case TOption(_) => true
    case TOptionBool => true
    case TArray(n, e) => n > 0 && Cuttable(e)
    case TSlice(e) => Cuttable(e)
    case TStruct(tys) => SomeCuttable(tys)
    case _ => false
  }

  predicate SomeCuttable(tys: seq<Ty>)
    decreases tys, 0
  {
    tys != [] &&
    ((Cuttable(tys[0]) && AllEmpty(tys[1..]) && AllInhabited(tys[1..])) ||
     (Inhabited(tys[0]) && SomeCuttable(tys[1..])))
  }

  /** An encoding of a value of the type, cut short, that is decoded all the same. */
  predicate DecodedCut(ty: Ty, v: Val, kept: seq<byte>, lost: seq<byte>) {
    HasType(v, ty) && Encode(v) == Bytes(kept + lost) && lost != [] && Decode(ty, kept).Decoded?
  }

  // ------------------------------------------------------------------ from nothing

  /** `Empties` is what it says, and nothing is left of nothing. */
  lemma {:induction false} FromNothing(ty: Ty)
    ensures Empties(ty) <==> Decode(ty, []).Decoded?
    ensures Decode(ty, []).Decoded? ==> Decode(ty, []).rest == []
    decreases ty, 2
  {
    match ty
    case TArray(n, e) => ItemsFromNothing(e, n);
    case TStruct(tys) => FieldsFromNothing(tys);
    case _ =>
  }

  lemma {:induction false} ItemsFromNothing(e: Ty, n: nat)
    ensures n == 0 || Empties(e) <==> DecodeItems(e, n, []).Decoded?
    ensures DecodeItems(e, n, []).Decoded? ==> DecodeItems(e, n, []).rest == []
    decreases e, 3, n
  {
    hide Decode, Empties;
    if n > 0 {
      FromNothing(e);
      ItemsFromNothing(e, n - 1);
    }
  }

  lemma {:induction false} FieldsFromNothing(tys: seq<Ty>)
    ensures AllEmpty(tys) <==> DecodeFields(tys, []).Decoded?
    ensures DecodeFields(tys, []).Decoded? ==> DecodeFields(tys, []).rest == []
    decreases tys, 0
  {
    hide Decode, Empties;
    if tys != [] {
      FromNothing(tys[0]);
      FieldsFromNothing(tys[1..]);
    }
  }

  // ------------------------------------------------------------------ a cut that is decoded

  lemma {:induction false} TypedIsInhabited(v: Val, ty: Ty)
    requires HasType(v, ty)
    ensures Inhabited(ty)
    decreases ty, 1
  {
    match ty
    case TArray(n, e) =>
      if n > 0 {
        TypedIsInhabited(v.items[0], e);
      }
    case TStruct(tys) => TypedAreInhabited(v.items, tys);
    case _ =>
  }

  lemma {:induction false} TypedAreInhabited(vs: seq<Val>, tys: seq<Ty>)
    requires FieldsHaveTypes(vs, tys)
    ensures AllInhabited(tys)
    decreases tys, 0
  {
    if tys != [] {
      TypedIsInhabited(vs[0], tys[0]);
      TypedAreInhabited(vs[1..], tys[1..]);
    }
  }

  /** A proper prefix either keeps the first part whole or ends inside it. */
  lemma WhereCut(a: seq<byte>, b: seq<byte>, kept: seq<byte>, lost: seq<byte>)
    requires a + b == kept + lost && lost != []
    ensures |kept| >= |a| ==> kept == a + kept[|a|..] && b == kept[|a|..] + lost
    ensures |kept| < |a| ==> a == kept + a[|kept|..] && a[|kept|..] != []
  {
    if |kept| >= |a| {
      assert kept[..|a|] == (a + b)[..|a|] == a;
      assert (kept + lost)[|a|..] == kept[|a|..] + lost;
    } else {
      assert a[..|kept|] == (kept + lost)[..|kept|] == kept;
    }
  }

  /** A cut encoding that is decoded leaves nothing, and its type is one that can be cut. */
  lemma {:induction false} CutLeavesNothing(v: Val, ty: Ty, kept: seq<byte>, lost: seq<byte>)
    requires DecodedCut(ty, v, kept, lost)
    ensures Decode(ty, kept).rest == [] && Cuttable(ty)
    decreases ty, 2
  {
    hide EncodeCompact, DecodeCompact, EncodeLength, DecodeLength, EncodeItems, DecodeItems, DecodeFields, Interpret;
    match ty
    case TArray(n, e) => CutItems(v.items, e, kept, lost);
    case TSlice(e) =>
      var len, body := EncodeLength(|v.items|).bytes, EncodeItems(v.items).bytes;
      WhereCut(len, body, kept, lost);
      if |kept| < |len| {
        TruncatedLengthPanics(|v.items|, kept, len[|kept|..]);
      } else {
        LengthRoundTrip(|v.items|, kept[|len|..]);
        CutItems(v.items, e, kept[|len|..], lost);
      }
    case TStruct(tys) => CutFields(v.items, tys, kept, lost);
    case TOption(e) =>
      if kept != [] && v.VSome? {
        assert kept + lost == [1] + Encode(v.value).bytes;
        WhereCut([1], Encode(v.value).bytes, kept, lost);
        CutLeavesNothing(v.value, e, kept[1..], lost);
      }
    case TOptionBool =>
    case _ => TruncatedIsRejected(v, ty, kept, lost);
  }

  lemma {:induction false} CutItems(vs: seq<Val>, e: Ty, kept: seq<byte>, lost: seq<byte>)
    requires AllHaveType(vs, e) && EncodeItems(vs) == Bytes(kept + lost) && lost != []
    requires DecodeItems(e, |vs|, kept).Decoded?
    ensures DecodeItems(e, |vs|, kept).rest == [] && vs != [] && Cuttable(e)
    decreases e, 3, |vs|
  {
    hide Encode, Decode, HasType, Cuttable;
    if vs != [] {
      var head, tail := Encode(vs[0]).bytes, EncodeItems(vs[1..]).bytes;
      WhereCut(head, tail, kept, lost);
      if |kept| < |head| {
        CutLeavesNothing(vs[0], e, kept, head[|kept|..]);
        ItemsFromNothing(e, |vs| - 1);
      } else {
        RoundTrip(vs[0], e, kept[|head|..]);
        CutItems(vs[1..], e, kept[|head|..], lost);
      }
    }
  }

  lemma {:induction false} CutFields(vs: seq<Val>, tys: seq<Ty>, kept: seq<byte>, lost: seq<byte>)
    requires FieldsHaveTypes(vs, tys) && EncodeItems(vs) == Bytes(kept + lost) && lost != []
    requires DecodeFields(tys, kept).Decoded?
    ensures DecodeFields(tys, kept).rest == [] && SomeCuttable(tys)
    decreases tys, 0
  {
    hide Encode, Decode, HasType, Cuttable, Inhabited, Empties;
    if tys != [] {
      var head, tail := Encode(vs[0]).bytes, EncodeItems(vs[1..]).bytes;
      WhereCut(head, tail, kept, lost);
      if |kept| < |head| {
        CutLeavesNothing(vs[0], tys[0], kept, head[|kept|..]);
        FieldsFromNothing(tys[1..]);
        TypedAreInhabited(vs[1..], tys[1..]);
      } else {
        RoundTrip(vs[0], tys[0], kept[|head|..]);
        TypedIsInhabited(vs[0], tys[0]);
        CutFields(vs[1..], tys[1..], kept[|head|..], lost);
      }
    }
  }

  // ------------------------------------------------------------------ a witness

  /** Some value of an inhabited type that is encoded. */
  lemma {:induction false} SomeValue(ty: Ty) returns (v: Val)
    requires Inhabited(ty)
    ensures HasType(v, ty) && Encode(v).Bytes?
    decreases ty, 1
  {
    match ty
    case TBool => v := VBool(false);
    case TUint(w) => v := VUint(w, 0);
    case TInt(w) => v := VInt(w, 0);
    case TCompact => v := VCompact(0);
    case TBigUint(w) => v := VBigUint(w, 0);
    case TBigInt(w) => v := VBigInt(w, 0);
    case TString => v := VString([]);
    case TArray(n, e) =>
      var vs := SomeItems(e, n);
      v := VArray(vs);
    case TSlice(e) => v := VSlice([]);
    case TStruct(tys) =>
      var vs := SomeFields(tys);
      v := VStruct(vs);
    case TOption(e) => v := VNone;
    case TOptionBool => v := VOptionBool(false, false);
  }

  lemma {:induction false} SomeItems(e: Ty, n: nat) returns (vs: seq<Val>)
    requires n == 0 || Inhabited(e)
    ensures |vs| == n && AllHaveType(vs, e) && EncodeItems(vs).Bytes?
    decreases e, 2, n
  {
    hide Encode, HasType, Inhabited;
    vs := [];
    if n > 0 {
      var v := SomeValue(e);
      var rest := SomeItems(e, n - 1);
      vs := [v] + rest;
      assert vs[1..] == rest;
    }
  }

  lemma {:induction false} SomeFields(tys: seq<Ty>) returns (vs: seq<Val>)
    requires AllInhabited(tys)
    ensures FieldsHaveTypes(vs, tys) && EncodeItems(vs).Bytes?
    decreases tys, 0
  {
    hide Encode, HasType, Inhabited;
    vs := [];
    if tys != [] {
      var v := SomeValue(tys[0]);
      var rest := SomeFields(tys[1..]);
      vs := [v] + rest;
      assert vs[1..] == rest;
    }
  }

  lemma {:induction false} SomeCut(ty: Ty) returns (v: Val, kept: seq<byte>, lost: seq<byte>)
    requires Cuttable(ty)
    ensures DecodedCut(ty, v, kept, lost)
    decreases ty, 2
  {
    hide EncodeCompact, DecodeCompact, EncodeLength, DecodeLength, EncodeItems, DecodeItems, DecodeFields;
    match ty
    case TOption(_) =>
      v, kept, lost := VNone, [], [0];
    case TOptionBool =>
      v, kept, lost := VOptionBool(false, false), [], [0];
    case TArray(n, e) =>
      var vs;
      vs, kept, lost := SomeCutItems(e, n);
      v := VArray(vs);
    case TSlice(e) =>
      var vs, k, l := SomeCutItems(e, 1);
      ShortLengthsEncode(1);
      v := VSlice(vs);
      kept, lost := LengthOf(1) + k, l;
      LengthRoundTrip(1, k);
      assert Encode(v).bytes == LengthOf(1) + (k + l);
      assert LengthOf(1) + (k + l) == kept + lost;
    case TStruct(tys) =>
      var vs;
      vs, kept, lost := SomeCutFields(tys);
      v := VStruct(vs);
  }

  function LengthOf(n: nat): seq<byte> {
    if EncodeLength(n).Bytes? then EncodeLength(n).bytes else []
  }

  lemma {:induction false} SomeCutItems(e: Ty, n: nat) returns (vs: seq<Val>, kept: seq<byte>, lost: seq<byte>)
    requires n > 0 && Cuttable(e)
    ensures |vs| == n && AllHaveType(vs, e) && EncodeItems(vs) == Bytes(kept + lost) && lost != []
    ensures DecodeItems(e, n, kept).Decoded?
    decreases e, 3, n
  {
    hide Encode, Decode, HasType, Cuttable;
    var v, k, l := SomeCut(e);
    if n == 1 {
      vs, kept, lost := [v], k, l;
      assert vs[1..] == [];
      assert k + l + [] == k + l;
    } else {
      var rest, k', l' := SomeCutItems(e, n - 1);
      vs, kept, lost := [v] + rest, k + l + k', l';
      assert vs[1..] == rest;
      assert k + l + (k' + l') == kept + lost;
      RoundTrip(v, e, k');
    }
  }

  lemma {:induction false} SomeCutFields(tys: seq<Ty>) returns (vs: seq<Val>, kept: seq<byte>, lost: seq<byte>)
    requires SomeCuttable(tys)
    ensures FieldsHaveTypes(vs, tys) && EncodeItems(vs) == Bytes(kept + lost) && lost != []
    ensures DecodeFields(tys, kept).Decoded?
    decreases tys, 0
  {
    hide Encode, Decode, HasType, Cuttable, Inhabited, Empties;
    if Cuttable(tys[0]) && AllEmpty(tys[1..]) && AllInhabited(tys[1..]) {
      var v, k, l := SomeCut(tys[0]);
      var rest := SomeFields(tys[1..]);
      vs, kept, lost := [v] + rest, k, l + EncodeItems(rest).bytes;
      assert vs[1..] == rest;
      assert k + l + EncodeItems(rest).bytes == kept + lost;
      CutLeavesNothing(v, tys[0], k, l);
      FieldsFromNothing(tys[1..]);
    } else {
      var v := SomeValue(tys[0]);
      var rest, k, l := SomeCutFields(tys[1..]);
      vs, kept, lost := [v] + rest, Encode(v).bytes + k, l;
      assert vs[1..] == rest;
      assert Encode(v).bytes + (k + l) == kept + lost;
      RoundTrip(v, tys[0], k);
    }
  }

  /** The types of which some encoding, cut short, is decoded all the same are exactly these. */
  lemma CutIsDecodedExactly(ty: Ty)
    ensures Cuttable(ty) <==> exists v, kept, lost :: DecodedCut(ty, v, kept, lost)
  {
    hide Cuttable, DecodedCut;
    if Cuttable(ty) {
      var v, kept, lost := SomeCut(ty);
    }
    if exists v, kept, lost :: DecodedCut(ty, v, kept, lost) {
      var v, kept, lost :| DecodedCut(ty, v, kept, lost);
      CutLeavesNothing(v, ty, kept, lost);
    }
  }

  /** Where the option is matters: before a byte that must be there it is safe, after it it is not. */
  lemma OrderMatters()
    ensures !Cuttable(TStruct([TOption(TUint(1)), TUint(1)])) && Cuttable(TStruct([TUint(1), TOption(TUint(1))]))
  {
    var safe, unsafe := [TOption(TUint(1)), TUint(1)], [TUint(1), TOption(TUint(1))];
    assert safe[1..] == [TUint(1)] && unsafe[1..] == [TOption(TUint(1))];
    assert safe[1..][1..] == [] && unsafe[1..][1..] == [];
    assert !Empties(TUint(1)) && !Cuttable(TUint(1)) && Inhabited(TUint(1)) && !SomeCuttable([]);
    assert !AllEmpty(safe[1..]) && AllEmpty([]) && AllInhabited([]);
    assert Cuttable(TOption(TUint(1)));
    hide Cuttable, Empties, Inhabited;
    assert !SomeCuttable(safe[1..]) && SomeCuttable(unsafe[1..]);
    assert !SomeCuttable(safe) && SomeCuttable(unsafe);
    StructCuttable(safe);
    StructCuttable(unsafe);
  }

  lemma StructCuttable(tys: seq<Ty>)
    ensures Cuttable(TStruct(tys)) <==> SomeCuttable(tys)
  {
  }

  /** An option that held a value, cut to nothing, reads as none. */
  lemma TruncatedOptionIsNone(e: Ty, x: Val)
    requires HasType(x, e) && Encode(x).Bytes?
    ensures HasType(VSome(x), TOption(e)) && Encode(VSome(x)) == Bytes([1] + Encode(x).bytes)
    ensures Decode(TOption(e), []) == Decoded(VNone, [])
    ensures Encode(VOptionBool(true, true)) == Bytes([1])
    ensures Decode(TOptionBool, []) == Decoded(VOptionBool(false, false), [])
  {
  }
}

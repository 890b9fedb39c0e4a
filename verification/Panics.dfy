/** On which types some input makes decoding panic. */
module Panics {
  import opened Bytes
  import opened Compact
  import opened Scale

  /** Some input is decoded at the type. */
  predicate Decodable(ty: Ty)
    decreases ty, 1
  {
    match ty
    case TArray(n, e) => n == 0 || Decodable(e)
    case TStruct(tys) => AllDecodable(tys)
    case TAny => false
    case _ => true
  }

  predicate AllDecodable(tys: seq<Ty>)
    decreases tys, 0
  {
    tys == [] || (Decodable(tys[0]) && AllDecodable(tys[1..]))
  }

  /** There is a length to read: of a string or slice, which is not shut off by an empty array or by a
      field before it that is never decoded. */
  predicate ReadsLength(ty: Ty)
    decreases ty, 1
  {
    match ty
    case TString => true
    case TSlice(_) => true
    case TArray(n, e) => n > 0 && ReadsLength(e)
    case TOption(e) => ReadsLength(e)
    case TStruct(tys) => SomeReadsLength(tys)
    case _ => false
  }

  predicate SomeReadsLength(tys: seq<Ty>)
    decreases tys, 0
  {
    tys != [] && (ReadsLength(tys[0]) || (Decodable(tys[0]) && SomeReadsLength(tys[1..])))
  }

  // ------------------------------------------------------------------ a panic needs a length

  lemma {:induction false} DecodedIsDecodable(ty: Ty, input: seq<byte>)
    requires Decode(ty, input).Decoded?
    ensures Decodable(ty)
    decreases ty, 2
  {
    match ty
    case TArray(n, e) =>
      if n > 0 {
        DecodedIsDecodable(e, input);
      }
    case TStruct(tys) => DecodedAreDecodable(tys, input);
    case _ =>
  }

  lemma {:induction false} DecodedAreDecodable(tys: seq<Ty>, input: seq<byte>)
    requires DecodeFields(tys, input).Decoded?
    ensures AllDecodable(tys)
    decreases tys, 0
  {
    hide Decode;
    if tys != [] {
      DecodedIsDecodable(tys[0], input);
      DecodedAreDecodable(tys[1..], Decode(tys[0], input).rest);
    }
  }

  /** Whatever the input, only a type that reads a length panics. */
  lemma {:induction false} PanicReadsLength(ty: Ty, input: seq<byte>)
    requires Decode(ty, input).Panicked?
    ensures ReadsLength(ty)
    decreases ty, 2
  {
    hide DecodeCompact, DecodeLength, Interpret;
    match ty
    case TArray(n, e) => PanicInItems(e, n, input);
    case TStruct(tys) => PanicInFields(tys, input);
    case TOption(e) => PanicReadsLength(e, input[1..]);
    case _ =>
  }

  lemma {:induction false} PanicInItems(e: Ty, n: nat, input: seq<byte>)
    requires DecodeItems(e, n, input).Panicked?
    ensures n > 0 && ReadsLength(e)
    decreases e, 3, n
  {
    hide Decode, ReadsLength;
    var head := Decode(e, input);
    if head.Panicked? {
      PanicReadsLength(e, input);
    } else {
      PanicInItems(e, n - 1, head.rest);
    }
  }

  lemma {:induction false} PanicInFields(tys: seq<Ty>, input: seq<byte>)
    requires DecodeFields(tys, input).Panicked?
    ensures SomeReadsLength(tys)
    decreases tys, 0
  {
    hide Decode, ReadsLength, Decodable;
    var head := Decode(tys[0], input);
    if head.Panicked? {
      PanicReadsLength(tys[0], input);
    } else {
      DecodedIsDecodable(tys[0], input);
      PanicInFields(tys[1..], head.rest);
    }
  }

  // ------------------------------------------------------------------ an input that panics

  function Zeros(n: nat): (bs: seq<byte>)
    ensures |bs| == n
  {
    seq(n, _ => 0)
  }

  lemma ZeroIsDecoded(rest: seq<byte>)
    ensures DecodeCompact([0] + rest) == Ok(0, rest) && DecodeLength([0] + rest) == Decoded(0, rest)
  {
    DecodeFirst(0, 0, rest);
  }

  /** Bytes that are decoded at the type, whatever follows them. */
  lemma {:induction false} SomeInput(ty: Ty, rest: seq<byte>) returns (bs: seq<byte>)
    requires Decodable(ty)
    ensures Decode(ty, bs + rest).Decoded? && Decode(ty, bs + rest).rest == rest
    decreases ty, 2
  {
    hide DecodeCompact, DecodeLength, Interpret;
    if Fixed(ty) {
      bs := Zeros(FixedWidth(ty));
      ReadBack(bs, rest);
      return;
    }
    match ty
    case TArray(n, e) => bs := SomeItemsInput(e, n, rest);
    case TStruct(tys) => bs := SomeFieldsInput(tys, rest);
    case TSlice(_) =>
      bs := [0];
      ZeroIsDecoded(rest);
    case TOption(_) =>
      bs := [0];
      assert ([0] + rest)[1..] == rest;
    case TOptionBool =>
      bs := [0];
      assert ([0] + rest)[1..] == rest;
    case TCompact =>
      bs := [0];
      ZeroIsDecoded(rest);
    case TString =>
      bs := [0];
      ZeroIsDecoded(rest);
      assert rest[0..] == rest;
  }

  lemma {:induction false} SomeItemsInput(e: Ty, n: nat, rest: seq<byte>) returns (bs: seq<byte>)
    requires n == 0 || Decodable(e)
    ensures DecodeItems(e, n, bs + rest).Decoded? && DecodeItems(e, n, bs + rest).rest == rest
    decreases e, 3, n
  {
    hide Decode, Decodable;
    bs := [];
    if n == 0 {
      assert bs + rest == rest;
    } else {
      var tail := SomeItemsInput(e, n - 1, rest);
      var head := SomeInput(e, tail + rest);
      bs := head + tail;
      assert bs + rest == head + (tail + rest);
    }
  }

  lemma {:induction false} SomeFieldsInput(tys: seq<Ty>, rest: seq<byte>) returns (bs: seq<byte>)
    requires AllDecodable(tys)
    ensures DecodeFields(tys, bs + rest).Decoded? && DecodeFields(tys, bs + rest).rest == rest
    decreases tys, 0
  {
    hide Decode, Decodable;
    bs := [];
    if tys == [] {
      assert bs + rest == rest;
    } else {
      var tail := SomeFieldsInput(tys[1..], rest);
      var head := SomeInput(tys[0], tail + rest);
      bs := head + tail;
      assert bs + rest == head + (tail + rest);
    }
  }

  lemma {:induction false} SomePanic(ty: Ty) returns (input: seq<byte>)
    requires ReadsLength(ty)
    ensures Decode(ty, input).Panicked?
    decreases ty, 1
  {
    hide DecodeItems, DecodeFields;
    match ty
    case TString => input := [];
    case TSlice(_) => input := [];
    case TArray(n, e) =>
      input := SomePanic(e);
      FirstItemPanics(e, n, input);
    case TOption(e) =>
      var inner := SomePanic(e);
      input := [1] + inner;
      assert input[1..] == inner;
    case TStruct(tys) => input := SomePanicInFields(tys);
  }

  lemma FirstItemPanics(e: Ty, n: nat, input: seq<byte>)
    requires n > 0 && Decode(e, input).Panicked?
    ensures DecodeItems(e, n, input).Panicked?
  {
  }

  lemma {:induction false} SomePanicInFields(tys: seq<Ty>) returns (input: seq<byte>)
    requires SomeReadsLength(tys)
    ensures DecodeFields(tys, input).Panicked?
    decreases tys, 0
  {
    hide Decode, ReadsLength, Decodable;
    if ReadsLength(tys[0]) {
      input := SomePanic(tys[0]);
    } else {
      var tail := SomePanicInFields(tys[1..]);
      var head := SomeInput(tys[0], tail);
      input := head + tail;
    }
  }

  /** Decoding a type can panic if and only if the type reads a length; on every other type there is a
      value or an error for every input. */
  lemma PanicsExactly(ty: Ty)
    ensures ReadsLength(ty) <==> exists input :: Decode(ty, input).Panicked?
  {
    hide Decode, ReadsLength;
    if ReadsLength(ty) {
      var input := SomePanic(ty);
    }
    if exists input :: Decode(ty, input).Panicked? {
      var input :| Decode(ty, input).Panicked?;
      PanicReadsLength(ty, input);
    }
  }
}

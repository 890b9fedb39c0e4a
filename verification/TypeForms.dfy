/**
 Which bytes are a form of a value at a type of the table, stated apart from all decoders: by the
 kind of the type, down to the digits of numbers and the bits of bit sequences. The direct decoder,
 and so every registry, gives a value exactly for its forms.
 */
module TypeForms {
  import opened Bytes
  import opened Options
  import opened Compact
  import Scale
  import opened TypeTable
  import opened BitVecs
  import opened Decoders
  import opened Meaning
  import opened Wire

  // ------------------------------------------------------------------ forms

  /** The primitive types by their codes: bool, char, string, five unsigned widths of which two are big
      integers, and the same for signed ones. */
  ghost predicate PrimitiveForm(code: nat, v: Scale.Val, bs: seq<byte>) {
    match code
    case 0 => v.VBool? && |bs| == 1 && (v.b <==> bs[0] != 0)
    case 1 => v.VUint? && v.width == |bs| == 1 && Number(bs, v.n)
    case 2 => v.VString? && exists k: nat :: k <= |bs| && ReadLength(bs[..k], |v.bytes|) && bs[k..] == v.bytes
    case 3 => v.VUint? && v.width == |bs| == 1 && Number(bs, v.n)
    case 4 => v.VUint? && v.width == |bs| == 2 && Number(bs, v.n)
    case 5 => v.VUint? && v.width == |bs| == 4 && Number(bs, v.n)
    case 6 => v.VUint? && v.width == |bs| == 8 && Number(bs, v.n)
    case 7 => v.VBigUint? && v.width == |bs| == 16 && v.i >= 0 && Number(bs, v.i)
    case 8 => v.VBigUint? && v.width == |bs| == 32 && v.i >= 0 && Number(bs, v.i)
    case 9 => v.VInt? && v.width == |bs| == 1 && SignedNumber(bs, v.i)
    case 10 => v.VInt? && v.width == |bs| == 2 && SignedNumber(bs, v.i)
    case 11 => v.VInt? && v.width == |bs| == 4 && SignedNumber(bs, v.i)
    case 12 => v.VInt? && v.width == |bs| == 8 && SignedNumber(bs, v.i)
    case 13 => v.VBigInt? && v.width == |bs| == 16 && SignedNumber(bs, v.i)
    case 14 => v.VBigInt? && v.width == |bs| == 32 && SignedNumber(bs, v.i)
    case _ => false
  }

  /** The number of items: the low 64 bits of a compact integer. */
  ghost predicate CountForm(bs: seq<byte>, len: nat) {
    exists n: nat :: CompactForm(bs, n, Readable) && n % 0x1_0000_0000_0000_0000 == len
  }

  /** The store type is u8, and the order type ends with this name. */
  predicate BitTypes(table: Table, store: int, order: int, name: string) {
    && store in table && table[store].def == DefPrimitive(3)
    && order in table && table[order].path != [] && table[order].path[|table[order].path| - 1] == name
  }

  /** The bytes of a bit vector, of which each is mirrored when the lowest bit comes first. */
  predicate BitBytes(read: seq<byte>, bytes: seq<byte>, lsb0: bool) {
    && |bytes| == |read|
    && forall i :: 0 <= i < |read| ==> if lsb0 then Mirrored(read[i], bytes[i]) else bytes[i] == read[i]
  }

  ghost predicate BitsForm(table: Table, store: int, order: int, bytes: seq<byte>, bs: seq<byte>, k: nat, n: nat) {
    && k <= |bs| && CountForm(bs[..k], n) && n > 0 && |bs| - k == ByteCount(n)
    && ((BitTypes(table, store, order, "Lsb0") && BitBytes(bs[k..], bytes, true)) ||
        (BitTypes(table, store, order, "Msb0") && BitBytes(bs[k..], bytes, false)))
  }

  /** The bytes are a form of the value at the type; in compact mode every number is a compact integer. */
  ghost predicate Reads(table: Table, def: TypeDef, compact: bool, v: Decoded, bs: seq<byte>)
    decreases v, if compact then 1 else 2
  {
    match def
    case DefPrimitive(code) =>
      v.DValue? && if compact then v.v.VCompact? && v.v.i >= 0 && CompactForm(bs, v.v.i, Readable)
                   else PrimitiveForm(code, v.v, bs)
    case DefComposite(fields) => v.DFields? && PartsRead(table, FieldParts(table, fields), compact, v.fields, bs)
    case DefTuple(None) => !compact && v == DNil && bs == []
    case DefTuple(Some(items)) => v.DFields? && PartsRead(table, TupleParts(items, 0), compact, v.fields, bs)
    case DefCompact(t) => !compact && t in table && Reads(table, table[t].def, true, v, bs)
    case DefVariant(vs) =>
      !compact && bs != [] && exists i: nat :: LastAt(vs, bs[0], i) && VariantRead(table, vs[i], v, bs)
    case DefArray(n, t) => !compact && v.DList? && |v.items| == n && ItemsRead(table, t, v.items, bs)
    case DefSequence(t) =>
      !compact && v.DList? &&
      exists k: nat :: k <= |bs| && CountForm(bs[..k], |v.items|) && ItemsRead(table, t, v.items, bs[k..])
    case DefBitSequence(store, order) =>
      !compact && v.DBits? && v.name == "" && exists k: nat, n: nat :: BitsForm(table, store, order, v.bytes, bs, k, n)
    case DefHistoric => false
  }

  /** A variant: its tag alone, or its tag and its fields. */
  ghost predicate VariantRead(table: Table, item: VariantItem, v: Decoded, bs: seq<byte>)
    requires bs != []
    decreases v, 0
  {
    if item.fields == [] then v == DByte(bs[0]) && |bs| == 1
    else v.DFields? && PartsRead(table, FieldParts(table, item.fields), false, v.fields, bs[1..])
  }

  /** Named components one after the other. */
  ghost predicate PartsRead(table: Table, parts: seq<Part>, compact: bool, fs: seq<DecodedField>, bs: seq<byte>)
    decreases fs, 1
  {
    |fs| == |parts| && if parts == [] then bs == [] else exists k: nat :: FirstPart(table, parts, compact, fs, bs, k)
  }

  ghost predicate FirstPart(table: Table, parts: seq<Part>, compact: bool, fs: seq<DecodedField>, bs: seq<byte>, k: nat)
    requires |fs| == |parts| && parts != []
    decreases fs, 0
  {
    var part := parts[0];
    && k <= |bs| && part.ty in table && fs[0].name == part.name && fs[0].lookupIndex == part.ty
    && Reads(table, table[part.ty].def, compact, fs[0].value, bs[..k])
    && PartsRead(table, parts[1..], compact, fs[1..], bs[k..])
  }

  ghost predicate ItemsRead(table: Table, t: int, vs: seq<Decoded>, bs: seq<byte>)
    decreases vs, 1
  {
    if vs == [] then bs == [] else exists k: nat :: FirstItemRead(table, t, vs, bs, k)
  }

  ghost predicate FirstItemRead(table: Table, t: int, vs: seq<Decoded>, bs: seq<byte>, k: nat)
    requires vs != []
    decreases vs, 0
  {
    && k <= |bs| && t in table && Reads(table, table[t].def, false, vs[0], bs[..k])
    && ItemsRead(table, t, vs[1..], bs[k..])
  }

  // ------------------------------------------------------------------ leaves

  /** The types behind the codes are those of the forms, and there is one for exactly the codes up to 14. */
  lemma PrimitiveExactly(code: nat, v: Scale.Val, bs: seq<byte>, how: How)
    requires !how.AsWritten?
    ensures PrimitiveTy(code).Some? <==> code <= 14
    ensures PrimitiveForm(code, v, bs) <==> PrimitiveTy(code).Some? && Form(PrimitiveTy(code).value, v, bs, how)
  {
    hide Number, SignedNumber, ReadLength;
  }

  lemma ValueExactly(code: nat, input: seq<byte>, v: Decoded, rest: seq<byte>)
    requires code <= 14
    ensures PrimitiveTy(code).Some?
    ensures RunValue(PrimitiveTy(code).value, input) == Done(v, rest) <==>
      v.DValue? && Leaves(input, rest) && PrimitiveForm(code, v.v, Taken(input, rest))
  {
    PrimitiveExactly(code, Scale.VNone, [], Readable);
    var ty := PrimitiveTy(code).value;
    hide Scale.Decode, Form, PrimitiveForm, PrimitiveTy;
    if v.DValue? {
      Wire.DecodeExactly(ty, input, v.v, rest);
      if Leaves(input, rest) {
        PrimitiveExactly(code, v.v, Taken(input, rest), Ending(rest));
      }
    }
  }

  lemma CountExactly(input: seq<byte>, len: nat, rest: seq<byte>)
    ensures RunLength(input) == Done(len, rest) <==> Leaves(input, rest) && CountForm(Taken(input, rest), len)
  {
    hide DecodeCompact, CompactForm;
    var r := DecodeCompact(input);
    if r.Ok? {
      CompactReadExactly(input, r.value, r.rest);
    }
    if Leaves(input, rest) && CountForm(Taken(input, rest), len) {
      var n: nat :| CompactForm(Taken(input, rest), n, Readable) && n % 0x1_0000_0000_0000_0000 == len;
      CompactReadExactly(input, n, rest);
    }
  }

  lemma InOrderExactly(order: BitOrder, read: seq<byte>, bytes: seq<byte>)
    ensures BitBytes(read, bytes, order.Lsb0?) <==> bytes == InOrder(order, read)
  {
    hide ReverseBits, Mirrored;
    forall i | 0 <= i < |read| && i < |bytes|
      ensures Mirrored(read[i], bytes[i]) <==> bytes[i] == ReverseBits(read[i])
    {
      ReverseBitsExactly(read[i], bytes[i]);
    }
    if order.Lsb0? {
      if BitBytes(read, bytes, true) {
        assert forall i :: 0 <= i < |read| ==> bytes[i] == InOrder(order, read)[i];
      }
    } else if BitBytes(read, bytes, false) {
      assert bytes == read;
    }
  }

  lemma BitTypesAre(table: Table, store: int, order: int)
    ensures BitOrderAt(table, store, order) == Some(Lsb0) <==> BitTypes(table, store, order, "Lsb0")
    ensures BitOrderAt(table, store, order) == Some(Msb0) <==> BitTypes(table, store, order, "Msb0")
  {
  }

  /** A bit sequence is decoded exactly from its length, as many bytes as that takes, and these bytes in
      the order that its type names. */
  lemma BitsExactly(table: Table, store: int, order: int, input: seq<byte>, v: Decoded, rest: seq<byte>)
    ensures var o := BitOrderAt(table, store, order);
      (o.Some? && RunBits("", o.value, input) == Done(v, rest)) <==>
      && Leaves(input, rest) && v.DBits? && v.name == ""
      && exists k: nat, n: nat :: BitsForm(table, store, order, v.bytes, Taken(input, rest), k, n)
  {
    var o := BitOrderAt(table, store, order);
    BitTypesAre(table, store, order);
    hide BitOrderAt, BitTypes, CountForm, DecodeCompact, ByteCount, BitBytes;
    if o.Some? && RunBits("", o.value, input) == Done(v, rest) {
      BitsAreForm(o.value, input, v, rest);
      var bs := Taken(input, rest);
      var mid := RunLength(input);
      var k := |input| - |mid.rest|;
      assert BitsForm(table, store, order, v.bytes, bs, k, mid.value);
    }
    if Leaves(input, rest) && v.DBits? && v.name == "" &&
       exists k: nat, n: nat :: BitsForm(table, store, order, v.bytes, Taken(input, rest), k, n) {
      var bs := Taken(input, rest);
      var k: nat, n: nat :| BitsForm(table, store, order, v.bytes, bs, k, n);
      assert o.Some?;
      FormIsBits(o.value, input, v, rest, k, n);
    }
  }

  lemma BitsAreForm(order: BitOrder, input: seq<byte>, v: Decoded, rest: seq<byte>)
    requires RunBits("", order, input) == Done(v, rest)
    ensures Leaves(input, rest) && v.DBits? && v.name == ""
    ensures var bs, mid := Taken(input, rest), RunLength(input);
      && mid.Done? && |mid.rest| <= |input| && var k := |input| - |mid.rest|;
      && k <= |bs| && CountForm(bs[..k], mid.value) && mid.value > 0
      && |bs| - k == ByteCount(mid.value) && BitBytes(bs[k..], v.bytes, order.Lsb0?)
  {
    hide CountForm, DecodeCompact, ByteCount, BitBytes, InOrder;
    var mid := RunLength(input);
    CountExactly(input, mid.value, mid.rest);
    var bs := Taken(input, rest);
    Split(input, mid.rest, rest);
    InOrderExactly(order, Taken(mid.rest, rest), v.bytes);
  }

  lemma FormIsBits(order: BitOrder, input: seq<byte>, v: Decoded, rest: seq<byte>, k: nat, n: nat)
    requires Leaves(input, rest) && v.DBits? && v.name == ""
    requires var bs := Taken(input, rest);
      && k <= |bs| && CountForm(bs[..k], n) && n > 0
      && |bs| - k == ByteCount(n) && BitBytes(bs[k..], v.bytes, order.Lsb0?)
    ensures RunBits("", order, input) == Done(v, rest)
  {
    hide CountForm, DecodeCompact, ByteCount, BitBytes, InOrder;
    var bs := Taken(input, rest);
    assert Taken(input, input[k..]) == bs[..k];
    CountExactly(input, n, input[k..]);
    InOrderExactly(order, bs[k..], v.bytes);
    assert input[k..] == bs[k..] + rest;
    ReadBack(bs[k..], rest);
  }

  // ------------------------------------------------------------------ what is decoded is a form

  /** Without overrides, fields are decoded as parts. */
  lemma {:induction false} FieldsAreParts(env: Env, g: Graph, fields: seq<FieldDef>, fuel: nat, input: seq<byte>)
    requires env.overrides == map[]
    ensures DirectFields(env, g, fields, fuel, input) == DirectParts(env, g, FieldParts(env.table, fields), fuel, input)
    decreases |fields|
  {
    hide Direct;
    if fields != [] && fuel > 0 {
      var r := DirectAt(env, g, fields[0].ty, fuel - 1, input);
      assert FieldParts(env.table, fields)[1..] == FieldParts(env.table, fields[1..]);
      if r.Done? {
        FieldsAreParts(env, g, fields[1..], fuel, r.rest);
      }
    }
  }

  /** What the direct decoder gives is read off the bytes that it takes. */
  lemma {:induction false} DirectIsRead(env: Env, g: Graph, def: TypeDef, fuel: nat, input: seq<byte>)
    requires env.overrides == map[] && Direct(env, g, def, fuel, input).Done?
    ensures var r := Direct(env, g, def, fuel, input);
      Leaves(input, r.rest) && Reads(env.table, def, false, r.value, Taken(input, r.rest))
    decreases fuel, 3
  {
    hide DirectParts, DirectItems, DirectFields, DirectCompact, RunValue, RunBits, RunLength;
    hide PartsRead, ItemsRead, PrimitiveForm, BitsForm, CountForm, BitOrderAt, Taken, Leaves, LastVariant;
    var r := Direct(env, g, def, fuel, input);
    match def
    case DefPrimitive(code) =>
      PrimitiveExactly(code, Scale.VNone, [], Readable);
      ValueExactly(code, input, r.value, r.rest);
    case DefComposite(fields) =>
      FieldsAreParts(env, g, fields, fuel, input);
      PartsAreRead(env, g, FieldParts(env.table, fields), fuel, input);
    case DefTuple(Some(items)) => PartsAreRead(env, g, TupleParts(items, 0), fuel, input);
    case DefTuple(None) => NothingTaken(input);
    case DefCompact(t) => CompactIsRead(env, env.table[t].def, fuel, input);
    case DefVariant(vs) => VariantIsRead(env, g, vs, fuel, input);
    case DefArray(n, t) => ItemsAreRead(env, g, t, n, fuel, input);
    case DefSequence(t) => SequenceIsRead(env, g, t, fuel, input);
    case DefBitSequence(store, order) => BitsExactly(env.table, store, order, input, r.value, r.rest);
    case DefHistoric =>
  }

  lemma NothingTaken(input: seq<byte>)
    ensures Leaves(input, input) && Taken(input, input) == []
  {
  }

  lemma {:induction false} VariantIsRead(env: Env, g: Graph, vs: seq<VariantItem>, fuel: nat, input: seq<byte>)
    requires env.overrides == map[] && Direct(env, g, DefVariant(vs), fuel, input).Done?
    ensures var r := Direct(env, g, DefVariant(vs), fuel, input);
      Leaves(input, r.rest) && Reads(env.table, DefVariant(vs), false, r.value, Taken(input, r.rest))
    decreases fuel, 2
  {
    hide DirectFields, DirectParts, PartsRead, LastVariant;
    var r, tail := Direct(env, g, DefVariant(vs), fuel, input), input[1..];
    LastVariantIsLast(vs, input[0]);
    var item := LastVariant(vs, input[0]).value;
    var i: nat :| LastAt(vs, input[0], i) && vs[i] == item;
    if item.fields != [] {
      FieldsAreParts(env, g, item.fields, fuel - 1, tail);
      PartsAreRead(env, g, FieldParts(env.table, item.fields), fuel - 1, tail);
      Split(input, tail, r.rest);
      assert Taken(input, r.rest)[1..] == Taken(tail, r.rest);
    }
    assert VariantRead(env.table, vs[i], r.value, Taken(input, r.rest));
  }

  lemma {:induction false} SequenceIsRead(env: Env, g: Graph, t: int, fuel: nat, input: seq<byte>)
    requires env.overrides == map[] && Direct(env, g, DefSequence(t), fuel, input).Done?
    ensures var r := Direct(env, g, DefSequence(t), fuel, input);
      Leaves(input, r.rest) && Reads(env.table, DefSequence(t), false, r.value, Taken(input, r.rest))
    decreases fuel, 2
  {
    hide DirectItems, ItemsRead, RunLength, CountForm;
    var r, mid := Direct(env, g, DefSequence(t), fuel, input), RunLength(input);
    CountExactly(input, mid.value, mid.rest);
    ItemsAreRead(env, g, t, mid.value, fuel, mid.rest);
    Split(input, mid.rest, r.rest);
  }

  lemma {:induction false} ItemsAreRead(env: Env, g: Graph, t: int, n: nat, fuel: nat, input: seq<byte>)
    requires env.overrides == map[] && DirectItems(env, g, t, n, fuel, input).Done?
    ensures var r := DirectItems(env, g, t, n, fuel, input);
      |r.value| == n && Leaves(input, r.rest) && ItemsRead(env.table, t, r.value, Taken(input, r.rest))
    decreases fuel, 1, n
  {
    hide Direct, Reads;
    var r := DirectItems(env, g, t, n, fuel, input);
    if n == 0 {
      NothingTaken(input);
    } else {
      var head := Direct(env, g, env.table[t].def, fuel - 1, input);
      DirectIsRead(env, g, env.table[t].def, fuel - 1, input);
      ItemsAreRead(env, g, t, n - 1, fuel, head.rest);
      Split(input, head.rest, r.rest);
      assert r.value[1..] == DirectItems(env, g, t, n - 1, fuel, head.rest).value;
      assert FirstItemRead(env.table, t, r.value, Taken(input, r.rest), |input| - |head.rest|);
    }
  }

  lemma {:induction false} PartsAreRead(env: Env, g: Graph, parts: seq<Part>, fuel: nat, input: seq<byte>)
    requires env.overrides == map[] && DirectParts(env, g, parts, fuel, input).Done?
    ensures var r := DirectParts(env, g, parts, fuel, input);
      Leaves(input, r.rest) && PartsRead(env.table, parts, false, r.value, Taken(input, r.rest))
    decreases fuel, 1, |parts|
  {
    hide Direct, Reads;
    var r := DirectParts(env, g, parts, fuel, input);
    if parts == [] {
      NothingTaken(input);
    } else {
      var def := env.table[parts[0].ty].def;
      var head := Direct(env, g, def, fuel - 1, input);
      DirectIsRead(env, g, def, fuel - 1, input);
      PartsAreRead(env, g, parts[1..], fuel, head.rest);
      Split(input, head.rest, r.rest);
      assert r.value[1..] == DirectParts(env, g, parts[1..], fuel, head.rest).value;
      assert FirstPart(env.table, parts, false, r.value, Taken(input, r.rest), |input| - |head.rest|);
    }
  }

  lemma {:induction false} CompactIsRead(env: Env, def: TypeDef, fuel: nat, input: seq<byte>)
    requires DirectCompact(env, def, fuel, input).Done?
    ensures var r := DirectCompact(env, def, fuel, input);
      Leaves(input, r.rest) && Reads(env.table, def, true, r.value, Taken(input, r.rest))
    decreases fuel, 2
  {
    hide CompactParts, DecodeCompact, PartsRead, CompactForm;
    match def
    case DefPrimitive(_) => CompactReadExactly(input, DecodeCompact(input).value, DecodeCompact(input).rest);
    case DefTuple(Some(items)) => CompactPartsAreRead(env, TupleParts(items, 0), fuel, input);
    case DefComposite(fields) => CompactPartsAreRead(env, FieldParts(env.table, fields), fuel, input);
    case _ =>
  }

  lemma {:induction false} CompactPartsAreRead(env: Env, parts: seq<Part>, fuel: nat, input: seq<byte>)
    requires CompactParts(env, parts, fuel, input).Done?
    ensures var r := CompactParts(env, parts, fuel, input);
      Leaves(input, r.rest) && PartsRead(env.table, parts, true, r.value, Taken(input, r.rest))
    decreases fuel, 1, |parts|
  {
    hide DirectCompact, Reads;
    var r := CompactParts(env, parts, fuel, input);
    if parts == [] {
      NothingTaken(input);
    } else {
      var def := env.table[parts[0].ty].def;
      var head := DirectCompact(env, def, fuel - 1, input);
      CompactIsRead(env, def, fuel - 1, input);
      CompactPartsAreRead(env, parts[1..], fuel, head.rest);
      Split(input, head.rest, r.rest);
      assert r.value[1..] == CompactParts(env, parts[1..], fuel, head.rest).value;
      assert FirstPart(env.table, parts, true, r.value, Taken(input, r.rest), |input| - |head.rest|);
    }
  }

  // ------------------------------------------------------------------ a form is decoded

  /** How deep the decoder goes for a value: fields may be one level below the tag of a variant. */
  function Depth(v: Decoded): nat {
    match v
    case DFields(fs) => FieldsDepth(fs) + 2
    case DList(items) => ItemsDepth(items) + 1
    case _ => 0
  }

  function FieldsDepth(fs: seq<DecodedField>): nat {
    if fs == [] then 0
    else if Depth(fs[0].value) > FieldsDepth(fs[1..]) then Depth(fs[0].value)
    else FieldsDepth(fs[1..])
  }

  function ItemsDepth(vs: seq<Decoded>): nat {
    if vs == [] then 0
    else if Depth(vs[0]) > ItemsDepth(vs[1..]) then Depth(vs[0])
    else ItemsDepth(vs[1..])
  }

  /** A form is decoded, whatever follows it and under every bound that the value does not exceed. */
  lemma {:induction false} ReadIsDirect(env: Env, g: Graph, def: TypeDef, v: Decoded, bs: seq<byte>, rest: seq<byte>,
          fuel: nat)
    requires env.overrides == map[] && Reads(env.table, def, false, v, bs) && fuel >= Depth(v)
    ensures Direct(env, g, def, fuel, bs + rest) == Done(v, rest)
    decreases v, 2
  {
    hide DirectParts, DirectItems, DirectFields, DirectCompact, RunValue, RunBits;
    hide PartsRead, ItemsRead, PrimitiveForm, BitsForm, CountForm, BitOrderAt, LastVariant, FieldsDepth, ItemsDepth;
    assert Taken(bs + rest, rest) == bs;
    match def
    case DefPrimitive(code) =>
      assert code <= 14 by {
        PrimitiveExactly(code, v.v, bs, Readable);
      }
      ValueExactly(code, bs + rest, v, rest);
    case DefComposite(fields) =>
      FieldsAreParts(env, g, fields, fuel, bs + rest);
      PartsDecoded(env, g, FieldParts(env.table, fields), v.fields, bs, rest, fuel);
    case DefTuple(Some(items)) => PartsDecoded(env, g, TupleParts(items, 0), v.fields, bs, rest, fuel);
    case DefTuple(None) => assert bs + rest == rest;
    case DefCompact(t) => CompactDecoded(env, env.table[t].def, v, bs, rest, fuel);
    case DefVariant(vs) => VariantDecoded(env, g, vs, v, bs, rest, fuel);
    case DefArray(n, t) => ItemsDecoded(env, g, t, v.items, bs, rest, fuel);
    case DefSequence(t) =>
      var k: nat :| k <= |bs| && CountForm(bs[..k], |v.items|) && ItemsRead(env.table, t, v.items, bs[k..]);
      assert Taken(bs + rest, bs[k..] + rest) == bs[..k];
      CountExactly(bs + rest, |v.items|, bs[k..] + rest);
      ItemsDecoded(env, g, t, v.items, bs[k..], rest, fuel);
    case DefBitSequence(store, order) => BitsExactly(env.table, store, order, bs + rest, v, rest);
  }

  lemma {:induction false} VariantDecoded(env: Env, g: Graph, vs: seq<VariantItem>, v: Decoded, bs: seq<byte>,
          rest: seq<byte>, fuel: nat)
    requires env.overrides == map[] && Reads(env.table, DefVariant(vs), false, v, bs) && fuel >= Depth(v)
    ensures Direct(env, g, DefVariant(vs), fuel, bs + rest) == Done(v, rest)
    decreases v, 1
  {
    hide DirectFields, DirectParts, PartsRead, LastVariant, FieldsDepth;
    var i: nat :| LastAt(vs, bs[0], i) && VariantRead(env.table, vs[i], v, bs);
    LastIs(vs, bs[0], i);
    assert (bs + rest)[1..] == bs[1..] + rest;
    if vs[i].fields == [] {
      assert bs[1..] + rest == rest;
    } else {
      FieldsAreParts(env, g, vs[i].fields, fuel - 1, bs[1..] + rest);
      PartsDecoded(env, g, FieldParts(env.table, vs[i].fields), v.fields, bs[1..], rest, fuel - 1);
    }
  }

  /** There is one last variant with an index. */
  lemma LastIs(vs: seq<VariantItem>, b: byte, i: nat)
    requires LastAt(vs, b, i)
    ensures LastVariant(vs, b) == Some(vs[i])
  {
    LastVariantIsLast(vs, b);
    hide LastVariant;
    assert vs[i] in vs;
    var j: nat :| LastAt(vs, b, j) && vs[j] == LastVariant(vs, b).value;
    assert i == j;
  }

  lemma {:induction false} ItemsDecoded(env: Env, g: Graph, t: int, vs: seq<Decoded>, bs: seq<byte>, rest: seq<byte>,
          fuel: nat)
    requires env.overrides == map[] && ItemsRead(env.table, t, vs, bs) && fuel >= ItemsDepth(vs) + 1
    ensures DirectItems(env, g, t, |vs|, fuel, bs + rest) == Done(vs, rest)
    decreases vs, 1
  {
    hide Direct, Reads, Depth;
    if vs == [] {
      assert bs + rest == rest;
    } else {
      var k: nat :| FirstItemRead(env.table, t, vs, bs, k);
      assert bs[..k] + (bs[k..] + rest) == bs + rest;
      ReadIsDirect(env, g, env.table[t].def, vs[0], bs[..k], bs[k..] + rest, fuel - 1);
      ItemsDecoded(env, g, t, vs[1..], bs[k..], rest, fuel);
      assert [vs[0]] + vs[1..] == vs;
    }
  }

  lemma {:induction false} PartsDecoded(env: Env, g: Graph, parts: seq<Part>, fs: seq<DecodedField>, bs: seq<byte>,
          rest: seq<byte>, fuel: nat)
    requires env.overrides == map[] && PartsRead(env.table, parts, false, fs, bs) && fuel >= FieldsDepth(fs) + 1
    ensures DirectParts(env, g, parts, fuel, bs + rest) == Done(fs, rest)
    decreases fs, 1
  {
    hide Direct, Reads, Depth;
    if parts == [] {
      assert bs + rest == rest;
    } else {
      var k: nat :| FirstPart(env.table, parts, false, fs, bs, k);
      assert bs[..k] + (bs[k..] + rest) == bs + rest;
      ReadIsDirect(env, g, env.table[parts[0].ty].def, fs[0].value, bs[..k], bs[k..] + rest, fuel - 1);
      PartsDecoded(env, g, parts[1..], fs[1..], bs[k..], rest, fuel);
      assert [fs[0]] + fs[1..] == fs;
    }
  }

  lemma {:induction false} CompactDecoded(env: Env, def: TypeDef, v: Decoded, bs: seq<byte>, rest: seq<byte>, fuel: nat)
    requires Reads(env.table, def, true, v, bs) && fuel >= Depth(v)
    ensures DirectCompact(env, def, fuel, bs + rest) == Done(v, rest)
    decreases v, 1
  {
    hide CompactParts, DecodeCompact, PartsRead, CompactForm, FieldsDepth;
    match def
    case DefPrimitive(_) =>
      assert Taken(bs + rest, rest) == bs;
      CompactReadExactly(bs + rest, v.v.i, rest);
    case DefTuple(Some(items)) => CompactPartsDecoded(env, TupleParts(items, 0), v.fields, bs, rest, fuel);
    case DefComposite(fields) => CompactPartsDecoded(env, FieldParts(env.table, fields), v.fields, bs, rest, fuel);
  }

  lemma {:induction false} CompactPartsDecoded(env: Env, parts: seq<Part>, fs: seq<DecodedField>, bs: seq<byte>,
          rest: seq<byte>, fuel: nat)
    requires PartsRead(env.table, parts, true, fs, bs) && fuel >= FieldsDepth(fs) + 1
    ensures CompactParts(env, parts, fuel, bs + rest) == Done(fs, rest)
    decreases fs, 1
  {
    hide DirectCompact, Reads, Depth;
    if parts == [] {
      assert bs + rest == rest;
    } else {
      var k: nat :| FirstPart(env.table, parts, true, fs, bs, k);
      assert bs[..k] + (bs[k..] + rest) == bs + rest;
      CompactDecoded(env, env.table[parts[0].ty].def, fs[0].value, bs[..k], bs[k..] + rest, fuel - 1);
      CompactPartsDecoded(env, parts[1..], fs[1..], bs[k..], rest, fuel);
      assert [fs[0]] + fs[1..] == fs;
    }
  }

  // ------------------------------------------------------------------ exactly

  /** Without overrides the direct decoder gives a value, under some bound, if and only if the bytes that
      it takes are a form of the value at the type. */
  lemma DirectExactly(env: Env, g: Graph, def: TypeDef, input: seq<byte>, v: Decoded, rest: seq<byte>)
    requires env.overrides == map[]
    ensures (exists fuel: nat :: Direct(env, g, def, fuel, input) == Done(v, rest)) <==>
      Leaves(input, rest) && Reads(env.table, def, false, v, Taken(input, rest))
  {
    hide Direct, Reads;
    if fuel: nat :| Direct(env, g, def, fuel, input) == Done(v, rest) {
      DirectIsRead(env, g, def, fuel, input);
    }
    if Leaves(input, rest) && Reads(env.table, def, false, v, Taken(input, rest)) {
      ReadIsDirect(env, g, def, v, Taken(input, rest), rest, Depth(v));
      assert Taken(input, rest) + rest == input;
    }
  }

  ghost predicate DirectGives(env: Env, g: Graph, fields: seq<FieldDef>, fuel: nat, input: seq<byte>,
          fs: seq<DecodedField>, rest: seq<byte>)
  {
    DirectFields(env, g, fields, fuel, input) == Done(fs, rest)
  }

  /** The same for the fields of a call, event or error. */
  lemma FieldsExactly(env: Env, g: Graph, fields: seq<FieldDef>, input: seq<byte>, fs: seq<DecodedField>,
          rest: seq<byte>)
    requires env.overrides == map[]
    ensures (exists fuel: nat :: DirectGives(env, g, fields, fuel, input, fs, rest)) <==>
      Leaves(input, rest) && PartsRead(env.table, FieldParts(env.table, fields), false, fs, Taken(input, rest))
  {
    var parts := FieldParts(env.table, fields);
    hide DirectFields, DirectParts, PartsRead;
    if fuel: nat :| DirectGives(env, g, fields, fuel, input, fs, rest) {
      FieldsAreParts(env, g, fields, fuel, input);
      PartsAreRead(env, g, parts, fuel, input);
    }
    if Leaves(input, rest) && PartsRead(env.table, parts, false, fs, Taken(input, rest)) {
      var fuel := FieldsDepth(fs) + 1;
      FieldsAreParts(env, g, fields, fuel, input);
      PartsDecoded(env, g, parts, fs, Taken(input, rest), rest, fuel);
      assert Taken(input, rest) + rest == input;
      assert DirectGives(env, g, fields, fuel, input, fs, rest);
    }
  }

  // ------------------------------------------------------------------ failures of the leaves

  /** What the innermost errors mean: a tag is missing at the end of the stream; a length is none, which has
      used the stream up; a value fails at its type; a bit sequence has no length, no bits, or too few bytes. */
  lemma FailuresMean(input: seq<byte>, ty: Scale.Ty, name: string, order: BitOrder)
    ensures RunTag(input).Done? <==> input != []
    ensures RunTag(input).Failed? ==> RunTag(input) == Failed(VariantByteDecoding, [])
    ensures RunLength(input).Done? || RunLength(input) == Failed(SliceLengthDecoding, [])
    ensures RunValue(ty, input).Failed? ==> RunValue(ty, input).why == ValueDecoding
    ensures RunBits(name, order, input).Done? || RunBits(name, order, input).Failed?
    ensures RunBits(name, order, input).Failed? ==>
      && RunBits(name, order, input).why == BitVecDecoding
      && (RunLength(input).Done? && RunLength(input).value > 0 ==>
            |RunLength(input).rest| < ByteCount(RunLength(input).value))
  {
    hide FromLittleEndian, Scale.Decode, ByteCount;
  }
}

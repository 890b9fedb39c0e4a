/**
 What the types of a table mean, without any graph: a decoder directed by the type that
 looks every lookup id up afresh. And when a decoder graph stands for a type (`RepDef`), with
 the proof that running such a graph is decoding by the type.
 */
module Meaning {
  import opened Bytes
  import opened Options
  import Scale
  import opened TypeTable
  import opened Decoders

  /** The type table, the decoders that override the fields of some types, and the cell that
      stands for each type that was met while it was being built. */
  datatype Env = Env(table: Table, overrides: map<int, FieldDecoder>, knots: map<int, RecursiveDecoder>)

  /** `getPrimitiveDecoder`: the Go type behind each primitive code. */
  function PrimitiveTy(code: nat): Option<Scale.Ty> {
    match code
    case 0 => Some(Scale.TBool)
    case 1 => Some(Scale.TUint(1))
    case 2 => Some(Scale.TString)
    case 3 => Some(Scale.TUint(1))
    case 4 => Some(Scale.TUint(2))
    case 5 => Some(Scale.TUint(4))
    case 6 => Some(Scale.TUint(8))
    case 7 => Some(Scale.TBigUint(16))
    case 8 => Some(Scale.TBigUint(32))
    case 9 => Some(Scale.TInt(1))
    case 10 => Some(Scale.TInt(2))
    case 11 => Some(Scale.TInt(4))
    case 12 => Some(Scale.TInt(8))
    case 13 => Some(Scale.TBigInt(16))
    case 14 => Some(Scale.TBigInt(32))
    case _ => None
  }

  /** The bit order a type names by the last entry of its path. */
  function OrderOf(t: TypeInfo): Option<BitOrder> {
    if t.path == [] then None
    else if t.path[|t.path| - 1] == "Lsb0" then Some(Lsb0)
    else if t.path[|t.path| - 1] == "Msb0" then Some(Msb0)
    else None
  }

  const U8_CODE: nat := 3

  /** The bit order of a bit sequence whose store and order types are supported. */
  function BitOrderAt(table: Table, store: int, order: int): Option<BitOrder> {
    if store in table && table[store].def == DefPrimitive(U8_CODE) && order in table
    then OrderOf(table[order]) else None
  }

  // ------------------------------------------------------------------ the direct decoder

  ghost function Direct(env: Env, g: Graph, def: TypeDef, fuel: nat, input: seq<byte>): (r: Run<Decoded>)
    decreases fuel, 3
  {
    match def
    case DefCompact(t) =>
      if t !in env.table then Failed(TypeMissing, input)
      else DirectCompact(env, env.table[t].def, fuel, input)
    case DefComposite(fields) => AsFields(DirectFields(env, g, fields, fuel, input))
    case DefVariant(variants) =>
      (match RunTag(input)
       case Failed(why, rest) => Failed(why, rest)
       case Done(b, rest) =>
         match LastVariant(variants, b)
         case None => Failed(UnknownVariant(b), rest)
         case Some(v) =>
           if v.fields == [] then Done(DByte(b), rest)
           else if fuel == 0 then Exhausted
           else AsFields(DirectFields(env, g, v.fields, fuel - 1, rest)))
    case DefPrimitive(code) =>
      (match PrimitiveTy(code)
       case None => Failed(TypeMissing, input)
       case Some(ty) => RunValue(ty, input))
    case DefArray(n, t) => AsItems(DirectItems(env, g, t, n, fuel, input))
    case DefSequence(t) =>
      (match RunLength(input)
       case Failed(why, rest) => Failed(why, rest)
       case Done(n, rest) => AsItems(DirectItems(env, g, t, n, fuel, rest)))
    case DefTuple(None) => Done(DNil, input)
    case DefTuple(Some(items)) => AsFields(DirectParts(env, g, TupleParts(items, 0), fuel, input))
    case DefBitSequence(s, o) =>
      (match BitOrderAt(env.table, s, o)
       case None => Failed(TypeMissing, input)
       case Some(order) => RunBits("", order, input))
    case DefHistoric => Failed(TypeMissing, input)
  }

  /** A field of type `id`: its override when there is one. */
  ghost function DirectAt(env: Env, g: Graph, id: int, fuel: nat, input: seq<byte>): (r: Run<Decoded>)
    decreases fuel, 4
  {
    if id !in env.table then Failed(TypeMissing, input)
    else if id in env.overrides then EraseRun(RunDecoder(g, env.overrides[id], fuel, input))
    else Direct(env, g, env.table[id].def, fuel, input)
  }

  ghost function DirectFields(env: Env, g: Graph, fields: seq<FieldDef>, fuel: nat, input: seq<byte>)
    : (r: Run<seq<DecodedField>>)
    decreases fuel, 1, |fields|
  {
    if fields == [] then Done([], input)
    else if fuel == 0 then Exhausted
    else
      var f := fields[0];
      match DirectAt(env, g, f.ty, fuel - 1, input)
      case Exhausted => Exhausted
      case Failed(why, rest) => Failed(why, rest)
      case Panicked => Panicked
      case Done(v, rest) =>
        var name := if f.ty in env.table then FullFieldName(f, env.table[f.ty]) else "";
        Cons(DecodedField(name, v, f.ty), DirectFields(env, g, fields[1..], fuel, rest))
  }

  ghost function DirectItems(env: Env, g: Graph, t: int, n: nat, fuel: nat, input: seq<byte>): (r: Run<seq<Decoded>>)
    decreases fuel, 1, n
  {
    if n == 0 then Done([], input)
    else if fuel == 0 then Exhausted
    else if t !in env.table then Failed(TypeMissing, input)
    else match Direct(env, g, env.table[t].def, fuel - 1, input)
      case Exhausted => Exhausted
      case Failed(why, rest) => Failed(why, rest)
      case Panicked => Panicked
      case Done(v, rest) => Cons(v, DirectItems(env, g, t, n - 1, fuel, rest))
  }

  /** Named components: what a tuple is made of, and a composite in compact mode. */
  datatype Part = Part(name: string, ty: int)

  function TupleParts(items: seq<int>, i: nat): (r: seq<Part>)
    ensures |r| == |items|
    ensures forall k :: 0 <= k < |items| ==> r[k] == Part(TupleItemName(i + k), items[k])
  {
    if items == [] then [] else [Part(TupleItemName(i), items[0])] + TupleParts(items[1..], i + 1)
  }

  function FieldParts(table: Table, fields: seq<FieldDef>): (r: seq<Part>)
    ensures |r| == |fields|
    ensures forall k :: 0 <= k < |fields| ==> r[k].ty == fields[k].ty
    ensures forall k :: 0 <= k < |fields| && fields[k].ty in table ==>
      r[k].name == FullFieldName(fields[k], table[fields[k].ty])
  {
    seq(|fields|, i requires 0 <= i < |fields| =>
      Part(if fields[i].ty in table then FullFieldName(fields[i], table[fields[i].ty]) else "", fields[i].ty))
  }

  ghost function DirectParts(env: Env, g: Graph, parts: seq<Part>, fuel: nat, input: seq<byte>)
    : (r: Run<seq<DecodedField>>)
    decreases fuel, 1, |parts|
  {
    if parts == [] then Done([], input)
    else if fuel == 0 then Exhausted
    else if parts[0].ty !in env.table then Failed(TypeMissing, input)
    else match Direct(env, g, env.table[parts[0].ty].def, fuel - 1, input)
      case Exhausted => Exhausted
      case Failed(why, rest) => Failed(why, rest)
      case Panicked => Panicked
      case Done(v, rest) =>
        Cons(DecodedField(parts[0].name, v, parts[0].ty), DirectParts(env, g, parts[1..], fuel, rest))
  }

  /** A type in compact mode: every number in it is a compact integer. */
  ghost function DirectCompact(env: Env, def: TypeDef, fuel: nat, input: seq<byte>): (r: Run<Decoded>)
    decreases fuel, 2
  {
    match def
    case DefPrimitive(_) => RunValue(Scale.TCompact, input)
    case DefTuple(None) => RunValue(Scale.TAny, input)
    case DefTuple(Some(items)) => AsFields(CompactParts(env, TupleParts(items, 0), fuel, input))
    case DefComposite(fields) => AsFields(CompactParts(env, FieldParts(env.table, fields), fuel, input))
    case _ => Failed(TypeMissing, input)
  }

  ghost function CompactParts(env: Env, parts: seq<Part>, fuel: nat, input: seq<byte>)
    : (r: Run<seq<DecodedField>>)
    decreases fuel, 1, |parts|
  {
    if parts == [] then Done([], input)
    else if fuel == 0 then Exhausted
    else if parts[0].ty !in env.table then Failed(TypeMissing, input)
    else match DirectCompact(env, env.table[parts[0].ty].def, fuel - 1, input)
      case Exhausted => Exhausted
      case Failed(why, rest) => Failed(why, rest)
      case Panicked => Panicked
      case Done(v, rest) =>
        Cons(DecodedField(parts[0].name, v, parts[0].ty), CompactParts(env, parts[1..], fuel, rest))
  }

  // ------------------------------------------------------------------ graphs that stand for types

  /** `d` is a node built for the type definition `def`. It says nothing about what the cells
      hold: a cell inside `d` only has to be the knot of the type it is used at. */
  ghost predicate RepDef(env: Env, d: FieldDecoder, def: TypeDef)
    decreases d, 1
  {
    match def
    case DefCompact(t) => t in env.table && RepCompact(env.table, d, env.table[t].def)
    case DefComposite(fields) => d.Composite? && RepFields(env, d.fields, fields)
    case DefVariant(variants) =>
      && d.Variant?
      && (forall b: byte :: b in d.byIndex <==> LastVariant(variants, b).Some?)
      && forall b: byte :: b in d.byIndex ==> RepVariant(env, d.byIndex[b], LastVariant(variants, b).value)
    case DefPrimitive(code) => d.Value? && PrimitiveTy(code) == Some(d.ty)
    case DefArray(n, t) => d.ArrayOf? && d.length == n && t in env.table && RepDef(env, d.item, env.table[t].def)
    case DefSequence(t) => d.SliceOf? && t in env.table && RepDef(env, d.item, env.table[t].def)
    case DefTuple(None) => d.Noop?
    case DefTuple(Some(items)) => d.Composite? && RepTuple(env, d.fields, TupleParts(items, 0))
    case DefBitSequence(s, o) => d.BitSequence? && BitOrderAt(env.table, s, o) == Some(d.order)
    case DefHistoric => false
  }

  ghost predicate RepVariant(env: Env, d: FieldDecoder, v: VariantItem)
    decreases d, 0
  {
    if v.fields == [] then d.Noop? else d.Composite? && RepFields(env, d.fields, v.fields)
  }

  /** `d` decodes a field of type `id`. */
  ghost predicate RepAt(env: Env, d: FieldDecoder, id: int)
    decreases d, 2
  {
    id in env.table &&
    if id in env.overrides then d == env.overrides[id]
    else if d.Recursive? then id in env.knots && env.knots[id] == d.cell
    else RepDef(env, d, env.table[id].def)
  }

  ghost predicate RepFields(env: Env, fs: seq<Field>, defs: seq<FieldDef>)
    decreases fs, 0
  {
    |fs| == |defs| && forall i :: 0 <= i < |fs| ==> RepField(env, fs[i], defs[i])
  }

  ghost predicate RepField(env: Env, f: Field, def: FieldDef)
    decreases f, 0
  {
    && RepAt(env, f.decoder, def.ty)
    && f.name == FullFieldName(def, env.table[def.ty])
    && f.lookupIndex == def.ty
  }

  ghost predicate RepTuple(env: Env, fs: seq<Field>, parts: seq<Part>)
    decreases fs, 0
  {
    |fs| == |parts| && forall k :: 0 <= k < |fs| ==> RepTupleItem(env, fs[k], parts[k])
  }

  ghost predicate RepTupleItem(env: Env, f: Field, part: Part)
    decreases f, 0
  {
    && part.ty in env.table
    && RepDef(env, f.decoder, env.table[part.ty].def)
    && f.name == part.name
    && f.lookupIndex == part.ty
  }

  ghost predicate RepCompact(table: Table, d: FieldDecoder, def: TypeDef)
    decreases d, 0
  {
    match def
    case DefPrimitive(_) => d == Value(Scale.TCompact)
    case DefTuple(None) => d == Value(Scale.TAny)
    case DefTuple(Some(items)) => d.Composite? && RepParts(table, d.fields, TupleParts(items, 0))
    case DefComposite(fields) => d.Composite? && RepParts(table, d.fields, FieldParts(table, fields))
    case _ => false
  }

  ghost predicate RepParts(table: Table, fs: seq<Field>, parts: seq<Part>)
    decreases fs, 0
  {
    |fs| == |parts| && forall k :: 0 <= k < |fs| ==> RepPart(table, fs[k], parts[k])
  }

  ghost predicate RepPart(table: Table, f: Field, part: Part)
    decreases f, 0
  {
    && part.ty in table
    && RepCompact(table, f.decoder, table[part.ty].def)
    && f.name == part.name
    && f.lookupIndex == part.ty
  }

  /** Every knot is tied: its cell holds a decoder for its type that is not itself a cell. */
  ghost predicate Tied(env: Env, g: Graph) {
    forall id :: id in env.knots && id !in env.overrides ==>
      && id in env.table
      && env.knots[id] in g
      && !g[env.knots[id]].Recursive?
      && RepDef(env, g[env.knots[id]], env.table[id].def)
  }

  // ------------------------------------------------------------------ meaning is preserved

  /** Running a graph that stands for a type is decoding by the type, labels erased: the same
      value, the same error and the same bytes left, on every input and at every depth. */
  lemma {:induction false} MeaningPreserved(env: Env, g: Graph, d: FieldDecoder, def: TypeDef, fuel: nat,
          input: seq<byte>)
    requires Tied(env, g) && RepDef(env, d, def)
    ensures EraseRun(RunDecoder(g, d, fuel, input)) == Direct(env, g, def, fuel, input)
    decreases fuel, 3
  {
    hide RunFields, RunItems, DirectFields, DirectItems, DirectParts, DirectCompact, RepCompact, Tied;
    match def
    case DefCompact(t) => CompactPreserved(env, g, d, env.table[t].def, fuel, input);
    case DefComposite(fields) => FieldsPreserved(env, g, d.fields, fields, fuel, input);
    case DefVariant(variants) => VariantPreserved(env, g, d, variants, fuel, input);
    case DefPrimitive(code) =>
    case DefArray(n, t) => ItemsPreserved(env, g, d.item, t, n, fuel, input);
    case DefSequence(t) =>
      var len := RunLength(input);
      if len.Done? {
        ItemsPreserved(env, g, d.item, t, len.value, fuel, len.rest);
      }
    case DefTuple(None) =>
    case DefTuple(Some(items)) => TuplePreserved(env, g, d.fields, TupleParts(items, 0), fuel, input);
    case DefBitSequence(s, o) =>
  }

  lemma {:induction false} VariantPreserved(env: Env, g: Graph, d: FieldDecoder, variants: seq<VariantItem>,
          fuel: nat, input: seq<byte>)
    requires Tied(env, g) && RepDef(env, d, DefVariant(variants))
    ensures EraseRun(RunDecoder(g, d, fuel, input)) == Direct(env, g, DefVariant(variants), fuel, input)
    decreases fuel, 2
  {
    hide RunFields, DirectFields, EraseFields, Tied;
    if input != [] && fuel > 0 {
      var b := input[0];
      var v := LastVariant(variants, b);
      if v.Some? && v.value.fields != [] {
        FieldsPreserved(env, g, d.byIndex[b].fields, v.value.fields, fuel - 1, input[1..]);
      }
    }
  }

  lemma {:induction false} AtPreserved(env: Env, g: Graph, d: FieldDecoder, id: int, fuel: nat, input: seq<byte>)
    requires Tied(env, g) && RepAt(env, d, id)
    ensures EraseRun(RunDecoder(g, d, fuel, input)) == DirectAt(env, g, id, fuel, input)
    decreases fuel, 4
  {
    if id !in env.overrides {
      if d.Recursive? {
        MeaningPreserved(env, g, g[d.cell], env.table[id].def, fuel, input);
      } else {
        MeaningPreserved(env, g, d, env.table[id].def, fuel, input);
      }
    }
  }

  lemma {:induction false} FieldsPreserved(env: Env, g: Graph, fs: seq<Field>, defs: seq<FieldDef>, fuel: nat,
          input: seq<byte>)
    requires Tied(env, g) && RepFields(env, fs, defs)
    ensures EraseFieldsRun(RunFields(g, fs, fuel, input)) == DirectFields(env, g, defs, fuel, input)
    decreases fuel, 1, |fs|
  {
    hide RunDecoder, DirectAt, RepDef;
    if fs != [] && fuel > 0 {
      assert RepField(env, fs[0], defs[0]);
      AtPreserved(env, g, fs[0].decoder, defs[0].ty, fuel - 1, input);
      var head := RunDecoder(g, fs[0].decoder, fuel - 1, input);
      if head.Done? {
        FieldsPreserved(env, g, fs[1..], defs[1..], fuel, head.rest);
        EraseConsField(DecodedField(fs[0].name, head.value, fs[0].lookupIndex), RunFields(g, fs[1..], fuel, head.rest));
      }
    }
  }

  lemma {:induction false} ItemsPreserved(env: Env, g: Graph, d: FieldDecoder, t: int, n: nat, fuel: nat,
          input: seq<byte>)
    requires Tied(env, g) && t in env.table && RepDef(env, d, env.table[t].def)
    ensures EraseItemsRun(RunItems(g, d, n, fuel, input)) == DirectItems(env, g, t, n, fuel, input)
    decreases fuel, 1, n
  {
    hide RunDecoder, Direct, RepDef;
    if n > 0 && fuel > 0 {
      MeaningPreserved(env, g, d, env.table[t].def, fuel - 1, input);
      var head := RunDecoder(g, d, fuel - 1, input);
      if head.Done? {
        ItemsPreserved(env, g, d, t, n - 1, fuel, head.rest);
        EraseConsItem(head.value, RunItems(g, d, n - 1, fuel, head.rest));
      }
    }
  }

  lemma {:induction false} TuplePreserved(env: Env, g: Graph, fs: seq<Field>, parts: seq<Part>, fuel: nat,
          input: seq<byte>)
    requires Tied(env, g) && RepTuple(env, fs, parts)
    ensures EraseFieldsRun(RunFields(g, fs, fuel, input)) == DirectParts(env, g, parts, fuel, input)
    decreases fuel, 1, |fs|
  {
    hide RunDecoder, Direct, RepDef;
    if fs != [] && fuel > 0 {
      assert RepTupleItem(env, fs[0], parts[0]);
      MeaningPreserved(env, g, fs[0].decoder, env.table[parts[0].ty].def, fuel - 1, input);
      var head := RunDecoder(g, fs[0].decoder, fuel - 1, input);
      if head.Done? {
        TuplePreserved(env, g, fs[1..], parts[1..], fuel, head.rest);
        EraseConsField(DecodedField(fs[0].name, head.value, fs[0].lookupIndex), RunFields(g, fs[1..], fuel, head.rest));
      }
    }
  }

  lemma {:induction false} CompactPreserved(env: Env, g: Graph, d: FieldDecoder, def: TypeDef, fuel: nat,
          input: seq<byte>)
    requires RepCompact(env.table, d, def)
    ensures EraseRun(RunDecoder(g, d, fuel, input)) == DirectCompact(env, def, fuel, input)
    decreases fuel, 2
  {
    match def
    case DefPrimitive(_) =>
    case DefTuple(None) =>
    case DefTuple(Some(items)) => PartsPreserved(env, g, d.fields, TupleParts(items, 0), fuel, input);
    case DefComposite(fields) => PartsPreserved(env, g, d.fields, FieldParts(env.table, fields), fuel, input);
  }

  lemma {:induction false} PartsPreserved(env: Env, g: Graph, fs: seq<Field>, parts: seq<Part>, fuel: nat,
          input: seq<byte>)
    requires RepParts(env.table, fs, parts)
    ensures EraseFieldsRun(RunFields(g, fs, fuel, input)) == CompactParts(env, parts, fuel, input)
    decreases fuel, 1, |fs|
  {
    hide RunDecoder, DirectCompact, RepCompact;
    if fs != [] && fuel > 0 {
      assert RepPart(env.table, fs[0], parts[0]);
      CompactPreserved(env, g, fs[0].decoder, env.table[parts[0].ty].def, fuel - 1, input);
      var head := RunDecoder(g, fs[0].decoder, fuel - 1, input);
      if head.Done? {
        PartsPreserved(env, g, fs[1..], parts[1..], fuel, head.rest);
        EraseConsField(DecodedField(fs[0].name, head.value, fs[0].lookupIndex), RunFields(g, fs[1..], fuel, head.rest));
      }
    }
  }

  lemma EraseConsField(f: DecodedField, r: Run<seq<DecodedField>>)
    ensures EraseFieldsRun(Cons(f, r)) == Cons(f.(value := Erase(f.value)), EraseFieldsRun(r))
  {
    if r.Done? {
      assert ([f] + r.value)[1..] == r.value;
    }
  }

  lemma EraseConsItem(v: Decoded, r: Run<seq<Decoded>>)
    ensures EraseItemsRun(Cons(v, r)) == Cons(Erase(v), EraseItemsRun(r))
  {
    if r.Done? {
      assert ([v] + r.value)[1..] == r.value;
    }
  }
}

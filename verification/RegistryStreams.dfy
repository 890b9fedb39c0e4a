/**
 Decoding with a registry, end to end: the loops over the stream and the heap of recursive decoders
 give what the types of the metadata say.
 */
module RegistryStreams {
  import opened Bytes
  import opened Options
  import opened Compact
  import opened TypeTable
  import opened Decoders
  import opened DecoderStreams
  import opened Meaning
  import opened MetadataV14
  import opened Builds
  import opened Factories
  import opened Registries
  import opened Wire
  import opened TypeForms

  // ------------------------------------------------------------------ the cells of a decoder

  ghost predicate KnotsIn(env: Env, cells: set<RecursiveDecoder>) {
    forall id :: id in env.knots ==> env.knots[id] in cells
  }

  /** Without overrides, the only cells in a decoder that stands for a type are knots. */
  lemma {:induction false} RepDefCells(env: Env, d: FieldDecoder, def: TypeDef, cells: set<RecursiveDecoder>)
    requires RepDef(env, d, def) && env.overrides == map[] && KnotsIn(env, cells)
    ensures CellsIn(d, cells)
    decreases d, 1
  {
    match def
    case DefCompact(t) => RepCompactCells(env.table, d, env.table[t].def, cells);
    case DefComposite(fields) => RepFieldsCells(env, d.fields, fields, cells);
    case DefVariant(variants) =>
      forall b: byte | b in d.byIndex
        ensures CellsIn(d.byIndex[b], cells)
      {
        var v := LastVariant(variants, b).value;
        assert RepVariant(env, d.byIndex[b], v);
        if v.fields != [] {
          RepFieldsCells(env, d.byIndex[b].fields, v.fields, cells);
        }
      }
    case DefArray(n, t) => RepDefCells(env, d.item, env.table[t].def, cells);
    case DefSequence(t) => RepDefCells(env, d.item, env.table[t].def, cells);
    case DefTuple(Some(items)) =>
      var parts := TupleParts(items, 0);
      forall k | 0 <= k < |d.fields|
        ensures CellsIn(d.fields[k].decoder, cells)
      {
        assert RepTupleItem(env, d.fields[k], parts[k]);
        RepDefCells(env, d.fields[k].decoder, env.table[parts[k].ty].def, cells);
      }
    case _ =>
  }

  lemma {:induction false} RepFieldsCells(env: Env, fs: seq<Field>, defs: seq<FieldDef>, cells: set<RecursiveDecoder>)
    requires RepFields(env, fs, defs) && env.overrides == map[] && KnotsIn(env, cells)
    ensures AllCellsIn(fs, cells)
    decreases fs, 0
  {
    forall k | 0 <= k < |fs|
      ensures CellsIn(fs[k].decoder, cells)
    {
      var d, id := fs[k].decoder, defs[k].ty;
      assert RepField(env, fs[k], defs[k]) && RepAt(env, d, id);
      if !d.Recursive? {
        RepDefCells(env, d, env.table[id].def, cells);
      }
    }
  }

  lemma {:induction false} RepCompactCells(table: Table, d: FieldDecoder, def: TypeDef, cells: set<RecursiveDecoder>)
    requires RepCompact(table, d, def)
    ensures CellsIn(d, cells)
    decreases d
  {
    if d.Composite? {
      var parts := if def.DefComposite? then FieldParts(table, def.fields) else TupleParts(def.items.value, 0);
      forall k | 0 <= k < |d.fields|
        ensures CellsIn(d.fields[k].decoder, cells)
      {
        assert RepPart(table, d.fields[k], parts[k]);
        RepCompactCells(table, d.fields[k].decoder, table[parts[k].ty].def, cells);
      }
    }
  }

  /** Following the knots never leaves them. */
  lemma KnotsAreClosed(env: Env)
    requires env.overrides == map[] && Tied(env, GraphOf(KnotCells(env)))
    ensures Closed(KnotCells(env))
  {
    var cells := KnotCells(env);
    assert KnotsIn(env, cells);
    forall c | c in cells && c.fieldDecoder.Some?
      ensures CellsIn(c.fieldDecoder.value, cells)
    {
      var id :| id in env.knots && env.knots[id] == c;
      RepDefCells(env, GraphOf(cells)[c], env.table[id].def, cells);
    }
  }

  // ------------------------------------------------------------------ decoding

  /** What the types of the table alone say. */
  ghost function ByTypes(table: Table, fields: seq<FieldDef>, fuel: nat, input: seq<byte>): Run<seq<DecodedField>> {
    DirectFields(Env(table, map[], map[]), map[], fields, fuel, input)
  }

  /** Without overrides a registry means what the types say, however it was built. */
  lemma RegistryByTypes(env: Env, m: Metadata, kind: Kind, reg: Registry, key: Key, fuel: nat, input: seq<byte>)
    requires Decodes(env, m, kind, reg) && env.overrides == map[] && key in reg
    ensures var o := LastOffer(Offers(m.lookup, m.pallets, kind), key);
      o.Some? &&
      EraseFieldsRun(RunFields(GraphOf(KnotCells(env)), reg[key].fields, fuel, input))
        == ByTypes(m.lookup, o.value.variant.fields, fuel, input)
  {
    var g, os := GraphOf(KnotCells(env)), Offers(m.lookup, m.pallets, kind);
    hide DirectFields, RunFields, RepRegistry, Tied, Offers, GraphOf;
    RegistryMeaning(env, g, reg, os, key, fuel, input);
    assert env.(knots := map[]) == Env(m.lookup, map[], map[]);
    FieldsAreAlone(env, map[], g, map[], LastOffer(os, key).value.variant.fields, fuel, input);
  }

  /** Decoding with an entry gives these fields, with the labels of bit sequences erased. */
  ghost predicate Gives(env: Env, td: TypeDecoder, fuel: nat, input: seq<byte>, fs: seq<DecodedField>, rest: seq<byte>)
    reads KnotCells(env)
  {
    EraseFieldsRun(RunFields(GraphOf(KnotCells(env)), td.fields, fuel, input)) == Done(fs, rest)
  }

  /** The bytes are a form of the fields of a variant. */
  ghost predicate FieldsRead(table: Table, v: VariantItem, fs: seq<DecodedField>, bs: seq<byte>) {
    PartsRead(table, FieldParts(table, v.fields), false, fs, bs)
  }

  /** A registry that was created without overrides has an entry for a key if and only if some pallet has
      a variant with that key. The last such variant gives the entry its name, and the entry decodes a
      stream, under some bound, exactly when the bytes that it takes are a form of the variant's fields. */
  lemma EntryExactly(env: Env, m: Metadata, kind: Kind, reg: Registry, key: Key, input: seq<byte>,
          fs: seq<DecodedField>, rest: seq<byte>)
    requires Decodes(env, m, kind, reg) && env.overrides == map[]
    ensures key in reg <==> exists i: nat, j: nat :: Place(m, kind, key, i, j)
    ensures forall i: nat, j: nat, o :: LastPlace(m, kind, key, i, j) && OfferAt(m, kind, i, j, o) ==>
      && key in reg && reg[key].name == o.pallet.name + "." + o.variant.name
      && ((exists fuel: nat :: Gives(env, reg[key], fuel, input, fs, rest)) <==>
          Leaves(input, rest) && FieldsRead(m.lookup, o.variant, fs, Taken(input, rest)))
  {
    var found := LastOffer(Offers(m.lookup, m.pallets, kind), key);
    LastOfferIsLast(m, kind, key);
    assert key in reg <==> found.Some?;
    hide Place, Offers, LastOffer;
    forall i: nat, j: nat, o | LastPlace(m, kind, key, i, j) && OfferAt(m, kind, i, j, o)
      ensures found == Some(o)
    {
      var i': nat, j': nat :| LastPlace(m, kind, key, i', j') && OfferAt(m, kind, i', j', found.value);
      assert i == i' && j == j';
    }
    if found.Some? {
      assert RepEntry(env, reg[key], found.value);
      EntryReads(env, m, kind, reg, key, input, fs, rest, found.value);
    }
  }

  lemma EntryReads(env: Env, m: Metadata, kind: Kind, reg: Registry, key: Key, input: seq<byte>,
          fs: seq<DecodedField>, rest: seq<byte>, o: Offer)
    requires Decodes(env, m, kind, reg) && env.overrides == map[] && key in reg
    requires LastOffer(Offers(m.lookup, m.pallets, kind), key) == Some(o)
    ensures (exists fuel: nat :: Gives(env, reg[key], fuel, input, fs, rest)) <==>
      Leaves(input, rest) && FieldsRead(m.lookup, o.variant, fs, Taken(input, rest))
  {
    var alone: Env := Env(m.lookup, map[], map[]);
    FieldsExactly(alone, map[], o.variant.fields, input, fs, rest);
    hide Decodes, Gives, DirectGives, PartsRead, LastOffer, Offers, Leaves;
    forall fuel: nat
      ensures Gives(env, reg[key], fuel, input, fs, rest) <==>
        DirectGives(alone, map[], o.variant.fields, fuel, input, fs, rest)
    {
      SameGiven(env, m, kind, reg, key, fuel, input, fs, rest, o);
    }
  }

  lemma SameGiven(env: Env, m: Metadata, kind: Kind, reg: Registry, key: Key, fuel: nat, input: seq<byte>,
          fs: seq<DecodedField>, rest: seq<byte>, o: Offer)
    requires Decodes(env, m, kind, reg) && env.overrides == map[] && key in reg
    requires LastOffer(Offers(m.lookup, m.pallets, kind), key) == Some(o)
    ensures Gives(env, reg[key], fuel, input, fs, rest) <==>
      DirectGives(Env(m.lookup, map[], map[]), map[], o.variant.fields, fuel, input, fs, rest)
  {
    hide Decodes, RunFields, DirectFields, GraphOf, LastOffer, Offers;
    RegistryByTypes(env, m, kind, reg, key, fuel, input);
  }

  lemma TypesRead(table: Table, v: VariantItem, fuel: nat, input: seq<byte>, fs: seq<DecodedField>, rest: seq<byte>)
    requires ByTypes(table, v.fields, fuel, input) == Done(fs, rest)
    ensures Leaves(input, rest) && FieldsRead(table, v, fs, Taken(input, rest))
  {
    hide DirectFields, PartsRead;
    assert DirectGives(Env(table, map[], map[]), map[], v.fields, fuel, input, fs, rest);
    FieldsExactly(Env(table, map[], map[]), map[], v.fields, input, fs, rest);
  }

  /** `TypeDecoder.Decode` with an entry of a registry that was created without overrides: on every
      stream the value, the error and the place where the stream is left are those that the types of
      the metadata give, with the labels of bit sequences erased; and what it gives is read off the bytes. */
  method DecodeEntry(reg: Registry, key: Key, dec: Decoder, fuel: nat, ghost env: Env, ghost m: Metadata,
          ghost kind: Kind)
    returns (r: Run<seq<DecodedField>>)
    requires Decodes(env, m, kind, reg) && env.overrides == map[] && key in reg
    modifies dec
    ensures var o := LastOffer(Offers(m.lookup, m.pallets, kind), key);
      && o.Some? && EraseFieldsRun(r) == ByTypes(m.lookup, o.value.variant.fields, fuel, old(dec.input))
      && (r.Done? ==>
            && Leaves(old(dec.input), r.rest)
            && FieldsRead(m.lookup, o.value.variant, EraseFields(r.value), Taken(old(dec.input), r.rest)))
    ensures LeftAt(r, dec.input)
  {
    ghost var cells := KnotCells(env);
    KnotsAreClosed(env);
    EntryCells(env, m, kind, reg, key);
    RegistryByTypes(env, m, kind, reg, key, fuel, dec.input);
    ghost var o, input := LastOffer(Offers(m.lookup, m.pallets, kind), key), dec.input;
    hide ByTypes, RunFields, Decodes, Closed, AllCellsIn, Offers, LastOffer, PartsRead;
    r := DecodeFields(reg[key].fields, dec, fuel, cells);
    if r.Done? {
      TypesRead(m.lookup, o.value.variant, fuel, input, EraseFields(r.value), r.rest);
    }
  }

  lemma EntryCells(env: Env, m: Metadata, kind: Kind, reg: Registry, key: Key)
    requires Decodes(env, m, kind, reg) && env.overrides == map[] && key in reg
    ensures AllCellsIn(reg[key].fields, KnotCells(env))
  {
    var o := LastOffer(Offers(m.lookup, m.pallets, kind), key).value;
    assert RepEntry(env, reg[key], o);
    RepFieldsCells(env, reg[key].fields, o.variant.fields, KnotCells(env));
  }

  /** One factory makes two registries, from any metadata, and the first still decodes: what the second
      build changes is not what the first refers to. */
  method CreateBoth(f: Factory, m: Metadata, first: Kind, m': Metadata, second: Kind)
    returns (a: Build<Registry, BuildError>, b: Build<Registry, BuildError>, ghost env: Env, ghost env': Env)
    requires f.Ends(m, first) && f.Ends(m', second)
    modifies f
    ensures a.Built? ==> Decodes(env, m, first, a.value) && env.overrides == f.Overrides()
    ensures b.Built? ==> Decodes(env', m', second, b.value) && env'.overrides == f.Overrides()
  {
    hide RepRegistry, Offers, Tied, RegistryEnds, CanBuild;
    a := f.CreateRegistry(m, first);
    env := f.EnvOf(m.lookup);
    if a.Built? {
      CreatedDecodes(f, m, first, a.value);
    }
    b := f.CreateRegistry(m', second);
    env' := f.EnvOf(m'.lookup);
    if b.Built? {
      CreatedDecodes(f, m', second, b.value);
    }
  }
}

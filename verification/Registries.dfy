/**
 What the registries are for: decoding with a built registry is decoding by the types of the
 metadata, its recursive decoders are all resolved, and its keys and names are the ones the
 metadata lookups give.
 */
module Registries {
  import opened Bytes
  import opened Options
  import opened TypeTable
  import opened Decoders
  import opened Meaning
  import opened MetadataV14
  import opened Factories

  // ------------------------------------------------------------------ meaning

  /** Knots that are tied in the heap are tied in the graph of any cells that include them. */
  lemma TiedInHeap(f: Factory, table: Table, cells: set<RecursiveDecoder>)
    requires f.KnotsTied(table)
    requires forall id :: id in f.recursiveFieldStorage ==> f.recursiveFieldStorage[id] in cells
    ensures Tied(f.EnvOf(table), GraphOf(cells))
  {
  }

  ghost function KnotCells(env: Env): set<RecursiveDecoder> {
    set id | id in env.knots :: env.knots[id]
  }

  /** What a registry needs in order to decode, apart from the factory that made it: its entries stand
      for the offers of the metadata, under some knots, and the knots are tied in the heap. */
  ghost predicate Decodes(env: Env, m: Metadata, kind: Kind, reg: Registry)
    reads KnotCells(env)
  {
    && env.table == m.lookup
    && RepRegistry(env, reg, Offers(m.lookup, m.pallets, kind))
    && Tied(env, GraphOf(KnotCells(env)))
  }

  /** A registry that was created is such. */
  lemma CreatedDecodes(f: Factory, m: Metadata, kind: Kind, reg: Registry)
    requires RepRegistry(f.EnvOf(m.lookup), reg, Offers(m.lookup, m.pallets, kind)) && f.KnotsTied(m.lookup)
    ensures Decodes(f.EnvOf(m.lookup), m, kind, reg)
  {
    TiedInHeap(f, m.lookup, KnotCells(f.EnvOf(m.lookup)));
  }

  /** It decodes every item as its type says: the same value with the labels of bit sequences erased,
      the same error, the same bytes left, on every input and at every depth bound. */
  lemma RegistryMeaning(env: Env, g: Graph, reg: Registry, os: seq<Offer>, key: Key, fuel: nat, input: seq<byte>)
    requires RepRegistry(env, reg, os) && Tied(env, g) && key in reg
    ensures var o := LastOffer(os, key);
      o.Some? &&
      EraseFieldsRun(RunFields(g, reg[key].fields, fuel, input)) == DirectFields(env, g, o.value.variant.fields,
        fuel, input)
  {
    hide RepFields, DirectFields, RunFields, Tied;
    assert RepEntry(env, reg[key], LastOffer(os, key).value);
    FieldsPreserved(env, g, reg[key].fields, LastOffer(os, key).value.variant.fields, fuel, input);
  }

  /** Without overrides the direct decoder looks at nothing but the table: not at the graph, nor
      at the knots. So the meaning that a registry keeps does not depend on how it was built. */
  lemma {:induction false} DirectIsAlone(env: Env, knots: map<int, RecursiveDecoder>, g: Graph, h: Graph,
          def: TypeDef, fuel: nat, input: seq<byte>)
    requires env.overrides == map[]
    ensures Direct(env, g, def, fuel, input) == Direct(env.(knots := knots), h, def, fuel, input)
    decreases fuel, 3
  {
    match def
    case DefCompact(t) => if t in env.table { CompactIsAlone(env, knots, env.table[t].def, fuel, input); }
    case DefComposite(fields) => FieldsAreAlone(env, knots, g, h, fields, fuel, input);
    case DefVariant(variants) =>
      if input != [] && fuel > 0 {
        var v := LastVariant(variants, input[0]);
        if v.Some? {
          FieldsAreAlone(env, knots, g, h, v.value.fields, fuel - 1, input[1..]);
        }
      }
    case DefArray(n, t) => ItemsAreAlone(env, knots, g, h, t, n, fuel, input);
    case DefSequence(t) =>
      var len := RunLength(input);
      if len.Done? {
        ItemsAreAlone(env, knots, g, h, t, len.value, fuel, len.rest);
      }
    case DefTuple(Some(items)) => PartsAreAlone(env, knots, g, h, TupleParts(items, 0), fuel, input);
    case _ =>
  }

  lemma {:induction false} FieldsAreAlone(env: Env, knots: map<int, RecursiveDecoder>, g: Graph, h: Graph,
          fields: seq<FieldDef>, fuel: nat, input: seq<byte>)
    requires env.overrides == map[]
    ensures DirectFields(env, g, fields, fuel, input) == DirectFields(env.(knots := knots), h, fields, fuel, input)
    decreases fuel, 1, |fields|
  {
    hide Direct;
    if fields != [] && fuel > 0 && fields[0].ty in env.table {
      DirectIsAlone(env, knots, g, h, env.table[fields[0].ty].def, fuel - 1, input);
      var head := Direct(env, g, env.table[fields[0].ty].def, fuel - 1, input);
      if head.Done? {
        FieldsAreAlone(env, knots, g, h, fields[1..], fuel, head.rest);
      }
    }
  }

  lemma {:induction false} ItemsAreAlone(env: Env, knots: map<int, RecursiveDecoder>, g: Graph, h: Graph, t: int,
          n: nat, fuel: nat, input: seq<byte>)
    requires env.overrides == map[]
    ensures DirectItems(env, g, t, n, fuel, input) == DirectItems(env.(knots := knots), h, t, n, fuel, input)
    decreases fuel, 1, n
  {
    hide Direct;
    if n > 0 && fuel > 0 && t in env.table {
      DirectIsAlone(env, knots, g, h, env.table[t].def, fuel - 1, input);
      var head := Direct(env, g, env.table[t].def, fuel - 1, input);
      if head.Done? {
        ItemsAreAlone(env, knots, g, h, t, n - 1, fuel, head.rest);
      }
    }
  }

  lemma {:induction false} PartsAreAlone(env: Env, knots: map<int, RecursiveDecoder>, g: Graph, h: Graph,
          parts: seq<Part>, fuel: nat, input: seq<byte>)
    requires env.overrides == map[]
    ensures DirectParts(env, g, parts, fuel, input) == DirectParts(env.(knots := knots), h, parts, fuel, input)
    decreases fuel, 1, |parts|
  {
    hide Direct;
    if parts != [] && fuel > 0 && parts[0].ty in env.table {
      DirectIsAlone(env, knots, g, h, env.table[parts[0].ty].def, fuel - 1, input);
      var head := Direct(env, g, env.table[parts[0].ty].def, fuel - 1, input);
      if head.Done? {
        PartsAreAlone(env, knots, g, h, parts[1..], fuel, head.rest);
      }
    }
  }

  lemma {:induction false} CompactIsAlone(env: Env, knots: map<int, RecursiveDecoder>, def: TypeDef, fuel: nat,
          input: seq<byte>)
    ensures DirectCompact(env, def, fuel, input) == DirectCompact(env.(knots := knots), def, fuel, input)
    decreases fuel, 2
  {
    match def
    case DefTuple(Some(items)) => CompactPartsAlone(env, knots, TupleParts(items, 0), fuel, input);
    case DefComposite(fields) => CompactPartsAlone(env, knots, FieldParts(env.table, fields), fuel, input);
    case _ =>
  }

  lemma {:induction false} CompactPartsAlone(env: Env, knots: map<int, RecursiveDecoder>, parts: seq<Part>,
          fuel: nat, input: seq<byte>)
    ensures CompactParts(env, parts, fuel, input) == CompactParts(env.(knots := knots), parts, fuel, input)
    decreases fuel, 1, |parts|
  {
    hide DirectCompact;
    if parts != [] && fuel > 0 && parts[0].ty in env.table {
      CompactIsAlone(env, knots, env.table[parts[0].ty].def, fuel - 1, input);
      var head := DirectCompact(env, env.table[parts[0].ty].def, fuel - 1, input);
      if head.Done? {
        CompactPartsAlone(env, knots, parts[1..], fuel, head.rest);
      }
    }
  }

  // ------------------------------------------------------------------ the depth bound

  /** A run that came to an end is the same run under every larger bound, so what a decoder
      yields does not depend on it. */
  lemma {:induction false} MoreFuel(g: Graph, d: FieldDecoder, fuel: nat, more: nat, input: seq<byte>)
    requires fuel <= more && !RunDecoder(g, d, fuel, input).Exhausted?
    ensures RunDecoder(g, d, more, input) == RunDecoder(g, d, fuel, input)
    decreases fuel, if d.Recursive? then 3 else 2
  {
    match d
    case Composite(_, fields) => MoreFuelFields(g, fields, fuel, more, input);
    case Variant(byIndex) =>
      if input != [] && input[0] in byIndex && !byIndex[input[0]].Noop? {
        MoreFuel(g, byIndex[input[0]], fuel - 1, more - 1, input[1..]);
      }
    case ArrayOf(n, item) => MoreFuelItems(g, item, n, fuel, more, input);
    case SliceOf(item) =>
      var len := RunLength(input);
      if len.Done? {
        MoreFuelItems(g, item, len.value, fuel, more, len.rest);
      }
    case Recursive(cell) =>
      if cell in g {
        if !g[cell].Recursive? {
          MoreFuel(g, g[cell], fuel, more, input);
        } else {
          MoreFuel(g, g[cell], fuel - 1, more - 1, input);
        }
      }
    case _ =>
  }

  lemma {:induction false} MoreFuelFields(g: Graph, fs: seq<Field>, fuel: nat, more: nat, input: seq<byte>)
    requires fuel <= more && !RunFields(g, fs, fuel, input).Exhausted?
    ensures RunFields(g, fs, more, input) == RunFields(g, fs, fuel, input)
    decreases fuel, 1, |fs|
  {
    hide RunDecoder;
    if fs != [] {
      MoreFuel(g, fs[0].decoder, fuel - 1, more - 1, input);
      var head := RunDecoder(g, fs[0].decoder, fuel - 1, input);
      if head.Done? {
        MoreFuelFields(g, fs[1..], fuel, more, head.rest);
      }
    }
  }

  lemma {:induction false} MoreFuelItems(g: Graph, d: FieldDecoder, n: nat, fuel: nat, more: nat, input: seq<byte>)
    requires fuel <= more && !RunItems(g, d, n, fuel, input).Exhausted?
    ensures RunItems(g, d, n, more, input) == RunItems(g, d, n, fuel, input)
    decreases fuel, 1, n
  {
    hide RunDecoder;
    if n > 0 {
      MoreFuel(g, d, fuel - 1, more - 1, input);
      var head := RunDecoder(g, d, fuel - 1, input);
      if head.Done? {
        MoreFuelItems(g, d, n - 1, fuel, more, head.rest);
      }
    }
  }

  // ------------------------------------------------------------------ no loose ends

  /** `cell` is met by following `d`, through at most `hops` other cells. */
  ghost predicate Reaches(g: Graph, d: FieldDecoder, hops: nat, cell: RecursiveDecoder)
    decreases hops, d
  {
    match d
    case Composite(_, fields) => exists i :: 0 <= i < |fields| && Reaches(g, fields[i].decoder, hops, cell)
    case Variant(byIndex) => exists b :: b in byIndex && Reaches(g, byIndex[b], hops, cell)
    case ArrayOf(_, item) => Reaches(g, item, hops, cell)
    case SliceOf(item) => Reaches(g, item, hops, cell)
    case Recursive(c) => c == cell || (c in g && hops > 0 && Reaches(g, g[c], hops - 1, cell))
    case _ => false
  }

  /** Without overrides, every recursive decoder that can be reached from a built decoder
      holds a target, and the target is not itself a recursive decoder. */
  lemma {:induction false} ReachedIsTied(env: Env, g: Graph, d: FieldDecoder, def: TypeDef, hops: nat,
          cell: RecursiveDecoder)
    requires Tied(env, g) && env.overrides == map[] && RepDef(env, d, def) && Reaches(g, d, hops, cell)
    ensures cell in g && !g[cell].Recursive?
    decreases hops, d, 2
  {
    match def
    case DefCompact(t) => CompactHasNoCells(env.table, g, d, env.table[t].def, hops, cell);
    case DefComposite(fields) => ReachedFieldIsTied(env, g, d.fields, fields, hops, cell);
    case DefVariant(variants) =>
      var b :| b in d.byIndex && Reaches(g, d.byIndex[b], hops, cell);
      ReachedFieldIsTied(env, g, d.byIndex[b].fields, LastVariant(variants, b).value.fields, hops, cell);
    case DefArray(n, t) => ReachedIsTied(env, g, d.item, env.table[t].def, hops, cell);
    case DefSequence(t) => ReachedIsTied(env, g, d.item, env.table[t].def, hops, cell);
    case DefTuple(Some(items)) =>
      var parts := TupleParts(items, 0);
      var i :| 0 <= i < |d.fields| && Reaches(g, d.fields[i].decoder, hops, cell);
      assert RepTupleItem(env, d.fields[i], parts[i]);
      ReachedIsTied(env, g, d.fields[i].decoder, env.table[parts[i].ty].def, hops, cell);
  }

  lemma {:induction false} ReachedFieldIsTied(env: Env, g: Graph, fs: seq<Field>, defs: seq<FieldDef>, hops: nat,
          cell: RecursiveDecoder)
    requires Tied(env, g) && env.overrides == map[] && RepFields(env, fs, defs)
    requires exists i :: 0 <= i < |fs| && Reaches(g, fs[i].decoder, hops, cell)
    ensures cell in g && !g[cell].Recursive?
    decreases hops, fs, 1
  {
    var i :| 0 <= i < |fs| && Reaches(g, fs[i].decoder, hops, cell);
    var d, id := fs[i].decoder, defs[i].ty;
    assert RepField(env, fs[i], defs[i]) && RepAt(env, d, id);
    if d.Recursive? {
      if d.cell != cell {
        ReachedIsTied(env, g, g[d.cell], env.table[id].def, hops - 1, cell);
      }
    } else {
      ReachedIsTied(env, g, d, env.table[id].def, hops, cell);
    }
  }

  /** So it is with every recursive decoder that can be reached from an entry of a registry. */
  lemma RegistryIsTied(env: Env, g: Graph, reg: Registry, os: seq<Offer>, key: Key, i: nat, hops: nat,
          cell: RecursiveDecoder)
    requires RepRegistry(env, reg, os) && Tied(env, g) && env.overrides == map[] && key in reg
    requires i < |reg[key].fields| && Reaches(g, reg[key].fields[i].decoder, hops, cell)
    ensures cell in g && !g[cell].Recursive?
  {
    hide Tied, RepFields;
    assert RepEntry(env, reg[key], LastOffer(os, key).value);
    ReachedFieldIsTied(env, g, reg[key].fields, LastOffer(os, key).value.variant.fields, hops, cell);
  }

  lemma {:induction false} CompactHasNoCells(table: Table, g: Graph, d: FieldDecoder, def: TypeDef, hops: nat,
          cell: RecursiveDecoder)
    requires RepCompact(table, d, def)
    ensures !Reaches(g, d, hops, cell)
    decreases d
  {
    if d.Composite? {
      var parts := if def.DefComposite? then FieldParts(table, def.fields) else TupleParts(def.items.value, 0);
      forall i | 0 <= i < |d.fields|
        ensures !Reaches(g, d.fields[i].decoder, hops, cell)
      {
        assert RepPart(table, d.fields[i], parts[i]);
        CompactHasNoCells(table, g, d.fields[i].decoder, table[parts[i].ty].def, hops, cell);
      }
    }
  }

  // ------------------------------------------------------------------ agreement with the metadata

  /** An event id is a key of the event registry exactly when `FindEventNamesForEventID` has
      names for it; with distinct keys it is registered under those names. */
  lemma EventRegistryAgrees(env: Env, m: Metadata, reg: Registry, id: Key, r: Option<(string, string)>)
    requires RepRegistry(env, reg, Offers(m.lookup, m.pallets, Events)) && NamesEvent(m, id, r)
    ensures id in reg <==> r.Some?
    ensures r.Some? && UniqueKeys(Offers(m.lookup, m.pallets, Events)) ==> reg[id].name == r.value.0 + "." + r.value.1
  {
    var os := Offers(m.lookup, m.pallets, Events);
    if r.Some? {
      var o :| Offered(m, Events, o) && KeyOf(o) == id && r.value == (o.pallet.name, o.variant.name);
      assert LastOffer(os, id).Some?;
      if UniqueKeys(os) {
        UniqueOffer(os, o);
        assert RepEntry(env, reg[id], o);
      }
    } else {
      assert LastOffer(os, id).None?;
    }
  }

  /** What `FindCallIndex` finds for "pallet.call" is a key of the call registry, with distinct
      keys registered under that very name; and it finds every call that is offered. */
  lemma CallRegistryAgrees(env: Env, m: Metadata, reg: Registry, pallet: string, call: string, r: CallLookup)
    requires '.' !in pallet && '.' !in call
    requires RepRegistry(env, reg, Offers(m.lookup, m.pallets, Calls)) && FindsCall(m, pallet + "." + call, r)
    ensures !r.IndexPanic?
    ensures r.Found? ==> r.key in reg
    ensures r.Found? && UniqueKeys(Offers(m.lookup, m.pallets, Calls)) ==> reg[r.key].name == pallet + "." + call
    ensures r.NotFound? ==> forall o :: Offered(m, Calls, o) && o.pallet.name == pallet ==> o.variant.name != call
  {
    var os := Offers(m.lookup, m.pallets, Calls);
    SplitOneDot(pallet, call);
    if r.Found? {
      var o :| CallNamed(m, o, pallet) && o.variant.name == call && KeyOf(o) == r.key;
      assert LastOffer(os, r.key).Some?;
      if UniqueKeys(os) {
        UniqueOffer(os, o);
        assert RepEntry(env, reg[r.key], o);
      }
    } else {
      assert forall o :: Offered(m, Calls, o) && o.pallet.name == pallet ==> CallNamed(m, o, pallet);
    }
  }

  /** The key of the error registry is an index followed by three zero bytes. */
  predicate ErrorKey(reg: Registry, moduleIndex: byte, errorIndex: seq<byte>)
    requires |errorIndex| == 4
  {
    errorIndex[1..] == [0, 0, 0] && (moduleIndex, errorIndex[0]) in reg
  }

  /** With distinct pallet indices, an error is in the registry exactly when `FindError` finds
      it and its last three bytes are zero; `FindError` ignores those bytes. With distinct keys
      it is registered under the name of the pallet and the name that `FindError` gives. */
  lemma ErrorRegistryAgrees(env: Env, m: Metadata, reg: Registry, moduleIndex: byte, errorIndex: seq<byte>,
          r: Option<VariantItem>)
    requires |errorIndex| == 4 && DistinctPallets(m.pallets)
    requires RepRegistry(env, reg, Offers(m.lookup, m.pallets, Errors)) &&
      FindsError(m, (moduleIndex, errorIndex[0]), r)
    ensures ErrorKey(reg, moduleIndex, errorIndex) <==> r.Some? && errorIndex[1..] == [0, 0, 0]
    ensures r.Some? && UniqueKeys(Offers(m.lookup, m.pallets, Errors)) ==>
      (var key := (moduleIndex, errorIndex[0]);
       key in reg && exists p ::
         p in m.pallets && p.index == moduleIndex && reg[key].name == p.name + "." + r.value.name)
  {
    var os := Offers(m.lookup, m.pallets, Errors);
    FindsErrorOffered(m, (moduleIndex, errorIndex[0]), r);
    if r.Some? {
      assert LastOffer(os, (moduleIndex, errorIndex[0])).Some?;
      var o :| Offered(m, Errors, o) && KeyOf(o) == (moduleIndex, errorIndex[0]) && o.variant == r.value;
      OfferFromPallet(m.lookup, m.pallets, Errors);
      if UniqueKeys(os) {
        UniqueOffer(os, o);
        assert RepEntry(env, reg[KeyOf(o)], o);
        assert o.pallet in m.pallets;
      }
    } else {
      assert LastOffer(os, (moduleIndex, errorIndex[0])).None?;
    }
  }
}

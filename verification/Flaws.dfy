/**
 What a failed build says about the metadata: every error names a flaw of a type that can be reached.
 The flaws are stated on the table alone.
 */
module Flaws {
  import opened TypeTable
  import opened MetadataV14
  import opened Support
  import opened Walks
  import opened Tracks
  import opened Builds

  // ------------------------------------------------------------------ flaws

  predicate Missing(table: Table, ids: seq<int>) {
    exists k :: 0 <= k < |ids| && ids[k] !in table
  }

  /** The last entry of the path of an order type. */
  predicate NamesOrder(t: TypeInfo) {
    t.path != [] && (t.path[|t.path| - 1] == "Lsb0" || t.path[|t.path| - 1] == "Msb0")
  }

  /** What is wrong with a type that is built as it is. */
  predicate Flaw(table: Table, def: TypeDef, e: TypeError) {
    match (def, e)
    case (DefArray(_, t), ArrayFieldTypeNotFound) => t !in table
    case (DefSequence(t), VectorFieldTypeNotFound) => t !in table
    case (DefTuple(Some(items)), TupleItemTypeNotFound) => Missing(table, items)
    case (DefCompact(t), CompactFieldTypeNotFound) => t !in table
    case (DefPrimitive(code), PrimitiveTypeNotSupported) => code > 14
    case (DefHistoric, TypeDefinitionNotSupported) => true
    case (DefBitSequence(store, _), BitStoreTypeNotFound) => store !in table
    case (DefBitSequence(store, _), BitStoreTypeNotSupported) => store in table && table[store].def != DefPrimitive(3)
    case (DefBitSequence(_, order), BitOrderTypeNotFound) => order !in table
    case (DefBitSequence(_, order), BitOrderNotSupported) => order in table && !NamesOrder(table[order])
    case _ => false
  }

  /** What is wrong with a type that is built in compact mode. */
  predicate CompactFlaw(table: Table, def: TypeDef, e: TypeError) {
    match (def, e)
    case (DefTuple(Some(items)), CompactTupleItemTypeNotFound) => Missing(table, items)
    case (DefComposite(fields), CompactCompositeFieldTypeNotFound) =>
      exists k :: 0 <= k < |fields| && fields[k].ty !in table
    case (_, UnsupportedCompactType) => !def.DefPrimitive? && !def.DefTuple? && !def.DefComposite?
    case _ => false
  }

  /** The types that a build can reach: as types of fields, as they are, and in compact mode. */
  datatype Area = Area(met: set<int>, live: set<int>, compact: set<int>)

  ghost predicate InCompact(table: Table, area: Area, id: int, e: TypeError) {
    id in area.compact && id in table && CompactFlaw(table, table[id].def, e)
  }

  ghost predicate InLive(table: Table, area: Area, id: int, e: TypeError) {
    id in area.live && id in table && Flaw(table, table[id].def, e)
  }

  /** A type in the area has the flaw that an error names. */
  ghost predicate Explained(table: Table, area: Area, e: TypeError) {
    || (e == FieldTypeNotFound && exists t :: t in area.met && t !in table)
    || (exists id :: InLive(table, area, id, e))
    || (exists id :: InCompact(table, area, id, e))
  }

  /** No walk leaves the area. */
  ghost predicate Enclosed(table: Table, ov: OverrideDecoders, area: Area) {
    && Closed(table, ov, area.met, area.live)
    && (forall id :: id in area.live && id in table && table[id].def.DefCompact? && table[id].def.inner in table ==>
          table[id].def.inner in area.compact)
    && (forall id, t :: id in area.compact && id in table && t in CompactEdges(table[id].def) && t in table ==>
          t in area.compact)
  }

  // ------------------------------------------------------------------ every error is explained

  lemma {:induction false} FieldsFail(table: Table, ov: OverrideDecoders, area: Area, fields: seq<FieldDef>, w: Walked,
          fuel: nat)
    requires Enclosed(table, ov, area) && FieldsIn(area.met, fields) && ov.Keys <= w.seen
    requires WalkFields(table, fields, w, fuel).Fail?
    ensures Explained(table, area, WalkFields(table, fields, w, fuel).error)
    decreases fuel, 1, |fields|
  {
    hide WalkField, Enclosed, Explained;
    if fields != [] {
      var n := |fields| - 1;
      var before := WalkFields(table, fields[..n], w, fuel);
      if before.Ok? {
        FieldFails(table, ov, area, fields[n], before.value, fuel);
      } else {
        FieldsFail(table, ov, area, fields[..n], w, fuel);
      }
    }
  }

  lemma {:induction false} FieldFails(table: Table, ov: OverrideDecoders, area: Area, field: FieldDef, w: Walked,
          fuel: nat)
    requires Enclosed(table, ov, area) && field.ty in area.met && ov.Keys <= w.seen
    requires WalkField(table, field, w, fuel).Fail?
    ensures Explained(table, area, WalkField(table, field, w, fuel).error)
    decreases fuel, 0
  {
    hide WalkDef, StaysIn;
    var id := field.ty;
    if id in table {
      DefFails(table, ov, area, id, Visit(w, id), fuel - 1);
    }
  }

  lemma {:induction false} DefFails(table: Table, ov: OverrideDecoders, area: Area, id: int, w: Walked, fuel: nat)
    requires Enclosed(table, ov, area) && id in area.live && id in table && ov.Keys <= w.seen
    requires WalkDef(table, table[id].def, w, fuel).Fail?
    ensures Explained(table, area, WalkDef(table, table[id].def, w, fuel).error)
    decreases fuel, 3
  {
    var def := table[id].def;
    assert StaysIn(table, area.met, area.live, def);
    hide WalkFields, WalkVariants, WalkItems, WalkItem, WalkPart, Explained, Closed;
    match def
    case DefComposite(fields) => FieldsFail(table, ov, area, fields, w, fuel);
    case DefVariant(vs) => VariantsFail(table, ov, area, vs, w, fuel);
    case DefArray(_, t) => ItemFails(table, ov, area, id, t, ArrayFieldTypeNotFound, w, fuel);
    case DefSequence(t) => ItemFails(table, ov, area, id, t, VectorFieldTypeNotFound, w, fuel);
    case DefTuple(Some(items)) => ItemsFail(table, ov, area, id, items, TupleItemTypeNotFound, w, fuel);
    case DefCompact(t) =>
      assert t !in table ==> Flaw(table, def, CompactFieldTypeNotFound);
      PartFails(table, ov, area, t, CompactFieldTypeNotFound, fuel);
      if t !in table { LiveFlaw(table, area, id, CompactFieldTypeNotFound); }
    case DefTuple(None) =>
    case _ =>
      assert Flaw(table, def, WalkDef(table, def, w, fuel).error);
      LiveFlaw(table, area, id, WalkDef(table, def, w, fuel).error);
  }

  lemma LiveFlaw(table: Table, area: Area, id: int, e: TypeError)
    requires id in area.live && id in table && Flaw(table, table[id].def, e)
    ensures Explained(table, area, e)
  {
    assert InLive(table, area, id, e);
  }

  lemma CompactFlawed(table: Table, area: Area, id: int, e: TypeError)
    requires id in area.compact && id in table && CompactFlaw(table, table[id].def, e)
    ensures Explained(table, area, e)
  {
    assert InCompact(table, area, id, e);
  }

  lemma {:induction false} VariantsFail(table: Table, ov: OverrideDecoders, area: Area, vs: seq<VariantItem>, w: Walked,
          fuel: nat)
    requires Enclosed(table, ov, area) && DefFieldsIn(area.met, DefVariant(vs)) && ov.Keys <= w.seen
    requires WalkVariants(table, vs, w, fuel).Fail?
    ensures Explained(table, area, WalkVariants(table, vs, w, fuel).error)
    decreases fuel, 2, |vs|
  {
    hide WalkFields, Enclosed, Explained, FieldsIn;
    if vs != [] {
      var n := |vs| - 1;
      var before := WalkVariants(table, vs[..n], w, fuel);
      if before.Ok? {
        assert FieldsIn(area.met, vs[n].fields);
        FieldsFail(table, ov, area, vs[n].fields, before.value, fuel);
      } else {
        VariantsFail(table, ov, area, vs[..n], w, fuel);
      }
    }
  }

  lemma {:induction false} ItemsFail(table: Table, ov: OverrideDecoders, area: Area, id: int, items: seq<int>,
          missing: TypeError, w: Walked, fuel: nat)
    requires Enclosed(table, ov, area) && id in area.live && id in table && ov.Keys <= w.seen
    requires Missing(table, items) ==> Flaw(table, table[id].def, missing)
    requires forall t :: t in items && t in table ==> t in area.live
    requires WalkItems(table, items, missing, w, fuel).Fail?
    ensures Explained(table, area, WalkItems(table, items, missing, w, fuel).error)
    decreases fuel, 1, |items|
  {
    hide WalkItem, Enclosed, Explained, Flaw;
    if items != [] {
      var n := |items| - 1;
      var before := WalkItems(table, items[..n], missing, w, fuel);
      if before.Ok? {
        var t := items[n];
        assert t in items;
        ItemFails(table, ov, area, id, t, missing, before.value, fuel);
      } else {
        assert Missing(table, items[..n]) ==> Missing(table, items);
        ItemsFail(table, ov, area, id, items[..n], missing, w, fuel);
      }
    }
  }

  lemma {:induction false} ItemFails(table: Table, ov: OverrideDecoders, area: Area, id: int, t: int,
          missing: TypeError, w: Walked, fuel: nat)
    requires Enclosed(table, ov, area) && id in area.live && id in table && ov.Keys <= w.seen
    requires t !in table ==> Flaw(table, table[id].def, missing)
    requires t in table ==> t in area.live
    requires WalkItem(table, t, missing, w, fuel).Fail?
    ensures Explained(table, area, WalkItem(table, t, missing, w, fuel).error)
    decreases fuel, 0
  {
    hide WalkDef, Enclosed, Explained, Flaw;
    if t in table {
      DefFails(table, ov, area, t, VisitItem(w, t), fuel - 1);
    } else {
      LiveFlaw(table, area, id, missing);
    }
  }

  lemma {:induction false} CompactFails(table: Table, ov: OverrideDecoders, area: Area, id: int, fuel: nat)
    requires Enclosed(table, ov, area) && id in area.compact && id in table
    requires WalkCompact(table, table[id].def, fuel).Fail?
    ensures Explained(table, area, WalkCompact(table, table[id].def, fuel).error)
    decreases fuel, 2
  {
    hide WalkParts, Explained;
    var def := table[id].def;
    match def
    case DefTuple(Some(items)) => PartsFail(table, ov, area, id, items, CompactTupleItemTypeNotFound, fuel);
    case DefComposite(fields) =>
      PartsFail(table, ov, area, id, CompactEdges(def), CompactCompositeFieldTypeNotFound, fuel);
    case _ => CompactFlawed(table, area, id, UnsupportedCompactType);
  }

  lemma {:induction false} PartsFail(table: Table, ov: OverrideDecoders, area: Area, id: int, ids: seq<int>,
          missing: TypeError, fuel: nat)
    requires Enclosed(table, ov, area) && id in area.compact && id in table
    requires Missing(table, ids) ==> CompactFlaw(table, table[id].def, missing)
    requires forall t :: t in ids && t in table ==> t in area.compact
    requires WalkParts(table, ids, missing, fuel).Fail?
    ensures Explained(table, area, WalkParts(table, ids, missing, fuel).error)
    decreases fuel, 1, |ids|
  {
    hide WalkPart, Enclosed, Explained, CompactFlaw;
    if ids != [] {
      var n := |ids| - 1;
      if WalkParts(table, ids[..n], missing, fuel).Ok? {
        var t := ids[n];
        assert t in ids;
        if t in table {
          PartFails(table, ov, area, t, missing, fuel);
        } else {
          assert Missing(table, ids);
          assert WalkPart(table, t, missing, fuel) == Fail(missing) by {
            MissingPart(table, t, missing, fuel);
          }
          CompactFlawed(table, area, id, missing);
        }
      } else {
        assert Missing(table, ids[..n]) ==> Missing(table, ids);
        PartsFail(table, ov, area, id, ids[..n], missing, fuel);
      }
    }
  }

  lemma MissingPart(table: Table, t: int, missing: TypeError, fuel: nat)
    requires t !in table
    ensures WalkPart(table, t, missing, fuel) == Fail(missing)
  {
  }

  lemma {:induction false} PartFails(table: Table, ov: OverrideDecoders, area: Area, t: int, missing: TypeError,
          fuel: nat)
    requires Enclosed(table, ov, area) && (t in table ==> t in area.compact)
    requires WalkPart(table, t, missing, fuel).Fail?
    ensures t in table ==> Explained(table, area, WalkPart(table, t, missing, fuel).error)
    ensures t !in table ==> WalkPart(table, t, missing, fuel).error == missing
    decreases fuel, 0
  {
    hide WalkCompact, Enclosed, Explained;
    if t in table {
      CompactFails(table, ov, area, t, fuel - 1);
    }
  }

  // ------------------------------------------------------------------ registries

  /** What the build of a registry can reach. */
  ghost function AreaOf(m: Metadata, kind: Kind, ov: set<int>): Area {
    var roots := Roots(m, kind);
    Area(Met(m.lookup, ov, roots), Live(m.lookup, ov, roots), CompactLive(m.lookup, ov, roots))
  }

  lemma AreaIsEnclosed(m: Metadata, kind: Kind, ov: OverrideDecoders)
    ensures Enclosed(m.lookup, ov, AreaOf(m, kind, ov.Keys))
  {
    var table, roots, area := m.lookup, Roots(m, kind), AreaOf(m, kind, ov.Keys);
    ReachedIsClosed(table, ov, roots);
    hide Met, Live, CompactLive, Roots, Closed;
    forall id | id in area.live && id in table && table[id].def.DefCompact? && table[id].def.inner in table
      ensures table[id].def.inner in area.compact
    {
      LiveCompact(table, ov, roots, id);
    }
    forall id, t | id in area.compact && id in table && t in CompactEdges(table[id].def) && t in table
      ensures t in area.compact
    {
      CompactLiveItems(table, ov, roots, id, t);
    }
  }

  /** A pallet names a type that is missing, or one that is no variant. */
  ghost predicate PalletFlaw(m: Metadata, kind: Kind, i: nat, e: TypeError) {
    i < |m.pallets| &&
    var p := m.pallets[i];
    var id := match kind case Calls => p.calls case Events => p.events case Errors => p.errors;
    id.Some? &&
    match e
    case RegistryTypeNotFound => id.value !in m.lookup
    case RegistryTypeNotVariant => id.value in m.lookup && !m.lookup[id.value].def.DefVariant?
    case _ => false
  }

  /** The error of a build names a flaw of a pallet, or of a type that can be reached from the fields. */
  lemma {:induction false} ErrorIsFlaw(m: Metadata, kind: Kind, ov: OverrideDecoders, n: nat, fuel: nat)
    requires n <= |m.pallets| && WalkPallets(m, kind, ov.Keys, n, fuel).Fail?
    ensures var e := WalkPallets(m, kind, ov.Keys, n, fuel).error;
      (exists i: nat :: PalletFlaw(m, kind, i, e)) || Explained(m.lookup, AreaOf(m, kind, ov.Keys), e)
  {
    hide AreaOf, Explained, WalkVariants;
    var before := WalkPallets(m, kind, ov.Keys, n - 1, fuel);
    if before.Ok? {
      PalletFails(m, kind, ov, n - 1, before.value, fuel);
    } else {
      ErrorIsFlaw(m, kind, ov, n - 1, fuel);
    }
  }

  lemma RootsAreMet(m: Metadata, kind: Kind, ov: OverrideDecoders)
    ensures Roots(m, kind) <= AreaOf(m, kind, ov.Keys).met
  {
    hide Live, CompactLive;
  }

  lemma PalletFails(m: Metadata, kind: Kind, ov: OverrideDecoders, i: nat, w: Walked, fuel: nat)
    requires i < |m.pallets| && ov.Keys <= w.seen && WalkPallet(m, kind, m.pallets[i], w, fuel).Fail?
    ensures var e := WalkPallet(m, kind, m.pallets[i], w, fuel).error;
      PalletFlaw(m, kind, i, e) || Explained(m.lookup, AreaOf(m, kind, ov.Keys), e)
  {
    hide AreaOf, Explained, Enclosed, WalkVariants, Roots;
    var area := AreaOf(m, kind, ov.Keys);
    RootsAreMet(m, kind, ov);
    AreaIsEnclosed(m, kind, ov);
    RootsOfPallet(m, kind, i, area.met);
    var id := TypeIdOf(m.pallets[i], kind);
    if id.Some? && id.value in m.lookup && m.lookup[id.value].def.DefVariant? {
      VariantsFail(m.lookup, ov, area, m.lookup[id.value].def.variants, w, fuel);
    }
  }

  ghost predicate Flawed(m: Metadata, kind: Kind, ov: set<int>, e: TypeError) {
    (exists i: nat :: PalletFlaw(m, kind, i, e)) || Explained(m.lookup, AreaOf(m, kind, ov), e)
  }

  lemma RegistryFlaw(m: Metadata, kind: Kind, ov: OverrideDecoders, fuel: nat)
    requires WalkRegistry(m, kind, ov.Keys, fuel).Fail?
    ensures Flawed(m, kind, ov.Keys, WalkRegistry(m, kind, ov.Keys, fuel).error)
  {
    hide AreaOf, Explained, WalkPallets, PalletFlaw;
    ErrorIsFlaw(m, kind, ov, |m.pallets|, fuel);
  }
}

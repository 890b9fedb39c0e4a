/** When a build ends, when it succeeds, and what it has looked up then. */
module WalkOutcomes {
  import opened TypeTable
  import opened Support
  import opened Walks

  // ------------------------------------------------------------------ supported types cause no error

  lemma {:induction false} SupportedFields(table: Table, ov: OverrideDecoders, good: Good, fields: seq<FieldDef>,
          w: Walked, fuel: nat)
    requires Supported(table, ov, good) && FieldsSupported(table, ov, good, fields) && ov.Keys <= w.seen
    ensures !WalkFields(table, fields, w, fuel).Fail?
    decreases fuel, 1, |fields|
  {
    hide WalkField, DefSupported;
    if fields != [] {
      var n := |fields| - 1;
      SupportedFields(table, ov, good, fields[..n], w, fuel);
      var before := WalkFields(table, fields[..n], w, fuel);
      if before.Ok? {
        assert FieldSupported(table, ov, good, fields[n]);
        SupportedField(table, ov, good, fields[n], before.value, fuel);
      }
    }
  }

  lemma {:induction false} SupportedField(table: Table, ov: OverrideDecoders, good: Good, field: FieldDef, w: Walked,
          fuel: nat)
    requires Supported(table, ov, good) && FieldSupported(table, ov, good, field) && ov.Keys <= w.seen
    ensures !WalkField(table, field, w, fuel).Fail?
    decreases fuel, 0
  {
    hide WalkDef, DefSupported;
    var id := field.ty;
    if id !in w.seen && fuel > 0 {
      SupportedDef(table, ov, good, table[id].def, Visit(w, id), fuel - 1);
    }
  }

  lemma {:induction false} SupportedDef(table: Table, ov: OverrideDecoders, good: Good, def: TypeDef, w: Walked,
          fuel: nat)
    requires Supported(table, ov, good) && DefSupported(table, ov, good, def) && ov.Keys <= w.seen
    ensures !WalkDef(table, def, w, fuel).Fail?
    decreases fuel, 3
  {
    hide WalkFields, WalkVariants, WalkItems, WalkItem, WalkPart;
    match def
    case DefCompact(t) => SupportedPart(table, ov, good, t, CompactFieldTypeNotFound, fuel);
    case DefComposite(fields) => SupportedFields(table, ov, good, fields, w, fuel);
    case DefVariant(vs) => SupportedVariants(table, ov, good, vs, w, fuel);
    case DefArray(_, t) => SupportedItem(table, ov, good, t, ArrayFieldTypeNotFound, w, fuel);
    case DefSequence(t) => SupportedItem(table, ov, good, t, VectorFieldTypeNotFound, w, fuel);
    case DefTuple(Some(items)) => SupportedItems(table, ov, good, items, TupleItemTypeNotFound, w, fuel);
    case _ =>
  }

  lemma {:induction false} SupportedVariants(table: Table, ov: OverrideDecoders, good: Good, vs: seq<VariantItem>,
          w: Walked, fuel: nat)
    requires Supported(table, ov, good) && DefSupported(table, ov, good, DefVariant(vs)) && ov.Keys <= w.seen
    ensures !WalkVariants(table, vs, w, fuel).Fail?
    decreases fuel, 2, |vs|
  {
    hide WalkFields, FieldsSupported;
    if vs != [] {
      var n := |vs| - 1;
      SupportedVariants(table, ov, good, vs[..n], w, fuel);
      var before := WalkVariants(table, vs[..n], w, fuel);
      if before.Ok? {
        assert FieldsSupported(table, ov, good, vs[n].fields);
        SupportedFields(table, ov, good, vs[n].fields, before.value, fuel);
      }
    }
  }

  lemma {:induction false} SupportedItems(table: Table, ov: OverrideDecoders, good: Good, items: seq<int>,
          missing: TypeError, w: Walked, fuel: nat)
    requires Supported(table, ov, good) && AllIn(items, good.plain) && ov.Keys <= w.seen
    ensures !WalkItems(table, items, missing, w, fuel).Fail?
    decreases fuel, 1, |items|
  {
    hide WalkItem, DefSupported;
    if items != [] {
      var n := |items| - 1;
      SupportedItems(table, ov, good, items[..n], missing, w, fuel);
      var before := WalkItems(table, items[..n], missing, w, fuel);
      if before.Ok? {
        SupportedItem(table, ov, good, items[n], missing, before.value, fuel);
      }
    }
  }

  lemma {:induction false} SupportedItem(table: Table, ov: OverrideDecoders, good: Good, t: int, missing: TypeError,
          w: Walked, fuel: nat)
    requires Supported(table, ov, good) && t in good.plain && ov.Keys <= w.seen
    ensures !WalkItem(table, t, missing, w, fuel).Fail?
    decreases fuel, 0
  {
    hide WalkDef, DefSupported;
    if fuel > 0 {
      SupportedDef(table, ov, good, table[t].def, VisitItem(w, t), fuel - 1);
    }
  }

  lemma {:induction false} SupportedParts(table: Table, ov: OverrideDecoders, good: Good, ids: seq<int>,
          missing: TypeError, fuel: nat)
    requires Supported(table, ov, good) && AllIn(ids, good.compact)
    ensures !WalkParts(table, ids, missing, fuel).Fail?
    decreases fuel, 1, |ids|
  {
    hide WalkPart, DefSupported;
    if ids != [] {
      var n := |ids| - 1;
      SupportedParts(table, ov, good, ids[..n], missing, fuel);
      if WalkParts(table, ids[..n], missing, fuel).Ok? {
        SupportedPart(table, ov, good, ids[n], missing, fuel);
      }
    }
  }

  lemma {:induction false} SupportedPart(table: Table, ov: OverrideDecoders, good: Good, t: int, missing: TypeError,
          fuel: nat)
    requires Supported(table, ov, good) && t in good.compact
    ensures !WalkPart(table, t, missing, fuel).Fail?
    decreases fuel, 0
  {
    hide WalkCompact, DefSupported;
    if fuel > 0 {
      SupportedCompact(table, ov, good, table[t].def, fuel - 1);
    }
  }

  lemma {:induction false} SupportedCompact(table: Table, ov: OverrideDecoders, good: Good, def: TypeDef, fuel: nat)
    requires Supported(table, ov, good) && CompactSupported(good, def)
    ensures !WalkCompact(table, def, fuel).Fail?
    decreases fuel, 2
  {
    hide WalkParts, DefSupported;
    match def
    case DefTuple(Some(_)) => SupportedParts(table, ov, good, CompactEdges(def), CompactTupleItemTypeNotFound, fuel);
    case DefComposite(_) => SupportedParts(table, ov, good, CompactEdges(def), CompactCompositeFieldTypeNotFound, fuel);
    case _ =>
  }

  // ------------------------------------------------------------------ ranked types are walked to the end

  function Unseen(table: Table, w: Walked): set<int> {
    table.Keys - w.seen
  }

  /** Whatever cycles there are through fields: each new visit leaves one type less unseen, and items go
      down in rank. */
  lemma {:induction false} FieldsEnd(table: Table, ov: OverrideDecoders, rk: Ranking, fields: seq<FieldDef>, w: Walked)
    returns (fuel: nat)
    requires Ranked(table, ov, rk) && FieldsIn(rk.met, fields) && ov.Keys <= w.seen
    ensures !WalkFields(table, fields, w, fuel).Out?
    decreases Unseen(table, w), 0, 1, |fields|
  {
    hide Ranked, WalkField;
    if fields == [] {
      fuel := 0;
    } else {
      var n := |fields| - 1;
      fuel := FieldsEnd(table, ov, rk, fields[..n], w);
      var before := WalkFields(table, fields[..n], w, fuel);
      if before.Ok? {
        var more := FieldEnds(table, ov, rk, fields[n], before.value);
        var most := if fuel < more then more else fuel;
        MoreFuelFields(table, fields[..n], w, fuel, most);
        MoreFuelField(table, fields[n], before.value, more, most);
        fuel := most;
      }
    }
  }

  lemma {:induction false} FieldEnds(table: Table, ov: OverrideDecoders, rk: Ranking, field: FieldDef, w: Walked)
    returns (fuel: nat)
    requires Ranked(table, ov, rk) && field.ty in rk.met && ov.Keys <= w.seen
    ensures !WalkField(table, field, w, fuel).Out?
    decreases Unseen(table, w), 0, 0
  {
    hide WalkDef, LiveDef;
    fuel := 0;
    var id := field.ty;
    if id in table && id !in w.seen {
      var w' := Visit(w, id);
      assert id in Unseen(table, w) && id !in Unseen(table, w');
      var depth := DefEnds(table, ov, rk, id, w');
      fuel := depth + 1;
    }
  }

  lemma {:induction false} DefEnds(table: Table, ov: OverrideDecoders, rk: Ranking, id: int, w: Walked)
    returns (fuel: nat)
    requires Ranked(table, ov, rk) && id in table && id in rk.live && ov.Keys <= w.seen
    ensures !WalkDef(table, table[id].def, w, fuel).Out?
    decreases Unseen(table, w), 1 + rk.rank(id), 2
  {
    assert LiveDef(table, rk, id, table[id].def);
    hide WalkFields, WalkVariants, WalkItems, WalkItem, WalkPart, Ranked;
    match table[id].def
    case DefCompact(t) => fuel := PartEnds(table, rk, t, CompactFieldTypeNotFound);
    case DefComposite(fields) => fuel := FieldsEnd(table, ov, rk, fields, w);
    case DefVariant(vs) => fuel := VariantsEnd(table, ov, rk, vs, w);
    case DefArray(_, t) => fuel := ItemEnds(table, ov, rk, id, t, ArrayFieldTypeNotFound, w);
    case DefSequence(t) => fuel := ItemEnds(table, ov, rk, id, t, VectorFieldTypeNotFound, w);
    case DefTuple(Some(items)) => fuel := ItemsEnd(table, ov, rk, id, items, TupleItemTypeNotFound, w);
    case _ => fuel := 0;
  }

  lemma {:induction false} VariantsEnd(table: Table, ov: OverrideDecoders, rk: Ranking, vs: seq<VariantItem>, w: Walked)
    returns (fuel: nat)
    requires Ranked(table, ov, rk) && DefFieldsIn(rk.met, DefVariant(vs)) && ov.Keys <= w.seen
    ensures !WalkVariants(table, vs, w, fuel).Out?
    decreases Unseen(table, w), 0, 2, |vs|
  {
    hide Ranked, WalkFields, FieldsIn;
    if vs == [] {
      fuel := 0;
    } else {
      var n := |vs| - 1;
      fuel := VariantsEnd(table, ov, rk, vs[..n], w);
      var before := WalkVariants(table, vs[..n], w, fuel);
      if before.Ok? {
        assert FieldsIn(rk.met, vs[n].fields);
        var more := FieldsEnd(table, ov, rk, vs[n].fields, before.value);
        var most := if fuel < more then more else fuel;
        MoreFuelVariants(table, vs[..n], w, fuel, most);
        MoreFuelFields(table, vs[n].fields, before.value, more, most);
        fuel := most;
      }
    }
  }

  lemma {:induction false} ItemsEnd(table: Table, ov: OverrideDecoders, rk: Ranking, id: int, items: seq<int>,
          missing: TypeError, w: Walked)
    returns (fuel: nat)
    requires Ranked(table, ov, rk) && ov.Keys <= w.seen
    requires forall t :: t in items && t in table ==> t in rk.live && rk.rank(t) < rk.rank(id)
    ensures !WalkItems(table, items, missing, w, fuel).Out?
    decreases Unseen(table, w), 1 + rk.rank(id), 1, |items|
  {
    hide Ranked, WalkItem;
    if items == [] {
      fuel := 0;
    } else {
      var n := |items| - 1;
      assert items[n] in items;
      fuel := ItemsEnd(table, ov, rk, id, items[..n], missing, w);
      var before := WalkItems(table, items[..n], missing, w, fuel);
      if before.Ok? {
        var more := ItemEnds(table, ov, rk, id, items[n], missing, before.value);
        var most := if fuel < more then more else fuel;
        MoreFuelItems(table, items[..n], missing, w, fuel, most);
        MoreFuelItem(table, items[n], missing, before.value, more, most);
        fuel := most;
      }
    }
  }

  lemma {:induction false} ItemEnds(table: Table, ov: OverrideDecoders, rk: Ranking, id: int, t: int,
          missing: TypeError, w: Walked)
    returns (fuel: nat)
    requires Ranked(table, ov, rk) && ov.Keys <= w.seen
    requires t in table ==> t in rk.live && rk.rank(t) < rk.rank(id)
    ensures !WalkItem(table, t, missing, w, fuel).Out?
    decreases Unseen(table, w), 1 + rk.rank(id), 0, 0
  {
    hide Ranked, WalkDef;
    fuel := 0;
    if t in table {
      var depth := DefEnds(table, ov, rk, t, VisitItem(w, t));
      fuel := depth + 1;
    }
  }

  lemma {:induction false} CompactEnds(table: Table, rk: Ranking, id: int) returns (fuel: nat)
    requires CompactRanked(table, rk) && id in table && id in rk.compact
    ensures !WalkCompact(table, table[id].def, fuel).Out?
    decreases 1 + rk.compactRank(id), 1
  {
    hide WalkParts;
    fuel := 0;
    var def := table[id].def;
    if def.DefComposite? {
      fuel := PartsEnd(table, rk, id, CompactEdges(def), CompactCompositeFieldTypeNotFound);
    } else if def.DefTuple? && def.items.Some? {
      fuel := PartsEnd(table, rk, id, CompactEdges(def), CompactTupleItemTypeNotFound);
    }
  }

  lemma {:induction false} PartsEnd(table: Table, rk: Ranking, id: int, ids: seq<int>, missing: TypeError)
    returns (fuel: nat)
    requires CompactRanked(table, rk) && id in table && id in rk.compact
    requires forall t :: t in ids ==> t in CompactEdges(table[id].def)
    ensures !WalkParts(table, ids, missing, fuel).Out?
    decreases 1 + rk.compactRank(id), 0, |ids|
  {
    hide WalkPart;
    if ids == [] {
      fuel := 0;
    } else {
      var n := |ids| - 1;
      assert ids[n] in ids;
      fuel := PartsEnd(table, rk, id, ids[..n], missing);
      if WalkParts(table, ids[..n], missing, fuel).Ok? {
        var more := PartEnds(table, rk, ids[n], missing);
        var most := if fuel < more then more else fuel;
        MoreFuelParts(table, ids[..n], missing, fuel, most);
        MoreFuelPart(table, ids[n], missing, more, most);
        fuel := most;
      }
    }
  }

  lemma {:induction false} PartEnds(table: Table, rk: Ranking, t: int, missing: TypeError) returns (fuel: nat)
    requires CompactRanked(table, rk) && (t in table ==> t in rk.compact)
    ensures !WalkPart(table, t, missing, fuel).Out?
    decreases if t in table then 1 + rk.compactRank(t) else 0, 2
  {
    hide WalkCompact;
    fuel := 0;
    if t in table {
      var depth := CompactEnds(table, rk, t);
      fuel := depth + 1;
    }
  }
}

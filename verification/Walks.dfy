/**
 The course of a build apart from what it builds: which types it visits in which order, where it
 stops with an error, and whether it ends at all. The depth of its recursion is bounded by a number;
 a build ends if some bound is not run into.
 */
module Walks {
  import opened Options
  import opened TypeTable
  import opened Meaning
  import opened Support

  /** The errors that a type can cause, without the names and wrappers around them. */
  datatype TypeError =
    | FieldTypeNotFound
    | CompactFieldTypeNotFound
    | ArrayFieldTypeNotFound
    | VectorFieldTypeNotFound
    | TupleItemTypeNotFound
    | CompactTupleItemTypeNotFound
    | CompactCompositeFieldTypeNotFound
    | UnsupportedCompactType
    | TypeDefinitionNotSupported
    | PrimitiveTypeNotSupported
    | BitStoreTypeNotFound
    | BitStoreTypeNotSupported
    | BitOrderTypeNotFound
    | BitOrderNotSupported
    | RegistryTypeNotFound
    | RegistryTypeNotVariant

  /** The types in the storage, the types that were looked up in it, and the types visited. */
  datatype Walked = Walked(seen: set<int>, asked: set<int>, built: set<int>)

  /** Nothing is forgotten. */
  predicate Later(w: Walked, w': Walked) {
    w.seen <= w'.seen && w.asked <= w'.asked && w.built <= w'.built
  }

  /** The first visit of the type of a field. */
  function Visit(w: Walked, id: int): Walked {
    Walked(w.seen + {id}, w.asked + {id}, w.built + {id})
  }

  /** The visit of the type of an item, which is not stored. */
  function VisitItem(w: Walked, id: int): Walked {
    w.(built := w.built + {id})
  }

  /** How a walk goes: to its end, into an error, or beyond the bound. */
  datatype Walk<+T> = Ok(value: T) | Fail(error: TypeError) | Out

  // ------------------------------------------------------------------ the walk

  /** `getTypeFields`: one field after the other. */
  function WalkFields(table: Table, fields: seq<FieldDef>, w: Walked, fuel: nat): (r: Walk<Walked>)
    ensures r.Ok? ==> Later(w, r.value)
    decreases fuel, 1, |fields|
  {
    if fields == [] then Ok(w)
    else
      var n := |fields| - 1;
      match WalkFields(table, fields[..n], w, fuel)
      case Ok(w') => WalkField(table, fields[n], w', fuel)
      case other => other
  }

  /** A type that is in the storage is not visited again. */
  function WalkField(table: Table, field: FieldDef, w: Walked, fuel: nat): (r: Walk<Walked>)
    ensures r.Ok? ==> Later(w, r.value)
    decreases fuel, 0
  {
    var id := field.ty;
    if id !in table then Fail(FieldTypeNotFound)
    else if id in w.seen then Ok(w.(asked := w.asked + {id}))
    else if fuel == 0 then Out
    else WalkDef(table, table[id].def, Visit(w, id), fuel - 1)
  }

  /** `getFieldDecoder`. */
  function WalkDef(table: Table, def: TypeDef, w: Walked, fuel: nat): (r: Walk<Walked>)
    ensures r.Ok? ==> Later(w, r.value)
    decreases fuel, 3
  {
    match def
    case DefCompact(t) =>
      (match WalkPart(table, t, CompactFieldTypeNotFound, fuel)
       case Ok(_) => Ok(w)
       case Fail(e) => Fail(e)
       case Out => Out)
    case DefComposite(fields) => WalkFields(table, fields, w, fuel)
    case DefVariant(vs) => WalkVariants(table, vs, w, fuel)
    case DefPrimitive(code) => if PrimitiveTy(code).Some? then Ok(w) else Fail(PrimitiveTypeNotSupported)
    case DefArray(_, t) => WalkItem(table, t, ArrayFieldTypeNotFound, w, fuel)
    case DefSequence(t) => WalkItem(table, t, VectorFieldTypeNotFound, w, fuel)
    case DefTuple(None) => Ok(w)
    case DefTuple(Some(items)) => WalkItems(table, items, TupleItemTypeNotFound, w, fuel)
    case DefBitSequence(store, order) =>
      (match BitError(table, store, order)
       case None => Ok(w)
       case Some(e) => Fail(e))
    case DefHistoric => Fail(TypeDefinitionNotSupported)
  }

  /** `getVariantFieldDecoder`: the fields of every variant. */
  function WalkVariants(table: Table, vs: seq<VariantItem>, w: Walked, fuel: nat): (r: Walk<Walked>)
    ensures r.Ok? ==> Later(w, r.value)
    decreases fuel, 2, |vs|
  {
    if vs == [] then Ok(w)
    else
      var n := |vs| - 1;
      match WalkVariants(table, vs[..n], w, fuel)
      case Ok(w') => WalkFields(table, vs[n].fields, w', fuel)
      case other => other
  }

  /** The items of a sequence, array or tuple, built on the spot. */
  function WalkItems(table: Table, items: seq<int>, missing: TypeError, w: Walked, fuel: nat): (r: Walk<Walked>)
    ensures r.Ok? ==> Later(w, r.value)
    decreases fuel, 1, |items|
  {
    if items == [] then Ok(w)
    else
      var n := |items| - 1;
      match WalkItems(table, items[..n], missing, w, fuel)
      case Ok(w') => WalkItem(table, items[n], missing, w', fuel)
      case other => other
  }

  function WalkItem(table: Table, t: int, missing: TypeError, w: Walked, fuel: nat): (r: Walk<Walked>)
    ensures r.Ok? ==> Later(w, r.value)
    decreases fuel, 0
  {
    if t !in table then Fail(missing)
    else if fuel == 0 then Out
    else WalkDef(table, table[t].def, VisitItem(w, t), fuel - 1)
  }

  /** `getBitSequenceDecoder`. */
  function BitError(table: Table, store: int, order: int): (r: Option<TypeError>)
    ensures r.None? <==> BitOrderAt(table, store, order).Some?
  {
    if store !in table then Some(BitStoreTypeNotFound)
    else if table[store].def != DefPrimitive(U8_CODE) then Some(BitStoreTypeNotSupported)
    else if order !in table then Some(BitOrderTypeNotFound)
    else if OrderOf(table[order]).None? then Some(BitOrderNotSupported)
    else None
  }

  /** `getCompactFieldDecoder`. */
  function WalkCompact(table: Table, def: TypeDef, fuel: nat): (r: Walk<()>)
    decreases fuel, 2
  {
    match def
    case DefPrimitive(_) => Ok(())
    case DefTuple(None) => Ok(())
    case DefTuple(_) => WalkParts(table, CompactEdges(def), CompactTupleItemTypeNotFound, fuel)
    case DefComposite(_) => WalkParts(table, CompactEdges(def), CompactCompositeFieldTypeNotFound, fuel)
    case _ => Fail(UnsupportedCompactType)
  }

  function WalkParts(table: Table, ids: seq<int>, missing: TypeError, fuel: nat): (r: Walk<()>)
    decreases fuel, 1, |ids|
  {
    if ids == [] then Ok(())
    else
      var n := |ids| - 1;
      match WalkParts(table, ids[..n], missing, fuel)
      case Ok(_) => WalkPart(table, ids[n], missing, fuel)
      case other => other
  }

  function WalkPart(table: Table, t: int, missing: TypeError, fuel: nat): (r: Walk<()>)
    decreases fuel, 0
  {
    if t !in table then Fail(missing)
    else if fuel == 0 then Out
    else WalkCompact(table, table[t].def, fuel - 1)
  }

  // ------------------------------------------------------------------ parts of a walk

  /** Where a walk over some fields stops, the walk over more of them stops too. */
  lemma {:induction false} FieldsStop(table: Table, fields: seq<FieldDef>, i: nat, w: Walked, fuel: nat)
    requires i <= |fields| && !WalkFields(table, fields[..i], w, fuel).Ok?
    ensures WalkFields(table, fields, w, fuel) == WalkFields(table, fields[..i], w, fuel)
    decreases |fields|
  {
    hide WalkField;
    if i == |fields| {
      assert fields[..i] == fields;
    } else {
      var n := |fields| - 1;
      assert fields[..n][..i] == fields[..i];
      FieldsStop(table, fields[..n], i, w, fuel);
    }
  }

  lemma NoFieldsWalk(table: Table, w: Walked, fuel: nat)
    ensures WalkFields(table, [], w, fuel) == Ok(w)
  {
  }

  /** The walk over one field more. */
  lemma FieldsStep(table: Table, fields: seq<FieldDef>, i: nat, w: Walked, fuel: nat)
    requires i < |fields| && WalkFields(table, fields[..i], w, fuel).Ok?
    ensures var step := WalkField(table, fields[i], WalkFields(table, fields[..i], w, fuel).value, fuel);
      && WalkFields(table, fields[..i + 1], w, fuel) == step
      && (!step.Ok? ==> WalkFields(table, fields, w, fuel) == step)
  {
    hide WalkField;
    assert fields[..i + 1][..i] == fields[..i];
    if !WalkFields(table, fields[..i + 1], w, fuel).Ok? {
      FieldsStop(table, fields, i + 1, w, fuel);
    }
  }

  lemma {:induction false} VariantsStop(table: Table, vs: seq<VariantItem>, i: nat, w: Walked, fuel: nat)
    requires i <= |vs| && !WalkVariants(table, vs[..i], w, fuel).Ok?
    ensures WalkVariants(table, vs, w, fuel) == WalkVariants(table, vs[..i], w, fuel)
    decreases |vs|
  {
    hide WalkFields;
    if i == |vs| {
      assert vs[..i] == vs;
    } else {
      var n := |vs| - 1;
      assert vs[..n][..i] == vs[..i];
      VariantsStop(table, vs[..n], i, w, fuel);
    }
  }

  lemma VariantsStep(table: Table, vs: seq<VariantItem>, i: nat, w: Walked, fuel: nat)
    requires i < |vs| && WalkVariants(table, vs[..i], w, fuel).Ok?
    ensures var step := WalkFields(table, vs[i].fields, WalkVariants(table, vs[..i], w, fuel).value, fuel);
      && WalkVariants(table, vs[..i + 1], w, fuel) == step
      && (!step.Ok? ==> WalkVariants(table, vs, w, fuel) == step)
  {
    hide WalkFields;
    assert vs[..i + 1][..i] == vs[..i];
    if !WalkVariants(table, vs[..i + 1], w, fuel).Ok? {
      VariantsStop(table, vs, i + 1, w, fuel);
    }
  }

  lemma {:induction false} ItemsStop(table: Table, items: seq<int>, missing: TypeError, i: nat, w: Walked, fuel: nat)
    requires i <= |items| && !WalkItems(table, items[..i], missing, w, fuel).Ok?
    ensures WalkItems(table, items, missing, w, fuel) == WalkItems(table, items[..i], missing, w, fuel)
    decreases |items|
  {
    hide WalkItem;
    if i == |items| {
      assert items[..i] == items;
    } else {
      var n := |items| - 1;
      assert items[..n][..i] == items[..i];
      ItemsStop(table, items[..n], missing, i, w, fuel);
    }
  }

  lemma ItemsStep(table: Table, items: seq<int>, missing: TypeError, i: nat, w: Walked, fuel: nat)
    requires i < |items| && WalkItems(table, items[..i], missing, w, fuel).Ok?
    ensures var step := WalkItem(table, items[i], missing, WalkItems(table, items[..i], missing, w, fuel).value, fuel);
      && WalkItems(table, items[..i + 1], missing, w, fuel) == step
      && (!step.Ok? ==> WalkItems(table, items, missing, w, fuel) == step)
  {
    hide WalkItem;
    assert items[..i + 1][..i] == items[..i];
    if !WalkItems(table, items[..i + 1], missing, w, fuel).Ok? {
      ItemsStop(table, items, missing, i + 1, w, fuel);
    }
  }

  lemma {:induction false} PartsStop(table: Table, ids: seq<int>, missing: TypeError, i: nat, fuel: nat)
    requires i <= |ids| && !WalkParts(table, ids[..i], missing, fuel).Ok?
    ensures WalkParts(table, ids, missing, fuel) == WalkParts(table, ids[..i], missing, fuel)
    decreases |ids|
  {
    hide WalkPart;
    if i == |ids| {
      assert ids[..i] == ids;
    } else {
      var n := |ids| - 1;
      assert ids[..n][..i] == ids[..i];
      PartsStop(table, ids[..n], missing, i, fuel);
    }
  }

  lemma PartsStep(table: Table, ids: seq<int>, missing: TypeError, i: nat, fuel: nat)
    requires i < |ids| && WalkParts(table, ids[..i], missing, fuel).Ok?
    ensures var step := WalkPart(table, ids[i], missing, fuel);
      && WalkParts(table, ids[..i + 1], missing, fuel) == step
      && (!step.Ok? ==> WalkParts(table, ids, missing, fuel) == step)
  {
    hide WalkPart;
    assert ids[..i + 1][..i] == ids[..i];
    if !WalkParts(table, ids[..i + 1], missing, fuel).Ok? {
      PartsStop(table, ids, missing, i + 1, fuel);
    }
  }

  // ------------------------------------------------------------------ the bound

  /** A walk that does not run into the bound is the same under every larger one. */
  lemma {:induction false} MoreFuelFields(table: Table, fields: seq<FieldDef>, w: Walked, fuel: nat, more: nat)
    requires fuel <= more && !WalkFields(table, fields, w, fuel).Out?
    ensures WalkFields(table, fields, w, more) == WalkFields(table, fields, w, fuel)
    decreases fuel, 1, |fields|
  {
    hide WalkField;
    if fields != [] {
      var n := |fields| - 1;
      MoreFuelFields(table, fields[..n], w, fuel, more);
      var before := WalkFields(table, fields[..n], w, fuel);
      if before.Ok? {
        MoreFuelField(table, fields[n], before.value, fuel, more);
      }
    }
  }

  lemma {:induction false} MoreFuelField(table: Table, field: FieldDef, w: Walked, fuel: nat, more: nat)
    requires fuel <= more && !WalkField(table, field, w, fuel).Out?
    ensures WalkField(table, field, w, more) == WalkField(table, field, w, fuel)
    decreases fuel, 0
  {
    hide WalkDef;
    var id := field.ty;
    if id in table && id !in w.seen {
      MoreFuelDef(table, table[id].def, Visit(w, id), fuel - 1, more - 1);
    }
  }

  lemma {:induction false} MoreFuelDef(table: Table, def: TypeDef, w: Walked, fuel: nat, more: nat)
    requires fuel <= more && !WalkDef(table, def, w, fuel).Out?
    ensures WalkDef(table, def, w, more) == WalkDef(table, def, w, fuel)
    decreases fuel, 3
  {
    hide WalkFields, WalkVariants, WalkItems, WalkItem, WalkPart;
    match def
    case DefCompact(t) => MoreFuelPart(table, t, CompactFieldTypeNotFound, fuel, more);
    case DefComposite(fields) => MoreFuelFields(table, fields, w, fuel, more);
    case DefVariant(vs) => MoreFuelVariants(table, vs, w, fuel, more);
    case DefArray(_, t) => MoreFuelItem(table, t, ArrayFieldTypeNotFound, w, fuel, more);
    case DefSequence(t) => MoreFuelItem(table, t, VectorFieldTypeNotFound, w, fuel, more);
    case DefTuple(Some(items)) => MoreFuelItems(table, items, TupleItemTypeNotFound, w, fuel, more);
    case _ =>
  }

  lemma {:induction false} MoreFuelVariants(table: Table, vs: seq<VariantItem>, w: Walked, fuel: nat, more: nat)
    requires fuel <= more && !WalkVariants(table, vs, w, fuel).Out?
    ensures WalkVariants(table, vs, w, more) == WalkVariants(table, vs, w, fuel)
    decreases fuel, 2, |vs|
  {
    hide WalkFields;
    if vs != [] {
      var n := |vs| - 1;
      MoreFuelVariants(table, vs[..n], w, fuel, more);
      var before := WalkVariants(table, vs[..n], w, fuel);
      if before.Ok? {
        MoreFuelFields(table, vs[n].fields, before.value, fuel, more);
      }
    }
  }

  lemma {:induction false} MoreFuelItems(table: Table, items: seq<int>, missing: TypeError, w: Walked, fuel: nat,
          more: nat)
    requires fuel <= more && !WalkItems(table, items, missing, w, fuel).Out?
    ensures WalkItems(table, items, missing, w, more) == WalkItems(table, items, missing, w, fuel)
    decreases fuel, 1, |items|
  {
    hide WalkItem;
    if items != [] {
      var n := |items| - 1;
      MoreFuelItems(table, items[..n], missing, w, fuel, more);
      var before := WalkItems(table, items[..n], missing, w, fuel);
      if before.Ok? {
        MoreFuelItem(table, items[n], missing, before.value, fuel, more);
      }
    }
  }

  lemma {:induction false} MoreFuelItem(table: Table, t: int, missing: TypeError, w: Walked, fuel: nat, more: nat)
    requires fuel <= more && !WalkItem(table, t, missing, w, fuel).Out?
    ensures WalkItem(table, t, missing, w, more) == WalkItem(table, t, missing, w, fuel)
    decreases fuel, 0
  {
    hide WalkDef;
    if t in table {
      MoreFuelDef(table, table[t].def, VisitItem(w, t), fuel - 1, more - 1);
    }
  }

  lemma {:induction false} MoreFuelCompact(table: Table, def: TypeDef, fuel: nat, more: nat)
    requires fuel <= more && !WalkCompact(table, def, fuel).Out?
    ensures WalkCompact(table, def, more) == WalkCompact(table, def, fuel)
    decreases fuel, 2
  {
    hide WalkParts;
    match def
    case DefTuple(Some(_)) => MoreFuelParts(table, CompactEdges(def), CompactTupleItemTypeNotFound, fuel, more);
    case DefComposite(_) => MoreFuelParts(table, CompactEdges(def), CompactCompositeFieldTypeNotFound, fuel, more);
    case _ =>
  }

  lemma {:induction false} MoreFuelParts(table: Table, ids: seq<int>, missing: TypeError, fuel: nat, more: nat)
    requires fuel <= more && !WalkParts(table, ids, missing, fuel).Out?
    ensures WalkParts(table, ids, missing, more) == WalkParts(table, ids, missing, fuel)
    decreases fuel, 1, |ids|
  {
    hide WalkPart;
    if ids != [] {
      var n := |ids| - 1;
      MoreFuelParts(table, ids[..n], missing, fuel, more);
      if WalkParts(table, ids[..n], missing, fuel).Ok? {
        MoreFuelPart(table, ids[n], missing, fuel, more);
      }
    }
  }

  lemma {:induction false} MoreFuelPart(table: Table, t: int, missing: TypeError, fuel: nat, more: nat)
    requires fuel <= more && !WalkPart(table, t, missing, fuel).Out?
    ensures WalkPart(table, t, missing, more) == WalkPart(table, t, missing, fuel)
    decreases fuel, 0
  {
    hide WalkCompact;
    if t in table {
      MoreFuelCompact(table, table[t].def, fuel - 1, more - 1);
    }
  }
}

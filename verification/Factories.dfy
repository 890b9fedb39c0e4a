/**
 The factory of `registry/factory.go`: it compiles the types of a table into decoders,
 memoised by lookup id, with a placeholder planted on the first visit of an id and the
 knots tied at the end.
 */
module Factories {
  import opened Bytes
  import opened Options
  import Scale
  import opened TypeTable
  import opened Decoders
  import opened Meaning
  import opened MetadataV14
  import opened Support
  import opened Walks
  import opened Storages
  import opened Builds
  import opened Flaws

  datatype FieldOverride = FieldOverride(lookupIndex: int, decoder: FieldDecoder)

  /** The errors of a build: one that a type causes, or a recursive decoder that cannot be resolved. */
  datatype BuildError = OfType(why: TypeError) | RecursiveFieldResolving

  datatype Build<+T, +E> = Built(value: T) | Error(error: E)

  /** A step of a build that goes as the walk does. */
  ghost predicate Follows<T>(r: Build<T, TypeError>, walk: Walk<Walked>, w: Walked) {
    match r
    case Built(_) => walk == Ok(w)
    case Error(e) => walk == Fail(e)
  }

  lemma SomeKey(s: set<int>)
    ensures s == {} || exists k :: k in s
  {
    if forall k :: k !in s {
      assert s == {};
    }
  }

  // ------------------------------------------------------------------ overrides

  /** The storage that `resetStorages` starts with: the last override of an id wins. */
  function OverrideMap(os: seq<FieldOverride>): map<int, FieldDecoder> {
    if os == [] then map[]
    else OverrideMap(os[..|os| - 1])[os[|os| - 1].lookupIndex := os[|os| - 1].decoder]
  }

  /** The k-th override is the last one of an id. */
  ghost predicate LastOverride(os: seq<FieldOverride>, id: int, k: nat) {
    k < |os| && os[k].lookupIndex == id && forall j :: k < j < |os| ==> os[j].lookupIndex != id
  }

  /** It is the one that counts, and there is none exactly for the ids that no override has. */
  lemma {:induction false} OverrideIsLast(os: seq<FieldOverride>, id: int)
    ensures id in OverrideMap(os) ==>
      exists k: nat :: LastOverride(os, id, k) && OverrideMap(os)[id] == os[k].decoder
    ensures id !in OverrideMap(os) ==> forall k :: 0 <= k < |os| ==> os[k].lookupIndex != id
  {
    if os != [] {
      var n := |os| - 1;
      if os[n].lookupIndex == id {
        assert LastOverride(os, id, n);
      } else {
        OverrideIsLast(os[..n], id);
        if id in OverrideMap(os[..n]) {
          var k: nat :| LastOverride(os[..n], id, k) && OverrideMap(os[..n])[id] == os[..n][k].decoder;
          assert LastOverride(os, id, k);
        } else {
          assert forall k :: 0 <= k < n ==> os[k] == os[..n][k];
        }
      }
    }
  }

  lemma {:induction false} OverrideFrom(os: seq<FieldOverride>, id: int) returns (k: nat)
    requires id in OverrideMap(os)
    ensures k < |os| && os[k].decoder == OverrideMap(os)[id]
  {
    var n := |os| - 1;
    if os[n].lookupIndex == id {
      k := n;
    } else {
      k := OverrideFrom(os[..n], id);
    }
  }

  // ------------------------------------------------------------------ the factory

  class Factory {
    const fieldOverrides: seq<FieldOverride>
    var fieldStorage: map<int, FieldDecoder>
    var recursiveFieldStorage: map<int, RecursiveDecoder>

    /** The fields under construction, and every placeholder planted since the last reset. */
    ghost var building: set<int>
    ghost var planted: map<int, RecursiveDecoder>

    /** What the build has stored, looked up and visited since the last reset. */
    ghost var walked: Walked

    constructor (overrides: seq<FieldOverride>)
      ensures fieldOverrides == overrides
    {
      fieldOverrides := overrides;
      fieldStorage, recursiveFieldStorage := map[], map[];
      building, planted, walked := {}, map[], Start({});
    }

    ghost function Overrides(): map<int, FieldDecoder> {
      OverrideMap(fieldOverrides)
    }

    lemma OverridesAllocated()
      ensures forall id :: id in Overrides() ==> allocated(Overrides()[id])
    {
      forall id | id in Overrides()
        ensures allocated(Overrides()[id])
      {
        var k := OverrideFrom(fieldOverrides, id);
        assert allocated(fieldOverrides[k]);
      }
    }

    ghost function EnvOf(table: Table): Env
      reads `recursiveFieldStorage
    {
      Env(table, Overrides(), recursiveFieldStorage)
    }

    ghost function Now(): Storage
      reads this
    {
      Storage(fieldStorage, recursiveFieldStorage, building, planted, walked)
    }

    /** What holds between any two steps of a build. */
    ghost predicate Inv(table: Table)
      reads this, planted.Values
    {
      Consistent(table, Overrides(), Now()) && forall id :: id in planted ==> planted[id].fieldDecoder == None
    }

    /** What a step of a build keeps of the state before it: nothing visited is forgotten, no
        knot changes, and every new placeholder is a new object. */
    twostate predicate Progress()
      reads this
    {
      && old(fieldStorage).Keys <= fieldStorage.Keys
      && Extends(old(recursiveFieldStorage), recursiveFieldStorage)
      && Extends(old(planted), planted)
      && building == old(building)
      && (forall id :: id in planted && id !in old(planted) ==> fresh(planted[id]))
    }

    /** `resetStorages`. */
    method ResetStorages(ghost table: Table)
      modifies this
      ensures Inv(table) && fieldStorage == Overrides() && building == {} && planted == map[]
      ensures recursiveFieldStorage == map[] && walked == Start(Overrides().Keys)
    {
      fieldStorage := map[];
      recursiveFieldStorage := map[];
      building, planted := {}, map[];
      for i := 0 to |fieldOverrides|
        invariant fieldStorage == OverrideMap(fieldOverrides[..i])
        invariant recursiveFieldStorage == map[] && building == {} && planted == map[]
      {
        var o := fieldOverrides[i];
        assert fieldOverrides[..i + 1][..i] == fieldOverrides[..i];
        fieldStorage := fieldStorage[o.lookupIndex := o.decoder];
      }
      assert fieldOverrides[..|fieldOverrides|] == fieldOverrides;
      walked := Start(Overrides().Keys);
    }

    /** `getStoredFieldDecoder`: on the first visit of an id it plants a placeholder. */
    method GetStoredFieldDecoder(ghost table: Table, id: int) returns (r: Option<FieldDecoder>)
      requires Inv(table) && id in table
      modifies this
      ensures Inv(table)
      ensures r.Some? <==> old(id in fieldStorage)
      ensures r.Some? ==> Now() == Reused(old(Now()), id) && Progress() && RepAt(EnvOf(table), r.value, id)
      ensures r.None? ==> id in planted && fresh(planted[id]) && Now() == Planted(old(Now()), id, planted[id])
    {
      hide Consistent, RepAt;
      if id in fieldStorage {
        var ft := fieldStorage[id];
        ReuseKeeps(table, Overrides(), Now(), id);
        if ft.Recursive? {
          recursiveFieldStorage := recursiveFieldStorage[id := ft.cell];
        }
        walked := walked.(asked := walked.asked + {id});
        return Some(ft);
      }
      Plant(table, id);
      return None;
    }

    /** The first visit of a type: its placeholder is stored while it is under construction. */
    method Plant(ghost table: Table, id: int)
      requires Inv(table) && id in table && id !in fieldStorage
      modifies this
      ensures Inv(table) && id in planted && fresh(planted[id]) && Now() == Planted(old(Now()), id, planted[id])
    {
      hide Consistent, OverrideMap;
      OverridesAllocated();
      var cell := new RecursiveDecoder();
      assert forall k :: k in planted ==> planted[k] != cell;
      assert forall k :: k in Overrides() ==> Overrides()[k] != Recursive(cell);
      PlantKeeps(table, Overrides(), Now(), id, cell);
      fieldStorage := fieldStorage[id := Recursive(cell)];
      building := building + {id};
      planted := planted[id := cell];
      walked := Visit(walked, id);
    }

    // ---------------------------------------------------------------- building

    /** `getTypeFields`. It goes as the walk over the types goes, which fixes when it fails and with
        which error; `fuel` is a bound on the depth of the recursion. */
    method GetTypeFields(table: Table, fields: seq<FieldDef>, ghost fuel: nat)
      returns (r: Build<seq<Field>, TypeError>)
      requires Inv(table) && !WalkFields(table, fields, walked, fuel).Out?
      modifies this
      ensures Follows(r, WalkFields(table, fields, old(walked), fuel), walked)
      ensures r.Built? ==> Inv(table) && Progress() && RepFields(EnvOf(table), r.value, fields)
      decreases fuel, 1
    {
      hide RepDef, RepFields, RepField, Inv, WalkField;
      var typeFields: seq<Field> := [];
      NoFieldsRep(EnvOf(table));
      for i := 0 to |fields|
        invariant Inv(table) && Progress() && RepFields(EnvOf(table), typeFields, fields[..i])
        invariant WalkFields(table, fields[..i], old(walked), fuel) == Ok(walked)
      {
        ghost var env := EnvOf(table);
        FieldsStep(table, fields, i, old(walked), fuel);
        var field := GetTypeField(table, fields[i], fuel);
        if field.Error? {
          return Error(field.error);
        }
        RepFieldsGrows(env, EnvOf(table), typeFields, fields[..i]);
        assert fields[..i + 1] == fields[..i] + [fields[i]];
        RepFieldsAppend(EnvOf(table), typeFields, fields[..i], field.value, fields[i]);
        typeFields := typeFields + [field.value];
      }
      assert fields[..|fields|] == fields;
      return Built(typeFields);
    }

    /** One round of the loop of `getTypeFields`. */
    method GetTypeField(table: Table, field: FieldDef, ghost fuel: nat) returns (r: Build<Field, TypeError>)
      requires Inv(table) && !WalkField(table, field, walked, fuel).Out?
      modifies this
      ensures Follows(r, WalkField(table, field, old(walked), fuel), walked)
      ensures r.Built? ==> Inv(table) && Progress() && RepField(EnvOf(table), r.value, field)
      decreases fuel, 0
    {
      SeenIsStored(table);
      hide RepDef, Inv, WalkDef;
      if field.ty !in table {
        return Error(FieldTypeNotFound);
      }
      var id := field.ty;
      var fieldName := FullFieldName(field, table[id]);
      var stored := GetStoredFieldDecoder(table, id);
      if stored.Some? {
        return Built(Field(fieldName, stored.value, id));
      }
      var built := GetFieldDecoder(table, fieldName, table[id].def, fuel - 1);
      if built.Error? {
        return Error(built.error);
      }
      Store(table, id, built.value);
      return Built(Field(fieldName, built.value, id));
    }

    lemma SeenIsStored(table: Table)
      requires Inv(table)
      ensures walked.seen == fieldStorage.Keys
    {
    }

    /** The end of a visit: the placeholder in the storage gives way to the decoder. */
    method Store(ghost table: Table, id: int, decoder: FieldDecoder)
      requires Inv(table) && id in building && id in table && RepDef(EnvOf(table), decoder, table[id].def)
      modifies this
      ensures Inv(table) && Now() == Stored(old(Now()), id, decoder) && RepAt(EnvOf(table), decoder, id)
    {
      hide Consistent, RepDef, RepAt;
      StoreKeeps(table, Overrides(), Now(), id, decoder);
      fieldStorage := fieldStorage[id := decoder];
      building := building - {id};
    }

    /** `getFieldDecoder`. */
    method GetFieldDecoder(table: Table, fieldName: string, def: TypeDef, ghost fuel: nat)
      returns (r: Build<FieldDecoder, TypeError>)
      requires Inv(table) && !WalkDef(table, def, walked, fuel).Out?
      modifies this
      ensures Follows(r, WalkDef(table, def, old(walked), fuel), walked)
      ensures r.Built? ==> Inv(table) && Progress() && RepDef(EnvOf(table), r.value, def)
      decreases fuel, 3
    {
      hide Inv, WalkFields, WalkVariants, WalkItems;
      match def
      case DefCompact(t) =>
        if t !in table {
          return Error(CompactFieldTypeNotFound);
        }
        r := GetCompactFieldDecoder(table, fieldName, table[t].def, fuel - 1);
      case DefComposite(fields) =>
        var built := GetTypeFields(table, fields, fuel);
        if built.Error? {
          return Error(built.error);
        }
        r := Built(Composite(fieldName, built.value));
      case DefVariant(variants) =>
        r := GetVariantFieldDecoder(table, variants, fuel);
      case DefPrimitive(code) =>
        var ty := PrimitiveTy(code);
        r := if ty.Some? then Built(Value(ty.value)) else Error(PrimitiveTypeNotSupported);
      case DefArray(n, t) =>
        if t !in table {
          return Error(ArrayFieldTypeNotFound);
        }
        var item := GetItemDecoder(table, fieldName, t, ArrayFieldTypeNotFound, fuel);
        if item.Error? {
          return item;
        }
        r := Built(ArrayOf(n, item.value));
      case DefSequence(t) =>
        if t !in table {
          return Error(VectorFieldTypeNotFound);
        }
        var item := GetItemDecoder(table, fieldName, t, VectorFieldTypeNotFound, fuel);
        if item.Error? {
          return item;
        }
        r := Built(SliceOf(item.value));
      case DefTuple(None) =>
        r := Built(Noop);
      case DefTuple(Some(items)) =>
        r := GetTupleFieldDecoder(table, fieldName, items, fuel);
      case DefBitSequence(store, order) =>
        r := GetBitSequenceDecoder(table, fieldName, store, order);
      case DefHistoric =>
        r := Error(TypeDefinitionNotSupported);
    }

    /** An item, built on the spot. */
    method GetItemDecoder(table: Table, fieldName: string, t: int, ghost missing: TypeError, ghost fuel: nat)
      returns (r: Build<FieldDecoder, TypeError>)
      requires Inv(table) && t in table && !WalkItem(table, t, missing, walked, fuel).Out?
      modifies this
      ensures Follows(r, WalkItem(table, t, missing, old(walked), fuel), walked)
      ensures r.Built? ==> Inv(table) && Progress() && RepDef(EnvOf(table), r.value, table[t].def)
      decreases fuel, 0
    {
      hide RepDef, WalkDef;
      walked := VisitItem(walked, t);
      hide Inv;
      r := GetFieldDecoder(table, fieldName, table[t].def, fuel - 1);
    }

    /** `getVariantFieldDecoder`. */
    method GetVariantFieldDecoder(table: Table, variants: seq<VariantItem>, ghost fuel: nat)
      returns (r: Build<FieldDecoder, TypeError>)
      requires Inv(table) && !WalkVariants(table, variants, walked, fuel).Out?
      modifies this
      ensures Follows(r, WalkVariants(table, variants, old(walked), fuel), walked)
      ensures r.Built? ==> Inv(table) && Progress() && RepDef(EnvOf(table), r.value, DefVariant(variants))
      decreases fuel, 2
    {
      hide Inv, WalkFields, RepDef, RepVariant, RepFields;
      NoVariantsRep(EnvOf(table));
      var byIndex: map<byte, FieldDecoder> := map[];
      for i := 0 to |variants|
        invariant Inv(table) && Progress()
        invariant RepDef(EnvOf(table), Variant(byIndex), DefVariant(variants[..i]))
        invariant WalkVariants(table, variants[..i], old(walked), fuel) == Ok(walked)
      {
        var variant := variants[i];
        ghost var env := EnvOf(table);
        ghost var before := Variant(byIndex);
        VariantsStep(table, variants, i, old(walked), fuel);
        NoFieldsWalk(table, walked, fuel);
        var decoder := Noop;
        if variant.fields != [] {
          var fields := GetTypeFields(table, variant.fields, fuel);
          if fields.Error? {
            return Error(fields.error);
          }
          decoder := Composite("variant_item_" + Decimal(i), fields.value);
          VariantRep(EnvOf(table), decoder, variant);
        } else {
          EmptyVariantRep(EnvOf(table), variant);
        }
        RepDefGrows(env, EnvOf(table), before, DefVariant(variants[..i]));
        assert variants[..i + 1] == variants[..i] + [variant];
        AddVariant(EnvOf(table), byIndex, variants[..i], variant, decoder);
        byIndex := byIndex[variant.index := decoder];
      }
      assert variants[..|variants|] == variants;
      return Built(Variant(byIndex));
    }

    /** `getTupleFieldDecoder`. */
    method GetTupleFieldDecoder(table: Table, fieldName: string, items: seq<int>, ghost fuel: nat)
      returns (r: Build<FieldDecoder, TypeError>)
      requires Inv(table) && !WalkItems(table, items, TupleItemTypeNotFound, walked, fuel).Out?
      modifies this
      ensures Follows(r, WalkItems(table, items, TupleItemTypeNotFound, old(walked), fuel), walked)
      ensures r.Built? ==> Inv(table) && Progress() && RepDef(EnvOf(table), r.value, DefTuple(Some(items)))
      decreases fuel, 1
    {
      hide RepDef, RepTuple, TupleParts, Inv, WalkDef;
      ghost var parts := TupleParts(items, 0);
      var fields: seq<Field> := [];
      NoTupleRep(EnvOf(table));
      for i := 0 to |items|
        invariant Inv(table) && Progress() && RepTuple(EnvOf(table), fields, parts[..i])
        invariant WalkItems(table, items[..i], TupleItemTypeNotFound, old(walked), fuel) == Ok(walked)
      {
        ItemsStep(table, items, TupleItemTypeNotFound, i, old(walked), fuel);
        if items[i] !in table {
          return Error(TupleItemTypeNotFound);
        }
        var name := TupleItemName(i);
        ghost var env := EnvOf(table);
        var item := GetItemDecoder(table, name, items[i], TupleItemTypeNotFound, fuel);
        if item.Error? {
          return item;
        }
        RepTupleGrows(env, EnvOf(table), fields, parts[..i]);
        var field := Field(name, item.value, items[i]);
        assert RepTupleItem(EnvOf(table), field, parts[i]);
        RepTupleAppend(EnvOf(table), fields, parts[..i], field, parts[i]);
        assert parts[..i + 1] == parts[..i] + [parts[i]];
        fields := fields + [field];
      }
      assert parts[..|items|] == parts && items[..|items|] == items;
      TupleRep(EnvOf(table), fieldName, fields, items);
      return Built(Composite(fieldName, fields));
    }

    /** `getBitSequenceDecoder`. */
    method GetBitSequenceDecoder(table: Table, fieldName: string, store: int, order: int)
      returns (r: Build<FieldDecoder, TypeError>)
      ensures r.Built? <==> BitOrderAt(table, store, order).Some?
      ensures r.Built? ==> r.value == BitSequence(fieldName, BitOrderAt(table, store, order).value)
      ensures r.Error? ==> BitError(table, store, order) == Some(r.error)
    {
      if store !in table {
        return Error(BitStoreTypeNotFound);
      }
      if table[store].def != DefPrimitive(U8_CODE) {
        return Error(BitStoreTypeNotSupported);
      }
      if order !in table {
        return Error(BitOrderTypeNotFound);
      }
      var bitOrder := OrderOf(table[order]);
      if bitOrder.None? {
        return Error(BitOrderNotSupported);
      }
      return Built(BitSequence(fieldName, bitOrder.value));
    }

    /** `getCompactFieldDecoder`: it does not go through the storage. */
    method GetCompactFieldDecoder(table: Table, fieldName: string, def: TypeDef, ghost fuel: nat)
      returns (r: Build<FieldDecoder, TypeError>)
      requires !WalkCompact(table, def, fuel).Out?
      ensures r.Built? <==> WalkCompact(table, def, fuel).Ok?
      ensures r.Error? ==> WalkCompact(table, def, fuel) == Fail(r.error)
      ensures r.Built? ==> RepCompact(table, r.value, def)
      decreases fuel, 2
    {
      hide WalkParts;
      match def
      case DefPrimitive(_) =>
        r := Built(Value(Scale.TCompact));
      case DefTuple(None) =>
        r := Built(Value(Scale.TAny));
      case DefTuple(Some(items)) =>
        assert PartTypes(TupleParts(items, 0)) == CompactEdges(def);
        r := GetCompactParts(table, fieldName, TupleParts(items, 0), CompactTupleItemTypeNotFound, fuel);
      case DefComposite(fields) =>
        assert PartTypes(FieldParts(table, fields)) == CompactEdges(def);
        r := GetCompactParts(table, fieldName, FieldParts(table, fields), CompactCompositeFieldTypeNotFound, fuel);
      case _ =>
        r := Error(UnsupportedCompactType);
    }

    /** The loop over the components of a tuple or composite in compact mode. */
    method GetCompactParts(table: Table, fieldName: string, parts: seq<Part>, missing: TypeError, ghost fuel: nat)
      returns (r: Build<FieldDecoder, TypeError>)
      requires !WalkParts(table, PartTypes(parts), missing, fuel).Out?
      ensures r.Built? <==> WalkParts(table, PartTypes(parts), missing, fuel).Ok?
      ensures r.Error? ==> WalkParts(table, PartTypes(parts), missing, fuel) == Fail(r.error)
      ensures r.Built? ==> r.value.Composite? && RepParts(table, r.value.fields, parts)
      decreases fuel, 1
    {
      hide WalkCompact;
      var fields: seq<Field> := [];
      ghost var ids := PartTypes(parts);
      for i := 0 to |parts|
        invariant RepParts(table, fields, parts[..i]) && WalkParts(table, ids[..i], missing, fuel).Ok?
      {
        var part := parts[i];
        PartsStep(table, ids, missing, i, fuel);
        if part.ty !in table {
          return Error(missing);
        }
        var item := GetCompactFieldDecoder(table, part.name, table[part.ty].def, fuel - 1);
        if item.Error? {
          return item;
        }
        var field := Field(part.name, item.value, part.ty);
        assert RepPart(table, field, part);
        fields := fields + [field];
      }
      assert parts[..|parts|] == parts && ids[..|parts|] == ids;
      return Built(Composite(fieldName, fields));
    }

    // ---------------------------------------------------------------- tying the knots

    /** An override that is a nil cell of its own, met by the build: nothing can resolve it. */
    ghost predicate NilOverrideMet()
      reads this, recursiveFieldStorage.Values
    {
      exists id :: id in recursiveFieldStorage && id in Overrides() && recursiveFieldStorage[id].fieldDecoder.None?
    }

    /** Every knot holds the decoder that was stored for its type. */
    ghost predicate Resolved()
      reads this, recursiveFieldStorage.Values
    {
      forall id :: id in recursiveFieldStorage && id !in Overrides() ==>
        id in fieldStorage && recursiveFieldStorage[id].fieldDecoder == Some(fieldStorage[id])
    }

    /** `resolveRecursiveDecoders`. It fails exactly on a nil override; its other error, a knot
        without a stored decoder, cannot arise. */
    method ResolveRecursiveDecoders(ghost table: Table) returns (r: Build<(), BuildError>)
      requires Inv(table) && building == {}
      modifies set id | id in planted :: planted[id]
      ensures r.Error? <==> old(NilOverrideMet())
      ensures r.Built? ==> Resolved()
      ensures r.Built? ==> forall id :: id in recursiveFieldStorage && id in Overrides() ==>
        recursiveFieldStorage[id].fieldDecoder == old(recursiveFieldStorage[id].fieldDecoder)
    {
      var todo: set<int> := recursiveFieldStorage.Keys;
      while todo != {}
        invariant todo <= recursiveFieldStorage.Keys
        invariant forall id :: id in recursiveFieldStorage && id !in Overrides() ==>
          recursiveFieldStorage[id].fieldDecoder == if id in todo then None else Some(fieldStorage[id])
        invariant forall id :: id in recursiveFieldStorage && id in Overrides() ==>
          recursiveFieldStorage[id].fieldDecoder == old(recursiveFieldStorage[id].fieldDecoder)
        invariant forall id :: id in recursiveFieldStorage && id in Overrides() && id !in todo ==>
          recursiveFieldStorage[id].fieldDecoder.Some?
      {
        SomeKey(todo);
        var id :| id in todo;
        todo := todo - {id};
        var cell := recursiveFieldStorage[id];
        assert Knot(Overrides(), Now(), id) && Entry(table, Overrides(), Now(), id);
        if cell.fieldDecoder.Some? {
          continue;
        }
        var fieldDecoder := fieldStorage[id];
        if fieldDecoder.Recursive? {
          assert id in Overrides() by {
            if id !in Overrides() {
              RepDefNotRecursive(EnvOf(table), fieldDecoder, table[id].def);
            }
          }
          return Error(RecursiveFieldResolving);
        }
        cell.fieldDecoder := Some(fieldDecoder);
      }
      return Built(());
    }

    // ---------------------------------------------------------------- the registries

    /** Every knot is tied, in the heap: its cell holds a decoder for its type that is not
        itself a cell. */
    ghost predicate KnotsTied(table: Table)
      reads this, recursiveFieldStorage.Values
    {
      forall id :: id in recursiveFieldStorage && id !in Overrides() ==>
        && id in table
        && recursiveFieldStorage[id].fieldDecoder.Some?
        && !recursiveFieldStorage[id].fieldDecoder.value.Recursive?
        && RepDef(EnvOf(table), recursiveFieldStorage[id].fieldDecoder.value, table[id].def)
    }

    /** The build of a registry ends. */
    ghost predicate Ends(m: Metadata, kind: Kind) {
      RegistryEnds(m, kind, Overrides().Keys)
    }

    /** An override that the build will look up is a nil recursive decoder. */
    ghost predicate NilOverride(m: Metadata, kind: Kind)
      reads set id | id in Overrides() && Overrides()[id].Recursive? :: Overrides()[id].cell
    {
      exists id :: id in Met(m.lookup, Overrides().Keys, Roots(m, kind)) && id in Overrides() &&
        Overrides()[id].Recursive? && Overrides()[id].cell.fieldDecoder.None?
    }

    /** The nil overrides that the build has met are those that it was going to look up. */
    lemma NilOverridesAreMet(m: Metadata, kind: Kind)
      requires Inv(m.lookup) && walked.asked == Met(m.lookup, Overrides().Keys, Roots(m, kind))
      ensures NilOverrideMet() <==> NilOverride(m, kind)
    {
      hide Met, Roots, RepDef;
      if NilOverrideMet() {
        var id :| id in recursiveFieldStorage && id in Overrides() && recursiveFieldStorage[id].fieldDecoder.None?;
        assert Knot(Overrides(), Now(), id);
      }
      if NilOverride(m, kind) {
        var id :| id in Met(m.lookup, Overrides().Keys, Roots(m, kind)) && id in Overrides() &&
          Overrides()[id].Recursive? && Overrides()[id].cell.fieldDecoder.None?;
        assert id in recursiveFieldStorage && Knot(Overrides(), Now(), id);
      }
    }

    /** `CreateCallRegistry`, `CreateEventRegistry` and `CreateErrorRegistry`. A build that ends succeeds
        if and only if what it reaches is supported and no override among that is a nil recursive
        decoder. What is built stands for the types of the metadata and all its knots are tied. */
    method CreateRegistry(m: Metadata, kind: Kind) returns (r: Build<Registry, BuildError>)
      requires Ends(m, kind)
      modifies this
      ensures r.Built? ==> RepRegistry(EnvOf(m.lookup), r.value, Offers(m.lookup, m.pallets, kind))
      ensures r.Built? ==> KnotsTied(m.lookup)
      ensures r.Built? <==> CanBuild(m, kind, Overrides()) && !old(NilOverride(m, kind))
      ensures r == Error(RecursiveFieldResolving) <==> CanBuild(m, kind, Overrides()) && old(NilOverride(m, kind))
      ensures r.Error? && r.error.OfType? ==>
        exists fuel: nat :: WalkRegistry(m, kind, Overrides().Keys, fuel) == Fail(r.error.why)
      ensures r.Error? && r.error.OfType? ==> Flawed(m, kind, Overrides().Keys, r.error.why)
    {
      ghost var cells := set id | id in Overrides() && Overrides()[id].Recursive? :: Overrides()[id].cell;
      OverridesAllocated();
      assert forall c :: c in cells ==> allocated(c);
      hide Roots, Met, RepRegistry, Offers, CanBuild, Inv, KnotsTied, OverrideMap, WalkRegistry, Flawed;
      ghost var fuel: nat :| !WalkRegistry(m, kind, Overrides().Keys, fuel).Out?;
      SucceedsExactly(m, kind, Overrides(), fuel);
      var built := BuildEntries(m, kind, fuel);
      if built.Error? {
        RegistryFlaw(m, kind, Overrides(), fuel);
        return Error(OfType(built.error));
      }
      FinishedBuild(m, kind, Overrides(), fuel);
      assert forall c :: c in cells ==> c.fieldDecoder == old(c.fieldDecoder);
      assert NilOverride(m, kind) == old(NilOverride(m, kind));
      var tied := TieKnots(m, kind);
      r := if tied then Built(built.value) else Error(RecursiveFieldResolving);
    }

    /** The end of a build: it fails exactly on a nil override that was looked up. */
    method TieKnots(m: Metadata, kind: Kind) returns (ok: bool)
      requires Inv(m.lookup) && walked.asked == Met(m.lookup, Overrides().Keys, Roots(m, kind)) && building == {}
      modifies set id | id in planted :: planted[id]
      ensures ok == !old(NilOverride(m, kind))
      ensures ok ==> KnotsTied(m.lookup)
    {
      NilOverridesAreMet(m, kind);
      hide Consistent, Met, NilOverride, NilOverrideMet, Resolved, KnotsTied;
      var resolved := ResolveRecursiveDecoders(m.lookup);
      ok := resolved.Built?;
      if ok {
        TiedWhenResolved(m.lookup);
      }
    }

    /** A knot that is resolved holds a decoder for its type. */
    lemma TiedWhenResolved(table: Table)
      requires Consistent(table, Overrides(), Now()) && building == {} && Resolved()
      ensures KnotsTied(table)
    {
      forall id | id in recursiveFieldStorage && id !in Overrides()
        ensures id in table && RepDef(EnvOf(table), fieldStorage[id], table[id].def) && !fieldStorage[id].Recursive?
      {
        assert Entry(table, Overrides(), Now(), id);
        RepDefNotRecursive(EnvOf(table), fieldStorage[id], table[id].def);
      }
    }

    /** The loop over the pallets. */
    method BuildEntries(m: Metadata, kind: Kind, ghost fuel: nat) returns (r: Build<Registry, TypeError>)
      requires !WalkRegistry(m, kind, Overrides().Keys, fuel).Out?
      modifies this
      ensures Follows(r, WalkRegistry(m, kind, Overrides().Keys, fuel), walked)
      ensures r.Built? ==> Inv(m.lookup) && building == {}
      ensures r.Built? ==> forall id :: id in planted ==> fresh(planted[id])
      ensures r.Built? ==> RepRegistry(EnvOf(m.lookup), r.value, Offers(m.lookup, m.pallets, kind))
    {
      hide RepRegistry, Offers, Inv, OverrideMap, WalkVariants;
      ResetStorages(m.lookup);
      EmptyRegistry(EnvOf(m.lookup), m.lookup, kind);
      var registry: Registry := map[];
      for i := 0 to |m.pallets|
        invariant Inv(m.lookup) && building == {} && forall id :: id in planted ==> fresh(planted[id])
        invariant RepRegistry(EnvOf(m.lookup), registry, Offers(m.lookup, m.pallets[..i], kind))
        invariant WalkPallets(m, kind, Overrides().Keys, i, fuel) == Ok(walked)
      {
        var mod := m.pallets[i];
        OffersStep(m.lookup, m.pallets, i, kind);
        PalletsStep(m, kind, Overrides().Keys, i, fuel);
        var id := TypeIdOf(mod, kind);
        if id.None? {
          continue;
        }
        if id.value !in m.lookup {
          return Error(RegistryTypeNotFound);
        }
        if !m.lookup[id.value].def.DefVariant? {
          return Error(RegistryTypeNotVariant);
        }
        ghost var os := Offers(m.lookup, m.pallets[..i], kind);
        var added := AddPallet(m.lookup, mod, m.lookup[id.value].def.variants, registry, os, fuel);
        if added.Error? {
          return added;
        }
        registry := added.value;
      }
      assert m.pallets[..|m.pallets|] == m.pallets;
      return Built(registry);
    }

    /** The inner loop: the variants of one pallet. */
    method AddPallet(table: Table, mod: Pallet, variants: seq<VariantItem>, registry: Registry, ghost os: seq<Offer>,
                     ghost fuel: nat)
      returns (r: Build<Registry, TypeError>)
      requires Inv(table) && RepRegistry(EnvOf(table), registry, os)
      requires !WalkVariants(table, variants, walked, fuel).Out?
      modifies this
      ensures Follows(r, WalkVariants(table, variants, old(walked), fuel), walked)
      ensures r.Built? ==> Inv(table) && Progress()
      ensures r.Built? ==> RepRegistry(EnvOf(table), r.value, os + PalletOffers(mod, variants))
    {
      hide Inv, RepRegistry, RepFields, WalkFields;
      var reg := registry;
      ghost var added := PalletOffers(mod, variants);
      assert os + added[..0] == os;
      for j := 0 to |variants|
        invariant Inv(table) && Progress() && RepRegistry(EnvOf(table), reg, os + added[..j])
        invariant WalkVariants(table, variants[..j], old(walked), fuel) == Ok(walked)
      {
        var variant := variants[j];
        ghost var env := EnvOf(table);
        VariantsStep(table, variants, j, old(walked), fuel);
        var fields := GetTypeFields(table, variant.fields, fuel);
        if fields.Error? {
          return Error(fields.error);
        }
        RepRegistryGrows(env, EnvOf(table), reg, os + added[..j]);
        var decoder := TypeDecoder(mod.name + "." + variant.name, fields.value);
        AddOffer(EnvOf(table), reg, os + added[..j], added[j], decoder);
        assert os + added[..j] + [added[j]] == os + added[..j + 1];
        reg := reg[(mod.index, variant.index) := decoder];
      }
      assert added[..|variants|] == added && variants[..|variants|] == variants;
      return Built(reg);
    }
  }

  /** `TypeDecoder`. */
  datatype TypeDecoder = TypeDecoder(name: string, fields: seq<Field>)

  type Registry = map<Key, TypeDecoder>

  ghost function PartTypes(parts: seq<Part>): seq<int> {
    seq(|parts|, i requires 0 <= i < |parts| => parts[i].ty)
  }

  ghost predicate RepEntry(env: Env, td: TypeDecoder, o: Offer) {
    td.name == FullName(o) && RepFields(env, td.fields, o.variant.fields)
  }

  /** A registry has an entry for exactly the keys that are offered, and each entry stands for
      the offer that came last under its key. */
  ghost predicate RepRegistry(env: Env, reg: Registry, os: seq<Offer>) {
    && (forall key: Key :: key in reg <==> LastOffer(os, key).Some?)
    && (forall key: Key :: key in reg ==> RepEntry(env, reg[key], LastOffer(os, key).value))
  }

  lemma RepRegistryGrows(env: Env, more: Env, reg: Registry, os: seq<Offer>)
    requires RepRegistry(env, reg, os)
    requires more == env.(knots := more.knots) && Extends(env.knots, more.knots)
    ensures RepRegistry(more, reg, os)
  {
    forall key: Key | key in reg
      ensures RepEntry(more, reg[key], LastOffer(os, key).value)
    {
      assert RepEntry(env, reg[key], LastOffer(os, key).value);
      RepFieldsGrows(env, more, reg[key].fields, LastOffer(os, key).value.variant.fields);
    }
  }

  lemma EmptyRegistry(env: Env, lookup: Table, kind: Kind)
    ensures RepRegistry(env, map[], Offers(lookup, [], kind))
  {
  }

  lemma OffersStep(lookup: Table, pallets: seq<Pallet>, i: nat, kind: Kind)
    requires i < |pallets|
    ensures var id := TypeIdOf(pallets[i], kind);
      var os := Offers(lookup, pallets[..i], kind);
      && Offers(lookup, pallets[..i + 1], kind) == os + PalletOffers(pallets[i], VariantsOf(lookup, id))
      && (id.None? ==> Offers(lookup, pallets[..i + 1], kind) == os)
  {
    assert pallets[..i + 1][..i] == pallets[..i];
    var os := Offers(lookup, pallets[..i], kind);
    assert os + [] == os;
  }

  lemma AddOffer(env: Env, reg: Registry, os: seq<Offer>, o: Offer, td: TypeDecoder)
    requires RepRegistry(env, reg, os) && RepEntry(env, td, o)
    ensures RepRegistry(env, reg[KeyOf(o) := td], os + [o])
  {
    var all := os + [o];
    assert all[..|all| - 1] == os;
    forall key: Key
      ensures LastOffer(all, key) == if key == KeyOf(o) then Some(o) else LastOffer(os, key)
    {
    }
  }
}

/**
 The storages of a factory as values: the decoders by lookup id, with placeholders for what is under
 construction, and the knots to be tied.
 */
module Storages {
  import opened Bytes
  import opened Options
  import opened TypeTable
  import opened Decoders
  import opened Meaning
  import opened Support
  import opened Walks

  // ------------------------------------------------------------------ growing knots

  ghost predicate Extends<K, V>(a: map<K, V>, b: map<K, V>) {
    forall k :: k in a ==> k in b && b[k] == a[k]
  }

  /** A decoder that stands for a type still does when more knots are known. */
  lemma {:induction false} RepDefGrows(env: Env, more: Env, d: FieldDecoder, def: TypeDef)
    requires RepDef(env, d, def)
    requires more == env.(knots := more.knots) && Extends(env.knots, more.knots)
    ensures RepDef(more, d, def)
    decreases d, 1
  {
    match def
    case DefComposite(fields) => RepFieldsGrows(env, more, d.fields, fields);
    case DefVariant(variants) =>
      forall b: byte | b in d.byIndex
        ensures RepVariant(more, d.byIndex[b], LastVariant(variants, b).value)
      {
        var v := LastVariant(variants, b).value;
        if v.fields != [] {
          RepFieldsGrows(env, more, d.byIndex[b].fields, v.fields);
        }
      }
    case DefArray(n, t) => RepDefGrows(env, more, d.item, env.table[t].def);
    case DefSequence(t) => RepDefGrows(env, more, d.item, env.table[t].def);
    case DefTuple(Some(items)) => RepTupleGrows(env, more, d.fields, TupleParts(items, 0));
    case _ =>
  }

  lemma {:induction false} RepFieldsGrows(env: Env, more: Env, fs: seq<Field>, defs: seq<FieldDef>)
    requires RepFields(env, fs, defs)
    requires more == env.(knots := more.knots) && Extends(env.knots, more.knots)
    ensures RepFields(more, fs, defs)
    decreases fs, 0
  {
    forall i | 0 <= i < |fs|
      ensures RepField(more, fs[i], defs[i])
    {
      assert RepField(env, fs[i], defs[i]) && RepAt(env, fs[i].decoder, defs[i].ty);
      if defs[i].ty !in env.overrides && !fs[i].decoder.Recursive? {
        RepDefGrows(env, more, fs[i].decoder, env.table[defs[i].ty].def);
      }
    }
  }

  lemma {:induction false} RepTupleGrows(env: Env, more: Env, fs: seq<Field>, parts: seq<Part>)
    requires RepTuple(env, fs, parts)
    requires more == env.(knots := more.knots) && Extends(env.knots, more.knots)
    ensures RepTuple(more, fs, parts)
    decreases fs, 0
  {
    forall k | 0 <= k < |fs|
      ensures RepTupleItem(more, fs[k], parts[k])
    {
      assert RepTupleItem(env, fs[k], parts[k]);
      RepDefGrows(env, more, fs[k].decoder, env.table[parts[k].ty].def);
    }
  }

  lemma RepDefNotRecursive(env: Env, d: FieldDecoder, def: TypeDef)
    requires RepDef(env, d, def)
    ensures !d.Recursive?
  {
  }

  lemma NoFieldsRep(env: Env)
    ensures RepFields(env, [], [])
  {
  }

  lemma RepFieldsAppend(env: Env, fs: seq<Field>, defs: seq<FieldDef>, f: Field, def: FieldDef)
    requires RepFields(env, fs, defs) && RepField(env, f, def)
    ensures RepFields(env, fs + [f], defs + [def])
  {
    hide RepField;
  }

  lemma NoTupleRep(env: Env)
    ensures RepTuple(env, [], [])
  {
  }

  lemma RepTupleAppend(env: Env, fs: seq<Field>, parts: seq<Part>, f: Field, part: Part)
    requires RepTuple(env, fs, parts) && RepTupleItem(env, f, part)
    ensures RepTuple(env, fs + [f], parts + [part])
  {
    hide RepTupleItem;
  }

  lemma TupleRep(env: Env, name: string, fields: seq<Field>, items: seq<int>)
    requires RepTuple(env, fields, TupleParts(items, 0))
    ensures RepDef(env, Composite(name, fields), DefTuple(Some(items)))
  {
  }

  lemma NoVariantsRep(env: Env)
    ensures RepDef(env, Variant(map[]), DefVariant([]))
  {
  }

  lemma VariantRep(env: Env, d: FieldDecoder, v: VariantItem)
    requires v.fields != [] && d.Composite? && RepFields(env, d.fields, v.fields)
    ensures RepVariant(env, d, v)
  {
  }

  lemma EmptyVariantRep(env: Env, v: VariantItem)
    requires v.fields == []
    ensures RepVariant(env, Noop, v)
  {
  }

  /** One more variant: it takes the place of an earlier one with its index. */
  lemma AddVariant(env: Env, byIndex: map<byte, FieldDecoder>, vs: seq<VariantItem>, v: VariantItem, d: FieldDecoder)
    requires RepDef(env, Variant(byIndex), DefVariant(vs)) && RepVariant(env, d, v)
    ensures RepDef(env, Variant(byIndex[v.index := d]), DefVariant(vs + [v]))
  {
    var all := vs + [v];
    assert all[..|all| - 1] == vs;
    forall b: byte
      ensures LastVariant(all, b) == if b == v.index then Some(v) else LastVariant(vs, b)
    {
    }
    forall b: byte | b in byIndex[v.index := d]
      ensures RepVariant(env, byIndex[v.index := d][b], LastVariant(all, b).value)
    {
      if b != v.index {
        assert RepVariant(env, Variant(byIndex).byIndex[b], LastVariant(vs, b).value);
      }
    }
  }

  // ------------------------------------------------------------------ what the storages hold

  /** The two storages, the types under construction, every placeholder planted since the last reset,
      and what the build has stored, looked up and visited. */
  datatype Storage = Storage(fields: map<int, FieldDecoder>, knots: map<int, RecursiveDecoder>, building: set<int>,
    planted: map<int, RecursiveDecoder>, walked: Walked)

  /** A type that has been visited: its placeholder is in the storage exactly while it is
      under construction, and after that a decoder that stands for it. */
  ghost predicate Entry(table: Table, ov: OverrideDecoders, s: Storage, id: int)
    requires id in s.fields
  {
    if id in ov then s.fields[id] == ov[id]
    else
      && id in table
      && id in s.planted
      && if id in s.building then s.fields[id] == Recursive(s.planted[id])
         else RepDef(Env(table, ov, s.knots), s.fields[id], table[id].def)
  }

  /** The cell that stands for a type is its placeholder, or else was given as an override. */
  ghost predicate Knot(ov: OverrideDecoders, s: Storage, id: int)
    requires id in s.knots
  {
    if id in ov then ov[id] == Recursive(s.knots[id])
    else id in s.planted && s.knots[id] == s.planted[id]
  }

  /** What was stored, looked up and noted as a knot agrees. */
  ghost predicate Booked(ov: OverrideDecoders, s: Storage) {
    && ov.Keys <= s.fields.Keys == s.walked.seen
    && s.knots.Keys <= s.walked.asked && s.knots.Keys <= s.fields.Keys
    && (forall id :: id in s.walked.asked && id in ov && ov[id].Recursive? ==> id in s.knots)
  }

  /** Placeholders are distinct and no overrides. */
  ghost predicate Distinct(ov: OverrideDecoders, s: Storage) {
    && (forall id :: id in s.building || id in s.planted ==> id in s.fields && id !in ov)
    && (forall i, j :: i in s.planted && j in s.planted && i != j ==> s.planted[i] != s.planted[j])
    && (forall i, j :: i in s.planted && j in ov ==> ov[j] != Recursive(s.planted[i]))
  }

  /** What holds between any two steps of a build. */
  ghost predicate Consistent(table: Table, ov: OverrideDecoders, s: Storage) {
    && Booked(ov, s) && Distinct(ov, s)
    && (forall id :: id in s.fields ==> Entry(table, ov, s, id))
    && (forall id :: id in s.knots ==> Knot(ov, s, id))
  }

  /** A stored decoder is looked up; a recursive one is a knot from then on. */
  function Reused(s: Storage, id: int): Storage
    requires id in s.fields
  {
    var ft := s.fields[id];
    s.(knots := if ft.Recursive? then s.knots[id := ft.cell] else s.knots,
       walked := s.walked.(asked := s.walked.asked + {id}))
  }

  lemma ReuseKeeps(table: Table, ov: OverrideDecoders, s: Storage, id: int)
    requires Consistent(table, ov, s) && id in s.fields && id in table
    ensures Consistent(table, ov, Reused(s, id)) && Extends(s.knots, Reused(s, id).knots)
    ensures RepAt(Env(table, ov, Reused(s, id).knots), s.fields[id], id)
  {
    var s', ft := Reused(s, id), s.fields[id];
    var env, more := Env(table, ov, s.knots), Env(table, ov, s'.knots);
    assert Entry(table, ov, s, id);
    hide RepDef;
    if id !in ov && id !in s.building {
      RepDefNotRecursive(env, ft, table[id].def);
    }
    assert Extends(s.knots, s'.knots) by {
      if id in s.knots {
        assert Knot(ov, s, id);
      }
    }
    forall k | k in s'.fields
      ensures Entry(table, ov, s', k)
    {
      assert Entry(table, ov, s, k);
      if k !in ov && k !in s.building {
        RepDefGrows(env, more, s.fields[k], table[k].def);
      }
    }
    forall k | k in s'.knots
      ensures Knot(ov, s', k)
    {
      assert k != id ==> Knot(ov, s, k);
    }
  }

  /** A placeholder is planted. */
  function Planted(s: Storage, id: int, cell: RecursiveDecoder): Storage {
    s.(fields := s.fields[id := Recursive(cell)], building := s.building + {id}, planted := s.planted[id := cell],
       walked := Visit(s.walked, id))
  }

  lemma PlantKeeps(table: Table, ov: OverrideDecoders, s: Storage, id: int, cell: RecursiveDecoder)
    requires Consistent(table, ov, s) && id in table && id !in s.fields
    requires (forall k :: k in s.planted ==> s.planted[k] != cell) && forall k :: k in ov ==> ov[k] != Recursive(cell)
    ensures Consistent(table, ov, Planted(s, id, cell))
  {
    hide RepDef;
    var s' := Planted(s, id, cell);
    forall k | k in s'.fields
      ensures Entry(table, ov, s', k)
    {
      assert k != id ==> Entry(table, ov, s, k);
    }
    forall k | k in s'.knots
      ensures Knot(ov, s', k)
    {
      assert Knot(ov, s, k);
    }
  }

  /** The placeholder in the storage gives way to the decoder. */
  function Stored(s: Storage, id: int, decoder: FieldDecoder): Storage {
    s.(fields := s.fields[id := decoder], building := s.building - {id})
  }

  lemma StoreKeeps(table: Table, ov: OverrideDecoders, s: Storage, id: int, decoder: FieldDecoder)
    requires Consistent(table, ov, s) && id in s.building && id in table
    requires RepDef(Env(table, ov, s.knots), decoder, table[id].def)
    ensures Consistent(table, ov, Stored(s, id, decoder)) && RepAt(Env(table, ov, s.knots), decoder, id)
  {
    RepDefNotRecursive(Env(table, ov, s.knots), decoder, table[id].def);
    hide RepDef;
    var s' := Stored(s, id, decoder);
    assert id in s.fields && s'.fields.Keys == s.fields.Keys;
    forall k | k in s'.fields
      ensures Entry(table, ov, s', k)
    {
      assert Entry(table, ov, s, k);
    }
    forall k | k in s'.knots
      ensures Knot(ov, s', k)
    {
      assert Knot(ov, s, k);
    }
  }
}

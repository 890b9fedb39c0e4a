/**
 What a walk that came to its end has shown: all that it visited is supported, it has looked up
 exactly what can be reached, and no cycle of items can be.
 */
module Tracks {
  import opened TypeTable
  import opened Support
  import opened Walks

  // ------------------------------------------------------------------ compact mode

  ghost predicate CompactWithin(table: Table, t: int, fuel: nat) {
    t in table && WalkCompact(table, table[t].def, fuel).Ok?
  }

  /** The types that can be built in compact mode. */
  ghost function CompactSet(table: Table): set<int> {
    set t | t in table && exists fuel: nat :: CompactWithin(table, t, fuel)
  }

  lemma {:induction false} PartsBuilt(table: Table, ids: seq<int>, missing: TypeError, fuel: nat)
    requires WalkParts(table, ids, missing, fuel).Ok?
    ensures forall t :: t in ids ==> fuel > 0 && CompactWithin(table, t, fuel - 1)
    decreases |ids|
  {
    if ids != [] {
      var n := |ids| - 1;
      PartsBuilt(table, ids[..n], missing, fuel);
      assert ids == ids[..n] + [ids[n]];
    }
  }

  /** What a type is built from in compact mode is built with less. */
  lemma CompactParts(table: Table, id: int, fuel: nat)
    requires CompactWithin(table, id, fuel)
    ensures forall t :: t in CompactEdges(table[id].def) ==> fuel > 0 && CompactWithin(table, t, fuel - 1)
  {
    hide WalkParts;
    var def := table[id].def;
    if def.DefComposite? {
      PartsBuilt(table, CompactEdges(def), CompactCompositeFieldTypeNotFound, fuel);
    } else if def.DefTuple? && def.items.Some? {
      PartsBuilt(table, CompactEdges(def), CompactTupleItemTypeNotFound, fuel);
    }
  }

  lemma CompactSetIsClosed(table: Table, id: int, plain: set<int>)
    requires id in CompactSet(table)
    ensures CompactSupported(Good(plain, CompactSet(table)), table[id].def)
  {
    var fuel: nat :| CompactWithin(table, id, fuel);
    CompactParts(table, id, fuel);
    var edges := CompactEdges(table[id].def);
    forall k | 0 <= k < |edges|
      ensures edges[k] in CompactSet(table)
    {
      var t := edges[k];
      assert t in edges;
      assert CompactWithin(table, t, fuel - 1);
    }
  }

  // ------------------------------------------------------------------ items

  ghost predicate WalkedFrom(table: Table, id: int, w: Walked, fuel: nat) {
    id in table && WalkDef(table, table[id].def, w, fuel).Ok?
  }

  ghost predicate VisitedWithin(table: Table, id: int, fuel: nat) {
    exists w :: WalkedFrom(table, id, w, fuel)
  }

  ghost predicate Visited(table: Table, id: int) {
    exists fuel: nat :: VisitedWithin(table, id, fuel)
  }

  lemma {:induction false} ItemsVisited(table: Table, items: seq<int>, missing: TypeError, w: Walked, fuel: nat)
    requires WalkItems(table, items, missing, w, fuel).Ok?
    ensures forall t :: t in items ==> fuel > 0 && VisitedWithin(table, t, fuel - 1)
    decreases |items|
  {
    hide WalkDef;
    if items != [] {
      var n := |items| - 1;
      ItemsVisited(table, items[..n], missing, w, fuel);
      var w' := WalkItems(table, items[..n], missing, w, fuel).value;
      ItemVisited(table, items[n], missing, w', fuel);
      assert items == items[..n] + [items[n]];
    }
  }

  lemma ItemVisited(table: Table, t: int, missing: TypeError, w: Walked, fuel: nat)
    requires WalkItem(table, t, missing, w, fuel).Ok?
    ensures fuel > 0 && VisitedWithin(table, t, fuel - 1)
  {
    hide WalkDef;
    assert WalkedFrom(table, t, VisitItem(w, t), fuel - 1);
  }

  /** The items of a type are visited with less. */
  lemma VisitsItems(table: Table, id: int, fuel: nat)
    requires VisitedWithin(table, id, fuel)
    ensures forall t :: t in ItemEdges(table[id].def) ==> fuel > 0 && VisitedWithin(table, t, fuel - 1)
  {
    var w :| WalkedFrom(table, id, w, fuel);
    hide WalkItems, WalkItem, VisitedWithin;
    match table[id].def
    case DefArray(_, t) => ItemVisited(table, t, ArrayFieldTypeNotFound, w, fuel);
    case DefSequence(t) => ItemVisited(table, t, VectorFieldTypeNotFound, w, fuel);
    case DefTuple(Some(items)) => ItemsVisited(table, items, TupleItemTypeNotFound, w, fuel);
    case _ =>
  }

  // ------------------------------------------------------------------ what was visited

  /** All that the fields refer to was visited and looked up. */
  ghost predicate FieldsDone(table: Table, ov: OverrideDecoders, w: Walked, fields: seq<FieldDef>) {
    FieldsSupported(table, ov, Good(w.built, CompactSet(table)), fields) && FieldsIn(w.asked, fields)
  }

  ghost predicate DefDone(table: Table, ov: OverrideDecoders, w: Walked, def: TypeDef) {
    DefSupported(table, ov, Good(w.built, CompactSet(table)), def) && DefFieldsIn(w.asked, def)
  }

  /** What was looked up is stored, and what is stored was given or visited. */
  ghost predicate Sound(ov: OverrideDecoders, w: Walked) {
    ov.Keys <= w.seen && w.asked <= w.seen <= ov.Keys + w.built
  }

  ghost predicate AllDone(table: Table, ov: OverrideDecoders, ids: set<int>, w: Walked) {
    forall id :: id in ids ==> Visited(table, id) && id in table && DefDone(table, ov, w, table[id].def)
  }

  /** A stretch of a walk that looked up only what is in `met`: all that was visited on it is done. */
  ghost predicate Tracked(table: Table, ov: OverrideDecoders, met: set<int>, w: Walked, w': Walked) {
    Later(w, w') && Sound(ov, w') && w'.asked <= met && AllDone(table, ov, w'.built - w.built, w')
  }

  lemma FieldsDoneGrows(table: Table, ov: OverrideDecoders, w: Walked, w': Walked, fields: seq<FieldDef>)
    requires FieldsDone(table, ov, w, fields) && Later(w, w')
    ensures FieldsDone(table, ov, w', fields)
  {
    hide CompactSet;
  }

  lemma DefDoneGrows(table: Table, ov: OverrideDecoders, w: Walked, w': Walked, def: TypeDef)
    requires DefDone(table, ov, w, def) && Later(w, w')
    ensures DefDone(table, ov, w', def)
  {
    hide CompactSet;
    if def.DefVariant? {
      forall i | 0 <= i < |def.variants|
        ensures FieldsDone(table, ov, w', def.variants[i].fields)
      {
        FieldsDoneGrows(table, ov, w, w', def.variants[i].fields);
      }
    }
  }

  lemma AllDoneGrows(table: Table, ov: OverrideDecoders, ids: set<int>, w: Walked, w': Walked)
    requires AllDone(table, ov, ids, w) && Later(w, w')
    ensures AllDone(table, ov, ids, w')
  {
    hide DefDone, Visited;
    forall id | id in ids
      ensures Visited(table, id) && id in table && DefDone(table, ov, w', table[id].def)
    {
      DefDoneGrows(table, ov, w, w', table[id].def);
    }
  }

  lemma TrackOn(table: Table, ov: OverrideDecoders, met: set<int>, w: Walked, w1: Walked, w2: Walked)
    requires Tracked(table, ov, met, w, w1) && Tracked(table, ov, met, w1, w2)
    ensures Tracked(table, ov, met, w, w2)
  {
    hide DefDone, Visited;
    AllDoneGrows(table, ov, w1.built - w.built, w1, w2);
  }

  /** The visit of a type, followed by that of its definition. */
  lemma TrackVisit(table: Table, ov: OverrideDecoders, met: set<int>, id: int, w: Walked, w1: Walked, w2: Walked)
    requires Later(w, w1) && w1.built == w.built + {id} && Tracked(table, ov, met, w1, w2)
    requires Visited(table, id) && id in table && DefDone(table, ov, w2, table[id].def)
    ensures Tracked(table, ov, met, w, w2)
  {
    hide DefDone, Visited;
  }

  // ------------------------------------------------------------------ along a walk

  /** Sets of types that a walk does not leave: it looks up `met` and visits `live`. */
  ghost predicate Closed(table: Table, ov: OverrideDecoders, met: set<int>, live: set<int>) {
    && (forall t :: t in met && t in table && t !in ov ==> t in live)
    && (forall id :: id in live && id in table ==> StaysIn(table, met, live, table[id].def))
  }

  ghost predicate StaysIn(table: Table, met: set<int>, live: set<int>, def: TypeDef) {
    DefFieldsIn(met, def) && forall t :: t in ItemEdges(def) && t in table ==> t in live
  }

  lemma {:induction false} TrackFields(table: Table, ov: OverrideDecoders, met: set<int>, live: set<int>,
          fields: seq<FieldDef>, w: Walked, fuel: nat)
    requires Closed(table, ov, met, live) && Sound(ov, w) && w.asked <= met && FieldsIn(met, fields)
    requires WalkFields(table, fields, w, fuel).Ok?
    ensures var w' := WalkFields(table, fields, w, fuel).value;
      Tracked(table, ov, met, w, w') && FieldsDone(table, ov, w', fields)
    decreases fuel, 1, |fields|
  {
    hide WalkField, Closed, AllDone, FieldsDone;
    if fields == [] {
      NothingDone(table, ov, w);
    } else {
      var n := |fields| - 1;
      var w1 := WalkFields(table, fields[..n], w, fuel).value;
      var w2 := WalkFields(table, fields, w, fuel).value;
      TrackFields(table, ov, met, live, fields[..n], w, fuel);
      TrackField(table, ov, met, live, fields[n], w1, fuel);
      TrackOn(table, ov, met, w, w1, w2);
      FieldsDoneGrows(table, ov, w1, w2, fields[..n]);
      FieldsDoneAppend(table, ov, w2, fields[..n], fields[n]);
      assert fields == fields[..n] + [fields[n]];
    }
  }

  lemma NothingDone(table: Table, ov: OverrideDecoders, w: Walked)
    ensures AllDone(table, ov, w.built - w.built, w) && FieldsDone(table, ov, w, [])
  {
  }

  lemma FieldsDoneAppend(table: Table, ov: OverrideDecoders, w: Walked, fields: seq<FieldDef>, field: FieldDef)
    requires FieldsDone(table, ov, w, fields) && FieldsDone(table, ov, w, [field])
    ensures FieldsDone(table, ov, w, fields + [field])
  {
    hide CompactSet;
    assert [field][0] == field;
    assert FieldSupported(table, ov, Good(w.built, CompactSet(table)), [field][0]);
  }

  lemma {:induction false} TrackField(table: Table, ov: OverrideDecoders, met: set<int>, live: set<int>,
          field: FieldDef, w: Walked, fuel: nat)
    requires Closed(table, ov, met, live) && Sound(ov, w) && w.asked <= met && field.ty in met
    requires WalkField(table, field, w, fuel).Ok?
    ensures var w' := WalkField(table, field, w, fuel).value;
      Tracked(table, ov, met, w, w') && FieldsDone(table, ov, w', [field])
    decreases fuel, 0
  {
    hide WalkDef, DefDone, StaysIn, Visited;
    var id := field.ty;
    if id !in w.seen {
      var w1 := Visit(w, id);
      var w2 := WalkField(table, field, w, fuel).value;
      TrackDef(table, ov, met, live, table[id].def, w1, fuel - 1);
      IsVisited(table, id, w1, fuel - 1);
      TrackVisit(table, ov, met, id, w, w1, w2);
    }
  }

  lemma IsVisited(table: Table, id: int, w: Walked, fuel: nat)
    requires WalkedFrom(table, id, w, fuel)
    ensures Visited(table, id)
  {
    assert VisitedWithin(table, id, fuel);
  }

  lemma {:induction false} TrackDef(table: Table, ov: OverrideDecoders, met: set<int>, live: set<int>,
          def: TypeDef, w: Walked, fuel: nat)
    requires Closed(table, ov, met, live) && Sound(ov, w) && w.asked <= met && StaysIn(table, met, live, def)
    requires WalkDef(table, def, w, fuel).Ok?
    ensures var w' := WalkDef(table, def, w, fuel).value;
      Tracked(table, ov, met, w, w') && DefDone(table, ov, w', def)
    decreases fuel, 3
  {
    hide WalkFields, WalkVariants, WalkItems, WalkItem, WalkPart, Closed, AllDone, CompactSet;
    NothingDone(table, ov, w);
    match def
    case DefCompact(t) => PartInSet(table, t, CompactFieldTypeNotFound, fuel);
    case DefComposite(fields) => TrackFields(table, ov, met, live, fields, w, fuel);
    case DefVariant(vs) => TrackVariants(table, ov, met, live, vs, w, fuel);
    case DefArray(_, t) => TrackItem(table, ov, met, live, t, ArrayFieldTypeNotFound, w, fuel);
    case DefSequence(t) => TrackItem(table, ov, met, live, t, VectorFieldTypeNotFound, w, fuel);
    case DefTuple(Some(items)) => TrackItems(table, ov, met, live, items, TupleItemTypeNotFound, w, fuel);
    case _ =>
  }

  lemma PartInSet(table: Table, t: int, missing: TypeError, fuel: nat)
    requires WalkPart(table, t, missing, fuel).Ok?
    ensures t in CompactSet(table)
  {
    assert CompactWithin(table, t, fuel - 1);
  }

  lemma {:induction false} TrackVariants(table: Table, ov: OverrideDecoders, met: set<int>, live: set<int>,
          vs: seq<VariantItem>, w: Walked, fuel: nat)
    requires Closed(table, ov, met, live) && Sound(ov, w) && w.asked <= met && DefFieldsIn(met, DefVariant(vs))
    requires WalkVariants(table, vs, w, fuel).Ok?
    ensures var w' := WalkVariants(table, vs, w, fuel).value;
      Tracked(table, ov, met, w, w') && DefDone(table, ov, w', DefVariant(vs))
    decreases fuel, 2, |vs|
  {
    hide WalkFields, Closed, AllDone, CompactSet, FieldsIn, FieldsSupported;
    if vs == [] {
      NothingDone(table, ov, w);
    } else {
      var n := |vs| - 1;
      var w1 := WalkVariants(table, vs[..n], w, fuel).value;
      var w2 := WalkVariants(table, vs, w, fuel).value;
      TrackVariants(table, ov, met, live, vs[..n], w, fuel);
      TrackFields(table, ov, met, live, vs[n].fields, w1, fuel);
      TrackOn(table, ov, met, w, w1, w2);
      DefDoneGrows(table, ov, w1, w2, DefVariant(vs[..n]));
      VariantDone(table, ov, w2, vs[..n], vs[n]);
      assert vs == vs[..n] + [vs[n]];
    }
  }

  lemma VariantDone(table: Table, ov: OverrideDecoders, w: Walked, vs: seq<VariantItem>, v: VariantItem)
    requires DefDone(table, ov, w, DefVariant(vs)) && FieldsDone(table, ov, w, v.fields)
    ensures DefDone(table, ov, w, DefVariant(vs + [v]))
  {
    hide CompactSet, FieldsSupported, FieldsIn;
  }

  lemma {:induction false} TrackItems(table: Table, ov: OverrideDecoders, met: set<int>, live: set<int>,
          items: seq<int>, missing: TypeError, w: Walked, fuel: nat)
    requires Closed(table, ov, met, live) && Sound(ov, w) && w.asked <= met
    requires forall t :: t in items && t in table ==> t in live
    requires WalkItems(table, items, missing, w, fuel).Ok?
    ensures var w' := WalkItems(table, items, missing, w, fuel).value;
      Tracked(table, ov, met, w, w') && AllIn(items, w'.built)
    decreases fuel, 1, |items|
  {
    hide WalkItem, Closed, AllDone;
    if items == [] {
      NothingDone(table, ov, w);
    } else {
      var n := |items| - 1;
      var w1 := WalkItems(table, items[..n], missing, w, fuel).value;
      var w2 := WalkItems(table, items, missing, w, fuel).value;
      TrackItems(table, ov, met, live, items[..n], missing, w, fuel);
      TrackItem(table, ov, met, live, items[n], missing, w1, fuel);
      TrackOn(table, ov, met, w, w1, w2);
      assert forall k :: 0 <= k < n ==> items[..n][k] == items[k];
    }
  }

  lemma {:induction false} TrackItem(table: Table, ov: OverrideDecoders, met: set<int>, live: set<int>,
          t: int, missing: TypeError, w: Walked, fuel: nat)
    requires Closed(table, ov, met, live) && Sound(ov, w) && w.asked <= met && (t in table ==> t in live)
    requires WalkItem(table, t, missing, w, fuel).Ok?
    ensures var w' := WalkItem(table, t, missing, w, fuel).value;
      Tracked(table, ov, met, w, w') && t in w'.built
    decreases fuel, 0
  {
    hide WalkDef, DefDone, StaysIn, Visited;
    var w1 := VisitItem(w, t);
    var w2 := WalkItem(table, t, missing, w, fuel).value;
    TrackDef(table, ov, met, live, table[t].def, w1, fuel - 1);
    IsVisited(table, t, w1, fuel - 1);
    TrackVisit(table, ov, met, t, w, w1, w2);
  }

  // ------------------------------------------------------------------ ranks from a walk

  ghost function Least(p: nat -> bool, n: nat): (r: nat)
    requires p(n)
    ensures p(r) && forall k: nat :: p(k) ==> r <= k
  {
    if exists k: nat :: k < n && p(k) then
      var k: nat :| k < n && p(k);
      Least(p, k)
    else n
  }

  /** The least bound under which a type was visited. */
  ghost function ItemRank(table: Table, id: int): (r: nat)
    ensures Visited(table, id) ==> VisitedWithin(table, id, r)
    ensures forall k: nat :: VisitedWithin(table, id, k) ==> r <= k
  {
    if Visited(table, id) then
      var fuel: nat :| VisitedWithin(table, id, fuel);
      var p := (n: nat) => VisitedWithin(table, id, n);
      assert forall k: nat :: VisitedWithin(table, id, k) ==> p(k);
      Least(p, fuel)
    else 0
  }

  ghost function CompactRank(table: Table, id: int): (r: nat)
    ensures id in CompactSet(table) ==> CompactWithin(table, id, r)
    ensures forall k: nat :: CompactWithin(table, id, k) ==> r <= k
  {
    if id in CompactSet(table) then
      var fuel: nat :| CompactWithin(table, id, fuel);
      var p := (n: nat) => CompactWithin(table, id, n);
      assert forall k: nat :: CompactWithin(table, id, k) ==> p(k);
      Least(p, fuel)
    else 0
  }

  /** What was looked up and visited, ranked by how much it took. */
  ghost function WalkRanking(table: Table, w: Walked): Ranking {
    Ranking(w.asked, w.built, id => ItemRank(table, id), CompactSet(table), id => CompactRank(table, id))
  }

  lemma RankedItems(table: Table, id: int, t: int)
    requires Visited(table, id) && id in table && t in ItemEdges(table[id].def)
    ensures ItemRank(table, t) < ItemRank(table, id)
  {
    VisitsItems(table, id, ItemRank(table, id));
  }

  lemma RankedParts(table: Table, id: int, t: int)
    requires id in CompactSet(table) && t in CompactEdges(table[id].def)
    ensures t in CompactSet(table) && CompactRank(table, t) < CompactRank(table, id)
  {
    CompactParts(table, id, CompactRank(table, id));
    assert CompactWithin(table, t, CompactRank(table, id) - 1);
  }

  /** What was visited from the start on is ranked. */
  lemma WalkedIsRanked(table: Table, ov: OverrideDecoders, w: Walked)
    requires Sound(ov, w) && AllDone(table, ov, w.built, w)
    ensures Ranked(table, ov, WalkRanking(table, w))
  {
    var rk := WalkRanking(table, w);
    hide CompactSet, Visited, ItemRank, CompactRank;
    forall id | id in rk.live && id in table
      ensures LiveDef(table, rk, id, table[id].def)
    {
      assert DefDone(table, ov, w, table[id].def);
      forall t | t in ItemEdges(table[id].def) && t in table
        ensures t in rk.live && rk.rank(t) < rk.rank(id)
      {
        RankedItems(table, id, t);
      }
    }
    forall id, t | id in rk.compact && id in table && t in CompactEdges(table[id].def) && t in table
      ensures t in rk.compact && rk.compactRank(t) < rk.compactRank(id)
    {
      RankedParts(table, id, t);
    }
  }

  /** And supported. */
  lemma WalkedIsSupported(table: Table, ov: OverrideDecoders, w: Walked)
    requires AllDone(table, ov, w.built, w)
    ensures Supported(table, ov, Good(w.built, CompactSet(table)))
  {
    forall id | id in CompactSet(table)
      ensures id in table && CompactSupported(Good(w.built, CompactSet(table)), table[id].def)
    {
      CompactSetIsClosed(table, id, w.built);
    }
    hide CompactSet, Visited, DefSupported;
  }

  /** All that can be reached from what was looked up was looked up. */
  lemma MetWasAsked(table: Table, ov: OverrideDecoders, w: Walked, roots: set<int>)
    requires Sound(ov, w) && AllDone(table, ov, w.built, w) && roots <= w.asked
    ensures Met(table, ov.Keys, roots) <= w.asked
  {
    var rk := WalkRanking(table, w);
    WalkedIsRanked(table, ov, w);
    LiveIsRanked(table, ov, roots, rk);
    hide Live, CompactSet, Visited, DefSupported;
    forall t | t in Met(table, ov.Keys, roots)
      ensures t in w.asked
    {
      if t !in roots {
        var id :| id in Live(table, ov.Keys, roots) && t in DefFieldTypes(table[id].def);
        assert DefDone(table, ov, w, table[id].def);
        DefFieldTypesAre(w.asked, table[id].def);
      }
    }
  }

  /** What can be reached is closed. */
  lemma ReachedIsClosed(table: Table, ov: OverrideDecoders, roots: set<int>)
    ensures Closed(table, ov, Met(table, ov.Keys, roots), Live(table, ov.Keys, roots))
  {
    var met, live := Met(table, ov.Keys, roots), Live(table, ov.Keys, roots);
    forall t | t in met && t in table && t !in ov
      ensures t in live
    {
      MetIsLive(table, ov, roots, t);
    }
    forall id | id in live && id in table
      ensures StaysIn(table, met, live, table[id].def)
    {
      assert DefFieldTypes(table[id].def) <= met by {
        hide Live;
      }
      DefFieldTypesAre(met, table[id].def);
      forall t | t in ItemEdges(table[id].def) && t in table
        ensures t in live
      {
        LiveItems(table, ov, roots, id, t);
      }
    }
  }
}

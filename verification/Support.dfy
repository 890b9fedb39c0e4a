/**
 Which types a factory can build, and from where in a table it reaches no cycle. A build visits types
 through fields, whose decoders are stored and may be met again while unfinished, and through
 items of sequences, arrays, tuples and compact types, which it builds on the spot.
 */
module Support {
  import opened TypeTable
  import opened Decoders
  import opened Meaning
  import opened Acyclic

  type OverrideDecoders = map<int, FieldDecoder>

  /** The types a definition is built from on the spot, without going through the storage. */
  function ItemEdges(def: TypeDef): seq<int> {
    match def
    case DefSequence(t) => [t]
    case DefArray(_, t) => [t]
    case DefTuple(Some(items)) => items
    case _ => []
  }

  /** The same in compact mode. */
  function CompactEdges(def: TypeDef): seq<int> {
    match def
    case DefTuple(Some(items)) => items
    case DefComposite(fields) => seq(|fields|, i requires 0 <= i < |fields| => fields[i].ty)
    case _ => []
  }

  predicate AllIn(ids: seq<int>, s: set<int>) {
    forall k :: 0 <= k < |ids| ==> ids[k] in s
  }

  predicate FieldsIn(ids: set<int>, fields: seq<FieldDef>) {
    forall i :: 0 <= i < |fields| ==> fields[i].ty in ids
  }

  /** The types of all fields of a definition are among `ids`. */
  predicate DefFieldsIn(ids: set<int>, def: TypeDef) {
    match def
    case DefComposite(fields) => FieldsIn(ids, fields)
    case DefVariant(vs) => forall i :: 0 <= i < |vs| ==> FieldsIn(ids, vs[i].fields)
    case _ => true
  }

  // ------------------------------------------------------------------ ranking

  /** What a build may visit: `met` as types of fields, `live` as they are, `compact` in compact mode;
      with a rank for each live type along its item edges, and one along the compact edges. */
  datatype Ranking = Ranking(met: set<int>, live: set<int>, rank: int -> nat, compact: set<int>,
    compactRank: int -> nat)

  ghost predicate LiveDef(table: Table, rk: Ranking, id: int, def: TypeDef) {
    && DefFieldsIn(rk.met, def)
    && (forall t :: t in ItemEdges(def) && t in table ==> t in rk.live && rk.rank(t) < rk.rank(id))
    && (def.DefCompact? && def.inner in table ==> def.inner in rk.compact)
  }

  ghost predicate CompactRanked(table: Table, rk: Ranking) {
    forall id, t :: id in rk.compact && id in table && t in CompactEdges(table[id].def) && t in table ==>
      t in rk.compact && rk.compactRank(t) < rk.compactRank(id)
  }

  ghost predicate Ranked(table: Table, ov: OverrideDecoders, rk: Ranking) {
    && (forall t :: t in rk.met && t in table && t !in ov ==> t in rk.live)
    && (forall id :: id in rk.live && id in table ==> LiveDef(table, rk, id, table[id].def))
    && CompactRanked(table, rk)
  }

  // ------------------------------------------------------------------ support

  /** Types that can be built: `plain` as they are, `compact` in compact mode. */
  datatype Good = Good(plain: set<int>, compact: set<int>)

  ghost predicate FieldSupported(table: Table, ov: OverrideDecoders, good: Good, field: FieldDef) {
    field.ty in table && (field.ty in ov || field.ty in good.plain)
  }

  ghost predicate FieldsSupported(table: Table, ov: OverrideDecoders, good: Good, fields: seq<FieldDef>) {
    forall i :: 0 <= i < |fields| ==> FieldSupported(table, ov, good, fields[i])
  }

  /** The definition itself is supported, and so is all it refers to. */
  ghost predicate DefSupported(table: Table, ov: OverrideDecoders, good: Good, def: TypeDef) {
    match def
    case DefComposite(fields) => FieldsSupported(table, ov, good, fields)
    case DefVariant(vs) => forall i :: 0 <= i < |vs| ==> FieldsSupported(table, ov, good, vs[i].fields)
    case DefSequence(t) => t in good.plain
    case DefArray(_, t) => t in good.plain
    case DefTuple(None) => true
    case DefTuple(Some(items)) => AllIn(items, good.plain)
    case DefPrimitive(code) => PrimitiveTy(code).Some?
    case DefCompact(t) => t in good.compact
    case DefBitSequence(store, order) => BitOrderAt(table, store, order).Some?
    case DefHistoric => false
  }

  ghost predicate CompactSupported(good: Good, def: TypeDef) {
    match def
    case DefPrimitive(_) => true
    case DefTuple(None) => true
    case DefTuple(_) => AllIn(CompactEdges(def), good.compact)
    case DefComposite(_) => AllIn(CompactEdges(def), good.compact)
    case _ => false
  }

  /** A set of types closed under what their definitions refer to, all supported. */
  ghost predicate Supported(table: Table, ov: OverrideDecoders, good: Good) {
    && (forall id :: id in good.plain ==> id in table && DefSupported(table, ov, good, table[id].def))
    && (forall id :: id in good.compact ==> id in table && CompactSupported(good, table[id].def))
  }

  // ------------------------------------------------------------------ where a build ends

  function IdSet(ids: seq<int>): set<int> {
    set t | t in ids
  }

  function FieldTypes(fields: seq<FieldDef>): set<int> {
    set f | f in fields :: f.ty
  }

  function DefFieldTypes(def: TypeDef): set<int> {
    match def
    case DefComposite(fields) => FieldTypes(fields)
    case DefVariant(vs) => set v, f | v in vs && f in v.fields :: f.ty
    case _ => {}
  }

  lemma DefFieldTypesAre(ids: set<int>, def: TypeDef)
    ensures DefFieldsIn(ids, def) <==> DefFieldTypes(def) <= ids
  {
    match def
    case DefComposite(fields) => FieldTypesAre(ids, fields);
    case DefVariant(vs) =>
      if DefFieldTypes(def) <= ids {
        forall i | 0 <= i < |vs|
          ensures FieldsIn(ids, vs[i].fields)
        {
          assert forall j :: 0 <= j < |vs[i].fields| ==> vs[i] in vs && vs[i].fields[j] in vs[i].fields;
        }
      }
    case _ =>
  }

  lemma FieldTypesAre(ids: set<int>, fields: seq<FieldDef>)
    ensures FieldsIn(ids, fields) <==> FieldTypes(fields) <= ids
  {
    if FieldTypes(fields) <= ids {
      assert forall i :: 0 <= i < |fields| ==> fields[i] in fields;
    }
  }

  /** From a type to the types that building it visits: those of its fields, but for overridden ones,
      and its items. */
  function Visits(table: Table, ov: set<int>): Edges {
    map id | id in table :: (DefFieldTypes(table[id].def) - ov) + IdSet(ItemEdges(table[id].def))
  }

  function CompactVisits(table: Table): Edges {
    map id | id in table :: IdSet(CompactEdges(table[id].def))
  }

  /** The types that a build of fields of types `roots` visits. */
  ghost function Live(table: Table, ov: set<int>, roots: set<int>): set<int> {
    Reach(Visits(table, ov), roots - ov)
  }

  /** The types of fields that it looks up. */
  ghost function Met(table: Table, ov: set<int>, roots: set<int>): set<int> {
    roots + set id, t | id in Live(table, ov, roots) && t in DefFieldTypes(table[id].def) :: t
  }

  /** The types that it visits in compact mode. */
  ghost function CompactLive(table: Table, ov: set<int>, roots: set<int>): set<int> {
    Reach(CompactVisits(table), CompactRoots(table, Live(table, ov, roots)))
  }

  ghost function CompactRoots(table: Table, live: set<int>): set<int> {
    set id | id in live && id in table && table[id].def.DefCompact? :: table[id].def.inner
  }

  /** The item edges between live types, which are followed on the spot. */
  ghost function ItemGraph(table: Table, live: set<int>): Edges {
    map id | id in live && id in table :: IdSet(ItemEdges(table[id].def))
  }

  ghost function CompactGraph(table: Table, compact: set<int>): Edges {
    map id | id in compact && id in table :: IdSet(CompactEdges(table[id].def))
  }

  /** No cycle of item edges or of compact edges can be reached from the roots. Cycles through
      fields are no obstacle, nor are cycles elsewhere in the table. */
  ghost predicate BuildEnds(table: Table, ov: set<int>, roots: set<int>) {
    NoCycle(ItemGraph(table, Live(table, ov, roots))) && NoCycle(CompactGraph(table, CompactLive(table, ov, roots)))
  }

  lemma MetIsLive(table: Table, ov: OverrideDecoders, roots: set<int>, t: int)
    requires t in Met(table, ov.Keys, roots) && t in table && t !in ov
    ensures t in Live(table, ov.Keys, roots)
  {
    var e := Visits(table, ov.Keys);
    if t in roots {
      ReachHasRoots(e, roots - ov.Keys, t);
    } else {
      var id :| id in Live(table, ov.Keys, roots) && t in DefFieldTypes(table[id].def);
      ReachIsClosed(e, roots - ov.Keys, id, t);
    }
  }

  lemma LiveItems(table: Table, ov: OverrideDecoders, roots: set<int>, id: int, t: int)
    requires id in Live(table, ov.Keys, roots) && t in ItemEdges(table[id].def) && t in table
    ensures t in Live(table, ov.Keys, roots)
  {
    assert t in IdSet(ItemEdges(table[id].def));
    ReachIsClosed(Visits(table, ov.Keys), roots - ov.Keys, id, t);
  }

  lemma LiveCompact(table: Table, ov: OverrideDecoders, roots: set<int>, id: int)
    requires id in Live(table, ov.Keys, roots) && table[id].def.DefCompact? && table[id].def.inner in table
    ensures table[id].def.inner in CompactLive(table, ov.Keys, roots)
  {
    var inners := CompactRoots(table, Live(table, ov.Keys, roots));
    ReachHasRoots(CompactVisits(table), inners, table[id].def.inner);
  }

  lemma CompactLiveItems(table: Table, ov: OverrideDecoders, roots: set<int>, id: int, t: int)
    requires id in CompactLive(table, ov.Keys, roots) && t in CompactEdges(table[id].def) && t in table
    ensures t in CompactLive(table, ov.Keys, roots)
  {
    var inners := CompactRoots(table, Live(table, ov.Keys, roots));
    assert t in IdSet(CompactEdges(table[id].def));
    ReachIsClosed(CompactVisits(table), inners, id, t);
  }

  /** Where no such cycle can be reached there is a ranking of exactly what can be reached. */
  lemma RankingExists(table: Table, ov: OverrideDecoders, roots: set<int>) returns (rk: Ranking)
    requires BuildEnds(table, ov.Keys, roots)
    ensures Ranked(table, ov, rk) && rk.met == Met(table, ov.Keys, roots) && rk.live == Live(table, ov.Keys, roots)
    ensures CompactRanked(table, rk) && roots <= rk.met
  {
    var live, compact := Live(table, ov.Keys, roots), CompactLive(table, ov.Keys, roots);
    var rank := NoCycleHasRanks(ItemGraph(table, live));
    var compactRank := NoCycleHasRanks(CompactGraph(table, compact));
    rk := Ranking(Met(table, ov.Keys, roots), live, rank, compact, compactRank);
    assert roots <= rk.met;
    hide Live, CompactLive, NoCycle, Met, ItemGraph, CompactGraph, Ranks;
    forall t | t in rk.met && t in table && t !in ov
      ensures t in live
    {
      MetIsLive(table, ov, roots, t);
    }
    forall id | id in live && id in table
      ensures LiveDef(table, rk, id, table[id].def)
    {
      RankedLive(table, ov, roots, rk, id);
    }
    RankedCompact(table, ov, roots, rk);
  }

  lemma RankedCompact(table: Table, ov: OverrideDecoders, roots: set<int>, rk: Ranking)
    requires rk.compact == CompactLive(table, ov.Keys, roots) && Ranks(CompactGraph(table, rk.compact), rk.compactRank)
    ensures CompactRanked(table, rk)
  {
    hide CompactLive;
    forall id, t | id in rk.compact && id in table && t in CompactEdges(table[id].def) && t in table
      ensures t in rk.compact && rk.compactRank(t) < rk.compactRank(id)
    {
      CompactLiveItems(table, ov, roots, id, t);
      assert t in CompactGraph(table, rk.compact)[id];
    }
  }

  lemma RankedLive(table: Table, ov: OverrideDecoders, roots: set<int>, rk: Ranking, id: int)
    requires rk.met == Met(table, ov.Keys, roots) && rk.live == Live(table, ov.Keys, roots)
    requires rk.compact == CompactLive(table, ov.Keys, roots) && Ranks(ItemGraph(table, rk.live), rk.rank)
    requires id in rk.live && id in table
    ensures LiveDef(table, rk, id, table[id].def)
  {
    hide Live, CompactLive;
    var def := table[id].def;
    assert DefFieldTypes(def) <= rk.met;
    DefFieldTypesAre(rk.met, def);
    forall t | t in ItemEdges(def) && t in table
      ensures t in rk.live && rk.rank(t) < rk.rank(id)
    {
      LiveItems(table, ov, roots, id, t);
      assert t in ItemGraph(table, rk.live)[id];
    }
    if def.DefCompact? && def.inner in table {
      LiveCompact(table, ov, roots, id);
    }
  }

  /** What can be reached lies inside every ranking. */
  lemma LiveIsRanked(table: Table, ov: OverrideDecoders, roots: set<int>, rk: Ranking)
    requires Ranked(table, ov, rk) && roots <= rk.met
    ensures Live(table, ov.Keys, roots) <= rk.live
  {
    var e := Visits(table, ov.Keys);
    forall id, t | id in rk.live && Edge(e, id, t) && t in e
      ensures t in rk.live
    {
      DefFieldTypesAre(rk.met, table[id].def);
    }
    ReachIsLeast(e, roots - ov.Keys, rk.live);
  }

  lemma CompactLiveIsRanked(table: Table, ov: OverrideDecoders, roots: set<int>, rk: Ranking)
    requires Ranked(table, ov, rk) && roots <= rk.met
    ensures CompactLive(table, ov.Keys, roots) <= rk.compact
  {
    LiveIsRanked(table, ov, roots, rk);
    var inners := CompactRoots(table, Live(table, ov.Keys, roots));
    var e := CompactVisits(table);
    CompactRootsRanked(table, ov, Live(table, ov.Keys, roots), rk);
    hide Live, CompactRoots;
    ReachIsLeast(e, inners, rk.compact);
  }

  lemma CompactRootsRanked(table: Table, ov: OverrideDecoders, live: set<int>, rk: Ranking)
    requires Ranked(table, ov, rk) && live <= rk.live
    ensures forall id :: id in CompactRoots(table, live) && id in table ==> id in rk.compact
  {
    forall id | id in CompactRoots(table, live) && id in table
      ensures id in rk.compact
    {
      var x :| x in live && x in table && table[x].def.DefCompact? && table[x].def.inner == id;
      assert LiveDef(table, rk, x, table[x].def);
    }
  }

  /** And conversely: whatever is ranked has no such cycle. */
  lemma RankedEnds(table: Table, ov: OverrideDecoders, roots: set<int>, rk: Ranking)
    requires Ranked(table, ov, rk) && roots <= rk.met
    ensures BuildEnds(table, ov.Keys, roots)
  {
    LiveIsRanked(table, ov, roots, rk);
    CompactLiveIsRanked(table, ov, roots, rk);
    var live, compact := Live(table, ov.Keys, roots), CompactLive(table, ov.Keys, roots);
    hide Live, CompactLive, NoCycle;
    var items, parts := ItemGraph(table, live), CompactGraph(table, compact);
    forall id, t | id in items && t in items[id] && t in items
      ensures rk.rank(t) < rk.rank(id)
    {
      assert LiveDef(table, rk, id, table[id].def);
    }
    RankedHasNoCycle(items, rk.rank);
    RankedHasNoCycle(parts, rk.compactRank);
  }
}

/**
 When the build of a registry ends and when it succeeds, in terms of the metadata and the overrides:
 the walk over the types that the pallets name.
 */
module Builds {
  import opened Options
  import opened TypeTable
  import opened MetadataV14
  import opened Support
  import opened Walks
  import opened WalkOutcomes
  import opened Tracks

  /** The types of the fields that the pallets' types have. */
  ghost function Roots(m: Metadata, kind: Kind): set<int> {
    set i, t | 0 <= i < |m.pallets| &&
      t in DefFieldTypes(DefVariant(VariantsOf(m.lookup, TypeIdOf(m.pallets[i], kind)))) :: t
  }

  lemma RootsOfPallet(m: Metadata, kind: Kind, i: nat, met: set<int>)
    requires i < |m.pallets| && Roots(m, kind) <= met
    ensures DefFieldsIn(met, DefVariant(VariantsOf(m.lookup, TypeIdOf(m.pallets[i], kind))))
  {
    DefFieldTypesAre(met, DefVariant(VariantsOf(m.lookup, TypeIdOf(m.pallets[i], kind))));
  }

  /** The type that a pallet names, if it names one, is a variant all of whose fields are supported. */
  ghost predicate PalletSupported(m: Metadata, kind: Kind, ov: OverrideDecoders, good: Good, p: Pallet) {
    var id := TypeIdOf(p, kind);
    id.Some? ==>
      && id.value in m.lookup && m.lookup[id.value].def.DefVariant?
      && DefSupported(m.lookup, ov, good, m.lookup[id.value].def)
  }

  ghost predicate RegistrySupported(m: Metadata, kind: Kind, ov: OverrideDecoders, good: Good) {
    Supported(m.lookup, ov, good) &&
    forall i :: 0 <= i < |m.pallets| ==> PalletSupported(m, kind, ov, good, m.pallets[i])
  }

  /** Some set of types shows that the registry can be built. */
  ghost predicate CanBuild(m: Metadata, kind: Kind, ov: OverrideDecoders) {
    exists good :: RegistrySupported(m, kind, ov, good)
  }

  // ------------------------------------------------------------------ the walk over the pallets

  /** The storage after `resetStorages`. */
  function Start(ov: set<int>): Walked {
    Walked(ov, {}, {})
  }

  /** The fields of the type that a pallet names. */
  function WalkPallet(m: Metadata, kind: Kind, p: Pallet, w: Walked, fuel: nat): (r: Walk<Walked>)
    ensures r.Ok? ==> Later(w, r.value)
  {
    var id := TypeIdOf(p, kind);
    if id.None? then Ok(w)
    else if id.value !in m.lookup then Fail(RegistryTypeNotFound)
    else if !m.lookup[id.value].def.DefVariant? then Fail(RegistryTypeNotVariant)
    else WalkVariants(m.lookup, m.lookup[id.value].def.variants, w, fuel)
  }

  /** The first `n` pallets. */
  function WalkPallets(m: Metadata, kind: Kind, ov: set<int>, n: nat, fuel: nat): (r: Walk<Walked>)
    requires n <= |m.pallets|
    ensures r.Ok? ==> Later(Start(ov), r.value)
  {
    if n == 0 then Ok(Start(ov))
    else
      match WalkPallets(m, kind, ov, n - 1, fuel)
      case Ok(w) => WalkPallet(m, kind, m.pallets[n - 1], w, fuel)
      case other => other
  }

  function WalkRegistry(m: Metadata, kind: Kind, ov: set<int>, fuel: nat): (r: Walk<Walked>)
    ensures r.Ok? ==> Later(Start(ov), r.value)
  {
    WalkPallets(m, kind, ov, |m.pallets|, fuel)
  }

  /** The build ends: there is a bound that its recursion does not exceed. */
  ghost predicate RegistryEnds(m: Metadata, kind: Kind, ov: set<int>) {
    exists fuel: nat :: !WalkRegistry(m, kind, ov, fuel).Out?
  }

  lemma {:induction false} PalletsStop(m: Metadata, kind: Kind, ov: set<int>, i: nat, n: nat, fuel: nat)
    requires i <= n <= |m.pallets| && !WalkPallets(m, kind, ov, i, fuel).Ok?
    ensures WalkPallets(m, kind, ov, n, fuel) == WalkPallets(m, kind, ov, i, fuel)
  {
    hide WalkPallet;
    if i < n {
      PalletsStop(m, kind, ov, i, n - 1, fuel);
    }
  }

  /** The walk over one pallet more. */
  lemma PalletsStep(m: Metadata, kind: Kind, ov: set<int>, i: nat, fuel: nat)
    requires i < |m.pallets| && WalkPallets(m, kind, ov, i, fuel).Ok?
    ensures var step := WalkPallet(m, kind, m.pallets[i], WalkPallets(m, kind, ov, i, fuel).value, fuel);
      && WalkPallets(m, kind, ov, i + 1, fuel) == step
      && (!step.Ok? ==> WalkRegistry(m, kind, ov, fuel) == step)
  {
    hide WalkPallet;
    if !WalkPallets(m, kind, ov, i + 1, fuel).Ok? {
      PalletsStop(m, kind, ov, i + 1, |m.pallets|, fuel);
    }
  }

  // ------------------------------------------------------------------ supported metadata

  /** Where everything is supported the build causes no error. */
  lemma {:induction false} SupportedPallets(m: Metadata, kind: Kind, ov: OverrideDecoders, good: Good, n: nat,
          fuel: nat)
    requires RegistrySupported(m, kind, ov, good) && n <= |m.pallets|
    ensures !WalkPallets(m, kind, ov.Keys, n, fuel).Fail?
  {
    hide Supported, DefSupported, WalkVariants;
    if n > 0 {
      SupportedPallets(m, kind, ov, good, n - 1, fuel);
      var before := WalkPallets(m, kind, ov.Keys, n - 1, fuel);
      assert PalletSupported(m, kind, ov, good, m.pallets[n - 1]);
      var id := TypeIdOf(m.pallets[n - 1], kind);
      if before.Ok? && id.Some? {
        SupportedVariants(m.lookup, ov, good, m.lookup[id.value].def.variants, before.value, fuel);
      }
    }
  }

  // ------------------------------------------------------------------ where the build ends

  lemma {:induction false} MoreFuelPallets(m: Metadata, kind: Kind, ov: set<int>, n: nat, fuel: nat, more: nat)
    requires n <= |m.pallets| && fuel <= more && !WalkPallets(m, kind, ov, n, fuel).Out?
    ensures WalkPallets(m, kind, ov, n, more) == WalkPallets(m, kind, ov, n, fuel)
  {
    hide WalkPallet;
    if n > 0 {
      MoreFuelPallets(m, kind, ov, n - 1, fuel, more);
      var before := WalkPallets(m, kind, ov, n - 1, fuel);
      if before.Ok? {
        MoreFuelPallet(m, kind, m.pallets[n - 1], before.value, fuel, more);
      }
    }
  }

  lemma MoreFuelPallet(m: Metadata, kind: Kind, p: Pallet, w: Walked, fuel: nat, more: nat)
    requires fuel <= more && !WalkPallet(m, kind, p, w, fuel).Out?
    ensures WalkPallet(m, kind, p, w, more) == WalkPallet(m, kind, p, w, fuel)
  {
    hide WalkVariants;
    var id := TypeIdOf(p, kind);
    if id.Some? && id.value in m.lookup && m.lookup[id.value].def.DefVariant? {
      MoreFuelVariants(m.lookup, m.lookup[id.value].def.variants, w, fuel, more);
    }
  }

  lemma {:induction false} PalletsEnd(m: Metadata, kind: Kind, ov: OverrideDecoders, rk: Ranking, n: nat)
    returns (fuel: nat)
    requires Ranked(m.lookup, ov, rk) && Roots(m, kind) <= rk.met && n <= |m.pallets|
    ensures !WalkPallets(m, kind, ov.Keys, n, fuel).Out?
  {
    hide Ranked, Roots, WalkPallet;
    if n == 0 {
      fuel := 0;
    } else {
      fuel := PalletsEnd(m, kind, ov, rk, n - 1);
      var before := WalkPallets(m, kind, ov.Keys, n - 1, fuel);
      if before.Ok? {
        var more := PalletEnds(m, kind, ov, rk, n - 1, before.value);
        var most := if fuel < more then more else fuel;
        MoreFuelPallets(m, kind, ov.Keys, n - 1, fuel, most);
        MoreFuelPallet(m, kind, m.pallets[n - 1], before.value, more, most);
        fuel := most;
      }
    }
  }

  lemma PalletEnds(m: Metadata, kind: Kind, ov: OverrideDecoders, rk: Ranking, i: nat, w: Walked) returns (fuel: nat)
    requires Ranked(m.lookup, ov, rk) && Roots(m, kind) <= rk.met && i < |m.pallets| && ov.Keys <= w.seen
    ensures !WalkPallet(m, kind, m.pallets[i], w, fuel).Out?
  {
    hide Ranked, Roots, WalkVariants;
    fuel := 0;
    var id := TypeIdOf(m.pallets[i], kind);
    if id.Some? && id.value in m.lookup && m.lookup[id.value].def.DefVariant? {
      RootsOfPallet(m, kind, i, rk.met);
      fuel := VariantsEnd(m.lookup, ov, rk, m.lookup[id.value].def.variants, w);
    }
  }

  /** Where no cycle of items can be reached the build ends. */
  lemma EndsWithoutCycle(m: Metadata, kind: Kind, ov: OverrideDecoders)
    requires BuildEnds(m.lookup, ov.Keys, Roots(m, kind))
    ensures RegistryEnds(m, kind, ov.Keys)
  {
    var rk := RankingExists(m.lookup, ov, Roots(m, kind));
    hide BuildEnds, Ranked, Roots, Met, Live;
    var fuel := PalletsEnd(m, kind, ov, rk, |m.pallets|);
    assert !WalkRegistry(m, kind, ov.Keys, fuel).Out?;
  }

  // ------------------------------------------------------------------ what a finished build has shown

  ghost predicate PalletDone(m: Metadata, kind: Kind, ov: OverrideDecoders, w: Walked, p: Pallet) {
    PalletSupported(m, kind, ov, Good(w.built, CompactSet(m.lookup)), p) &&
    DefFieldsIn(w.asked, DefVariant(VariantsOf(m.lookup, TypeIdOf(p, kind))))
  }

  lemma {:induction false} TrackPallets(m: Metadata, kind: Kind, ov: OverrideDecoders, met: set<int>, live: set<int>,
          n: nat, fuel: nat)
    requires Closed(m.lookup, ov, met, live) && Roots(m, kind) <= met && n <= |m.pallets|
    requires WalkPallets(m, kind, ov.Keys, n, fuel).Ok?
    ensures var w := WalkPallets(m, kind, ov.Keys, n, fuel).value;
      && Tracked(m.lookup, ov, met, Start(ov.Keys), w)
      && forall i :: 0 <= i < n ==> PalletDone(m, kind, ov, w, m.pallets[i])
  {
    hide Closed, Roots, WalkPallet, PalletDone, AllDone;
    if n == 0 {
      NothingDone(m.lookup, ov, Start(ov.Keys));
    } else {
      TrackPallets(m, kind, ov, met, live, n - 1, fuel);
      var w1 := WalkPallets(m, kind, ov.Keys, n - 1, fuel).value;
      var w2 := WalkPallets(m, kind, ov.Keys, n, fuel).value;
      TrackPallet(m, kind, ov, met, live, n - 1, w1, fuel);
      TrackOn(m.lookup, ov, met, Start(ov.Keys), w1, w2);
      forall i | 0 <= i < n - 1
        ensures PalletDone(m, kind, ov, w2, m.pallets[i])
      {
        PalletDoneGrows(m, kind, ov, w1, w2, m.pallets[i]);
      }
    }
  }

  lemma TrackPallet(m: Metadata, kind: Kind, ov: OverrideDecoders, met: set<int>, live: set<int>, i: nat, w: Walked,
          fuel: nat)
    requires Closed(m.lookup, ov, met, live) && Roots(m, kind) <= met && i < |m.pallets|
    requires Sound(ov, w) && w.asked <= met && WalkPallet(m, kind, m.pallets[i], w, fuel).Ok?
    ensures var w' := WalkPallet(m, kind, m.pallets[i], w, fuel).value;
      Tracked(m.lookup, ov, met, w, w') && PalletDone(m, kind, ov, w', m.pallets[i])
  {
    hide Closed, WalkVariants, AllDone, CompactSet, Roots;
    NothingDone(m.lookup, ov, w);
    RootsOfPallet(m, kind, i, met);
    var id := TypeIdOf(m.pallets[i], kind);
    if id.Some? {
      TrackVariants(m.lookup, ov, met, live, m.lookup[id.value].def.variants, w, fuel);
    }
  }

  lemma PalletDoneGrows(m: Metadata, kind: Kind, ov: OverrideDecoders, w: Walked, w': Walked, p: Pallet)
    requires PalletDone(m, kind, ov, w, p) && Later(w, w')
    ensures PalletDone(m, kind, ov, w', p)
  {
    hide CompactSet;
    var id := TypeIdOf(p, kind);
    if id.Some? {
      DefDoneGrows(m.lookup, ov, w, w', m.lookup[id.value].def);
    }
  }

  /** A build that came to its end: the registry is supported, no cycle of items can be reached, and
      the build has looked up exactly what can be reached. */
  lemma FinishedBuild(m: Metadata, kind: Kind, ov: OverrideDecoders, fuel: nat)
    requires WalkRegistry(m, kind, ov.Keys, fuel).Ok?
    ensures CanBuild(m, kind, ov) && BuildEnds(m.lookup, ov.Keys, Roots(m, kind))
    ensures WalkRegistry(m, kind, ov.Keys, fuel).value.asked == Met(m.lookup, ov.Keys, Roots(m, kind))
  {
    var roots := Roots(m, kind);
    var w := WalkRegistry(m, kind, ov.Keys, fuel).value;
    ReachedIsClosed(m.lookup, ov, roots);
    var met, live := Met(m.lookup, ov.Keys, roots), Live(m.lookup, ov.Keys, roots);
    assert roots <= met;
    TrackPallets(m, kind, ov, met, live, |m.pallets|, fuel);
    assert w.built - {} == w.built;
    RootsAsked(m, kind, ov, w);
    hide Met, Live, Roots, AllDone, CompactSet, BuildEnds, Supported, Ranked;
    WalkedIsSupported(m.lookup, ov, w);
    assert RegistrySupported(m, kind, ov, Good(w.built, CompactSet(m.lookup)));
    MetWasAsked(m.lookup, ov, w, roots);
    WalkedIsRanked(m.lookup, ov, w);
    RankedEnds(m.lookup, ov, roots, WalkRanking(m.lookup, w));
  }

  lemma RootsAsked(m: Metadata, kind: Kind, ov: OverrideDecoders, w: Walked)
    requires forall i :: 0 <= i < |m.pallets| ==> PalletDone(m, kind, ov, w, m.pallets[i])
    ensures Roots(m, kind) <= w.asked
  {
    hide PalletSupported;
    forall t | t in Roots(m, kind)
      ensures t in w.asked
    {
      var i :| 0 <= i < |m.pallets| &&
        t in DefFieldTypes(DefVariant(VariantsOf(m.lookup, TypeIdOf(m.pallets[i], kind))));
      assert PalletDone(m, kind, ov, w, m.pallets[i]);
      DefFieldTypesAre(w.asked, DefVariant(VariantsOf(m.lookup, TypeIdOf(m.pallets[i], kind))));
    }
  }

  /** A build that ends does so without an error if and only if what it reaches is supported. */
  lemma SucceedsExactly(m: Metadata, kind: Kind, ov: OverrideDecoders, fuel: nat)
    requires !WalkRegistry(m, kind, ov.Keys, fuel).Out?
    ensures WalkRegistry(m, kind, ov.Keys, fuel).Ok? <==> CanBuild(m, kind, ov)
  {
    hide RegistrySupported, WalkPallets;
    if WalkRegistry(m, kind, ov.Keys, fuel).Ok? {
      FinishedBuild(m, kind, ov, fuel);
    }
    if CanBuild(m, kind, ov) {
      var good :| RegistrySupported(m, kind, ov, good);
      SupportedPallets(m, kind, ov, good, |m.pallets|, fuel);
    }
  }

  /** Where everything is supported the build ends if and only if no cycle of items can be reached. */
  lemma EndsExactly(m: Metadata, kind: Kind, ov: OverrideDecoders)
    requires CanBuild(m, kind, ov)
    ensures RegistryEnds(m, kind, ov.Keys) <==> BuildEnds(m.lookup, ov.Keys, Roots(m, kind))
  {
    hide CanBuild, BuildEnds, WalkRegistry;
    if RegistryEnds(m, kind, ov.Keys) {
      var fuel: nat :| !WalkRegistry(m, kind, ov.Keys, fuel).Out?;
      SucceedsExactly(m, kind, ov, fuel);
      FinishedBuild(m, kind, ov, fuel);
    }
    if BuildEnds(m.lookup, ov.Keys, Roots(m, kind)) {
      EndsWithoutCycle(m, kind, ov);
    }
  }

  // ------------------------------------------------------------------ unsupported metadata

  /** A sequence of itself is walked beyond every bound. */
  lemma {:induction false} LoopIsOut(table: Table, id: int, w: Walked, fuel: nat)
    requires id in table && table[id].def == DefSequence(id)
    ensures WalkDef(table, table[id].def, w, fuel).Out?
    decreases fuel
  {
    if fuel > 0 {
      LoopIsOut(table, id, VisitItem(w, id), fuel - 1);
    }
  }

  lemma OneFieldWalk(table: Table, v: VariantItem, w: Walked, fuel: nat)
    requires |v.fields| == 1
    ensures WalkVariants(table, [v], w, fuel) == WalkField(table, v.fields[0], w, fuel)
  {
    hide WalkField;
    assert [v][..0] == [] && v.fields[..0] == [];
    assert WalkFields(table, v.fields[..0], w, fuel) == Ok(w) && WalkVariants(table, [v][..0], w, fuel) == Ok(w);
  }

  function FieldOf(t: int): VariantItem {
    VariantItem("", 0, [FieldDef(None, None, t)])
  }

  /** Types with a field of a missing type, with a field of a sequence of itself, and that sequence. */
  function MissingAndLoop(): Table {
    map[0 := TypeInfo([], DefVariant([FieldOf(9)])), 1 := TypeInfo([], DefVariant([FieldOf(2)])),
        2 := TypeInfo([], DefSequence(2))]
  }

  function PalletOf(id: int): Pallet {
    Pallet("", 0, Some(id), Some(id), Some(id))
  }

  /** Where something is not supported the order of the pallets decides whether a build that can reach
      a cycle of items ends: it stops at an error that comes first. */
  lemma OrderDecides(kind: Kind)
    ensures RegistryEnds(Metadata([PalletOf(0), PalletOf(1)], MissingAndLoop()), kind, {})
    ensures !RegistryEnds(Metadata([PalletOf(1), PalletOf(0)], MissingAndLoop()), kind, {})
  {
    var table, w := MissingAndLoop(), Start({});
    var good, bad := Metadata([PalletOf(0), PalletOf(1)], table), Metadata([PalletOf(1), PalletOf(0)], table);
    OneFieldWalk(table, FieldOf(9), w, 0);
    hide WalkVariants, WalkDef;
    PalletsStep(good, kind, {}, 0, 0);
    assert !WalkRegistry(good, kind, {}, 0).Out?;
    forall fuel: nat
      ensures WalkRegistry(bad, kind, {}, fuel).Out?
    {
      OneFieldWalk(table, FieldOf(2), w, fuel);
      if fuel > 0 {
        LoopIsOut(table, 2, Visit(w, 2), fuel - 1);
      }
      PalletsStep(bad, kind, {}, 0, fuel);
    }
  }
}

/**
 The pallets of V14 metadata and the lookups of `types/metadataV14.go` that the registries
 must agree with. An offer is a variant of the calls, events or errors type of a pallet;
 lookups search the offers in order.
 */
module MetadataV14 {
  import opened Bytes
  import opened Options
  import opened TypeTable

  datatype Pallet = Pallet(name: string, index: byte, calls: Option<int>, events: Option<int>, errors: Option<int>)

  datatype Metadata = Metadata(pallets: seq<Pallet>, lookup: Table)

  datatype Kind = Calls | Events | Errors

  datatype Offer = Offer(pallet: Pallet, variant: VariantItem)

  /** `CallIndex`, `EventID`, and the two bytes of an `ErrorID` that can be nonzero. */
  type Key = (byte, byte)

  function TypeIdOf(p: Pallet, kind: Kind): Option<int> {
    match kind
    case Calls => p.calls
    case Events => p.events
    case Errors => p.errors
  }

  /** The variants of a type; none when the type is missing or not a variant. */
  function VariantsOf(lookup: Table, id: Option<int>): seq<VariantItem> {
    if id.Some? && id.value in lookup && lookup[id.value].def.DefVariant? then lookup[id.value].def.variants else []
  }

  function PalletOffers(p: Pallet, vs: seq<VariantItem>): (r: seq<Offer>)
    ensures |r| == |vs|
    ensures forall i :: 0 <= i < |vs| ==> r[i] == Offer(p, vs[i])
  {
    seq(|vs|, i requires 0 <= i < |vs| => Offer(p, vs[i]))
  }

  function Offers(lookup: Table, pallets: seq<Pallet>, kind: Kind): seq<Offer> {
    if pallets == [] then []
    else
      var p := pallets[|pallets| - 1];
      Offers(lookup, pallets[..|pallets| - 1], kind) + PalletOffers(p, VariantsOf(lookup, TypeIdOf(p, kind)))
  }

  function KeyOf(o: Offer): Key {
    (o.pallet.index, o.variant.index)
  }

  /** The name under which an offer is registered. */
  function FullName(o: Offer): string {
    o.pallet.name + "." + o.variant.name
  }

  ghost predicate UniqueKeys(os: seq<Offer>) {
    forall i, j :: 0 <= i < j < |os| ==> KeyOf(os[i]) != KeyOf(os[j])
  }

  /** The offer that ends up under a key when later ones replace earlier ones. */
  function LastOffer(os: seq<Offer>, key: Key): (r: Option<Offer>)
    ensures r.Some? ==> r.value in os && KeyOf(r.value) == key
    ensures r.None? ==> forall o :: o in os ==> KeyOf(o) != key
  {
    if os == [] then None
    else if KeyOf(os[|os| - 1]) == key then Some(os[|os| - 1])
    else LastOffer(os[..|os| - 1], key)
  }

  /** Distinct pallet indices and distinct variant indices in each type make all keys distinct. */
  lemma {:induction false} DistinctIndices(lookup: Table, pallets: seq<Pallet>, kind: Kind)
    requires forall i, j :: 0 <= i < j < |pallets| ==> pallets[i].index != pallets[j].index
    requires forall id :: id in lookup && lookup[id].def.DefVariant? ==>
      (var vs := lookup[id].def.variants; forall i, j :: 0 <= i < j < |vs| ==> vs[i].index != vs[j].index)
    ensures UniqueKeys(Offers(lookup, pallets, kind))
  {
    if pallets != [] {
      var n := |pallets| - 1;
      DistinctIndices(lookup, pallets[..n], kind);
      OfferFromPallet(lookup, pallets[..n], kind);
    }
  }

  lemma {:induction false} OfferFromPallet(lookup: Table, pallets: seq<Pallet>, kind: Kind)
    ensures forall o :: o in Offers(lookup, pallets, kind) <==>
      o.pallet in pallets && o.variant in VariantsOf(lookup, TypeIdOf(o.pallet, kind))
  {
    if pallets != [] {
      var n := |pallets| - 1;
      var p := pallets[n];
      OfferFromPallet(lookup, pallets[..n], kind);
      assert pallets == pallets[..n] + [p];
      var vs := VariantsOf(lookup, TypeIdOf(p, kind));
      forall o ensures o in PalletOffers(p, vs) <==> o.pallet == p && o.variant in vs {
        if o.pallet == p && o.variant in vs {
          var i :| 0 <= i < |vs| && vs[i] == o.variant;
          assert PalletOffers(p, vs)[i] == o;
        }
      }
    }
  }

  /** The place of a variant: the j-th of the type that the i-th pallet names. */
  ghost predicate Place(m: Metadata, kind: Kind, key: Key, i: nat, j: nat) {
    i < |m.pallets| && m.pallets[i].index == key.0 &&
    var p := m.pallets[i];
    var id := match kind case Calls => p.calls case Events => p.events case Errors => p.errors;
    id.Some? && id.value in m.lookup &&
    match m.lookup[id.value].def
    case DefVariant(vs) => j < |vs| && vs[j].index == key.1
    case _ => false
  }

  function VariantAt(m: Metadata, kind: Kind, i: nat, j: nat): (v: VariantItem)
    requires i < |m.pallets| && j < |VariantsOf(m.lookup, TypeIdOf(m.pallets[i], kind))|
  {
    VariantsOf(m.lookup, TypeIdOf(m.pallets[i], kind))[j]
  }

  /** The last place with a key. */
  ghost predicate LastPlace(m: Metadata, kind: Kind, key: Key, i: nat, j: nat) {
    && Place(m, kind, key, i, j)
    && forall i': nat, j': nat :: Place(m, kind, key, i', j') ==> i' < i || (i' == i && j' <= j)
  }

  lemma PlaceHasVariant(m: Metadata, kind: Kind, key: Key, i: nat, j: nat)
    ensures Place(m, kind, key, i, j) <==>
      && i < |m.pallets| && m.pallets[i].index == key.0
      && j < |VariantsOf(m.lookup, TypeIdOf(m.pallets[i], kind))| && VariantAt(m, kind, i, j).index == key.1
  {
  }

  /** The variant there. */
  ghost predicate OfferAt(m: Metadata, kind: Kind, i: nat, j: nat, o: Offer) {
    && i < |m.pallets| && j < |VariantsOf(m.lookup, TypeIdOf(m.pallets[i], kind))|
    && o == Offer(m.pallets[i], VariantAt(m, kind, i, j))
  }

  /** What ends up under a key is the variant at its last place; nothing does when there is no place. */
  lemma LastOfferIsLast(m: Metadata, kind: Kind, key: Key)
    ensures match LastOffer(Offers(m.lookup, m.pallets, kind), key)
            case Some(o) => exists i: nat, j: nat :: LastPlace(m, kind, key, i, j) && OfferAt(m, kind, i, j, o)
            case None => forall i: nat, j: nat :: !Place(m, kind, key, i, j)
  {
    LastOfferUpTo(m, kind, key, |m.pallets|);
    assert m.pallets[..|m.pallets|] == m.pallets;
    var r := LastOffer(Offers(m.lookup, m.pallets, kind), key);
    hide Offers, LastOffer, OfferAt;
    assert forall i: nat, j: nat :: Place(m, kind, key, i, j) ==> i < |m.pallets|;
    hide Place;
    if r.Some? {
      var i: nat, j: nat :| LastUpTo(m, kind, key, |m.pallets|, i, j) && OfferAt(m, kind, i, j, r.value);
      assert LastPlace(m, kind, key, i, j);
    }
  }

  /** The last place among the first `n` pallets. */
  ghost predicate LastUpTo(m: Metadata, kind: Kind, key: Key, n: nat, i: nat, j: nat) {
    && Place(m, kind, key, i, j) && i < n
    && forall i': nat, j': nat :: Place(m, kind, key, i', j') && i' < n ==> i' < i || (i' == i && j' <= j)
  }

  ghost predicate FoundUpTo(m: Metadata, kind: Kind, key: Key, n: nat, r: Option<Offer>) {
    match r
    case Some(o) => exists i: nat, j: nat :: LastUpTo(m, kind, key, n, i, j) && OfferAt(m, kind, i, j, o)
    case None => forall i: nat, j: nat :: i < n ==> !Place(m, kind, key, i, j)
  }

  lemma {:induction false} LastOfferUpTo(m: Metadata, kind: Kind, key: Key, n: nat)
    requires n <= |m.pallets|
    ensures FoundUpTo(m, kind, key, n, LastOffer(Offers(m.lookup, m.pallets[..n], kind), key))
    decreases n
  {
    if n > 0 {
      var last := n - 1;
      var p := m.pallets[last];
      var vs := VariantsOf(m.lookup, TypeIdOf(p, kind));
      var before, own := Offers(m.lookup, m.pallets[..last], kind), PalletOffers(p, vs);
      assert Offers(m.lookup, m.pallets[..n], kind) == before + own by {
        assert m.pallets[..n][..last] == m.pallets[..last];
      }
      hide Offers, LastOffer, LastVariant, VariantsOf, FoundUpTo;
      LastOfferUpTo(m, kind, key, last);
      LastOfferAppend(before, own, key);
      LastOfPallet(p, vs, key);
      if p.index == key.0 && LastVariant(vs, key.1).Some? {
        FoundInLast(m, kind, key, last);
      } else {
        NotInLast(m, kind, key, last, LastOffer(before, key));
      }
    } else {
      assert m.pallets[..0] == [];
    }
  }

  lemma FoundInLast(m: Metadata, kind: Kind, key: Key, last: nat)
    requires last < |m.pallets| && m.pallets[last].index == key.0
    requires LastVariant(VariantsOf(m.lookup, TypeIdOf(m.pallets[last], kind)), key.1).Some?
    ensures FoundUpTo(m, kind, key, last + 1, Some(Offer(m.pallets[last],
      LastVariant(VariantsOf(m.lookup, TypeIdOf(m.pallets[last], kind)), key.1).value)))
  {
    var vs := VariantsOf(m.lookup, TypeIdOf(m.pallets[last], kind));
    LastVariantIsLast(vs, key.1);
    var v := LastVariant(vs, key.1).value;
    hide LastVariant;
    var j: nat :| LastAt(vs, key.1, j) && vs[j] == v;
    PlaceHasVariant(m, kind, key, last, j);
    assert OfferAt(m, kind, last, j, Offer(m.pallets[last], v));
    forall i': nat, j': nat | Place(m, kind, key, i', j') && i' < last + 1
      ensures i' < last || j' <= j
    {
      PlaceHasVariant(m, kind, key, i', j');
    }
    assert LastUpTo(m, kind, key, last + 1, last, j);
  }

  lemma NotInLast(m: Metadata, kind: Kind, key: Key, last: nat, r: Option<Offer>)
    requires last < |m.pallets| && FoundUpTo(m, kind, key, last, r)
    requires m.pallets[last].index != key.0 ||
      LastVariant(VariantsOf(m.lookup, TypeIdOf(m.pallets[last], kind)), key.1).None?
    ensures FoundUpTo(m, kind, key, last + 1, r)
  {
    forall j: nat
      ensures !Place(m, kind, key, last, j)
    {
      NoPlace(m, kind, key, last, j);
    }
    hide Place, OfferAt, LastVariant;
    if r.Some? {
      var i: nat, j: nat :| LastUpTo(m, kind, key, last, i, j) && OfferAt(m, kind, i, j, r.value);
      assert LastUpTo(m, kind, key, last + 1, i, j);
    }
  }

  lemma NoPlace(m: Metadata, kind: Kind, key: Key, last: nat, j: nat)
    requires last < |m.pallets|
    requires m.pallets[last].index != key.0 ||
      LastVariant(VariantsOf(m.lookup, TypeIdOf(m.pallets[last], kind)), key.1).None?
    ensures !Place(m, kind, key, last, j)
  {
    PlaceHasVariant(m, kind, key, last, j);
    var vs := VariantsOf(m.lookup, TypeIdOf(m.pallets[last], kind));
    if j < |vs| {
      assert vs[j] in vs;
    }
  }

  lemma {:induction false} LastOfferAppend(a: seq<Offer>, b: seq<Offer>, key: Key)
    ensures LastOffer(a + b, key) == if LastOffer(b, key).Some? then LastOffer(b, key) else LastOffer(a, key)
    decreases |b|
  {
    if b == [] {
      assert a + b == a;
    } else {
      var n := |b| - 1;
      assert (a + b)[..|a + b| - 1] == a + b[..n];
      LastOfferAppend(a, b[..n], key);
    }
  }

  lemma {:induction false} LastOfPallet(p: Pallet, vs: seq<VariantItem>, key: Key)
    ensures LastOffer(PalletOffers(p, vs), key) ==
      if p.index == key.0 && LastVariant(vs, key.1).Some? then Some(Offer(p, LastVariant(vs, key.1).value)) else None
    decreases |vs|
  {
    if vs != [] {
      var n := |vs| - 1;
      LastOfPallet(p, vs[..n], key);
      assert PalletOffers(p, vs)[..n] == PalletOffers(p, vs[..n]);
    }
  }

  // ------------------------------------------------------------------ searching in order

  ghost predicate Offered(m: Metadata, kind: Kind, o: Offer) {
    o in Offers(m.lookup, m.pallets, kind)
  }

  /** With distinct keys, an offer is the one that is registered under its key. */
  lemma {:induction false} UniqueOffer(os: seq<Offer>, o: Offer)
    requires UniqueKeys(os) && o in os
    ensures LastOffer(os, KeyOf(o)) == Some(o)
  {
    var n := |os| - 1;
    if KeyOf(os[n]) != KeyOf(o) {
      assert os == os[..n] + [os[n]];
      UniqueOffer(os[..n], o);
    }
  }

  /** The i-th variant is the first with the index. */
  ghost predicate FirstWithIndex(vs: seq<VariantItem>, index: byte, i: nat) {
    i < |vs| && vs[i].index == index && forall k :: 0 <= k < i ==> vs[k].index != index
  }

  /** The search among the variants of a type: the first with the index. */
  method FindVariant(vs: seq<VariantItem>, index: byte) returns (r: Option<VariantItem>)
    ensures r.Some? ==> exists i: nat :: FirstWithIndex(vs, index, i) && r.value == vs[i]
    ensures r.None? ==> forall v :: v in vs ==> v.index != index
  {
    for j := 0 to |vs|
      invariant forall k :: 0 <= k < j ==> vs[k].index != index
    {
      if vs[j].index == index {
        assert FirstWithIndex(vs, index, j);
        return Some(vs[j]);
      }
    }
    return None;
  }

  /** `r` names an event with the id, or there is none. */
  ghost predicate NamesEvent(m: Metadata, id: Key, r: Option<(string, string)>) {
    match r
    case Some(names) => exists o :: Offered(m, Events, o) && KeyOf(o) == id && names == (o.pallet.name, o.variant.name)
    case None => forall o :: Offered(m, Events, o) ==> KeyOf(o) != id
  }

  /** `FindEventNamesForEventID`. */
  method FindEventNamesForEventID(m: Metadata, id: Key) returns (r: Option<(string, string)>)
    ensures NamesEvent(m, id, r)
  {
    OfferFromPallet(m.lookup, m.pallets, Events);
    for i := 0 to |m.pallets|
      invariant forall o :: Offered(m, Events, o) && o.pallet in m.pallets[..i] ==> KeyOf(o) != id
    {
      var mod := m.pallets[i];
      assert forall p :: p in m.pallets[..i + 1] <==> p in m.pallets[..i] || p == mod;
      if mod.events.None? || mod.index != id.0 {
        continue;
      }
      if mod.events.value in m.lookup {
        var vs := VariantsOf(m.lookup, mod.events);
        var found := FindVariant(vs, id.1);
        if found.Some? {
          assert Offered(m, Events, Offer(mod, found.value));
          return Some((mod.name, found.value.name));
        }
      }
    }
    assert m.pallets[..|m.pallets|] == m.pallets;
    return None;
  }

  ghost predicate DistinctPallets(pallets: seq<Pallet>) {
    forall i, j :: 0 <= i < j < |pallets| ==> pallets[i].index != pallets[j].index
  }

  /** The i-th pallet is the first with the index. */
  ghost predicate FirstPallet(pallets: seq<Pallet>, index: byte, i: nat) {
    i < |pallets| && pallets[i].index == index && forall k :: 0 <= k < i ==> pallets[k].index != index
  }

  /** `r` is the first error with the index of the first pallet with the index; when there is none,
      that pallet, if any, has no such error. Pallets after the first with an index are ignored. */
  ghost predicate FindsError(m: Metadata, key: Key, r: Option<VariantItem>) {
    match r
    case Some(v) => exists i: nat, j: nat :: FirstError(m, key, i, j, v)
    case None => forall i: nat :: FirstPallet(m.pallets, key.0, i) ==> NoErrorIn(m, m.pallets[i], key.1)
  }

  ghost predicate FirstError(m: Metadata, key: Key, i: nat, j: nat, v: VariantItem) {
    FirstPallet(m.pallets, key.0, i) &&
    var vs := VariantsOf(m.lookup, m.pallets[i].errors);
    FirstWithIndex(vs, key.1, j) && vs[j] == v
  }

  ghost predicate NoErrorIn(m: Metadata, p: Pallet, index: byte) {
    forall v :: v in VariantsOf(m.lookup, p.errors) ==> v.index != index
  }

  /** Where several pallets share no index, that is: it is offered, or none is. */
  lemma FindsErrorOffered(m: Metadata, key: Key, r: Option<VariantItem>)
    requires FindsError(m, key, r)
    ensures r.Some? ==> exists o :: Offered(m, Errors, o) && KeyOf(o) == key && o.variant == r.value
    ensures r.None? && DistinctPallets(m.pallets) ==> forall o :: Offered(m, Errors, o) ==> KeyOf(o) != key
  {
    OfferFromPallet(m.lookup, m.pallets, Errors);
    hide Offers;
    if r.Some? {
      var i: nat, j: nat :| FirstError(m, key, i, j, r.value);
      var o := Offer(m.pallets[i], r.value);
      assert Offered(m, Errors, o) && KeyOf(o) == key;
    } else if DistinctPallets(m.pallets) {
      forall o | Offered(m, Errors, o)
        ensures KeyOf(o) != key
      {
        var i :| 0 <= i < |m.pallets| && m.pallets[i] == o.pallet;
        assert o.pallet.index == key.0 ==> FirstPallet(m.pallets, key.0, i);
      }
    }
  }

  /** `FindError`: it looks at the first pallet with the index only, and at the first of the
      four error bytes. */
  method FindError(m: Metadata, moduleIndex: byte, errorIndex: seq<byte>) returns (r: Option<VariantItem>)
    requires |errorIndex| == 4
    ensures FindsError(m, (moduleIndex, errorIndex[0]), r)
  {
    for i := 0 to |m.pallets|
      invariant forall k :: 0 <= k < i ==> m.pallets[k].index != moduleIndex
    {
      var mod := m.pallets[i];
      if mod.index == moduleIndex {
        assert FirstPallet(m.pallets, moduleIndex, i);
        assert forall k: nat :: FirstPallet(m.pallets, moduleIndex, k) ==> k == i;
        if mod.errors.None? || mod.errors.value !in m.lookup || !m.lookup[mod.errors.value].def.DefVariant? {
          return None;
        }
        var vs := m.lookup[mod.errors.value].def.variants;
        assert vs == VariantsOf(m.lookup, mod.errors);
        r := FindVariant(vs, errorIndex[0]);
        if r.Some? {
          ghost var j: nat :| FirstWithIndex(vs, errorIndex[0], j) && r.value == vs[j];
          assert FirstError(m, (moduleIndex, errorIndex[0]), i, j, r.value);
        }
        return;
      }
    }
    return None;
  }

  // ------------------------------------------------------------------ call names

  /** `strings.Split(s, ".")`. */
  function SplitDots(s: string): (r: seq<string>)
    ensures r != []
  {
    if s == "" then [""]
    else
      var rest := SplitDots(s[1..]);
      if s[0] == '.' then [""] + rest else [[s[0]] + rest[0]] + rest[1..]
  }

  lemma {:induction false} SplitNoDot(s: string)
    requires '.' !in s
    ensures SplitDots(s) == [s]
  {
    if s != "" {
      SplitNoDot(s[1..]);
      assert [s[0]] + s[1..] == s;
    }
  }

  lemma {:induction false} SplitOneDot(a: string, b: string)
    requires '.' !in a && '.' !in b
    ensures SplitDots(a + "." + b) == [a, b]
  {
    var s := a + "." + b;
    if a == "" {
      assert s[1..] == b;
      SplitNoDot(b);
    } else {
      SplitOneDot(a[1..], b);
      assert s[1..] == a[1..] + "." + b;
      assert [s[0]] + a[1..] == a;
    }
  }

  datatype CallLookup = Found(key: Key) | NotFound | IndexPanic

  /** The j-th variant is the first with the name. */
  ghost predicate FirstNamed(vs: seq<VariantItem>, name: string, j: nat) {
    j < |vs| && vs[j].name == name && forall k :: 0 <= k < j ==> vs[k].name != name
  }

  /** The inner loop of `FindCallIndex`, over the calls of one module: the second part of the
      name is read, and may be missing, once there is a call to compare it with. */
  method FindCallVariant(vs: seq<VariantItem>, s: seq<string>) returns (r: Option<VariantItem>, panics: bool)
    requires s != []
    ensures panics <==> |s| == 1 && vs != []
    ensures r.Some? ==> |s| > 1 && exists j: nat :: FirstNamed(vs, s[1], j) && r.value == vs[j]
    ensures r.None? && |s| > 1 ==> forall v :: v in vs ==> v.name != s[1]
  {
    for j := 0 to |vs|
      invariant j > 0 ==> |s| > 1
      invariant |s| > 1 ==> forall k :: 0 <= k < j ==> vs[k].name != s[1]
    {
      if |s| == 1 {
        return None, true;
      }
      if vs[j].name == s[1] {
        assert FirstNamed(vs, s[1], j);
        return Some(vs[j]), false;
      }
    }
    return None, false;
  }

  ghost predicate CallNamed(m: Metadata, o: Offer, pallet: string) {
    Offered(m, Calls, o) && o.pallet.name == pallet
  }

  /** `r` is the index of a call with the two first parts of a name; a name without a dot
      panics when its module has calls. */
  ghost predicate FindsCall(m: Metadata, call: string, r: CallLookup) {
    var s := SplitDots(call);
    match r
    case Found(key) => |s| > 1 && exists o :: CallNamed(m, o, s[0]) && o.variant.name == s[1] && KeyOf(o) == key
    case NotFound => forall o :: CallNamed(m, o, s[0]) ==> |s| > 1 && o.variant.name != s[1]
    case IndexPanic => |s| == 1 && exists o :: CallNamed(m, o, s[0])
  }

  /** `FindCallIndex`. */
  method FindCallIndex(m: Metadata, call: string) returns (r: CallLookup)
    ensures FindsCall(m, call, r)
  {
    hide Offers, SplitDots;
    OfferFromPallet(m.lookup, m.pallets, Calls);
    var s := SplitDots(call);
    for i := 0 to |m.pallets|
      invariant forall o :: CallNamed(m, o, s[0]) && o.pallet in m.pallets[..i] ==> |s| > 1 && o.variant.name != s[1]
    {
      var mod := m.pallets[i];
      assert forall p :: p in m.pallets[..i + 1] <==> p in m.pallets[..i] || p == mod;
      if mod.calls.None? || mod.name != s[0] {
        continue;
      }
      if mod.calls.value in m.lookup {
        var vs := VariantsOf(m.lookup, mod.calls);
        var v, panics := FindCallVariant(vs, s);
        if panics {
          assert CallNamed(m, Offer(mod, vs[0]), s[0]);
          return IndexPanic;
        }
        if v.Some? {
          assert CallNamed(m, Offer(mod, v.value), s[0]);
          return Found((mod.index, v.value.index));
        }
      }
    }
    assert m.pallets[..|m.pallets|] == m.pallets;
    return NotFound;
  }
}

/** The provider registry: incremental promotion of colliding names, and the closed form it computes. */
module Registry {
  import opened Prelude

  datatype Listing = Listing(name: string, desc: string)

  datatype RegistryError =
    | DuplicateProvider(id: string)
    | DuplicateCapability(provider: string, name: string)
    | DescriptionQuality(provider: string, name: string)
    | IndexFailed
    | CapabilityNotFound(name: string)
    | CapabilityParse(raw: string)
    | CapabilityDenied(required: string)

  datatype CatalogEntry = CatalogEntry(providerId: string, localName: string, desc: string)

  type Catalog = map<string, CatalogEntry>
  type Counts = map<string, nat>
  /** Every capability some provider exposes, keyed by provider id and local name, with its description. */
  type Exposures = map<(string, string), string>

  /** `quality(name, desc)` stands for the description check. */
  type Quality = (string, string) -> bool

  function Qualified(id: string, name: string): string {
    id + ":" + name
  }

  function CountOf(counts: Counts, name: string): nat {
    if name in counts then counts[name] else 0
  }

  /** One turn of the registration loop. */
  function AddToCatalog(catalog: Catalog, count: nat, id: string, l: Listing): Catalog {
    var entry := CatalogEntry(id, l.name, l.desc);
    if count == 1 then catalog[l.name := entry]
    else if count == 2 then
      var promoted :=
        if l.name in catalog then
          var prev := catalog[l.name];
          (catalog - {l.name})[Qualified(prev.providerId, prev.localName) := prev]
        else catalog;
      promoted[Qualified(id, l.name) := entry]
    else catalog[Qualified(id, l.name) := entry]
  }

  datatype Tables = Tables(catalog: Catalog, counts: Counts)

  function AddListing(t: Tables, id: string, l: Listing): Tables {
    var count := CountOf(t.counts, l.name) + 1;
    Tables(AddToCatalog(t.catalog, count, id, l), t.counts[l.name := count])
  }

  function AddListings(t: Tables, id: string, listings: seq<Listing>): Tables
    decreases |listings|
  {
    if listings == [] then t
    else
      var front := listings[..|listings| - 1];
      AddListing(AddListings(t, id, front), id, listings[|listings| - 1])
  }

  // ---- The closed form ----

  function Owners(e: Exposures, name: string): set<string> {
    set k | k in e && k.1 == name :: k.0
  }

  /** A name one provider exposes stands bare; a name several expose is qualified by its provider. */
  function ExposedName(e: Exposures, id: string, name: string): string {
    if |Owners(e, name)| == 1 then name else Qualified(id, name)
  }

  /** The catalog lists every exposure under its exposed name, and nothing else. */
  predicate ClosedForm(catalog: Catalog, e: Exposures) {
    && (forall k | k in e ::
          ExposedName(e, k.0, k.1) in catalog && catalog[ExposedName(e, k.0, k.1)] == CatalogEntry(k.0, k.1, e[k]))
    && (forall x | x in catalog :: Lists(catalog[x], x, e))
  }

  predicate Lists(entry: CatalogEntry, x: string, e: Exposures) {
    && (entry.providerId, entry.localName) in e
    && e[(entry.providerId, entry.localName)] == entry.desc
    && ExposedName(e, entry.providerId, entry.localName) == x
  }

  ghost predicate CountsOwners(counts: Counts, e: Exposures) {
    && (forall n | n in counts :: counts[n] == |Owners(e, n)| && Owners(e, n) != {})
    && (forall k | k in e :: k.1 in counts)
  }

  predicate NoColons(e: Exposures) {
    forall k | k in e :: ':' !in k.1
  }

  ghost predicate Good(t: Tables, e: Exposures) {
    ClosedForm(t.catalog, e) && CountsOwners(t.counts, e) && |t.catalog| == |e|
  }

  /** The catalog keys that adding one listing writes, and the bare key that its promotion gives up. */
  function Takes(t: Tables, id: string, name: string): set<string> {
    var count := CountOf(t.counts, name);
    if count == 0 then {name}
    else if count == 1 && name in t.catalog
    then {Qualified(t.catalog[name].providerId, t.catalog[name].localName), Qualified(id, name)}
    else {Qualified(id, name)}
  }

  function Frees(t: Tables, name: string): set<string> {
    if CountOf(t.counts, name) == 1 then {name} else {}
  }

  /** The keys that one listing takes are unused when its turn comes. */
  predicate TargetsFree(t: Tables, id: string, name: string) {
    Takes(t, id, name) !! t.catalog.Keys
  }

  /** The keys a provider's listings leave in use, reckoned from the tables before its registration. */
  function KeysAfter(t: Tables, id: string, listings: seq<Listing>): set<string>
    decreases |listings|
  {
    if listings == [] then t.catalog.Keys
    else
      var (front, last) := (listings[..|listings| - 1], listings[|listings| - 1]);
      KeysAfter(t, id, front) - Frees(t, last.name) + Takes(t, id, last.name)
  }

  /** No listing takes a key in use, be it in the catalog or taken by an earlier listing of the same provider. */
  predicate KeysFree(t: Tables, id: string, listings: seq<Listing>)
    decreases |listings|
  {
    listings == [] ||
    var (front, last) := (listings[..|listings| - 1], listings[|listings| - 1]);
    KeysFree(t, id, front) && Takes(t, id, last.name) !! KeysAfter(t, id, front)
  }

  lemma QualifiedSameName(p: string, q: string, name: string)
    requires Qualified(p, name) == Qualified(q, name)
    ensures p == q
  {
    var (a, b) := (Qualified(p, name), Qualified(q, name));
    assert |p| == |q|;
    assert a[..|p|] == p && b[..|q|] == q;
  }

  /** Without colons in local names the last colon tells provider and name apart. */
  lemma QualifiedInjective(p: string, m: string, q: string, n: string)
    requires ':' !in m && ':' !in n && Qualified(p, m) == Qualified(q, n)
    ensures p == q && m == n
  {
    var (a, b) := (Qualified(p, m), Qualified(q, n));
    assert a[|p|] == ':' && b[|q|] == ':';
    assert a[|q|] == ':' && b[|p|] == ':';
    if |p| != |q| {
      assert false;
    }
    assert a[..|p|] == p && b[..|q|] == q;
    assert a[|p| + 1..] == m && b[|q| + 1..] == n;
  }

  lemma OwnersAre(e: Exposures, n: string)
    ensures forall p :: p in Owners(e, n) <==> (p, n) in e
  {
    forall p ensures p in Owners(e, n) <==> (p, n) in e {
      assert (p, n) in e ==> (p, n).0 in Owners(e, n);
    }
  }

  lemma OwnersOfAdded(e: Exposures, id: string, name: string, desc: string, n: string)
    ensures var e' := e[(id, name) := desc];
            Owners(e', n) == if n == name then Owners(e, n) + {id} else Owners(e, n)
  {
    var e' := e[(id, name) := desc];
    forall p ensures p in Owners(e', n) <==> p in Owners(e, n) || (n == name && p == id) {
      if p in Owners(e', n) { assert (p, n) in e'; }
      if p in Owners(e, n) { assert (p, n) in e && (p, n) in e'; }
      if n == name && p == id { assert (p, n) in e'; }
    }
  }

  lemma CountIsOwners(t: Tables, e: Exposures, name: string)
    requires CountsOwners(t.counts, e)
    ensures CountOf(t.counts, name) == |Owners(e, name)|
  {
    if name !in t.counts {
      assert forall p :: p in Owners(e, name) ==> (p, name) in e;
      assert Owners(e, name) == {};
    }
  }

  lemma SoleOwner(e: Exposures, name: string) returns (q: string)
    requires |Owners(e, name)| == 1
    ensures Owners(e, name) == {q} && (q, name) in e
  {
    q :| q in Owners(e, name);
    assert |Owners(e, name) - {q}| == 0;
    assert (q, name) in e;
  }

  lemma NamesElsewhereKept(e: Exposures, id: string, name: string, desc: string, p: string, m: string)
    requires m != name
    ensures ExposedName(e[(id, name) := desc], p, m) == ExposedName(e, p, m)
  {
    OwnersOfAdded(e, id, name, desc, m);
  }

  lemma NamesHere(e: Exposures, id: string, name: string, desc: string, p: string)
    requires (id, name) !in e
    ensures ExposedName(e[(id, name) := desc], p, name) == if Owners(e, name) == {} then name else Qualified(p, name)
  {
    OwnersOfAdded(e, id, name, desc, name);
    OwnersAre(e, name);
  }

  /** The catalog key `x` lists a capability of another local name, whose exposed name the step does not change. */
  lemma TakenKeyBreaks(catalog: Catalog, e: Exposures, id: string, l: Listing, x: string, catalog': Catalog)
    requires ClosedForm(catalog, e) && (id, l.name) !in e
    requires x in catalog && catalog[x].localName != l.name
    requires x in catalog' && catalog'[x].localName == l.name
    ensures !ClosedForm(catalog', e[(id, l.name) := l.desc])
  {
    var k := (catalog[x].providerId, catalog[x].localName);
    assert Lists(catalog[x], x, e);
    NamesElsewhereKept(e, id, l.name, l.desc, k.0, k.1);
    assert k in e[(id, l.name) := l.desc];
  }

  /** Keys of other local names keep their entries, and the new entries are at the new names of `l.name`. */
  lemma ClosedFormFromParts(catalog: Catalog, e: Exposures, id: string, l: Listing, catalog': Catalog)
    requires ClosedForm(catalog, e) && (id, l.name) !in e
    requires forall x | x in catalog && catalog[x].localName != l.name :: x in catalog' && catalog'[x] == catalog[x]
    requires forall x | x in catalog' && catalog'[x].localName != l.name :: x in catalog && catalog[x] == catalog'[x]
    requires var e' := e[(id, l.name) := l.desc];
             && (forall p | p in Owners(e', l.name) && (p, l.name) in e' ::
                   var x := ExposedName(e', p, l.name);
                   x in catalog' && catalog'[x] == CatalogEntry(p, l.name, e'[(p, l.name)]))
             && (forall x | x in catalog' && catalog'[x].localName == l.name :: Lists(catalog'[x], x, e'))
    ensures ClosedForm(catalog', e[(id, l.name) := l.desc])
  {
    var e' := e[(id, l.name) := l.desc];
    forall k | k in e'
      ensures ExposedName(e', k.0, k.1) in catalog'
      ensures catalog'[ExposedName(e', k.0, k.1)] == CatalogEntry(k.0, k.1, e'[k])
    {
      if k.1 == l.name {
        assert k == (k.0, l.name) && k.0 in Owners(e', l.name);
      } else {
        NamesElsewhereKept(e, id, l.name, l.desc, k.0, k.1);
        assert k in e && e'[k] == e[k];
      }
    }
    forall x | x in catalog' ensures Lists(catalog'[x], x, e') {
      if catalog'[x].localName != l.name {
        assert Lists(catalog[x], x, e);
        NamesElsewhereKept(e, id, l.name, l.desc, catalog[x].providerId, catalog[x].localName);
      }
    }
  }

  lemma FirstOwnerStep(t: Tables, e: Exposures, id: string, l: Listing)
    requires Good(t, e) && (id, l.name) !in e && Owners(e, l.name) == {}
    ensures var t' := AddListing(t, id, l);
            && (ClosedForm(t'.catalog, e[(id, l.name) := l.desc]) <==> TargetsFree(t, id, l.name))
            && (TargetsFree(t, id, l.name) ==> |t'.catalog| == |t.catalog| + 1)
  {
    hide ClosedForm, CountsOwners, Owners, ExposedName;
    var (e', t') := (e[(id, l.name) := l.desc], AddListing(t, id, l));
    CountIsOwners(t, e, l.name);
    NoneListed(t.catalog, e, l.name);
    if l.name in t.catalog {
      TakenKeyBreaks(t.catalog, e, id, l, l.name, t'.catalog);
    } else {
      OwnersOfAdded(e, id, l.name, l.desc, l.name);
      NamesHere(e, id, l.name, l.desc, id);
      ClosedFormFromParts(t.catalog, e, id, l, t'.catalog);
    }
  }

  lemma NoneListed(catalog: Catalog, e: Exposures, name: string)
    requires ClosedForm(catalog, e) && Owners(e, name) == {}
    ensures forall x | x in catalog :: catalog[x].localName != name
  {
    OwnersAre(e, name);
    forall x | x in catalog ensures catalog[x].localName != name {
      assert Lists(catalog[x], x, e);
    }
  }

  lemma SecondOwnerStep(t: Tables, e: Exposures, id: string, l: Listing, q: string)
    requires Good(t, e) && (id, l.name) !in e && Owners(e, l.name) == {q} && (q, l.name) in e
    ensures var t' := AddListing(t, id, l);
            && (ClosedForm(t'.catalog, e[(id, l.name) := l.desc]) <==> TargetsFree(t, id, l.name))
            && (TargetsFree(t, id, l.name) ==> |t'.catalog| == |t.catalog| + 1)
  {
    hide ClosedForm, CountsOwners, Owners, ExposedName;
    var (e', t', n) := (e[(id, l.name) := l.desc], AddListing(t, id, l), l.name);
    CountIsOwners(t, e, n);
    var (qq, qi) := (Qualified(q, n), Qualified(id, n));
    OnlyListed(t.catalog, e, n, q);
    if qq == qi { QualifiedSameName(q, id, n); }
    assert |qq| > |n| && |qi| > |n|;
    assert t'.catalog == (t.catalog - {n})[qq := t.catalog[n]][qi := CatalogEntry(id, n, l.desc)];
    if qq in t.catalog {
      TakenKeyBreaks(t.catalog, e, id, l, qq, t'.catalog);
    } else if qi in t.catalog {
      TakenKeyBreaks(t.catalog, e, id, l, qi, t'.catalog);
    } else {
      OwnersOfAdded(e, id, n, l.desc, n);
      NamesHere(e, id, n, l.desc, id);
      NamesHere(e, id, n, l.desc, q);
      assert t'.catalog[qq] == CatalogEntry(q, n, e'[(q, n)]);
      ClosedFormFromParts(t.catalog, e, id, l, t'.catalog);
      assert |t.catalog - {n}| == |t.catalog| - 1 by {
        assert (t.catalog - {n}).Keys == t.catalog.Keys - {n};
      }
    }
  }

  lemma OnlyListed(catalog: Catalog, e: Exposures, name: string, q: string)
    requires ClosedForm(catalog, e) && Owners(e, name) == {q}
    ensures forall x | x in catalog && catalog[x].localName == name :: x == name
    ensures (q, name) in e && name in catalog && catalog[name] == CatalogEntry(q, name, e[(q, name)])
  {
    OwnersAre(e, name);
    assert ExposedName(e, (q, name).0, (q, name).1) == name;
    forall x | x in catalog && catalog[x].localName == name ensures x == name {
      assert Lists(catalog[x], x, e);
    }
  }

  lemma AllQualified(catalog: Catalog, e: Exposures, name: string)
    requires ClosedForm(catalog, e) && |Owners(e, name)| >= 2
    ensures Owners(e, name) != {}
    ensures forall x | x in catalog && catalog[x].localName == name ::
              var p := catalog[x].providerId;
              x == Qualified(p, name) && (p, name) in e && e[(p, name)] == catalog[x].desc
    ensures forall p | (p, name) in e ::
              Qualified(p, name) in catalog && catalog[Qualified(p, name)] == CatalogEntry(p, name, e[(p, name)])
  {
    forall x | x in catalog && catalog[x].localName == name
      ensures var p := catalog[x].providerId;
              x == Qualified(p, name) && (p, name) in e && e[(p, name)] == catalog[x].desc
    {
      assert Lists(catalog[x], x, e);
    }
    forall p | (p, name) in e
      ensures Qualified(p, name) in catalog && catalog[Qualified(p, name)] == CatalogEntry(p, name, e[(p, name)])
    {
      assert ExposedName(e, (p, name).0, (p, name).1) == Qualified(p, name);
    }
    assert |Owners(e, name)| != 0;
  }

  lemma LaterOwnerStep(t: Tables, e: Exposures, id: string, l: Listing)
    requires Good(t, e) && (id, l.name) !in e && |Owners(e, l.name)| >= 2
    ensures var t' := AddListing(t, id, l);
            && (ClosedForm(t'.catalog, e[(id, l.name) := l.desc]) <==> TargetsFree(t, id, l.name))
            && (TargetsFree(t, id, l.name) ==> |t'.catalog| == |t.catalog| + 1)
  {
    hide ClosedForm, CountsOwners, Owners, ExposedName;
    var (e', t', n) := (e[(id, l.name) := l.desc], AddListing(t, id, l), l.name);
    CountIsOwners(t, e, n);
    var qi := Qualified(id, n);
    AllQualified(t.catalog, e, n);
    if qi in t.catalog {
      if t.catalog[qi].localName == n { QualifiedSameName(t.catalog[qi].providerId, id, n); }
      TakenKeyBreaks(t.catalog, e, id, l, qi, t'.catalog);
    } else {
      OwnersOfAdded(e, id, n, l.desc, n);
      forall p | p in Owners(e', n) && (p, n) in e'
        ensures var x := ExposedName(e', p, n); x in t'.catalog && t'.catalog[x] == CatalogEntry(p, n, e'[(p, n)])
      {
        NamesHere(e, id, n, l.desc, p);
        if p != id {
          assert (p, n) in e;
          if Qualified(p, n) == qi { QualifiedSameName(p, id, n); }
        }
      }
      forall x | x in t'.catalog && t'.catalog[x].localName == n ensures Lists(t'.catalog[x], x, e') {
        NamesHere(e, id, n, l.desc, t'.catalog[x].providerId);
      }
      ClosedFormFromParts(t.catalog, e, id, l, t'.catalog);
    }
  }

  lemma CountsStep(t: Tables, e: Exposures, id: string, l: Listing)
    requires CountsOwners(t.counts, e) && (id, l.name) !in e
    ensures CountsOwners(AddListing(t, id, l).counts, e[(id, l.name) := l.desc])
  {
    var (e', counts') := (e[(id, l.name) := l.desc], AddListing(t, id, l).counts);
    CountIsOwners(t, e, l.name);
    OwnersAre(e, l.name);
    forall n | n in counts' ensures counts'[n] == |Owners(e', n)| && Owners(e', n) != {} {
      OwnersOfAdded(e, id, l.name, l.desc, n);
    }
  }

  /** Adding one more capability keeps the closed form if and only if the keys it takes are then unused. */
  lemma AddListingKeepsClosedFormExactly(t: Tables, e: Exposures, id: string, l: Listing)
    requires Good(t, e) && (id, l.name) !in e
    ensures Good(AddListing(t, id, l), e[(id, l.name) := l.desc]) <==> TargetsFree(t, id, l.name)
  {
    hide ClosedForm, CountsOwners, AddListing, TargetsFree;
    CountsStep(t, e, id, l);
    if Owners(e, l.name) == {} {
      FirstOwnerStep(t, e, id, l);
    } else if |Owners(e, l.name)| == 1 {
      var q := SoleOwner(e, l.name);
      SecondOwnerStep(t, e, id, l, q);
    } else {
      assert |Owners(e, l.name)| != 0;
      LaterOwnerStep(t, e, id, l);
    }
  }

  /** Without colons in local names no key is ever taken twice. */
  lemma ColonFreeTargetsAreFree(t: Tables, e: Exposures, id: string, name: string)
    requires Good(t, e) && (id, name) !in e && NoColons(e) && ':' !in name
    ensures TargetsFree(t, id, name)
  {
    CountIsOwners(t, e, name);
    if name in t.catalog {
      BareKeyIsOwn(t, e, name);
    }
    forall p ensures Qualified(p, name) in t.catalog ==> (p, name) in e && |Owners(e, name)| != 1 {
      if Qualified(p, name) in t.catalog { QualifiedKeyIsOwn(t, e, p, name); }
    }
    OwnersAre(e, name);
  }

  lemma BareKeyIsOwn(t: Tables, e: Exposures, name: string)
    requires ClosedForm(t.catalog, e) && NoColons(e) && ':' !in name && name in t.catalog
    ensures t.catalog[name].localName == name && (t.catalog[name].providerId, name) in e
  {
    var entry := t.catalog[name];
    assert Lists(entry, name, e);
    assert Qualified(entry.providerId, entry.localName)[|entry.providerId|] == ':';
  }

  lemma QualifiedKeyIsOwn(t: Tables, e: Exposures, p: string, name: string)
    requires ClosedForm(t.catalog, e) && NoColons(e) && ':' !in name && Qualified(p, name) in t.catalog
    ensures (p, name) in e && |Owners(e, name)| != 1
  {
    var x := Qualified(p, name);
    var entry := t.catalog[x];
    assert Lists(entry, x, e) && x[|p|] == ':';
    assert x != entry.localName;
    QualifiedInjective(p, name, entry.providerId, entry.localName);
  }

  // ---- Keys and sizes of one step ----

  lemma StepKeys(t: Tables, id: string, l: Listing)
    ensures AddListing(t, id, l).catalog.Keys == t.catalog.Keys - Frees(t, l.name) + Takes(t, id, l.name)
  {
  }

  lemma GrowsByAtMostOne(t: Tables, id: string, l: Listing)
    ensures |AddListing(t, id, l).catalog| <= |t.catalog| + 1
  {
    var (keys, n) := (t.catalog.Keys, l.name);
    StepKeys(t, id, l);
    assert |AddListing(t, id, l).catalog| == |keys - Frees(t, n) + Takes(t, id, n)|;
    if CountOf(t.counts, n) == 1 && n in t.catalog {
      var (a, b) := (Qualified(t.catalog[n].providerId, t.catalog[n].localName), Qualified(id, n));
      assert keys - {n} + {a, b} == keys - {n} + {a} + {b};
    } else {
      assert keys - Frees(t, n) == keys;
      assert |Takes(t, id, n)| == 1;
    }
  }

  lemma TwoForOne<T>(keys: set<T>, n: T, a: T, b: T)
    requires n in keys && a != n && b != n && (a in keys || b in keys)
    ensures |keys - {n} + {a, b}| <= |keys|
  {
    if a in keys {
      assert keys - {n} + {a, b} == keys - {n} + {b};
    } else {
      assert keys - {n} + {a, b} == keys - {n} + {a};
    }
  }

  /** A key taken twice costs an entry. */
  lemma ClashAddsNothing(t: Tables, e: Exposures, id: string, l: Listing)
    requires Good(t, e) && (id, l.name) !in e && !TargetsFree(t, id, l.name)
    ensures |AddListing(t, id, l).catalog| <= |t.catalog|
  {
    hide AddListing, ClosedForm, CountsOwners, Owners;
    var (keys, n) := (t.catalog.Keys, l.name);
    StepKeys(t, id, l);
    CountIsOwners(t, e, n);
    assert |AddListing(t, id, l).catalog| == |keys - Frees(t, n) + Takes(t, id, n)|;
    if CountOf(t.counts, n) == 1 {
      var q := SoleOwner(e, n);
      OnlyListed(t.catalog, e, n, q);
      var (a, b) := (Qualified(q, n), Qualified(id, n));
      assert |a| > |n| && |b| > |n|;
      TwoForOne(keys, n, a, b);
    } else {
      assert keys - Frees(t, n) + Takes(t, id, n) == keys;
    }
  }
}

/** Registering providers: validation before mutation, whole runs, and independence of their order. */
module Registration {
  import opened Prelude
  import opened Registry

  datatype RegistryState<P> = RegistryState(tables: Tables, providers: map<string, P>, exposures: Exposures)

  /** One call of `register`: a provider with the listings, or the error, that its `index` returned. */
  datatype Request<P> = Request(id: string, provider: P, index: Result<seq<Listing>, RegistryError>)

  function EmptyRegistry<P>(): RegistryState<P> {
    RegistryState(Tables(map[], map[]), map[], map[])
  }

  function Names(listings: seq<Listing>): set<string> {
    set l | l in listings :: l.name
  }

  /** The name at the first listing that repeats an earlier one. */
  function FirstDuplicate(listings: seq<Listing>): Option<string>
    decreases |listings|
  {
    if listings == [] then None
    else
      var (front, last) := (listings[..|listings| - 1], listings[|listings| - 1]);
      var earlier := FirstDuplicate(front);
      if earlier.Some? then earlier else if last.name in Names(front) then Some(last.name) else None
  }

  function FirstPoor(listings: seq<Listing>, quality: Quality): Option<string>
    decreases |listings|
  {
    if listings == [] then None
    else
      var (front, last) := (listings[..|listings| - 1], listings[|listings| - 1]);
      var earlier := FirstPoor(front, quality);
      if earlier.Some? then earlier else if quality(last.name, last.desc) then None else Some(last.name)
  }

  function Refusal<P>(s: RegistryState<P>, r: Request<P>, quality: Quality): Option<RegistryError> {
    if r.id in s.providers then Some(DuplicateProvider(r.id))
    else match r.index
      case Failure(e) => Some(e)
      case Success(listings) =>
        if FirstDuplicate(listings).Some? then Some(DuplicateCapability(r.id, FirstDuplicate(listings).value))
        else if FirstPoor(listings, quality).Some? then Some(DescriptionQuality(r.id, FirstPoor(listings, quality).value))
        else None
  }

  function Expose(e: Exposures, id: string, listings: seq<Listing>): Exposures
    decreases |listings|
  {
    if listings == [] then e
    else
      var last := listings[|listings| - 1];
      Expose(e, id, listings[..|listings| - 1])[(id, last.name) := last.desc]
  }

  function Registered<P>(s: RegistryState<P>, r: Request<P>, quality: Quality): RegistryState<P> {
    if Refusal(s, r, quality).Some? || r.index.Failure? then s
    else
      RegistryState(AddListings(s.tables, r.id, r.index.value), s.providers[r.id := r.provider],
                    Expose(s.exposures, r.id, r.index.value))
  }

  function RegisterAll<P>(s: RegistryState<P>, requests: seq<Request<P>>, quality: Quality): RegistryState<P>
    decreases |requests|
  {
    if requests == [] then s
    else Registered(RegisterAll(s, requests[..|requests| - 1], quality), requests[|requests| - 1], quality)
  }

  predicate NamesDistinct(listings: seq<Listing>) {
    forall i, k | 0 <= i < k < |listings| :: listings[i].name != listings[k].name
  }

  /** `listings[k]` is the first to repeat the name of an earlier one. */
  predicate RepeatsFirst(listings: seq<Listing>, k: int) {
    && 0 <= k < |listings| && NamesDistinct(listings[..k])
    && exists i | 0 <= i < k :: listings[i].name == listings[k].name
  }

  predicate FailsFirst(listings: seq<Listing>, quality: Quality, k: int) {
    && 0 <= k < |listings| && !quality(listings[k].name, listings[k].desc)
    && forall i | 0 <= i < k :: quality(listings[i].name, listings[i].desc)
  }

  lemma {:induction false} FirstDuplicateExactly(listings: seq<Listing>)
    ensures FirstDuplicate(listings).None? <==> NamesDistinct(listings)
    ensures FirstDuplicate(listings).Some? ==>
              exists k :: RepeatsFirst(listings, k) && FirstDuplicate(listings).value == listings[k].name
    decreases |listings|
  {
    if listings != [] {
      var n := |listings| - 1;
      var (front, last) := (listings[..n], listings[n]);
      FirstDuplicateExactly(front);
      NamedAt(front, last.name);
      hide Names;
      assert forall i | 0 <= i < n :: front[i] == listings[i];
      if FirstDuplicate(front).Some? {
        var k :| RepeatsFirst(front, k) && FirstDuplicate(front).value == front[k].name;
        RepeatStays(listings, n, k);
      } else if last.name in Names(front) {
        var i :| 0 <= i < n && front[i].name == last.name;
        assert listings[i].name == last.name;
        assert RepeatsFirst(listings, n);
      }
    }
  }

  lemma NamedAt(listings: seq<Listing>, name: string)
    ensures name in Names(listings) <==> exists i | 0 <= i < |listings| :: listings[i].name == name
  {
    if i :| 0 <= i < |listings| && listings[i].name == name {
      assert listings[i] in listings;
    }
  }

  lemma RepeatStays(listings: seq<Listing>, n: nat, k: int)
    requires n <= |listings| && RepeatsFirst(listings[..n], k)
    ensures RepeatsFirst(listings, k) && !NamesDistinct(listings) && listings[k] == listings[..n][k]
  {
    assert listings[..k] == listings[..n][..k];
    var i :| 0 <= i < k && listings[..n][i].name == listings[..n][k].name;
    assert listings[i].name == listings[k].name;
  }

  lemma {:induction false} FirstPoorExactly(listings: seq<Listing>, quality: Quality)
    ensures FirstPoor(listings, quality).None? <==> forall i | 0 <= i < |listings| :: quality(listings[i].name, listings[i].desc)
    ensures FirstPoor(listings, quality).Some? ==>
              exists k :: FailsFirst(listings, quality, k) && FirstPoor(listings, quality).value == listings[k].name
    decreases |listings|
  {
    if listings != [] {
      var n := |listings| - 1;
      var front := listings[..n];
      FirstPoorExactly(front, quality);
      assert forall i | 0 <= i < n :: front[i] == listings[i];
      if FirstPoor(front, quality).Some? {
        var k :| FailsFirst(front, quality, k) && FirstPoor(front, quality).value == front[k].name;
        assert FailsFirst(listings, quality, k);
      } else if !quality(listings[n].name, listings[n].desc) {
        assert FailsFirst(listings, quality, n);
      }
    }
  }

  /** A provider that a registry with the given providers has no reason to refuse. */
  ghost predicate Acceptable<P>(providers: map<string, P>, r: Request<P>, quality: Quality) {
    && r.id !in providers && r.index.Success?
    && NamesDistinct(r.index.value)
    && forall i | 0 <= i < |r.index.value| :: quality(r.index.value[i].name, r.index.value[i].desc)
  }

  /**
    A provider is accepted exactly if its id is new, its index succeeds, its names are pairwise distinct and every
    description passes; otherwise the error names the id, the index's error, the first repeated name or the first
    listing that fails, in this order.
   */
  lemma RefusalExactly<P>(s: RegistryState<P>, r: Request<P>, quality: Quality)
    ensures Refusal(s, r, quality).None? <==> Acceptable(s.providers, r, quality)
    ensures Refusal(s, r, quality).Some? ==> Explains(s.providers, r, quality, Refusal(s, r, quality).value)
  {
    hide FirstDuplicate, FirstPoor;
    if r.index.Success? {
      FirstDuplicateExactly(r.index.value);
      FirstPoorExactly(r.index.value, quality);
    }
  }

  ghost predicate Explains<P>(providers: map<string, P>, r: Request<P>, quality: Quality, error: RegistryError) {
    if r.id in providers then error == DuplicateProvider(r.id)
    else if r.index.Failure? then error == r.index.error
    else if !NamesDistinct(r.index.value)
    then exists k :: RepeatsFirst(r.index.value, k) && error == DuplicateCapability(r.id, r.index.value[k].name)
    else exists k :: FailsFirst(r.index.value, quality, k) && error == DescriptionQuality(r.id, r.index.value[k].name)
  }

  /** The registry object; `exposures` is the history of what was accepted. */
  class ProviderRegistry<P> {
    var catalog: Catalog
    var nameCounts: Counts
    var providers: map<string, P>
    ghost var exposures: Exposures
    const quality: Quality

    ghost function View(): RegistryState<P>
      reads this
    {
      RegistryState(Tables(catalog, nameCounts), providers, exposures)
    }

    constructor (quality: Quality)
      ensures View() == EmptyRegistry() && this.quality == quality
    {
      catalog, nameCounts, providers, exposures := map[], map[], map[], map[];
      this.quality := quality;
    }

    method Register(r: Request<P>) returns (refusal: Option<RegistryError>)
      modifies this
      ensures refusal == Refusal(old(View()), r, quality)
      ensures refusal.None? <==> Acceptable(old(providers), r, quality)
      ensures refusal.Some? ==> Explains(old(providers), r, quality, refusal.value)
      ensures View() == Registered(old(View()), r, quality)
      ensures refusal.Some? ==> View() == old(View())
    {
      RefusalExactly(View(), r, quality);
      hide FirstDuplicate, FirstPoor, AddListings, Expose, Acceptable, Explains;
      if r.id in providers {
        return Some(DuplicateProvider(r.id));
      }
      if r.index.Failure? {
        return Some(r.index.error);
      }
      var duplicate := FindDuplicate(r.index.value);
      if duplicate.Some? {
        return Some(DuplicateCapability(r.id, duplicate.value));
      }
      var poor := FindPoor(r.index.value);
      if poor.Some? {
        return Some(DescriptionQuality(r.id, poor.value));
      }
      AddAll(r.id, r.index.value);
      providers := providers[r.id := r.provider];
      return None;
    }

    method FindDuplicate(listings: seq<Listing>) returns (name: Option<string>)
      ensures name == FirstDuplicate(listings)
      ensures name.None? <==> NamesDistinct(listings)
      ensures name.Some? ==> exists k :: RepeatsFirst(listings, k) && name.value == listings[k].name
    {
      FirstDuplicateExactly(listings);
      hide NamesDistinct, RepeatsFirst;
      var seen: set<string> := {};
      var i := 0;
      while i < |listings|
        invariant i <= |listings| && seen == Names(listings[..i]) && FirstDuplicate(listings[..i]).None?
      {
        PrefixByOne(listings, i);
        if listings[i].name in seen {
          DuplicateInPrefix(listings, i + 1);
          return Some(listings[i].name);
        }
        seen := seen + {listings[i].name};
        i := i + 1;
      }
      assert listings[..i] == listings;
      return None;
    }

    method FindPoor(listings: seq<Listing>) returns (name: Option<string>)
      ensures name == FirstPoor(listings, quality)
      ensures name.None? <==> forall i | 0 <= i < |listings| :: quality(listings[i].name, listings[i].desc)
      ensures name.Some? ==> exists k :: FailsFirst(listings, quality, k) && name.value == listings[k].name
    {
      FirstPoorExactly(listings, quality);
      var i := 0;
      while i < |listings|
        invariant i <= |listings| && FirstPoor(listings[..i], quality).None?
      {
        PrefixByOne(listings, i);
        if !quality(listings[i].name, listings[i].desc) {
          PoorInPrefix(listings, i + 1, quality);
          return Some(listings[i].name);
        }
        i := i + 1;
      }
      assert listings[..i] == listings;
      return None;
    }

    /** One listing: bare for a first owner, promotion of the first at the second, qualified from then on. */
    method AddOne(id: string, l: Listing)
      modifies this
      ensures View() == old(View()).(tables := AddListing(old(View()).tables, id, l),
                                     exposures := old(exposures)[(id, l.name) := l.desc])
    {
      var count := (if l.name in nameCounts then nameCounts[l.name] else 0) + 1;
      nameCounts := nameCounts[l.name := count];
      var entry := CatalogEntry(id, l.name, l.desc);
      if count == 1 {
        catalog := catalog[l.name := entry];
      } else {
        if count == 2 && l.name in catalog {
          var prev := catalog[l.name];
          catalog := (catalog - {l.name})[Qualified(prev.providerId, prev.localName) := prev];
        }
        catalog := catalog[Qualified(id, l.name) := entry];
      }
      exposures := exposures[(id, l.name) := l.desc];
    }

    method AddAll(id: string, listings: seq<Listing>)
      modifies this
      ensures View() == old(View()).(tables := AddListings(old(View()).tables, id, listings),
                                     exposures := Expose(old(exposures), id, listings))
    {
      hide AddListing;
      var i := 0;
      ghost var before := View();
      while i < |listings|
        invariant i <= |listings|
        invariant View() == before.(tables := AddListings(before.tables, id, listings[..i]),
                                    exposures := Expose(before.exposures, id, listings[..i]))
      {
        PrefixByOne(listings, i);
        AddOne(id, listings[i]);
        i := i + 1;
      }
      assert listings[..i] == listings;
    }
  }

  lemma PrefixByOne(listings: seq<Listing>, i: nat)
    requires i < |listings|
    ensures listings[..i + 1][..i] == listings[..i] && listings[..i + 1] == listings[..i] + [listings[i]]
    ensures Names(listings[..i + 1]) == Names(listings[..i]) + {listings[i].name}
  {
    assert listings[..i + 1] == listings[..i] + [listings[i]];
  }

  lemma {:induction false} DuplicateInPrefix(listings: seq<Listing>, n: nat)
    requires n <= |listings| && FirstDuplicate(listings[..n]).Some?
    ensures FirstDuplicate(listings) == FirstDuplicate(listings[..n])
    decreases |listings|
  {
    if n == |listings| {
      assert listings[..n] == listings;
    } else {
      var front := listings[..|listings| - 1];
      assert front[..n] == listings[..n];
      DuplicateInPrefix(front, n);
    }
  }

  lemma {:induction false} PoorInPrefix(listings: seq<Listing>, n: nat, quality: Quality)
    requires n <= |listings| && FirstPoor(listings[..n], quality).Some?
    ensures FirstPoor(listings, quality) == FirstPoor(listings[..n], quality)
    decreases |listings|
  {
    if n == |listings| {
      assert listings[..n] == listings;
    } else {
      var front := listings[..|listings| - 1];
      assert front[..n] == listings[..n];
      PoorInPrefix(front, n, quality);
    }
  }

  // ---- Whole runs ----

  predicate ColonFree<P>(r: Request<P>) {
    r.index.Success? ==> forall l | l in r.index.value :: ':' !in l.name
  }

  ghost predicate RegistryOk<P>(s: RegistryState<P>) {
    && Good(s.tables, s.exposures) && NoColons(s.exposures)
    && forall k | k in s.exposures :: k.0 in s.providers
  }

  lemma {:induction false} ListingsKeepGood(t: Tables, e: Exposures, id: string, listings: seq<Listing>)
    requires Good(t, e) && NoColons(e)
    requires forall k | k in e :: k.0 != id
    requires FirstDuplicate(listings).None? && forall l | l in listings :: ':' !in l.name
    ensures Good(AddListings(t, id, listings), Expose(e, id, listings)) && NoColons(Expose(e, id, listings))
    ensures forall k | k in Expose(e, id, listings) :: k in e || (k.0 == id && k.1 in Names(listings))
    decreases |listings|
  {
    if listings != [] {
      hide Good, AddListing, NoColons;
      var (front, last) := (listings[..|listings| - 1], listings[|listings| - 1]);
      ListingsKeepGood(t, e, id, front);
      var (t', e') := (AddListings(t, id, front), Expose(e, id, front));
      assert (id, last.name) !in e';
      ColonFreeTargetsAreFree(t', e', id, last.name);
      AddListingKeepsClosedFormExactly(t', e', id, last);
      NoColonsAdded(e', id, last);
      assert forall k | k in Names(front) :: k in Names(listings);
      assert last.name in Names(listings);
    }
  }

  lemma NoColonsAdded(e: Exposures, id: string, l: Listing)
    requires NoColons(e) && ':' !in l.name
    ensures NoColons(e[(id, l.name) := l.desc])
  {
  }

  lemma RegisterKeepsOk<P>(s: RegistryState<P>, r: Request<P>, quality: Quality)
    requires RegistryOk(s) && ColonFree(r)
    ensures RegistryOk(Registered(s, r, quality))
    ensures Refusal(s, r, quality).Some? ==> Registered(s, r, quality) == s
  {
    hide Good, NoColons, AddListings, Expose;
    if Refusal(s, r, quality).None? {
      ListingsKeepGood(s.tables, s.exposures, r.id, r.index.value);
    }
  }

  /**
    After any run of registrations of colon-free names, some refused, the catalog is the closed form of
    what was accepted: bare for a sole owner, qualified for several, nothing lost, nothing else listed.
   */
  lemma {:induction false} CatalogIsClosedForm<P>(requests: seq<Request<P>>, quality: Quality)
    requires forall r | r in requests :: ColonFree(r)
    ensures RegistryOk(RegisterAll(EmptyRegistry(), requests, quality))
    decreases |requests|
  {
    hide Good, NoColons, Registered, ColonFree;
    if requests == [] {
      EmptyIsOk<P>();
    } else {
      CatalogIsClosedForm(requests[..|requests| - 1], quality);
      RegisterKeepsOk(RegisterAll(EmptyRegistry(), requests[..|requests| - 1], quality), requests[|requests| - 1], quality);
    }
  }

  predicate Routes(c: Catalog, x: string, p: string, n: string) {
    x in c && c[x].providerId == p && c[x].localName == n
  }

  /** Bare exactly for a sole owner, qualified exactly for one of several. */
  lemma WhatExposedNamesMean<P>(requests: seq<Request<P>>, quality: Quality, p: string, n: string)
    requires forall r | r in requests :: ColonFree(r)
    ensures var s := RegisterAll(EmptyRegistry<P>(), requests, quality);
            && (Routes(s.tables.catalog, n, p, n) <==> Owners(s.exposures, n) == {p})
            && (Routes(s.tables.catalog, Qualified(p, n), p, n) <==>
                  p in Owners(s.exposures, n) && |Owners(s.exposures, n)| >= 2)
  {
    hide ColonFree, RegisterAll;
    CatalogIsClosedForm(requests, quality);
    var s := RegisterAll(EmptyRegistry<P>(), requests, quality);
    var (c, e) := (s.tables.catalog, s.exposures);
    OwnersAre(e, n);
    assert |Qualified(p, n)| > |n|;
    if Routes(c, n, p, n) {
      assert Lists(c[n], n, e);
      var q := SoleOwner(e, n);
    }
    if Routes(c, Qualified(p, n), p, n) {
      assert Lists(c[Qualified(p, n)], Qualified(p, n), e);
      assert p in Owners(e, n) && |Owners(e, n)| != 0;
    }
    if p in Owners(e, n) {
      assert (p, n) in e && ExposedName(e, (p, n).0, (p, n).1) in c;
      if |Owners(e, n)| == 1 {
        var q := SoleOwner(e, n);
      }
      assert |Owners(e, n)| != 0;
    }
  }

  lemma EmptyIsOk<P>()
    ensures RegistryOk<P>(EmptyRegistry())
  {
  }

  /** The closed form leaves no choice: equal exposures, equal catalogs. */
  lemma ClosedFormDeterminesCatalog(c: Catalog, d: Catalog, e: Exposures)
    requires ClosedForm(c, e) && ClosedForm(d, e)
    ensures c == d
  {
    forall x | x in c ensures x in d && d[x] == c[x] {
      assert Lists(c[x], x, e);
      var k := (c[x].providerId, c[x].localName);
      assert k in e && ExposedName(e, k.0, k.1) == x;
    }
    forall x | x in d ensures x in c {
      assert Lists(d[x], x, e);
      var k := (d[x].providerId, d[x].localName);
      assert k in e && ExposedName(e, k.0, k.1) == x;
    }
  }

  /** A run in which every request is valid by itself and no provider id comes twice. */
  predicate AllAcceptable<P>(requests: seq<Request<P>>, quality: Quality) {
    && (forall i, k | 0 <= i < k < |requests| :: requests[i].id != requests[k].id)
    && (forall i | 0 <= i < |requests| ::
          requests[i].index.Success? && FirstDuplicate(requests[i].index.value).None?
          && FirstPoor(requests[i].index.value, quality).None?)
  }

  ghost predicate Offers<P>(r: Request<P>, k: (string, string), desc: string) {
    r.index.Success? && r.id == k.0 && Listing(k.1, desc) in r.index.value
  }

  ghost predicate Offered<P>(requests: seq<Request<P>>, k: (string, string), desc: string) {
    exists i | 0 <= i < |requests| :: Offers(requests[i], k, desc)
  }

  predicate Holds(e: Exposures, k: (string, string), desc: string) {
    k in e && e[k] == desc
  }

  lemma ExposedByOneMore(e: Exposures, id: string, front: seq<Listing>, last: Listing, k: (string, string), d: string)
    requires last.name !in Names(front)
    ensures Holds(e[(id, last.name) := last.desc], k, d) <==>
              if k == (id, last.name) then d == last.desc else Holds(e, k, d)
    ensures Listing(k.1, d) in front + [last] <==> Listing(k.1, d) in front || (k.1 == last.name && d == last.desc)
    ensures k.1 == last.name ==> Listing(k.1, d) !in front
  {
    NamedIn(front, k.1, d);
    assert Listing(k.1, d) == last <==> k.1 == last.name && d == last.desc;
  }

  lemma {:induction false} ExposeAdds(e: Exposures, id: string, listings: seq<Listing>)
    requires FirstDuplicate(listings).None? && forall k | k in e :: k.0 != id
    ensures forall k, d :: Holds(Expose(e, id, listings), k, d) <==>
              Holds(e, k, d) || (k.0 == id && Listing(k.1, d) in listings)
    ensures forall k | k in Expose(e, id, listings) :: k.0 == id ==> k.1 in Names(listings)
    decreases |listings|
  {
    if listings != [] {
      var (front, last) := (listings[..|listings| - 1], listings[|listings| - 1]);
      assert listings == front + [last];
      ExposeAdds(e, id, front);
      assert !exists d :: Holds(e, (id, last.name), d);
      var e' := Expose(e, id, front);
      forall k, d
        ensures Holds(Expose(e, id, listings), k, d) <==> Holds(e, k, d) || (k.0 == id && Listing(k.1, d) in listings)
      {
        hide Holds, Names;
        assert Holds(e', k, d) <==> Holds(e, k, d) || (k.0 == id && Listing(k.1, d) in front);
        ExposedByOneMore(e', id, front, last, k, d);
      }
      NamesByOneMore(front, last);
    }
  }

  lemma NamesByOneMore(front: seq<Listing>, last: Listing)
    ensures Names(front + [last]) == Names(front) + {last.name}
  {
    PrefixByOne(front + [last], |front|);
  }

  lemma NamedIn(listings: seq<Listing>, name: string, d: string)
    ensures Listing(name, d) in listings ==> name in Names(listings)
  {
    if Listing(name, d) in listings {
      assert Listing(name, d).name in Names(listings);
    }
  }

  lemma OfferedByOneMore<P>(front: seq<Request<P>>, last: Request<P>, k: (string, string), d: string)
    ensures Offered(front + [last], k, d) <==> Offered(front, k, d) || Offers(last, k, d)
  {
    var all := front + [last];
    assert all[|front|] == last;
    if Offered(front, k, d) {
      var i :| 0 <= i < |front| && Offers(front[i], k, d);
      assert all[i] == front[i];
    }
  }

  ghost predicate HasId<P>(requests: seq<Request<P>>, id: string) {
    exists i | 0 <= i < |requests| :: requests[i].id == id
  }

  lemma {:induction false} ExposuresOfRun<P>(requests: seq<Request<P>>, quality: Quality)
    requires AllAcceptable(requests, quality)
    ensures var s := RegisterAll(EmptyRegistry<P>(), requests, quality);
            && (forall id | id in s.providers :: HasId(requests, id))
            && (forall k, d :: Holds(s.exposures, k, d) <==> Offered(requests, k, d))
            && (forall k | k in s.exposures :: k.0 in s.providers)
    decreases |requests|
  {
    hide Offers, Offered;
    if requests == [] {
      NothingOffered<P>();
    } else {
      var (front, last) := (requests[..|requests| - 1], requests[|requests| - 1]);
      assert requests == front + [last];
      ExposuresOfRun(front, quality);
      hide Holds, FirstDuplicate, FirstPoor, Expose, AddListings;
      var s := RegisterAll(EmptyRegistry<P>(), front, quality);
      forall i | 0 <= i < |front| ensures front[i].id != last.id {
        assert requests[i].id != requests[|front|].id;
      }
      var s' := Registered(s, last, quality);
      ExposeAdds(s.exposures, last.id, last.index.value);
      forall k, d ensures Holds(s'.exposures, k, d) <==> Offered(requests, k, d) {
        OfferedByOneMore(front, last, k, d);
        OffersIs(last, k, d);
      }
      forall k | k in s'.exposures ensures k.0 in s'.providers {
        HoldsItsOwn(s'.exposures, s.exposures, k);
        OffersIs(last, k, s'.exposures[k]);
      }
      forall id | id in s'.providers ensures HasId(requests, id) {
        if id in s.providers {
          assert HasId(front, id);
          var i :| 0 <= i < |front| && front[i].id == id;
          assert requests[i].id == id;
        } else {
          assert requests[|front|].id == id;
        }
      }
    }
  }

  lemma NothingOffered<P>()
    ensures forall k, d :: !Offered<P>([], k, d)
  {
  }

  lemma OffersIs<P>(r: Request<P>, k: (string, string), d: string)
    ensures Offers(r, k, d) <==> r.index.Success? && r.id == k.0 && Listing(k.1, d) in r.index.value
  {
  }

  lemma HoldsItsOwn(e: Exposures, e': Exposures, k: (string, string))
    requires k in e
    ensures Holds(e, k, e[k]) && (Holds(e', k, e[k]) ==> k in e')
  {
  }

  /** The same providers registered in any order give the same catalog. */
  lemma CatalogIgnoresOrder<P>(a: seq<Request<P>>, b: seq<Request<P>>, quality: Quality)
    requires AllAcceptable(a, quality) && AllAcceptable(b, quality)
    requires forall r :: r in a <==> r in b
    requires forall r | r in a :: ColonFree(r)
    ensures RegisterAll(EmptyRegistry<P>(), a, quality).tables.catalog ==
            RegisterAll(EmptyRegistry<P>(), b, quality).tables.catalog
  {
    hide RegisterAll, ClosedForm, CountsOwners, Offers, Offered, AllAcceptable, ColonFree, Holds, NoColons;
    var s := RegisterAll(EmptyRegistry<P>(), a, quality);
    var t := RegisterAll(EmptyRegistry<P>(), b, quality);
    CatalogIsClosedForm(a, quality);
    CatalogIsClosedForm(b, quality);
    ExposuresOfRun(a, quality);
    ExposuresOfRun(b, quality);
    forall k, d ensures Holds(s.exposures, k, d) <==> Holds(t.exposures, k, d) {
      OfferedIgnoresOrder(a, b, k, d);
    }
    SameHoldings(s.exposures, t.exposures);
    ClosedFormDeterminesCatalog(s.tables.catalog, t.tables.catalog, s.exposures);
  }

  lemma OfferedIgnoresOrder<P>(a: seq<Request<P>>, b: seq<Request<P>>, k: (string, string), d: string)
    requires forall r :: r in a <==> r in b
    ensures Offered(a, k, d) <==> Offered(b, k, d)
  {
    hide Offers;
    if Offered(a, k, d) {
      var i :| 0 <= i < |a| && Offers(a[i], k, d);
      assert a[i] in a && a[i] in b;
      var j :| 0 <= j < |b| && b[j] == a[i];
    }
    if Offered(b, k, d) {
      var i :| 0 <= i < |b| && Offers(b[i], k, d);
      assert b[i] in b && b[i] in a;
      var j :| 0 <= j < |a| && a[j] == b[i];
    }
  }

  lemma SameHoldings(e: Exposures, f: Exposures)
    requires forall k, d :: Holds(e, k, d) <==> Holds(f, k, d)
    ensures e == f
  {
    forall k | k in e ensures k in f && f[k] == e[k] {
      assert Holds(e, k, e[k]);
    }
    forall k | k in f ensures k in e {
      assert Holds(f, k, f[k]);
    }
  }

  // ---- With colons allowed: exactly when nothing is lost ----

  lemma TakesKeptByOtherNames(t: Tables, e: Exposures, t': Tables, e': Exposures, id: string, name: string)
    requires Good(t, e) && Good(t', e')
    requires forall p :: (p, name) in e <==> (p, name) in e'
    ensures Takes(t', id, name) == Takes(t, id, name) && Frees(t', name) == Frees(t, name)
  {
    hide ClosedForm, CountsOwners;
    CountIsOwners(t, e, name);
    CountIsOwners(t', e', name);
    OwnersAre(e, name);
    OwnersAre(e', name);
    assert Owners(e, name) == Owners(e', name);
    if |Owners(e, name)| == 1 {
      var q := SoleOwner(e, name);
      hide Owners;
      OnlyListed(t.catalog, e, name, q);
      OnlyListed(t'.catalog, e', name, q);
    }
  }

  lemma OtherNamesKeepOwners(e: Exposures, id: string, front: seq<Listing>, name: string)
    requires FirstDuplicate(front).None? && (forall k | k in e :: k.0 != id) && name !in Names(front)
    ensures forall p :: (p, name) in e <==> (p, name) in Expose(e, id, front)
  {
    ExposeAdds(e, id, front);
    var e' := Expose(e, id, front);
    forall p ensures (p, name) in e <==> (p, name) in e' {
      if (p, name) in e {
        assert Holds(e, (p, name), e[(p, name)]);
      }
      if (p, name) in e' {
        NamedIn(front, name, e'[(p, name)]);
        assert Holds(e', (p, name), e'[(p, name)]);
      }
    }
  }

  /** With no clash one `register` leads from closed form to closed form; with a clash it loses a capability. */
  lemma {:induction false} ListingsKeepGoodOrLose(t: Tables, e: Exposures, id: string, listings: seq<Listing>)
    requires Good(t, e) && forall k | k in e :: k.0 != id
    requires FirstDuplicate(listings).None?
    ensures var (t', e') := (AddListings(t, id, listings), Expose(e, id, listings));
            if KeysFree(t, id, listings) then Good(t', e') && t'.catalog.Keys == KeysAfter(t, id, listings)
            else |t'.catalog| < |e'|
    decreases |listings|
  {
    if listings != [] {
      hide Good, AddListing, Takes, Frees, TargetsFree;
      var (front, last) := (listings[..|listings| - 1], listings[|listings| - 1]);
      ListingsKeepGoodOrLose(t, e, id, front);
      var (t', e') := (AddListings(t, id, front), Expose(e, id, front));
      FreshInFront(e, id, front, last.name);
      if KeysFree(t, id, front) {
        OtherNamesKeepOwners(e, id, front, last.name);
        TakesKeptByOtherNames(t, e, t', e', id, last.name);
        StepKeys(t', id, last);
        TargetsFreeIs(t', id, last.name);
        AddListingKeepsClosedFormExactly(t', e', id, last);
        if !TargetsFree(t', id, last.name) {
          ClashAddsNothing(t', e', id, last);
          GoodIsFull(t', e');
        }
      } else {
        GrowsByAtMostOne(t', id, last);
      }
    }
  }

  lemma FreshInFront(e: Exposures, id: string, front: seq<Listing>, name: string)
    requires FirstDuplicate(front).None? && (forall k | k in e :: k.0 != id) && name !in Names(front)
    ensures (id, name) !in Expose(e, id, front)
  {
    ExposeAdds(e, id, front);
  }

  lemma TargetsFreeIs(t: Tables, id: string, name: string)
    ensures TargetsFree(t, id, name) <==> Takes(t, id, name) !! t.catalog.Keys
  {
  }

  lemma GoodIsFull(t: Tables, e: Exposures)
    requires Good(t, e)
    ensures |t.catalog| == |e|
  {
  }

  /**
    One `register` call with any names: the closed form is kept if and only if no listing takes a key that is in
    the catalog or that an earlier listing of the same provider takes, all reckoned from the tables before the call.
   */
  lemma RegisterKeepsClosedFormExactly<P>(s: RegistryState<P>, r: Request<P>, quality: Quality)
    requires Good(s.tables, s.exposures) && (forall k | k in s.exposures :: k.0 in s.providers)
    requires Refusal(s, r, quality).None?
    ensures var s' := Registered(s, r, quality);
            Good(s'.tables, s'.exposures) <==> KeysFree(s.tables, r.id, r.index.value)
  {
    hide Good, AddListings, Expose, KeysFree;
    ListingsKeepGoodOrLose(s.tables, s.exposures, r.id, r.index.value);
    var s' := Registered(s, r, quality);
    if Good(s'.tables, s'.exposures) {
      GoodIsFull(s'.tables, s'.exposures);
    }
  }

  /** On no call of the run does a listing take a key in use. */
  predicate NoClash<P>(requests: seq<Request<P>>, quality: Quality)
    decreases |requests|
  {
    requests == [] ||
    var (front, last) := (requests[..|requests| - 1], requests[|requests| - 1]);
    var s := RegisterAll(EmptyRegistry<P>(), front, quality);
    && NoClash(front, quality)
    && (Refusal(s, last, quality).Some? || KeysFree(s.tables, last.id, last.index.value))
  }

  /** Every accepted capability is in some entry of the catalog. */
  ghost predicate NothingLost(catalog: Catalog, e: Exposures) {
    forall k | k in e :: exists x :: Routes(catalog, x, k.0, k.1)
  }

  function Owned(catalog: Catalog): set<(string, string)> {
    set x | x in catalog :: (catalog[x].providerId, catalog[x].localName)
  }

  lemma {:induction false} NoMoreOwnedThanKeys(catalog: Catalog)
    ensures |Owned(catalog)| <= |catalog|
    decreases |catalog|
  {
    if x :| x in catalog {
      var rest := catalog - {x};
      NoMoreOwnedThanKeys(rest);
      assert Owned(catalog) == Owned(rest) + {(catalog[x].providerId, catalog[x].localName)} by {
        forall y | y in catalog ensures (catalog[y].providerId, catalog[y].localName) in
                                        Owned(rest) + {(catalog[x].providerId, catalog[x].localName)} {
          assert y != x ==> y in rest && rest[y] == catalog[y];
        }
        forall y | y in rest ensures (rest[y].providerId, rest[y].localName) in Owned(catalog) {
          assert y in catalog && rest[y] == catalog[y];
        }
      }
    }
  }

  lemma NothingLostFits(catalog: Catalog, e: Exposures)
    requires NothingLost(catalog, e)
    ensures |e| <= |catalog|
  {
    forall k | k in e ensures k in Owned(catalog) {
      var x :| Routes(catalog, x, k.0, k.1);
      assert x in catalog && (catalog[x].providerId, catalog[x].localName) == k;
    }
    SubsetIsNoLarger(e.Keys, Owned(catalog));
    NoMoreOwnedThanKeys(catalog);
  }

  lemma {:induction false} SubsetIsNoLarger<T>(a: set<T>, b: set<T>)
    requires a <= b
    ensures |a| <= |b|
    decreases a
  {
    if x :| x in a {
      SubsetIsNoLarger(a - {x}, b - {x});
    }
  }

  lemma ClosedFormLosesNothing(catalog: Catalog, e: Exposures)
    requires ClosedForm(catalog, e)
    ensures NothingLost(catalog, e)
  {
    forall k | k in e ensures exists x :: Routes(catalog, x, k.0, k.1) {
      assert Routes(catalog, ExposedName(e, k.0, k.1), k.0, k.1);
    }
  }

  lemma {:induction false} ListingsGrowAtMost(t: Tables, id: string, listings: seq<Listing>)
    ensures |AddListings(t, id, listings).catalog| <= |t.catalog| + |listings|
    decreases |listings|
  {
    if listings != [] {
      hide AddListing;
      var front := listings[..|listings| - 1];
      ListingsGrowAtMost(t, id, front);
      GrowsByAtMostOne(AddListings(t, id, front), id, listings[|listings| - 1]);
    }
  }

  lemma RunStep<P>(s: RegistryState<P>, r: Request<P>, quality: Quality)
    requires forall k | k in s.exposures :: k.0 in s.providers
    requires Refusal(s, r, quality).None?
    ensures var s' := Registered(s, r, quality);
            && (forall k | k in s'.exposures :: k.0 in s'.providers)
            && (|s.tables.catalog| < |s.exposures| ==> |s'.tables.catalog| < |s'.exposures|)
  {
    hide AddListings, Expose, FirstPoor;
    var s' := Registered(s, r, quality);
    ListingsGrowAtMost(s.tables, r.id, r.index.value);
    ExposeGrows(s.exposures, r.id, r.index.value);
    ExposeAdds(s.exposures, r.id, r.index.value);
    forall k | k in s'.exposures ensures k.0 in s'.providers {
      assert Holds(s'.exposures, k, s'.exposures[k]);
    }
  }

  lemma {:induction false} RunKeepsGoodOrLoses<P>(requests: seq<Request<P>>, quality: Quality)
    ensures var s := RegisterAll(EmptyRegistry<P>(), requests, quality);
            && (forall k | k in s.exposures :: k.0 in s.providers)
            && if NoClash(requests, quality) then Good(s.tables, s.exposures)
               else |s.tables.catalog| < |s.exposures|
    decreases |requests|
  {
    hide Good, Registered, Refusal, KeysFree;
    if requests == [] {
      EmptyIsOk<P>();
    } else {
      var (front, last) := (requests[..|requests| - 1], requests[|requests| - 1]);
      RunKeepsGoodOrLoses(front, quality);
      var s := RegisterAll(EmptyRegistry<P>(), front, quality);
      OneCall(s, last, quality);
    }
  }

  lemma OneCall<P>(s: RegistryState<P>, r: Request<P>, quality: Quality)
    requires forall k | k in s.exposures :: k.0 in s.providers
    ensures Refusal(s, r, quality).Some? ==> Registered(s, r, quality) == s
    ensures Refusal(s, r, quality).None? ==> r.index.Success?
    ensures var s' := Registered(s, r, quality);
            && (forall k | k in s'.exposures :: k.0 in s'.providers)
            && (|s.tables.catalog| < |s.exposures| ==> |s'.tables.catalog| < |s'.exposures|)
            && (Good(s.tables, s.exposures) && Refusal(s, r, quality).None? ==>
                  if KeysFree(s.tables, r.id, r.index.value) then Good(s'.tables, s'.exposures)
                  else |s'.tables.catalog| < |s'.exposures|)
  {
    hide Good, AddListings, Expose, KeysFree, FirstPoor, FirstDuplicate;
    if Refusal(s, r, quality).None? {
      RunStep(s, r, quality);
      if Good(s.tables, s.exposures) {
        ListingsKeepGoodOrLose(s.tables, s.exposures, r.id, r.index.value);
      }
    }
  }

  /**
    Over any run of registrations, colons allowed: the catalog is the closed form if and only if no accepted
    capability is lost, if and only if no call took a key in use.  What one clash loses is never made up for.
   */
  lemma CatalogIsClosedFormExactly<P>(requests: seq<Request<P>>, quality: Quality)
    ensures var s := RegisterAll(EmptyRegistry<P>(), requests, quality);
            && (Good(s.tables, s.exposures) <==> NoClash(requests, quality))
            && (NothingLost(s.tables.catalog, s.exposures) <==> NoClash(requests, quality))
  {
    hide NoClash, RegisterAll, NothingLost, ClosedForm, CountsOwners;
    RunKeepsGoodOrLoses(requests, quality);
    var s := RegisterAll(EmptyRegistry<P>(), requests, quality);
    if NothingLost(s.tables.catalog, s.exposures) {
      NothingLostFits(s.tables.catalog, s.exposures);
    }
    if NoClash(requests, quality) {
      ClosedFormLosesNothing(s.tables.catalog, s.exposures);
    }
  }

  /** A local name with a colon can take the qualified key of another provider, whose capability is then lost. */
  lemma ColonNameLosesACapability(quality: Quality, desc: string)
    requires forall n, d :: quality(n, d)
    ensures var requests := [Request("a", (), Success([Listing("search", desc)])),
                             Request("b", (), Success([Listing("search", desc)])),
                             Request("c", (), Success([Listing("a:search", desc)]))];
            var s := RegisterAll(EmptyRegistry(), requests, quality);
            && ("a", "search") in s.exposures
            && forall x | x in s.tables.catalog ::
                 (s.tables.catalog[x].providerId, s.tables.catalog[x].localName) != ("a", "search")
  {
    hide Registered;
    var (l, m) := (Listing("search", desc), Listing("a:search", desc));
    var (ra, rb, rc) := (Request("a", (), Success([l])), Request("b", (), Success([l])), Request("c", (), Success([m])));
    var s0 := EmptyRegistry();
    OneListing(s0, ra, quality);
    var s1 := Registered(s0, ra, quality);
    OneListing(s1, rb, quality);
    var s2 := Registered(s1, rb, quality);
    OneListing(s2, rc, quality);
    var s3 := Registered(s2, rc, quality);
    ThreeTables(l, m);
    assert [ra, rb, rc][..2] == [ra, rb] && [ra, rb][..1] == [ra] && [ra][..0] == [];
    assert RegisterAll(s0, [ra], quality) == s1;
    assert RegisterAll(s0, [ra, rb], quality) == s2;
    assert RegisterAll(s0, [ra, rb, rc], quality) == s3;
  }

  lemma ThreeTables(l: Listing, m: Listing)
    requires l.name == "search" && m.name == "a:search"
    ensures var t1 := AddListing(Tables(map[], map[]), "a", l);
            var t3 := AddListing(AddListing(t1, "b", l), "c", m);
            forall x | x in t3.catalog :: (t3.catalog[x].providerId, t3.catalog[x].localName) != ("a", "search")
  {
    var t1 := AddListing(Tables(map[], map[]), "a", l);
    var ea := CatalogEntry("a", "search", l.desc);
    assert t1.catalog["search"] == ea && t1.catalog.Keys == {"search"} && t1.counts["search"] == 1;
    var t2 := AddListing(t1, "b", l);
    assert Qualified("a", "search") == "a:search";
    assert t2.catalog == (t1.catalog - {"search"})["a:search" := ea][Qualified("b", "search") := CatalogEntry("b", "search", l.desc)];
    assert "a:search" !in t2.counts;
    var t3 := AddListing(t2, "c", m);
    assert t3.catalog["a:search"].providerId == "c";
  }

  lemma OneListing<P>(s: RegistryState<P>, r: Request<P>, quality: Quality)
    requires r.id !in s.providers && r.index.Success? && |r.index.value| == 1
    requires forall n, d :: quality(n, d)
    ensures var l := r.index.value[0];
            Registered(s, r, quality) ==
            RegistryState(AddListing(s.tables, r.id, l), s.providers[r.id := r.provider],
                          s.exposures[(r.id, l.name) := l.desc])
  {
    hide AddListing;
    var listings := r.index.value;
    assert listings[..0] == [];
    assert Names(listings[..0]) == {};
    assert FirstDuplicate(listings[..0]).None? && FirstPoor(listings[..0], quality).None?;
    assert AddListings(s.tables, r.id, listings[..0]) == s.tables;
    assert Expose(s.exposures, r.id, listings[..0]) == s.exposures;
  }

  // ---- Size ----

  ghost function Sum(counts: Counts): nat {
    if counts == map[] then 0
    else
      var n :| n in counts;
      counts[n] + Sum(counts - {n})
  }

  lemma {:induction false} SumWithout(counts: Counts, n: string)
    requires n in counts
    ensures Sum(counts) == counts[n] + Sum(counts - {n})
    decreases |counts|
  {
    var m :| m in counts && Sum(counts) == counts[m] + Sum(counts - {m});
    if m != n {
      SumWithout(counts - {m}, n);
      SumWithout(counts - {n}, m);
      assert counts - {m} - {n} == counts - {n} - {m};
    }
  }

  lemma SumBumped(counts: Counts, n: string)
    ensures Sum(counts[n := CountOf(counts, n) + 1]) == Sum(counts) + 1
  {
    var counts' := counts[n := CountOf(counts, n) + 1];
    SumWithout(counts', n);
    assert counts' - {n} == counts - {n};
    if n in counts {
      SumWithout(counts, n);
    } else {
      assert counts - {n} == counts;
    }
  }

  lemma {:induction false} ListingsGrowSum(t: Tables, id: string, listings: seq<Listing>)
    ensures Sum(AddListings(t, id, listings).counts) == Sum(t.counts) + |listings|
    decreases |listings|
  {
    if listings != [] {
      var (front, last) := (listings[..|listings| - 1], listings[|listings| - 1]);
      ListingsGrowSum(t, id, front);
      SumBumped(AddListings(t, id, front).counts, last.name);
    }
  }

  lemma {:induction false} ExposeGrows(e: Exposures, id: string, listings: seq<Listing>)
    requires FirstDuplicate(listings).None? && forall k | k in e :: k.0 != id
    ensures |Expose(e, id, listings)| == |e| + |listings|
    decreases |listings|
  {
    if listings != [] {
      var front := listings[..|listings| - 1];
      ExposeGrows(e, id, front);
      ExposeAdds(e, id, front);
      assert (id, listings[|listings| - 1].name) !in Expose(e, id, front);
    }
  }

  /** The catalog has as many entries as the name counts add up to. */
  lemma {:induction false} CatalogSizeIsSumOfCounts<P>(requests: seq<Request<P>>, quality: Quality)
    requires forall r | r in requests :: ColonFree(r)
    ensures var t := RegisterAll(EmptyRegistry<P>(), requests, quality).tables; |t.catalog| == Sum(t.counts)
    decreases |requests|
  {
    hide ColonFree, Good, NoColons;
    CatalogIsClosedForm(requests, quality);
    if requests != [] {
      var (front, last) := (requests[..|requests| - 1], requests[|requests| - 1]);
      CatalogSizeIsSumOfCounts(front, quality);
      CatalogIsClosedForm(front, quality);
      RegisterGrowsEvenly(RegisterAll(EmptyRegistry<P>(), front, quality), last, quality);
    } else {
      assert Sum(map[]) == 0;
    }
  }

  lemma RegisterGrowsEvenly<P>(s: RegistryState<P>, r: Request<P>, quality: Quality)
    requires RegistryOk(s) && RegistryOk(Registered(s, r, quality)) && |s.tables.catalog| == Sum(s.tables.counts)
    ensures var t := Registered(s, r, quality).tables; |t.catalog| == Sum(t.counts)
  {
    hide AddListings, Expose, ClosedForm, CountsOwners, NoColons;
    if Refusal(s, r, quality).None? {
      ListingsGrowSum(s.tables, r.id, r.index.value);
      ExposeGrows(s.exposures, r.id, r.index.value);
    }
  }
}

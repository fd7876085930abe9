/** Discovery over a registry of native and MCP providers, and the two ways to run what it lists. */
module Discovery {
  import opened Prelude
  import opened Registry
  import opened Registration
  import C = Capability
  import Providers

  type ProviderState = RegistryState<Providers.Provider>
  type ProviderRequest = Request<Providers.Provider>
  type Grants = seq<C.RuntimeCapability>

  /** A registration of a constructed provider, whose `index` lists its own table in some order. */
  predicate IndexesItself(r: ProviderRequest) {
    && Providers.Sound(r.provider) && r.id == r.provider.id
    && r.index.Success? && Providers.ListsExactly(r.index.value, r.provider)
  }

  // ---- What the registry answers ----

  predicate DiscoveryPermitted(grants: Grants, exposed: string) {
    || C.SetPermits(grants, C.ProcSpawn)
    || exists i | 0 <= i < |grants| :: grants[i] == C.Tool(exposed)
  }

  function IndexFor(s: ProviderState, grants: Grants): map<string, string> {
    map x | x in s.tables.catalog && DiscoveryPermitted(grants, x) :: s.tables.catalog[x].desc
  }

  function Describe(s: ProviderState, name: string): Result<Providers.CapabilityDetail, RegistryError> {
    if name !in s.tables.catalog then Failure(CapabilityNotFound(name))
    else
      var entry := s.tables.catalog[name];
      if entry.providerId !in s.providers then Failure(CapabilityNotFound(name))
      else Providers.Describe(s.providers[entry.providerId], entry.localName)
  }

  function DescribeFor(s: ProviderState, name: string, grants: Grants): Result<Providers.CapabilityDetail, RegistryError> {
    if !DiscoveryPermitted(grants, name) then Failure(CapabilityNotFound(name)) else Describe(s, name)
  }

  function Resolve(s: ProviderState, name: string, params: Providers.Params): Result<Providers.ResolvedCommand, RegistryError> {
    if name !in s.tables.catalog then Failure(CapabilityNotFound(name))
    else
      var entry := s.tables.catalog[name];
      if entry.providerId !in s.providers then Failure(CapabilityNotFound(name))
      else Providers.Resolve(s.providers[entry.providerId], entry.localName, params)
  }

  // ---- The two ways to run a capability, up to the resolved command ----

  function JobCommand(s: ProviderState, grants: Grants, name: string, params: Providers.Params)
    : Result<Providers.ResolvedCommand, RegistryError>
  {
    if !C.SetPermits(grants, C.Tool(name)) && !C.SetPermits(grants, C.ProcSpawn)
    then Failure(CapabilityDenied("tool:" + name))
    else Resolve(s, name, params)
  }

  /** Code mode also parses its parameter text: `parsed` is what that yields, if anything. */
  function CodeCommand(s: ProviderState, grants: Grants, name: string, text: string, parsed: Option<Providers.Params>)
    : Result<Providers.ResolvedCommand, RegistryError>
  {
    if !C.SetPermits(grants, C.Tool(name)) && !C.SetPermits(grants, C.ProcSpawn)
    then Failure(CapabilityDenied("tool:" + name))
    else if parsed.None? then Failure(CapabilityParse(text))
    else Resolve(s, name, parsed.value)
  }

  /** Authorized and found: not refused for its name, whatever becomes of its parameters. */
  predicate Reaches<T>(r: Result<T, RegistryError>) {
    r.Success? || !(r.error.CapabilityDenied? || r.error.CapabilityNotFound?)
  }

  // ---- Routing survives every run ----

  predicate EntryRoutes(entry: CatalogEntry, providers: map<string, Providers.Provider>) {
    && entry.providerId in providers
    && var p := providers[entry.providerId];
       p.id == entry.providerId && Providers.Knows(p, entry.localName) && Providers.DescOf(p, entry.localName) == entry.desc
  }

  /** Every catalog entry leads to a registered provider that knows its local name; needs nothing of the names. */
  predicate Routable(s: ProviderState) {
    AllRoute(s.tables.catalog, s.providers)
  }

  predicate AllRoute(catalog: Catalog, providers: map<string, Providers.Provider>) {
    forall x | x in catalog :: EntryRoutes(catalog[x], providers)
  }

  lemma ListingEntries(t: Tables, id: string, l: Listing)
    ensures var c := AddListing(t, id, l).catalog;
            forall x | x in c :: c[x] in t.catalog.Values || c[x] == CatalogEntry(id, l.name, l.desc)
  {
    var c := AddListing(t, id, l).catalog;
    forall x | x in c ensures c[x] in t.catalog.Values || c[x] == CatalogEntry(id, l.name, l.desc) {
      if c[x] != CatalogEntry(id, l.name, l.desc) {
        assert (x in t.catalog && c[x] == t.catalog[x]) || (l.name in t.catalog && c[x] == t.catalog[l.name]);
      }
    }
  }

  lemma {:induction false} ListingsRoute(t: Tables, id: string, listings: seq<Listing>, providers: map<string, Providers.Provider>)
    requires AllRoute(t.catalog, providers)
    requires forall l | l in listings :: EntryRoutes(CatalogEntry(id, l.name, l.desc), providers)
    ensures AllRoute(AddListings(t, id, listings).catalog, providers)
    decreases |listings|
  {
    hide EntryRoutes, AddListing;
    if listings != [] {
      var (front, last) := (listings[..|listings| - 1], listings[|listings| - 1]);
      ListingsRoute(t, id, front, providers);
      var before := AddListings(t, id, front);
      ListingEntries(before, id, last);
      var c := AddListing(before, id, last).catalog;
      forall x | x in c ensures EntryRoutes(c[x], providers) {
        if c[x] in before.catalog.Values {
          var y :| y in before.catalog && before.catalog[y] == c[x];
          assert EntryRoutes(before.catalog[y], providers);
        } else {
          assert c[x] == CatalogEntry(id, last.name, last.desc);
          assert last in listings;
          assert EntryRoutes(CatalogEntry(id, last.name, last.desc), providers);
        }
      }
    }
  }

  lemma RegisterKeepsRoutable(s: ProviderState, r: ProviderRequest, quality: Quality)
    requires Routable(s) && IndexesItself(r)
    ensures Routable(Registered(s, r, quality))
  {
    hide AddListings, Expose, FirstDuplicate, FirstPoor;
    if Refusal(s, r, quality).None? {
      var providers := s.providers[r.id := r.provider];
      forall x | x in s.tables.catalog ensures EntryRoutes(s.tables.catalog[x], providers) {
        assert EntryRoutes(s.tables.catalog[x], s.providers);
      }
      forall l | l in r.index.value ensures EntryRoutes(CatalogEntry(r.id, l.name, l.desc), providers) {
      }
      ListingsRoute(s.tables, r.id, r.index.value, providers);
      assert Registered(s, r, quality).providers == providers;
      assert Registered(s, r, quality).tables == AddListings(s.tables, r.id, r.index.value);
    }
  }

  lemma {:induction false} RunsStayRoutable(requests: seq<ProviderRequest>, quality: Quality)
    requires forall r | r in requests :: IndexesItself(r)
    ensures Routable(RegisterAll(EmptyRegistry(), requests, quality))
    decreases |requests|
  {
    hide Routable, IndexesItself, Registered;
    if requests == [] {
      NothingRoutes();
    } else {
      RunsStayRoutable(requests[..|requests| - 1], quality);
      RegisterKeepsRoutable(RegisterAll(EmptyRegistry(), requests[..|requests| - 1], quality), requests[|requests| - 1], quality);
    }
  }

  lemma NothingRoutes()
    ensures Routable(EmptyRegistry())
  {
  }

  // ---- Discovery equals executability ----

  /** Discovery and execution read the same authority out of a session's grants. */
  lemma DiscoveryAuthorityIsExecutionAuthority(grants: Grants, name: string)
    ensures DiscoveryPermitted(grants, name) <==> C.SetPermits(grants, C.Tool(name)) || C.SetPermits(grants, C.ProcSpawn)
    ensures DiscoveryPermitted(grants, name) <==> C.Tool(name) in grants || C.ProcSpawn in grants
  {
    if C.ProcSpawn in grants {
      var k :| 0 <= k < |grants| && grants[k] == C.ProcSpawn;
      assert C.Permits(grants[k], C.ProcSpawn);
    }
    if i :| 0 <= i < |grants| && grants[i] == C.Tool(name) {
      assert C.Permits(grants[i], C.Tool(name));
    }
  }

  lemma BindErrorsAreParseErrors(template: seq<Providers.CapabilityArg>, params: Providers.Params)
    ensures Reaches(Providers.BindArgs(template, params))
  {
    Providers.BindArgsIsSlotwise(template, params);
  }

  lemma KnownNamesResolve(p: Providers.Provider, name: string, params: Providers.Params)
    ensures Reaches(Providers.Resolve(p, name, params)) <==> Providers.Knows(p, name)
    ensures Providers.Describe(p, name).Success? <==> Providers.Knows(p, name)
  {
    hide Providers.BindArgs;
    if p.Native? && name in p.descriptors {
      BindErrorsAreParseErrors(p.descriptors[name].exec.argsTemplate, params);
    }
  }

  /**
   * For every run of registrations of native and MCP providers, every session and every name: the session's
   * index lists the name exactly when describe succeeds, exactly when a capability job and exactly when a code-mode
   * call get past authorization and lookup; then all of them are answered by one provider under one local name.
   */
  lemma DiscoveryEqualsExecutability(requests: seq<ProviderRequest>, quality: Quality, grants: Grants, name: string,
                                     params: Providers.Params, text: string)
    requires forall r | r in requests :: IndexesItself(r)
    ensures var s := RegisterAll(EmptyRegistry(), requests, quality);
            var listed := name in IndexFor(s, grants);
            && (listed <==> DescribeFor(s, name, grants).Success?)
            && (listed <==> Reaches(JobCommand(s, grants, name, params)))
            && (listed <==> Reaches(CodeCommand(s, grants, name, text, Some(params))))
            && CodeCommand(s, grants, name, text, None) ==
                 Failure(if DiscoveryPermitted(grants, name) then CapabilityParse(text) else CapabilityDenied("tool:" + name))
            && (!listed ==>
                  && DescribeFor(s, name, grants) == Failure(CapabilityNotFound(name))
                  && JobCommand(s, grants, name, params) == CodeCommand(s, grants, name, text, Some(params))
                     == Failure(if C.Tool(name) in grants || C.ProcSpawn in grants then CapabilityNotFound(name)
                                else CapabilityDenied("tool:" + name)))
            && (listed ==>
                  exists p, local | p in s.providers && Providers.Knows(s.providers[p], local) && s.providers[p].id == p ::
                    && IndexFor(s, grants)[name] == Providers.DescOf(s.providers[p], local)
                    && DescribeFor(s, name, grants) == Providers.Describe(s.providers[p], local)
                    && JobCommand(s, grants, name, params) == Providers.Resolve(s.providers[p], local, params)
                    && CodeCommand(s, grants, name, text, Some(params)) == Providers.Resolve(s.providers[p], local, params))
  {
    hide RegisterAll, Providers.Resolve, Providers.Describe, Providers.Knows, Providers.DescOf, C.SetPermits;
    var s := RegisterAll(EmptyRegistry(), requests, quality);
    RunsStayRoutable(requests, quality);
    DiscoveryAuthorityIsExecutionAuthority(grants, name);
    hide DiscoveryPermitted;
    if name in s.tables.catalog {
      var entry := s.tables.catalog[name];
      assert EntryRoutes(entry, s.providers);
      KnownNamesResolve(s.providers[entry.providerId], entry.localName, params);
    }
  }

  /** Every registered provider is one that was constructed. */
  predicate AllSound(s: ProviderState) {
    forall p | p in s.providers :: Providers.Sound(s.providers[p])
  }

  lemma {:induction false} RunsKeepSound(requests: seq<ProviderRequest>, quality: Quality)
    requires forall r | r in requests :: IndexesItself(r)
    ensures AllSound(RegisterAll(EmptyRegistry(), requests, quality))
    decreases |requests|
  {
    hide Refusal, AddListings, Expose, Providers.Sound, Providers.ListsExactly;
    if requests != [] {
      RunsKeepSound(requests[..|requests| - 1], quality);
      assert requests[|requests| - 1] in requests;
    } else {
      assert RegisterAll(EmptyRegistry(), requests, quality) == EmptyRegistry<Providers.Provider>();
    }
  }

  /**
   * What a listed name stands for, spelled out: a native capability's own description, signature, schema, program and
   * template, or an MCP tool's own description, schema, bridge and identity.
   */
  lemma ListedNamesStandForTheirCapability(requests: seq<ProviderRequest>, quality: Quality, grants: Grants, name: string,
                                           params: Providers.Params)
    requires forall r | r in requests :: IndexesItself(r)
    requires name in IndexFor(RegisterAll(EmptyRegistry(), requests, quality), grants)
    ensures var s := RegisterAll(EmptyRegistry(), requests, quality);
            exists p, local | p in s.providers && local in Providers.LocalNames(s.providers[p]) ::
              StandsFor(s, grants, name, params, p, local)
  {
    hide RegisterAll, Providers.Resolve, Providers.Describe, Providers.DescOf;
    var s := RegisterAll(EmptyRegistry(), requests, quality);
    RunsKeepSound(requests, quality);
    DiscoveryEqualsExecutability(requests, quality, grants, name, params, params.text);
    var p, local :| && p in s.providers && Providers.Knows(s.providers[p], local) && s.providers[p].id == p
                    && IndexFor(s, grants)[name] == Providers.DescOf(s.providers[p], local)
                    && DescribeFor(s, name, grants) == Providers.Describe(s.providers[p], local)
                    && JobCommand(s, grants, name, params) == Providers.Resolve(s.providers[p], local, params);
    hide IndexFor, DescribeFor, JobCommand;
    if s.providers[p].Native? {
      Providers.NativeAnswers(s.providers[p], local, params);
    } else {
      Providers.McpAnswers(s.providers[p], local, params);
    }
    assert StandsFor(s, grants, name, params, p, local);
  }

  ghost predicate StandsFor(s: ProviderState, grants: Grants, name: string, params: Providers.Params, p: string, local: string)
    requires p in s.providers && name in IndexFor(s, grants)
  {
    var command := JobCommand(s, grants, name, params);
    match s.providers[p]
    case Native(id, descriptors) =>
      && id == p && local in descriptors
      && var d := descriptors[local];
         && IndexFor(s, grants)[name] == d.desc
         && DescribeFor(s, name, grants) == Success(Providers.CapabilityDetail(d.signature, d.schema))
         && (command.Success? ==>
               && command.value.program == d.exec.program && |command.value.args| == |d.exec.argsTemplate|
               && forall i | 0 <= i < |command.value.args| ::
                    Providers.SlotIs(d.exec.argsTemplate[i], params, command.value.args[i]))
    case Mcp(id, tools) =>
      && id == p && local in tools
      && var t := tools[local];
         && IndexFor(s, grants)[name] == t.desc
         && DescribeFor(s, name, grants) == Success(Providers.CapabilityDetail(local + "(input: object): string", t.schema))
         && command == Success(Providers.ResolvedCommand(t.bridge.program,
                         t.bridge.args + ["--provider", id, "--tool", local, "--params", params.text]))
  }

  // ---- Nothing a provider offers is out of reach ----

  predicate AllExposed(s: ProviderState) {
    forall p | p in s.providers :: forall n | n in Providers.LocalNames(s.providers[p]) :: (p, n) in s.exposures
  }

  lemma RegisterKeepsAllExposed(s: ProviderState, r: ProviderRequest, quality: Quality)
    requires AllExposed(s) && IndexesItself(r) && forall k | k in s.exposures :: k.0 in s.providers
    ensures AllExposed(Registered(s, r, quality))
  {
    hide AddListings, Expose, FirstPoor, Providers.Sound;
    if Refusal(s, r, quality).None? {
      var s' := Registered(s, r, quality);
      ExposeAdds(s.exposures, r.id, r.index.value);
      forall p, n | p in s'.providers && n in Providers.LocalNames(s'.providers[p]) ensures (p, n) in s'.exposures {
        if p == r.id {
          var i :| 0 <= i < |r.index.value| && r.index.value[i].name == n;
          var l := r.index.value[i];
          assert l == Listing(n, l.desc);
          assert Holds(s'.exposures, (p, n), l.desc);
        } else {
          assert Holds(s.exposures, (p, n), s.exposures[(p, n)]);
        }
      }
    }
  }

  lemma {:induction false} RunsExposeAll(requests: seq<ProviderRequest>, quality: Quality)
    requires forall r | r in requests :: IndexesItself(r) && ColonFree(r)
    ensures AllExposed(RegisterAll(EmptyRegistry(), requests, quality))
    decreases |requests|
  {
    hide AllExposed, IndexesItself, ColonFree, Registered, Good, NoColons;
    if requests == [] {
      NothingExposed();
    } else {
      RunsExposeAll(requests[..|requests| - 1], quality);
      CatalogIsClosedForm(requests[..|requests| - 1], quality);
      RegisterKeepsAllExposed(RegisterAll(EmptyRegistry(), requests[..|requests| - 1], quality), requests[|requests| - 1], quality);
    }
  }

  lemma NothingExposed()
    ensures AllExposed(EmptyRegistry())
  {
  }

  /**
   * With colon-free names, every capability of every registered provider is discoverable under its exposed name by
   * a session that may spawn processes or holds just that tool, and running that name runs that very capability.
   */
  lemma EveryCapabilityIsReachable(requests: seq<ProviderRequest>, quality: Quality, grants: Grants, p: string, local: string,
                                   params: Providers.Params)
    requires forall r | r in requests :: IndexesItself(r) && ColonFree(r)
    requires var s := RegisterAll(EmptyRegistry(), requests, quality);
             && p in s.providers && local in Providers.LocalNames(s.providers[p])
             && DiscoveryPermitted(grants, ExposedName(s.exposures, p, local))
    ensures var s := RegisterAll(EmptyRegistry(), requests, quality);
            var name := ExposedName(s.exposures, p, local);
            && name in IndexFor(s, grants)
            && DescribeFor(s, name, grants) == Providers.Describe(s.providers[p], local)
            && JobCommand(s, grants, name, params) == Providers.Resolve(s.providers[p], local, params)
  {
    hide RegisterAll, Providers.Resolve, Providers.Describe, Providers.LocalNames, ExposedName, NoColons, C.SetPermits;
    var s := RegisterAll(EmptyRegistry(), requests, quality);
    RunsExposeAll(requests, quality);
    CatalogIsClosedForm(requests, quality);
    assert (p, local) in s.exposures;
    var name := ExposedName(s.exposures, (p, local).0, (p, local).1);
    assert name in s.tables.catalog && s.tables.catalog[name] == CatalogEntry(p, local, s.exposures[(p, local)]);
    DiscoveryAuthorityIsExecutionAuthority(grants, name);
  }
}

/** The two built-in providers: native descriptors and static MCP tools. */
module Providers {
  import opened Prelude
  import opened Registry

  datatype CapabilityArg = Literal(text: string) | Param(field: string)

  datatype ExecutionSpec = ExecutionSpec(program: string, argsTemplate: seq<CapabilityArg>)

  datatype CapabilityDescriptor =
    CapabilityDescriptor(name: string, desc: string, signature: string, schema: string, exec: ExecutionSpec)

  datatype McpBridgeCommand = McpBridgeCommand(program: string, args: seq<string>)

  datatype McpToolDescriptor =
    McpToolDescriptor(providerId: string, name: string, desc: string, schema: string, bridge: McpBridgeCommand)

  datatype CapabilityDetail = CapabilityDetail(signature: string, schema: string)

  datatype ResolvedCommand = ResolvedCommand(program: string, args: seq<string>)

  /** Invocation parameters: the fields that hold JSON strings, and the text of the whole value. */
  datatype Params = Params(strings: map<string, string>, text: string)

  datatype Provider =
    | Native(id: string, descriptors: map<string, CapabilityDescriptor>)
    | Mcp(id: string, tools: map<string, McpToolDescriptor>)

  predicate Knows(p: Provider, name: string) {
    match p
    case Native(_, descriptors) => name in descriptors
    case Mcp(_, tools) => name in tools
  }

  function LocalNames(p: Provider): set<string> {
    match p
    case Native(_, descriptors) => descriptors.Keys
    case Mcp(_, tools) => tools.Keys
  }

  function DescOf(p: Provider, name: string): string
    requires Knows(p, name)
  {
    match p
    case Native(_, descriptors) => descriptors[name].desc
    case Mcp(_, tools) => tools[name].desc
  }

  /** What the constructors establish: entries sit under their own names, MCP tools belong to their provider. */
  predicate Sound(p: Provider) {
    match p
    case Native(_, descriptors) => forall n | n in descriptors :: descriptors[n].name == n
    case Mcp(id, tools) => forall n | n in tools :: tools[n].name == n && tools[n].providerId == id
  }

  // ---- Construction ----

  predicate DistinctNames(names: seq<string>) {
    forall i, k | 0 <= i < k < |names| :: names[i] != names[k]
  }

  function NativeNames(descriptors: seq<CapabilityDescriptor>): (names: seq<string>) {
    seq(|descriptors|, i requires 0 <= i < |descriptors| => descriptors[i].name)
  }

  function ToolNames(tools: seq<McpToolDescriptor>): (names: seq<string>) {
    seq(|tools|, i requires 0 <= i < |tools| => tools[i].name)
  }

  method NewNative(id: string, descriptors: seq<CapabilityDescriptor>) returns (r: Result<Provider, RegistryError>)
    ensures r.Success? <==> DistinctNames(NativeNames(descriptors))
    ensures r.Success? ==>
              && r.value.Native? && r.value.id == id && Sound(r.value)
              && (forall d :: d in descriptors <==> d.name in r.value.descriptors && r.value.descriptors[d.name] == d)
    ensures r.Failure? ==>
              exists i, k | 0 <= i < k < |descriptors| ::
                && descriptors[i].name == descriptors[k].name && r.error == DuplicateCapability(id, descriptors[k].name)
                && DistinctNames(NativeNames(descriptors)[..k])
  {
    var map': map<string, CapabilityDescriptor> := map[];
    var i := 0;
    while i < |descriptors|
      invariant i <= |descriptors| && DistinctNames(NativeNames(descriptors)[..i])
      invariant forall n | n in map' :: map'[n].name == n && map'[n] in descriptors[..i]
      invariant forall k | 0 <= k < i :: descriptors[k].name in map' && map'[descriptors[k].name] == descriptors[k]
    {
      var d := descriptors[i];
      if d.name in map' {
        var k :| 0 <= k < i && descriptors[k] == map'[d.name];
        assert NativeNames(descriptors)[k] == NativeNames(descriptors)[i];
        return Failure(DuplicateCapability(id, d.name));
      }
      map' := map'[d.name := d];
      i := i + 1;
    }
    assert NativeNames(descriptors)[..i] == NativeNames(descriptors);
    return Success(Native(id, map'));
  }

  lemma DistinctByOneMore(names: seq<string>, i: nat)
    requires i < |names| && DistinctNames(names[..i])
    ensures DistinctNames(names[..i + 1]) <==> names[i] !in names[..i]
    ensures names[i] in names[..i] ==> !DistinctNames(names)
  {
    if names[i] in names[..i] {
      var k :| 0 <= k < i && names[..i][k] == names[i];
      assert names[..i + 1][k] == names[..i + 1][i] && names[k] == names[i];
    }
  }

  method NewMcp(id: string, tools: seq<McpToolDescriptor>) returns (r: Result<Provider, RegistryError>)
    ensures r.Success? <==> DistinctNames(ToolNames(tools)) && forall t | t in tools :: t.providerId == id
    ensures r.Success? ==>
              && r.value.Mcp? && r.value.id == id && Sound(r.value)
              && (forall t :: t in tools <==> t.name in r.value.tools && r.value.tools[t.name] == t)
    ensures r.Failure? ==>
              exists k | 0 <= k < |tools| ::
                && DistinctNames(ToolNames(tools)[..k]) && (forall i | 0 <= i < k :: tools[i].providerId == id)
                && if tools[k].providerId != id then r.error == CapabilityParse(tools[k].providerId)
                   else tools[k].name in ToolNames(tools)[..k] && r.error == DuplicateCapability(id, tools[k].name)
  {
    hide DistinctNames;
    var map': map<string, McpToolDescriptor> := map[];
    var i := 0;
    NoNamesAreDistinct(ToolNames(tools));
    while i < |tools|
      invariant i <= |tools| && DistinctNames(ToolNames(tools)[..i])
      invariant forall k | 0 <= k < i :: tools[k].providerId == id
      invariant forall n | n in map' :: map'[n].name == n && map'[n] in tools[..i]
      invariant forall k | 0 <= k < i :: tools[k].name in map' && map'[tools[k].name] == tools[k]
    {
      var t := tools[i];
      if t.providerId != id {
        return Failure(CapabilityParse(t.providerId));
      }
      DistinctByOneMore(ToolNames(tools), i);
      if t.name in map' {
        var k :| 0 <= k < i && tools[k] == map'[t.name];
        assert ToolNames(tools)[..i][k] == t.name;
        return Failure(DuplicateCapability(id, t.name));
      }
      forall k | 0 <= k < i ensures ToolNames(tools)[..i][k] != t.name {
        assert ToolNames(tools)[..i][k] == tools[k].name;
      }
      map' := map'[t.name := t];
      i := i + 1;
    }
    assert ToolNames(tools)[..i] == ToolNames(tools);
    return Success(Mcp(id, map'));
  }

  lemma NoNamesAreDistinct(names: seq<string>)
    ensures DistinctNames(names[..0])
  {
  }

  // ---- Index, describe, resolve ----

  /** The listings name every capability of the provider once, with its description, and nothing else. */
  predicate ListsExactly(listings: seq<Listing>, p: Provider) {
    && (forall i, k | 0 <= i < k < |listings| :: listings[i].name != listings[k].name)
    && (forall l | l in listings :: Knows(p, l.name) && l.desc == DescOf(p, l.name))
    && (forall n | n in LocalNames(p) :: exists i | 0 <= i < |listings| :: listings[i].name == n)
  }

  /** The stored entries in whatever order the map yields them. */
  method Index(p: Provider) returns (listings: seq<Listing>)
    ensures ListsExactly(listings, p)
  {
    listings := [];
    var left := LocalNames(p);
    while left != {}
      invariant left <= LocalNames(p)
      invariant forall i, k | 0 <= i < k < |listings| :: listings[i].name != listings[k].name
      invariant forall l | l in listings ::
                  l.name in LocalNames(p) && l.name !in left && Knows(p, l.name) && l.desc == DescOf(p, l.name)
      invariant forall n | n in LocalNames(p) && n !in left :: exists i | 0 <= i < |listings| :: listings[i].name == n
      decreases |left|
    {
      var n :| n in left;
      ghost var before := listings;
      listings := listings + [Listing(n, DescOf(p, n))];
      assert listings[|before|].name == n;
      forall m | m in LocalNames(p) && m !in left - {n} ensures exists i | 0 <= i < |listings| :: listings[i].name == m {
        if m != n {
          var i :| 0 <= i < |before| && before[i].name == m;
          assert listings[i].name == m;
        }
      }
      left := left - {n};
    }
  }

  function Describe(p: Provider, name: string): Result<CapabilityDetail, RegistryError> {
    if !Knows(p, name) then Failure(CapabilityNotFound(name))
    else match p
      case Native(_, descriptors) => Success(CapabilityDetail(descriptors[name].signature, descriptors[name].schema))
      case Mcp(_, tools) => Success(CapabilityDetail(tools[name].name + "(input: object): string", tools[name].schema))
  }

  function BindSlot(slot: CapabilityArg, params: Params): Result<string, RegistryError> {
    match slot
    case Literal(text) => Success(text)
    case Param(field) => if field in params.strings then Success(params.strings[field]) else Failure(CapabilityParse(field))
  }

  function BindArgs(template: seq<CapabilityArg>, params: Params): Result<seq<string>, RegistryError>
    decreases |template|
  {
    if template == [] then Success([])
    else
      var front :- BindArgs(template[..|template| - 1], params);
      var last :- BindSlot(template[|template| - 1], params);
      Success(front + [last])
  }

  function Resolve(p: Provider, name: string, params: Params): Result<ResolvedCommand, RegistryError> {
    if !Knows(p, name) then Failure(CapabilityNotFound(name))
    else match p
      case Native(_, descriptors) =>
        var args :- BindArgs(descriptors[name].exec.argsTemplate, params);
        Success(ResolvedCommand(descriptors[name].exec.program, args))
      case Mcp(_, tools) =>
        var t := tools[name];
        Success(ResolvedCommand(t.bridge.program,
          t.bridge.args + ["--provider", t.providerId, "--tool", t.name, "--params", params.text]))
  }

  /** The binding loop of a native provider. */
  method BindTemplate(template: seq<CapabilityArg>, params: Params) returns (r: Result<seq<string>, RegistryError>)
    ensures r == BindArgs(template, params)
  {
    var args: seq<string> := [];
    var i := 0;
    while i < |template|
      invariant i <= |template| && BindArgs(template[..i], params) == Success(args)
    {
      assert template[..i + 1][..i] == template[..i];
      match template[i] {
        case Literal(text) =>
          args := args + [text];
        case Param(field) =>
          if field !in params.strings {
            UnboundPrefix(template, i + 1, params);
            return Failure(CapabilityParse(field));
          }
          args := args + [params.strings[field]];
      }
      i := i + 1;
    }
    assert template[..i] == template;
    return Success(args);
  }

  lemma {:induction false} UnboundPrefix(template: seq<CapabilityArg>, n: nat, params: Params)
    requires n <= |template| && BindArgs(template[..n], params).Failure?
    ensures BindArgs(template, params) == Failure(BindArgs(template[..n], params).error)
    decreases |template|
  {
    if n == |template| {
      assert template[..n] == template;
    } else {
      var front := template[..|template| - 1];
      assert front[..n] == template[..n];
      UnboundPrefix(front, n, params);
    }
  }

  /**
   * Binding is slot by slot and all or nothing: it succeeds exactly when every referenced field is a string,
   * each argument is one whole slot, and a failure names the first field that is missing.
   */
  lemma {:induction false} BindArgsIsSlotwise(template: seq<CapabilityArg>, params: Params)
    ensures BindArgs(template, params).Success? <==> forall i | 0 <= i < |template| :: BindSlot(template[i], params).Success?
    ensures BindArgs(template, params).Success? ==>
              var args := BindArgs(template, params).value;
              && |args| == |template|
              && forall i | 0 <= i < |template| :: BindSlot(template[i], params) == Success(args[i])
    ensures BindArgs(template, params).Failure? ==>
              exists i | 0 <= i < |template| ::
                && BindSlot(template[i], params) == Failure(BindArgs(template, params).error)
                && forall k | 0 <= k < i :: BindSlot(template[k], params).Success?
    decreases |template|
  {
    hide BindSlot;
    if template != [] {
      var front := template[..|template| - 1];
      BindArgsIsSlotwise(front, params);
      assert forall i | 0 <= i < |front| :: template[i] == front[i];
      if BindArgs(front, params).Failure? {
        var i :| && 0 <= i < |front| && BindSlot(front[i], params) == Failure(BindArgs(front, params).error)
                 && forall k | 0 <= k < i :: BindSlot(front[k], params).Success?;
        assert BindSlot(template[i], params).Failure?;
      }
    }
  }

  /** The text a slot stands for; `None` if it refers to a field that is not a string. */
  predicate SlotIs(slot: CapabilityArg, params: Params, arg: string) {
    slot == Literal(arg) || (slot.Param? && slot.field in params.strings && params.strings[slot.field] == arg)
  }

  /**
   * What a native capability is answered with: its own description, its signature and schema each in its place, and
   * its own program with one argument for each slot of its template, literals as written and fields by value.
   */
  lemma NativeAnswers(p: Provider, name: string, params: Params)
    requires p.Native? && name in p.descriptors
    ensures var d := p.descriptors[name];
            && DescOf(p, name) == d.desc
            && Describe(p, name) == Success(CapabilityDetail(d.signature, d.schema))
            && (Resolve(p, name, params).Success? <==>
                  forall i | 0 <= i < |d.exec.argsTemplate| && d.exec.argsTemplate[i].Param? ::
                    d.exec.argsTemplate[i].field in params.strings)
            && (Resolve(p, name, params).Success? ==>
                  var command := Resolve(p, name, params).value;
                  && command.program == d.exec.program && |command.args| == |d.exec.argsTemplate|
                  && forall i | 0 <= i < |command.args| :: SlotIs(d.exec.argsTemplate[i], params, command.args[i]))
  {
    hide BindArgs;
    var template := p.descriptors[name].exec.argsTemplate;
    BindArgsIsSlotwise(template, params);
    forall i | 0 <= i < |template| ensures BindSlot(template[i], params).Failure? <==>
                                           template[i].Param? && template[i].field !in params.strings {
    }
  }

  /**
   * What an MCP tool is answered with: its own description, schema and a signature made of its name; it always
   * resolves, to its bridge's program and arguments followed by its own identity and the parameters.
   */
  lemma McpAnswers(p: Provider, name: string, params: Params)
    requires p.Mcp? && Sound(p) && name in p.tools
    ensures var t := p.tools[name];
            && DescOf(p, name) == t.desc
            && Describe(p, name) == Success(CapabilityDetail(name + "(input: object): string", t.schema))
            && Resolve(p, name, params).Success?
            && var command := Resolve(p, name, params).value;
               && command.program == t.bridge.program
               && command.args == t.bridge.args + ["--provider", p.id, "--tool", name, "--params", params.text]
  {
  }
}

/** The capability grammar, its printer, and the attenuation order on grants. */
module Capability {
  import opened Prelude

  /** Paths are kept as written; two paths are the same path when their components agree. */
  datatype RuntimeCapability =
    | FsRead(path: string)
    | FsWrite(path: string)
    | NetConnect(domain: string)
    | ProcSpawn
    | PtyOpen
    | Tool(name: string)

  datatype ParseReason =
    | MissingParen
    | PathNotAbsolute
    | ParentComponent
    | EmptyDomain
    | SlashInDomain
    | SpaceInDomain
    | UrlInDomain
    | PortInDomain
    | EmptyToolName
    | EmptyCapability
    | SpaceInBareName

  datatype CapabilityError = CapabilityParse(raw: string, reason: ParseReason) | CapabilityDenied(required: string)

  const FS_READ := "fs.read("
  const FS_WRITE := "fs.write("
  const NET_CONNECT := "net.connect("

  // ---- Strings ----

  /** The pieces of `s` between occurrences of `sep`; always at least one. */
  function Split(s: string, sep: char): (parts: seq<string>)
    ensures |parts| >= 1
  {
    if s == [] then [""]
    else
      var rest := Split(s[1..], sep);
      if s[0] == sep then [""] + rest else [[s[0]] + rest[0]] + rest[1..]
  }

  function Join(parts: seq<string>, sep: char): string
    requires parts != []
  {
    if |parts| == 1 then parts[0] else parts[0] + [sep] + Join(parts[1..], sep)
  }

  function StripPrefix(s: string, prefix: string): Option<string> {
    if prefix <= s then Some(s[|prefix|..]) else None
  }

  function StripSuffix(s: string, suffix: string): Option<string> {
    if |suffix| <= |s| && s[|s| - |suffix|..] == suffix then Some(s[..|s| - |suffix|]) else None
  }

  predicate Contains(s: string, part: string) {
    exists i | 0 <= i <= |s| :: part <= s[i..]
  }

  /** Unicode White_Space. */
  predicate IsWhitespace(c: char) {
    var u := c as int;
    || 0x9 <= u <= 0xD || u == 0x20 || u == 0x85 || u == 0xA0 || u == 0x1680
    || 0x2000 <= u <= 0x200A || u == 0x2028 || u == 0x2029 || u == 0x202F || u == 0x205F || u == 0x3000
  }

  predicate HasWhitespace(s: string) {
    exists c | c in s :: IsWhitespace(c)
  }

  // ---- Paths ----

  function KeepNormal(parts: seq<string>): seq<string> {
    if parts == [] then []
    else (if parts[0] == "" || parts[0] == "." then [] else [parts[0]]) + KeepNormal(parts[1..])
  }

  /** The components of an absolute path behind its root: no empty pieces, no `.`. */
  function Components(path: string): seq<string> {
    KeepNormal(Split(path, '/'))
  }

  /** Component by component, as `Path::starts_with` walks both. */
  predicate StartsWith(child: seq<string>, parent: seq<string>) {
    parent == [] || (child != [] && child[0] == parent[0] && StartsWith(child[1..], parent[1..]))
  }

  lemma {:induction false} KeptAre(parts: seq<string>, x: string)
    ensures x in KeepNormal(parts) <==> x in parts && x != "" && x != "."
  {
    if parts != [] {
      KeptAre(parts[1..], x);
      assert parts == [parts[0]] + parts[1..];
    }
  }

  lemma {:induction false} KeptOfJoined(a: seq<string>, b: seq<string>)
    ensures KeepNormal(a + b) == KeepNormal(a) + KeepNormal(b)
  {
    if a == [] {
      assert a + b == b;
    } else {
      assert (a + b)[1..] == a[1..] + b;
      KeptOfJoined(a[1..], b);
    }
  }

  lemma {:induction false} SplitOfOne(s: string, sep: char)
    requires sep !in s
    ensures Split(s, sep) == [s]
  {
    if s != [] {
      SplitOfOne(s[1..], sep);
      assert [s[0]] + s[1..] == s;
    }
  }

  /**
    What the components of a path are: behind a slash they go on, and a piece without a slash is one component,
    or none if it is empty or a single dot.
   */
  lemma ComponentsExactly(a: string, b: string, piece: string)
    requires '/' !in piece
    ensures Components(a + "/" + b) == Components(a) + Components(b)
    ensures Components(piece) == if piece == "" || piece == "." then [] else [piece]
  {
    SplitAtSep(a, b, '/');
    KeptOfJoined(Split(a, '/'), Split(b, '/'));
    SplitOfOne(piece, '/');
    assert [piece][1..] == [] && KeepNormal([]) == [];
    assert KeepNormal([piece]) == (if piece == "" || piece == "." then [] else [piece]) + KeepNormal([piece][1..]);
  }

  // ---- Parsing and printing ----

  function ParenInner(s: string, prefix: string): Option<string> {
    var after := StripPrefix(s, prefix);
    if after.None? then None else StripSuffix(after.value, ")")
  }

  function ParseAbsPath(raw: string, original: string): Result<string, CapabilityError> {
    if !("/" <= raw) then Failure(CapabilityParse(original, PathNotAbsolute))
    else if ".." in Components(raw) then Failure(CapabilityParse(original, ParentComponent))
    else Success(raw)
  }

  function ParseDomain(raw: string, original: string): Result<string, CapabilityError> {
    if raw == [] then Failure(CapabilityParse(original, EmptyDomain))
    else if '/' in raw then Failure(CapabilityParse(original, SlashInDomain))
    else if HasWhitespace(raw) then Failure(CapabilityParse(original, SpaceInDomain))
    else if Contains(raw, "://") then Failure(CapabilityParse(original, UrlInDomain))
    else if ':' in raw then Failure(CapabilityParse(original, PortInDomain))
    else Success(raw)
  }

  function ParseStr(s: string): Result<RuntimeCapability, CapabilityError> {
    if FS_READ <= s then
      var inner := ParenInner(s, FS_READ);
      if inner.None? then Failure(CapabilityParse(s, MissingParen))
      else
        var path :- ParseAbsPath(inner.value, s);
        Success(FsRead(path))
    else if FS_WRITE <= s then
      var inner := ParenInner(s, FS_WRITE);
      if inner.None? then Failure(CapabilityParse(s, MissingParen))
      else
        var path :- ParseAbsPath(inner.value, s);
        Success(FsWrite(path))
    else if NET_CONNECT <= s then
      var inner := ParenInner(s, NET_CONNECT);
      if inner.None? then Failure(CapabilityParse(s, MissingParen))
      else
        var domain :- ParseDomain(inner.value, s);
        Success(NetConnect(domain))
    else if s == "proc.spawn" then Success(ProcSpawn)
    else if s == "pty.open" then Success(PtyOpen)
    else if StripPrefix(s, "tool:").Some? then
      var name := StripPrefix(s, "tool:").value;
      if name == [] then Failure(CapabilityParse(s, EmptyToolName)) else Success(Tool(name))
    else if s == [] then Failure(CapabilityParse(s, EmptyCapability))
    else if HasWhitespace(s) then Failure(CapabilityParse(s, SpaceInBareName))
    else Success(Tool(s))
  }

  /** A path is accepted if and only if it is absolute and no piece of it between slashes is `..`. */
  lemma PathsAcceptedExactly(raw: string, original: string)
    ensures ParseAbsPath(raw, original).Success? <==> "/" <= raw && ".." !in Split(raw, '/')
    ensures ParseAbsPath(raw, original).Success? ==> ParseAbsPath(raw, original).value == raw
    ensures ParseAbsPath(raw, original).Failure? ==>
              ParseAbsPath(raw, original).error ==
              CapabilityParse(original, if "/" <= raw then ParentComponent else PathNotAbsolute)
  {
    KeptAre(Split(raw, '/'), "..");
  }

  /** A domain is accepted if and only if it is not empty and holds no slash, no colon and no white space. */
  lemma DomainsAcceptedExactly(raw: string, original: string)
    ensures ParseDomain(raw, original).Success? <==>
              raw != [] && '/' !in raw && ':' !in raw && forall c | c in raw :: !IsWhitespace(c)
    ensures ParseDomain(raw, original).Success? ==> ParseDomain(raw, original).value == raw
  {
    if Contains(raw, "://") {
      var i :| 0 <= i <= |raw| && "://" <= raw[i..];
      assert raw[i] == raw[i..][0] == ':';
    }
  }

  lemma InnerIs(s: string, prefix: string)
    requires prefix <= s
    ensures ParenInner(s, prefix).Some? <==> |s| > |prefix| && s[|s| - 1] == ')'
    ensures ParenInner(s, prefix).Some? ==> ParenInner(s, prefix).value == s[|prefix|..|s| - 1]
  {
    var after := s[|prefix|..];
    if after != [] {
      assert after[|after| - 1..] == [s[|s| - 1]];
    }
  }

  /** Which strings are path capabilities: the verb, an absolute path without `..`, and the closing parenthesis. */
  lemma PathVerbsAcceptedExactly(s: string)
    ensures "fs.read(" <= s ==>
              var inner := s[8..];
              ParseStr(s) == (if inner != [] && inner[|inner| - 1] == ')' then
                                var path := inner[..|inner| - 1];
                                if "/" <= path && ".." !in Split(path, '/') then Success(FsRead(path))
                                else Failure(CapabilityParse(s, if "/" <= path then ParentComponent else PathNotAbsolute))
                              else Failure(CapabilityParse(s, MissingParen)))
    ensures "fs.write(" <= s ==>
              var inner := s[9..];
              ParseStr(s) == (if inner != [] && inner[|inner| - 1] == ')' then
                                var path := inner[..|inner| - 1];
                                if "/" <= path && ".." !in Split(path, '/') then Success(FsWrite(path))
                                else Failure(CapabilityParse(s, if "/" <= path then ParentComponent else PathNotAbsolute))
                              else Failure(CapabilityParse(s, MissingParen)))
  {
    hide ParseAbsPath, ParseDomain, ParenInner, Split, HasWhitespace;
    if "fs.read(" <= s {
      assert s[3] == 'r';
      InnerIs(s, FS_READ);
      if |s| > 8 {
        assert s[8..][..|s| - 9] == s[8..|s| - 1];
        PathsAcceptedExactly(s[8..|s| - 1], s);
      }
    } else if "fs.write(" <= s {
      assert s[3] == 'w';
      InnerIs(s, FS_WRITE);
      if |s| > 9 {
        assert s[9..][..|s| - 10] == s[9..|s| - 1];
        PathsAcceptedExactly(s[9..|s| - 1], s);
      }
    }
  }

  /** Which strings are domain capabilities; a malformed one is refused and never read as a tool name. */
  lemma DomainVerbAcceptedExactly(s: string)
    requires "net.connect(" <= s
    ensures var inner := s[12..];
            && (ParseStr(s).Success? <==>
                  && inner != [] && inner[|inner| - 1] == ')'
                  && var domain := inner[..|inner| - 1];
                     domain != [] && '/' !in domain && ':' !in domain && forall c | c in domain :: !IsWhitespace(c))
            && (ParseStr(s).Success? ==> ParseStr(s).value == NetConnect(inner[..|inner| - 1]))
  {
    hide ParseAbsPath, ParseDomain, ParenInner, HasWhitespace;
    assert s[0] == 'n';
    InnerIs(s, NET_CONNECT);
    if |s| > 12 {
      assert s[12..][..|s| - 13] == s[12..|s| - 1];
      DomainsAcceptedExactly(s[12..|s| - 1], s);
    }
  }

  /** Every other string: the two plain verbs, `tool:` and a name, or a bare name without white space. */
  lemma OtherStringsAcceptedExactly(s: string)
    requires !("fs.read(" <= s) && !("fs.write(" <= s) && !("net.connect(" <= s)
    ensures ParseStr(s).Success? <==>
              if "tool:" <= s then |s| > 5 else s != [] && forall c | c in s :: !IsWhitespace(c)
    ensures ParseStr(s).Success? ==>
              ParseStr(s).value == if s == "proc.spawn" then ProcSpawn
                                   else if s == "pty.open" then PtyOpen
                                   else if "tool:" <= s then Tool(s[5..])
                                   else Tool(s)
  {
    hide ParseAbsPath, ParseDomain, ParenInner;
    if s == "proc.spawn" || s == "pty.open" {
      PlainVerbsHaveNoSpace();
    }
  }

  lemma PlainVerbsHaveNoSpace()
    ensures forall c | c in "proc.spawn" :: !IsWhitespace(c)
    ensures forall c | c in "pty.open" :: !IsWhitespace(c)
  {
  }

  function Display(c: RuntimeCapability): string {
    match c
    case FsRead(p) => FS_READ + p + ")"
    case FsWrite(p) => FS_WRITE + p + ")"
    case NetConnect(d) => NET_CONNECT + d + ")"
    case ProcSpawn => "proc.spawn"
    case PtyOpen => "pty.open"
    case Tool(n) => "tool:" + n
  }

  lemma WrappedInnerIsRead(prefix: string, inner: string)
    ensures ParenInner(prefix + inner + ")", prefix) == Some(inner)
  {
    var s := prefix + inner + ")";
    assert s[|prefix|..] == inner + ")";
    assert (inner + ")")[|inner|..] == ")";
    assert (inner + ")")[..|inner|] == inner;
  }

  lemma WrapBack(s: string, prefix: string)
    requires ParenInner(s, prefix).Some?
    ensures s == prefix + ParenInner(s, prefix).value + ")"
  {
    var after := StripPrefix(s, prefix).value;
    assert s == prefix + after && after == after[..|after| - 1] + ")";
  }

  /** What a grant may hold at all: exactly the values that some string parses to. */
  predicate Grantable(c: RuntimeCapability) {
    match c
    case FsRead(p) => ParseAbsPath(p, p).Success?
    case FsWrite(p) => ParseAbsPath(p, p).Success?
    case NetConnect(d) => ParseDomain(d, d).Success?
    case Tool(n) => n != []
    case _ => true
  }

  lemma PathsPrint(p: string)
    ensures ParseStr(Display(FsRead(p))) == Success(FsRead(p)) <==> Grantable(FsRead(p))
    ensures ParseStr(Display(FsWrite(p))) == Success(FsWrite(p)) <==> Grantable(FsWrite(p))
  {
    hide Components, HasWhitespace, Contains;
    WrappedInnerIsRead(FS_READ, p);
    WrappedInnerIsRead(FS_WRITE, p);
    assert Display(FsWrite(p))[3] == 'w';
  }

  lemma DomainsPrint(d: string)
    ensures ParseStr(Display(NetConnect(d))) == Success(NetConnect(d)) <==> Grantable(NetConnect(d))
  {
    hide Components, HasWhitespace, Contains;
    WrappedInnerIsRead(NET_CONNECT, d);
    assert Display(NetConnect(d))[0] == 'n';
  }

  lemma ToolsPrint(n: string)
    ensures ParseStr(Display(Tool(n))) == Success(Tool(n)) <==> Grantable(Tool(n))
  {
    hide ParseAbsPath, ParseDomain, ParenInner, HasWhitespace;
    var s := Display(Tool(n));
    assert s[0] == 't';
    assert s[|"tool:"|..] == n;
  }

  lemma GrantablePrints(c: RuntimeCapability)
    ensures Grantable(c) <==> ParseStr(Display(c)) == Success(c)
  {
    match c
    case FsRead(p) => PathsPrint(p);
    case FsWrite(p) => PathsPrint(p);
    case NetConnect(d) => DomainsPrint(d);
    case Tool(n) => ToolsPrint(n);
    case _ => assert Display(c)[0] == 'p';
  }

  lemma ParsedIsGrantable(s: string)
    requires ParseStr(s).Success?
    ensures Grantable(ParseStr(s).value)
  {
    hide Components, HasWhitespace, Contains, ParenInner;
  }

  lemma ParsedPrintsBack(s: string)
    requires ParseStr(s).Success?
    ensures var c := ParseStr(s).value; Display(c) == s || (c == Tool(s) && Display(c) == "tool:" + s)
  {
    hide ParseAbsPath, ParseDomain, HasWhitespace, ParenInner;
    if FS_READ <= s {
      WrapBack(s, FS_READ);
      AcceptedIsRaw(ParenInner(s, FS_READ).value, s);
    } else if FS_WRITE <= s {
      WrapBack(s, FS_WRITE);
      AcceptedIsRaw(ParenInner(s, FS_WRITE).value, s);
    } else if NET_CONNECT <= s {
      WrapBack(s, NET_CONNECT);
      AcceptedIsRaw(ParenInner(s, NET_CONNECT).value, s);
    } else if StripPrefix(s, "tool:").Some? {
      assert s == "tool:" + s[|"tool:"|..];
    }
  }

  lemma AcceptedIsRaw(raw: string, original: string)
    ensures ParseAbsPath(raw, original).Success? ==> ParseAbsPath(raw, original).value == raw
    ensures ParseDomain(raw, original).Success? ==> ParseDomain(raw, original).value == raw
  {
  }

  /** Whatever parses prints to a string that parses back to it: the input itself, or `tool:` and a bare name. */
  lemma ParseDisplayRoundTrip(s: string)
    requires ParseStr(s).Success?
    ensures ParseStr(Display(ParseStr(s).value)) == ParseStr(s)
    ensures Display(ParseStr(s).value) == s || (ParseStr(s).value == Tool(s) && Display(ParseStr(s).value) == "tool:" + s)
  {
    hide ParseStr, Display, Grantable;
    ParsedIsGrantable(s);
    ParsedPrintsBack(s);
    GrantablePrints(ParseStr(s).value);
  }

  /** A capability is the parse of some string exactly when it is grantable, and then also of its own print. */
  lemma GrantableExactlyWhatParses(c: RuntimeCapability)
    ensures Grantable(c) <==> ParseStr(Display(c)) == Success(c)
    ensures (exists s :: ParseStr(s) == Success(c)) <==> Grantable(c)
  {
    hide ParseStr, Grantable, Display;
    GrantablePrints(c);
    if s :| ParseStr(s) == Success(c) {
      ParsedIsGrantable(s);
    }
  }

  // ---- The order ----

  predicate DomainPermits(parent: string, child: string) {
    child == parent ||
    (StripSuffix(child, parent).Some? &&
     var p := StripSuffix(child, parent).value; p != [] && p[|p| - 1] == '.')
  }

  predicate Permits(parent: RuntimeCapability, child: RuntimeCapability) {
    match (parent, child)
    case (FsRead(pp), FsRead(cp)) => StartsWith(Components(cp), Components(pp))
    case (FsWrite(pp), FsWrite(cp)) => StartsWith(Components(cp), Components(pp))
    case (NetConnect(pd), NetConnect(cd)) => DomainPermits(pd, cd)
    case (ProcSpawn, ProcSpawn) => true
    case (PtyOpen, PtyOpen) => true
    case (Tool(pn), Tool(cn)) => pn == cn
    case _ => false
  }

  predicate SetPermits(grants: seq<RuntimeCapability>, requested: RuntimeCapability) {
    exists i | 0 <= i < |grants| :: Permits(grants[i], requested)
  }

  predicate IsSuffix<T(==)>(a: seq<T>, b: seq<T>) {
    |a| <= |b| && b[|b| - |a|..] == a
  }

  lemma {:induction false} StartsWithIsPrefix(child: seq<string>, parent: seq<string>)
    ensures StartsWith(child, parent) <==> parent <= child
  {
    if parent != [] && child != [] {
      StartsWithIsPrefix(child[1..], parent[1..]);
      if parent <= child { assert parent[0] == child[0] && parent[1..] <= child[1..]; }
      if StartsWith(child, parent) {
        assert child == [child[0]] + child[1..] && parent == [parent[0]] + parent[1..];
      }
    }
  }

  /** One step of `Split`, without its recursion. */
  function Grow(c: char, sep: char, rest: seq<string>): seq<string>
    requires rest != []
  {
    if c == sep then [""] + rest else [[c] + rest[0]] + rest[1..]
  }

  lemma GrowAppended(c: char, sep: char, rest: seq<string>, more: seq<string>)
    requires rest != []
    ensures Grow(c, sep, rest + more) == Grow(c, sep, rest) + more
  {
    assert (rest + more)[1..] == rest[1..] + more;
  }

  lemma {:induction false} SplitAtSep(a: string, b: string, sep: char)
    ensures Split(a + [sep] + b, sep) == Split(a, sep) + Split(b, sep)
  {
    hide Grow;
    if a == [] {
      assert (a + [sep] + b)[1..] == b;
    } else {
      SplitAtSep(a[1..], b, sep);
      GrowAppended(a[0], sep, Split(a[1..], sep), Split(b, sep));
      SplitStep(a, sep);
      SplitStep(a + [sep] + b, sep);
      assert (a + [sep] + b)[1..] == a[1..] + [sep] + b;
    }
  }

  lemma SplitStep(s: string, sep: char)
    requires s != []
    ensures Split(s, sep) == Grow(s[0], sep, Split(s[1..], sep))
  {
  }

  lemma JoinGrow(c: char, sep: char, rest: seq<string>)
    requires rest != []
    ensures Join(Grow(c, sep, rest), sep) == [c] + Join(rest, sep)
  {
    var grown := Grow(c, sep, rest);
    if c == sep {
      assert grown[1..] == rest;
    } else if |rest| > 1 {
      assert grown[1..] == rest[1..];
      assert [c] + rest[0] + [sep] + Join(rest[1..], sep) == [c] + (rest[0] + [sep] + Join(rest[1..], sep));
    }
  }

  lemma {:induction false} JoinSplit(s: string, sep: char)
    ensures Join(Split(s, sep), sep) == s
  {
    if s != [] {
      hide Grow, Join;
      JoinSplit(s[1..], sep);
      SplitStep(s, sep);
      JoinGrow(s[0], sep, Split(s[1..], sep));
    }
  }

  /** No piece holds the separator, so the pieces are the only ones that join to the string. */
  lemma {:induction false} SplitPiecesAreClean(s: string, sep: char)
    ensures forall i | 0 <= i < |Split(s, sep)| :: sep !in Split(s, sep)[i]
  {
    if s != [] {
      SplitPiecesAreClean(s[1..], sep);
      var rest := Split(s[1..], sep);
      SplitStep(s, sep);
      forall i | 0 <= i < |Split(s, sep)| ensures sep !in Split(s, sep)[i] {
        assert s[0] == sep ==> Split(s, sep)[i] == if i == 0 then "" else rest[i - 1];
        assert s[0] != sep ==> Split(s, sep)[i] == if i == 0 then [s[0]] + rest[0] else rest[i];
      }
    }
  }

  lemma {:induction false} JoinAppended(a: seq<string>, b: seq<string>, sep: char)
    requires a != [] && b != []
    ensures Join(a + b, sep) == Join(a, sep) + [sep] + Join(b, sep)
  {
    if |a| == 1 {
      assert (a + b)[1..] == b;
    } else {
      assert (a + b)[1..] == a[1..] + b;
      JoinAppended(a[1..], b, sep);
      assert a[0] + [sep] + (Join(a[1..], sep) + [sep] + Join(b, sep)) == a[0] + [sep] + Join(a[1..], sep) + [sep] + Join(b, sep);
    }
  }

  lemma SubdomainHasLabelSuffix(front: string, parent: string)
    ensures IsSuffix(Split(parent, '.'), Split(front + ['.'] + parent, '.'))
  {
    hide Split;
    SplitAtSep(front, parent, '.');
    var (p, c) := (Split(parent, '.'), Split(front + ['.'] + parent, '.'));
    assert c[|c| - |p|..] == p;
  }

  lemma LabelSuffixIsSubdomain(parent: string, child: string)
    requires IsSuffix(Split(parent, '.'), Split(child, '.')) && child != parent
    ensures exists front :: child == front + ['.'] + parent
  {
    hide Split, Join;
    var (p, c) := (Split(parent, '.'), Split(child, '.'));
    JoinSplit(parent, '.');
    JoinSplit(child, '.');
    var front := c[..|c| - |p|];
    assert c == front + p;
    assert c != p;
    JoinAppended(front, p, '.');
    assert child == Join(front, '.') + ['.'] + parent;
  }

  lemma DottedSuffix(parent: string, child: string)
    ensures DomainPermits(parent, child) <==> child == parent || exists front :: child == front + ['.'] + parent
  {
    if DomainPermits(parent, child) && child != parent {
      var p := StripSuffix(child, parent).value;
      assert child == p[..|p| - 1] + ['.'] + parent;
    }
    if front :| child == front + ['.'] + parent {
      assert child[|child| - |parent|..] == parent;
      assert child[..|child| - |parent|] == front + ['.'];
    }
  }

  /** The string suffix test on domains is the suffix order on their labels. */
  lemma DomainPermitsIsLabelSuffix(parent: string, child: string)
    ensures DomainPermits(parent, child) <==> IsSuffix(Split(parent, '.'), Split(child, '.'))
  {
    hide Split, DomainPermits;
    DottedSuffix(parent, child);
    if front :| child == front + ['.'] + parent {
      SubdomainHasLabelSuffix(front, parent);
    } else if IsSuffix(Split(parent, '.'), Split(child, '.')) && child != parent {
      LabelSuffixIsSubdomain(parent, child);
    }
  }

  /** The same authority: equal, or two paths with the same components under the same verb. */
  predicate SameAuthority(a: RuntimeCapability, b: RuntimeCapability) {
    match (a, b)
    case (FsRead(p), FsRead(q)) => Components(p) == Components(q)
    case (FsWrite(p), FsWrite(q)) => Components(p) == Components(q)
    case _ => a == b
  }

  /** `permits`, stated on components and labels instead of strings; verbs never mix. */
  predicate StructurallyPermits(parent: RuntimeCapability, child: RuntimeCapability) {
    match (parent, child)
    case (FsRead(pp), FsRead(cp)) => Components(pp) <= Components(cp)
    case (FsWrite(pp), FsWrite(cp)) => Components(pp) <= Components(cp)
    case (NetConnect(pd), NetConnect(cd)) => IsSuffix(Split(pd, '.'), Split(cd, '.'))
    case _ => parent == child
  }

  lemma PermitsIsStructural(parent: RuntimeCapability, child: RuntimeCapability)
    ensures Permits(parent, child) <==> StructurallyPermits(parent, child)
  {
    match (parent, child)
    case (FsRead(pp), FsRead(cp)) => StartsWithIsPrefix(Components(cp), Components(pp));
    case (FsWrite(pp), FsWrite(cp)) => StartsWithIsPrefix(Components(cp), Components(pp));
    case (NetConnect(pd), NetConnect(cd)) => DomainPermitsIsLabelSuffix(pd, cd);
    case _ =>
  }

  /** A set permits exactly what one of its grants permits. */
  lemma SetPermitsIsStructural(grants: seq<RuntimeCapability>, requested: RuntimeCapability)
    ensures SetPermits(grants, requested) <==> exists i | 0 <= i < |grants| :: StructurallyPermits(grants[i], requested)
  {
    hide Permits, StructurallyPermits;
    forall i | 0 <= i < |grants| ensures Permits(grants[i], requested) <==> StructurallyPermits(grants[i], requested) {
      PermitsIsStructural(grants[i], requested);
    }
  }

  /** A partial order, with equality of authority as its equality. */
  lemma PermitsIsPartialOrder(a: RuntimeCapability, b: RuntimeCapability, c: RuntimeCapability)
    ensures Permits(a, a)
    ensures Permits(a, b) && Permits(b, c) ==> Permits(a, c)
    ensures Permits(a, b) && Permits(b, a) <==> SameAuthority(a, b)
  {
    hide Components, Split, Permits;
    PermitsIsStructural(a, a);
    PermitsIsStructural(a, b);
    PermitsIsStructural(b, c);
    PermitsIsStructural(a, c);
    PermitsIsStructural(b, a);
    if a.NetConnect? && b.NetConnect? {
      if Split(a.domain, '.') == Split(b.domain, '.') {
        JoinSplit(a.domain, '.');
        JoinSplit(b.domain, '.');
      }
      if c.NetConnect? {
        SuffixesCompose(Split(a.domain, '.'), Split(b.domain, '.'), Split(c.domain, '.'));
      }
      SuffixesCompose(Split(a.domain, '.'), Split(b.domain, '.'), Split(a.domain, '.'));
    }
  }

  lemma SuffixesCompose<T>(a: seq<T>, b: seq<T>, c: seq<T>)
    ensures IsSuffix(a, b) && IsSuffix(b, c) ==> IsSuffix(a, c)
    ensures IsSuffix(a, b) && IsSuffix(b, a) <==> a == b
  {
    if IsSuffix(a, b) && IsSuffix(b, c) {
      assert c[|c| - |a|..] == c[|c| - |b|..][|b| - |a|..];
    }
    if IsSuffix(a, b) && |a| == |b| {
      assert b[0..] == b;
    }
    if a == b {
      assert b[0..] == b;
    }
  }

  // ---- Job-level attenuation ----

  /** Whether one requested capability string parses and is permitted by the session's grants. */
  predicate Granted(session: seq<RuntimeCapability>, requested: string) {
    ParseStr(requested).Success? && SetPermits(session, ParseStr(requested).value)
  }

  /** The error of the first request that does not parse or is not permitted. */
  function FirstRefused(requested: seq<string>, session: seq<RuntimeCapability>): Option<CapabilityError> {
    if requested == [] then None
    else
      var rc := ParseStr(requested[0]);
      if rc.Failure? then Some(rc.error)
      else if !SetPermits(session, rc.value) then Some(CapabilityDenied(requested[0]))
      else FirstRefused(requested[1..], session)
  }

  lemma {:induction false} FirstRefusedIs(requested: seq<string>, session: seq<RuntimeCapability>)
    ensures FirstRefused(requested, session).None? <==> forall i | 0 <= i < |requested| :: Granted(session, requested[i])
  {
    if requested != [] {
      hide ParseStr, SetPermits;
      FirstRefusedIs(requested[1..], session);
      assert forall i | 0 <= i < |requested[1..]| :: requested[1..][i] == requested[i + 1];
      if FirstRefused(requested, session).None? {
        forall i | 0 <= i < |requested| ensures Granted(session, requested[i]) {
          assert i > 0 ==> requested[i] == requested[1..][i - 1];
        }
      }
    }
  }

  /** The check of a job's requested capabilities, request by request. */
  method ValidateJobCapabilities(requested: seq<string>, session: seq<RuntimeCapability>)
    returns (r: Result<(), CapabilityError>)
    ensures r == if FirstRefused(requested, session).None? then Success(()) else Failure(FirstRefused(requested, session).value)
    ensures r.Success? <==> forall i | 0 <= i < |requested| :: Granted(session, requested[i])
    ensures r.Failure? ==>
              exists i | 0 <= i < |requested| ::
                && !Granted(session, requested[i])
                && (forall k | 0 <= k < i :: Granted(session, requested[k]))
                && r.error == (if ParseStr(requested[i]).Failure? then ParseStr(requested[i]).error
                               else CapabilityDenied(requested[i]))
  {
    hide ParseStr, SetPermits;
    var i := 0;
    while i < |requested|
      invariant i <= |requested|
      invariant forall k | 0 <= k < i :: Granted(session, requested[k])
      invariant FirstRefused(requested[i..], session) == FirstRefused(requested, session)
    {
      assert requested[i..][1..] == requested[i + 1..];
      var rc := ParseStr(requested[i]);
      if rc.Failure? {
        assert !Granted(session, requested[i]);
        return Failure(rc.error);
      }
      if !SetPermits(session, rc.value) {
        assert !Granted(session, requested[i]);
        return Failure(CapabilityDenied(requested[i]));
      }
      i := i + 1;
    }
    return Success(());
  }

  /** If every requested job grant is permitted, whatever any of those grants permits the session permits too. */
  lemma AttenuationOnlyNarrows(session: seq<RuntimeCapability>, requested: seq<string>, i: nat, c: RuntimeCapability)
    requires forall k | 0 <= k < |requested| :: Granted(session, requested[k])
    requires i < |requested| && Granted(session, requested[i]) && Permits(ParseStr(requested[i]).value, c)
    ensures SetPermits(session, c)
  {
    hide Permits, ParseStr;
    assert Granted(session, requested[i]);
    var grant := ParseStr(requested[i]).value;
    var k :| 0 <= k < |session| && Permits(session[k], grant);
    PermitsIsPartialOrder(session[k], grant, c);
  }

  /**
   * Turned around: a set that permits everything another set permits already permits each of its grants,
   * so checking the grants one by one is exactly checking the authority.
   */
  lemma GrantCheckIsExactlyAuthorityCheck(session: seq<RuntimeCapability>, job: seq<RuntimeCapability>)
    ensures (forall i | 0 <= i < |job| :: SetPermits(session, job[i]))
       <==> (forall c | SetPermits(job, c) :: SetPermits(session, c))
  {
    hide Permits;
    if forall c | SetPermits(job, c) :: SetPermits(session, c) {
      forall i | 0 <= i < |job| ensures SetPermits(session, job[i]) {
        PermitsIsPartialOrder(job[i], job[i], job[i]);
        assert SetPermits(job, job[i]);
      }
    }
    if forall i | 0 <= i < |job| :: SetPermits(session, job[i]) {
      forall c | SetPermits(job, c) ensures SetPermits(session, c) {
        var i :| 0 <= i < |job| && Permits(job[i], c);
        assert SetPermits(session, job[i]);
        var k :| 0 <= k < |session| && Permits(session[k], job[i]);
        PermitsIsPartialOrder(session[k], job[i], c);
      }
    }
  }
}

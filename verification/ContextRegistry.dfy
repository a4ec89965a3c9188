/** The client's registry of named tenant contexts, and the file that several processes share
    (src/provablyfine/client/configuration.py:110-179 and 248-360). */
module ContextRegistry {
  import opened Wrappers
  import opened Decimal

  datatype Config = Config(
    directoryUrl: string, tenantName: string,
    sessionFingerprint: Option<string>, sessionFile: Option<string>, sessionPem: Option<string>)

  datatype Context = Context(name: string, config: Config)

  /** `contexts` is an insertion-ordered dictionary. */
  datatype Registry = Registry(contexts: seq<Context>, current: Option<string>, previous: Option<string>)

  datatype Refusal = NoSuchContext | NoPreviousContext | ContextExists | ContextIsCurrent | DuplicateUrl | Ephemeral

  // ---- The dictionary ----

  predicate HasName(cs: seq<Context>, name: string) {
    exists c :: c in cs && c.name == name
  }

  function NamesOf(cs: seq<Context>): set<string> {
    set c | c in cs :: c.name
  }

  /** Replacing keeps the position, a new name goes to the end. */
  function Put(cs: seq<Context>, name: string, config: Config): seq<Context> {
    if cs == [] then [Context(name, config)]
    else if cs[0].name == name then [Context(name, config)] + cs[1..]
    else [cs[0]] + Put(cs[1..], name, config)
  }

  function Drop(cs: seq<Context>, name: string): seq<Context> {
    if cs == [] then []
    else if cs[0].name == name then cs[1..]
    else [cs[0]] + Drop(cs[1..], name)
  }

  function Get(cs: seq<Context>, name: string): Config
    requires HasName(cs, name)
  {
    if cs[0].name == name then cs[0].config else Get(cs[1..], name)
  }

  function Targeting(cs: seq<Context>, url: string): seq<string> {
    if cs == [] then []
    else if cs[0].config.directoryUrl == url then [cs[0].name] + Targeting(cs[1..], url)
    else Targeting(cs[1..], url)
  }

  /** The preferred name if its context targets the URL, and otherwise the first that does. */
  function NameForUrl(cs: seq<Context>, url: string, prefer: Option<string>): (name: Option<string>)
    ensures prefer.Some? && (exists c :: c in cs && c.name == prefer.value && c.config.directoryUrl == url) ==>
              name == prefer
    ensures prefer.None? || !(exists c :: c in cs && c.name == prefer.value && c.config.directoryUrl == url) ==>
              if exists i :: 0 <= i < |cs| && cs[i].config.directoryUrl == url then
                exists i :: 0 <= i < |cs| && cs[i].config.directoryUrl == url && name == Some(cs[i].name) &&
                            forall j :: 0 <= j < i ==> cs[j].config.directoryUrl != url
              else name == None
  {
    TargetingMembers(cs, url);
    FirstTargeting(cs, url);
    var matches := Targeting(cs, url);
    if prefer.Some? && prefer.value in matches then prefer
    else if matches != [] then Some(matches[0])
    else None
  }

  lemma {:induction false} TargetingMembers(cs: seq<Context>, url: string)
    ensures forall name :: name in Targeting(cs, url) <==>
                           exists c :: c in cs && c.name == name && c.config.directoryUrl == url
  {
    if cs != [] {
      assert forall c :: c in cs <==> c == cs[0] || c in cs[1..];
      TargetingMembers(cs[1..], url);
    }
  }

  lemma {:induction false} FirstTargeting(cs: seq<Context>, url: string)
    ensures if exists i :: 0 <= i < |cs| && cs[i].config.directoryUrl == url then
              Targeting(cs, url) != [] &&
              exists i :: 0 <= i < |cs| && cs[i].config.directoryUrl == url && Targeting(cs, url)[0] == cs[i].name &&
                          forall j :: 0 <= j < i ==> cs[j].config.directoryUrl != url
            else Targeting(cs, url) == []
  {
    if cs != [] && cs[0].config.directoryUrl != url {
      FirstTargeting(cs[1..], url);
      if i :| 0 <= i < |cs| && cs[i].config.directoryUrl == url {
        assert cs[1..][i - 1].config.directoryUrl == url;
        var k :| 0 <= k < |cs[1..]| && cs[1..][k].config.directoryUrl == url &&
          Targeting(cs[1..], url)[0] == cs[1..][k].name &&
          forall j :: 0 <= j < k ==> cs[1..][j].config.directoryUrl != url;
        forall j | 0 <= j < k + 1 ensures cs[j].config.directoryUrl != url {
          if j > 0 {
            assert cs[1..][j - 1] == cs[j];
          }
        }
        assert cs[k + 1] == cs[1..][k];
      }
    }
  }

  // ---- A name that is not used ----

  function Suffixed(base: string, i: nat): string {
    base + "-" + ToDecimal(i)
  }

  lemma SuffixesDiffer(base: string, i: nat, j: nat)
    requires Suffixed(base, i) == Suffixed(base, j)
    ensures i == j
  {
    assert Suffixed(base, i)[|base| + 1..] == ToDecimal(i);
    assert Suffixed(base, j)[|base| + 1..] == ToDecimal(j);
    ToDecimalIsInjective(i, j);
  }

  function Tried(base: string, i: nat): set<string> {
    set j | 2 <= j < i :: Suffixed(base, j)
  }

  lemma TriedNext(base: string, i: nat)
    requires 2 <= i
    ensures Suffixed(base, i) !in Tried(base, i) && Tried(base, i + 1) == Tried(base, i) + {Suffixed(base, i)}
  {
    if j :| 2 <= j < i && Suffixed(base, j) == Suffixed(base, i) {
      SuffixesDiffer(base, i, j);
    }
  }

  /** There are finitely many names, and each try rules out another one. */
  lemma EachTryCounts(base: string, names: set<string>, i: nat)
    requires 2 <= i && Suffixed(base, i) in names
    ensures |names - Tried(base, i + 1)| < |names - Tried(base, i)|
  {
    var name := Suffixed(base, i);
    TriedNext(base, i);
    assert names - Tried(base, i + 1) == (names - Tried(base, i)) - {name};
  }

  function FreeSuffix(base: string, names: set<string>, i: nat): (n: nat)
    requires 2 <= i
    ensures i <= n && Suffixed(base, n) !in names && forall j :: i <= j < n ==> Suffixed(base, j) in names
    decreases |names - Tried(base, i)|
  {
    if Suffixed(base, i) in names then
      EachTryCounts(base, names, i);
      FreeSuffix(base, names, i + 1)
    else i
  }

  function BaseName(config: Config): string {
    if config.tenantName != "" then config.tenantName else "default"
  }

  function AutoName(config: Config, names: set<string>): (name: string)
    ensures name !in names && name != ""
    ensures var base := if config.tenantName == "" then "default" else config.tenantName;
            if base !in names then name == base
            else exists n: nat :: n >= 2 && name == base + "-" + ToDecimal(n) &&
                                  forall j: nat :: 2 <= j < n ==> base + "-" + ToDecimal(j) in names
  {
    var base := BaseName(config);
    if base !in names then base
    else
      var n := FreeSuffix(base, names, 2);
      assert forall j: nat :: 2 <= j < n ==> base + "-" + ToDecimal(j) == Suffixed(base, j);
      Suffixed(base, n)
  }

  // ---- Operations ----

  datatype Op =
    | Save(config: Config, contextName: Option<string>, ephemeral: bool)
    | Use(name: string)
    | UsePrevious
    | Rename(from: string, to: string)
    | Delete(name: string)
    | SetSession(url: string, fingerprint: Option<string>)

  /** The name under which a context is saved. */
  function SavedName(r: Registry, config: Config, contextName: Option<string>): string {
    if contextName.None? then AutoName(config, NamesOf(r.contexts))
    else NameOr(NameForUrl(r.contexts, config.directoryUrl, contextName), contextName.value)
  }

  /** Python's `existing or context_name`: an empty name counts as no name. */
  function NameOr(existing: Option<string>, otherwise: string): string {
    if existing.Some? && existing.value != "" then existing.value else otherwise
  }

  function WithSession(c: Config, fingerprint: Option<string>): Config {
    c.(sessionFingerprint := fingerprint, sessionFile := None, sessionPem := None)
  }

  function Apply(r: Registry, op: Op): Result<Registry, Refusal> {
    match op
    case Save(config, contextName, ephemeral) =>
      if ephemeral then Err(Ephemeral)
      else
        var existing := NameForUrl(r.contexts, config.directoryUrl, contextName);
        if contextName.None? then
          if existing.Some? then Err(DuplicateUrl)
          else
            var name := AutoName(config, NamesOf(r.contexts));
            Ok(Registry(Put(r.contexts, name, config), Some(name), r.current))
        else Ok(r.(contexts := Put(r.contexts, NameOr(existing, contextName.value), config)))
    case Use(name) =>
      if !HasName(r.contexts, name) then Err(NoSuchContext)
      else if r.current == Some(name) then Ok(r)
      else Ok(r.(current := Some(name), previous := r.current))
    case UsePrevious =>
      if r.previous.None? || !HasName(r.contexts, r.previous.value) then Err(NoPreviousContext)
      else Ok(r.(current := r.previous, previous := r.current))
    case Rename(from, to) =>
      if !HasName(r.contexts, from) then Err(NoSuchContext)
      else if to == from then Ok(r)
      else if HasName(r.contexts, to) then Err(ContextExists)
      else Ok(Registry(
        Put(Drop(r.contexts, from), to, Get(r.contexts, from)),
        if r.current == Some(from) then Some(to) else r.current,
        if r.previous == Some(from) then Some(to) else r.previous))
    case Delete(name) =>
      if !HasName(r.contexts, name) then Err(NoSuchContext)
      else if r.current == Some(name) then Err(ContextIsCurrent)
      else Ok(Registry(Drop(r.contexts, name), r.current, if r.previous == Some(name) then None else r.previous))
    case SetSession(url, fingerprint) =>
      NameForUrlIsThere(r.contexts, url, None);
      var name := NameForUrl(r.contexts, url, None);
      if name.None? then Ok(r)
      else Ok(r.(contexts := Put(r.contexts, name.value, WithSession(Get(r.contexts, name.value), fingerprint))))
  }

  /** What is refused changes nothing. */
  function Next(r: Registry, op: Op): Registry {
    match Apply(r, op)
    case Ok(after) => after
    case Err(_) => r
  }

  const Empty := Registry([], None, None)

  function Run(ops: seq<Op>): Registry {
    if ops == [] then Empty else Next(Run(ops[..|ops| - 1]), ops[|ops| - 1])
  }

  // ---- Invariants ----

  ghost predicate DistinctNames(cs: seq<Context>) {
    forall i, j :: 0 <= i < j < |cs| ==> cs[i].name != cs[j].name
  }

  ghost predicate UniqueUrls(cs: seq<Context>) {
    forall c, d :: c in cs && d in cs && c.config.directoryUrl == d.config.directoryUrl ==> c.name == d.name
  }

  /** The current and the previous context exist, and are not the same one. */
  ghost predicate Pointers(r: Registry) {
    && DistinctNames(r.contexts)
    && (r.current.Some? ==> HasName(r.contexts, r.current.value))
    && (r.previous.Some? ==> HasName(r.contexts, r.previous.value) && r.current.Some? && r.current != r.previous)
  }

  predicate NoEmptyName(cs: seq<Context>) {
    !HasName(cs, "")
  }

  lemma {:induction false} PutMembers(cs: seq<Context>, name: string, config: Config)
    requires DistinctNames(cs)
    ensures DistinctNames(Put(cs, name, config))
    ensures forall c :: c in Put(cs, name, config) <==> c == Context(name, config) || (c in cs && c.name != name)
  {
    if cs != [] {
      assert forall c :: c in cs <==> c == cs[0] || c in cs[1..];
      PutMembers(cs[1..], name, config);
      if cs[0].name != name {
        var rest := Put(cs[1..], name, config);
        forall j | 0 <= j < |rest| ensures rest[j].name != cs[0].name {
          assert rest[j] in rest;
        }
      }
    }
  }

  lemma {:induction false} DropMembers(cs: seq<Context>, name: string)
    requires DistinctNames(cs)
    ensures DistinctNames(Drop(cs, name))
    ensures forall c :: c in Drop(cs, name) <==> c in cs && c.name != name
  {
    if cs != [] {
      var head, tail := cs[0], cs[1..];
      assert forall c :: c in cs <==> c == head || c in tail;
      if head.name == name {
        assert forall c :: c in tail ==> c.name != name;
      } else {
        DropMembers(tail, name);
        var rest := Drop(tail, name);
        forall j | 0 <= j < |rest| ensures rest[j].name != head.name {
          assert rest[j] in rest;
        }
      }
    }
  }

  lemma {:induction false} GetIsThere(cs: seq<Context>, name: string)
    requires HasName(cs, name)
    ensures Context(name, Get(cs, name)) in cs
  {
    if cs[0].name != name {
      assert forall c :: c in cs <==> c == cs[0] || c in cs[1..];
      GetIsThere(cs[1..], name);
    }
  }

  lemma NameForUrlIsThere(cs: seq<Context>, url: string, prefer: Option<string>)
    ensures var name := NameForUrl(cs, url, prefer);
            if name.Some? then exists c :: c in cs && c.name == name.value && c.config.directoryUrl == url
            else forall c :: c in cs ==> c.config.directoryUrl != url
  {
    TargetingMembers(cs, url);
    var matches := Targeting(cs, url);
    if matches != [] {
      assert matches[0] in matches;
    }
    forall c | c in cs && c.config.directoryUrl == url ensures c.name in matches {
    }
  }

  /** Whatever is done, and under whatever names, the current and the previous context stay sound. */
  lemma StepKeepsPointers(r: Registry, op: Op)
    requires Pointers(r)
    ensures Pointers(Next(r, op))
  {
    if Apply(r, op).Ok? {
      match op
      case Save(config, contextName, _) =>
        var existing := NameForUrl(r.contexts, config.directoryUrl, contextName);
        var name := SavedName(r, config, contextName);
        PutKeepsNames(r.contexts, name, config);
      case Use(_) =>
      case UsePrevious =>
      case Rename(from, to) =>
        if to != from {
          RenameKeepsNames(r.contexts, from, to);
        }
      case Delete(name) =>
        DropKeepsNames(r.contexts, name);
      case SetSession(url, fingerprint) =>
        NameForUrlIsThere(r.contexts, url, None);
        var name := NameForUrl(r.contexts, url, None);
        if name.Some? {
          PutKeepsNames(r.contexts, name.value, WithSession(Get(r.contexts, name.value), fingerprint));
        }
    }
  }

  lemma DropKeepsNames(cs: seq<Context>, name: string)
    requires DistinctNames(cs)
    ensures DistinctNames(Drop(cs, name))
    ensures forall n :: HasName(Drop(cs, name), n) <==> n != name && HasName(cs, n)
  {
    DropMembers(cs, name);
    forall n | HasName(cs, n) && n != name ensures HasName(Drop(cs, name), n) {
      var c :| c in cs && c.name == n;
      assert c in Drop(cs, name);
    }
  }

  lemma PutKeepsNames(cs: seq<Context>, name: string, config: Config)
    requires DistinctNames(cs)
    ensures DistinctNames(Put(cs, name, config))
    ensures forall n :: HasName(Put(cs, name, config), n) <==> n == name || HasName(cs, n)
  {
    PutMembers(cs, name, config);
    var after := Put(cs, name, config);
    assert Context(name, config) in after;
    forall n | HasName(cs, n) && n != name ensures HasName(after, n) {
      var c :| c in cs && c.name == n;
      assert c in after;
    }
  }

  lemma RenameKeepsNames(cs: seq<Context>, from: string, to: string)
    requires DistinctNames(cs) && HasName(cs, from) && from != to
    ensures var after := Put(Drop(cs, from), to, Get(cs, from));
            DistinctNames(after) && forall n :: HasName(after, n) <==> n == to || (n != from && HasName(cs, n))
  {
    DropKeepsNames(cs, from);
    PutKeepsNames(Drop(cs, from), to, Get(cs, from));
  }

  lemma {:induction false} EveryRunKeepsPointers(ops: seq<Op>)
    ensures Pointers(Run(ops))
  {
    if ops != [] {
      EveryRunKeepsPointers(ops[..|ops| - 1]);
      StepKeepsPointers(Run(ops[..|ops| - 1]), ops[|ops| - 1]);
    }
  }

  /** Saving makes a second context for a URL exactly when the one that targets it has an empty name
      and the saved one was loaded under another name. */
  lemma SaveKeepsUrlsUniqueIff(r: Registry, config: Config, contextName: Option<string>, ephemeral: bool)
    requires DistinctNames(r.contexts) && UniqueUrls(r.contexts)
    ensures UniqueUrls(Next(r, Save(config, contextName, ephemeral)).contexts) <==>
            (ephemeral || contextName.None? || contextName == Some("") ||
             NameForUrl(r.contexts, config.directoryUrl, contextName) != Some(""))
  {
    var url := config.directoryUrl;
    var existing := NameForUrl(r.contexts, url, contextName);
    NameForUrlIsThere(r.contexts, url, contextName);
    if Apply(r, Save(config, contextName, ephemeral)).Ok? {
      var name := SavedName(r, config, contextName);
      var after := Put(r.contexts, name, config);
      PutMembers(r.contexts, name, config);
      if existing == Some("") && contextName != Some("") {
        var c :| c in r.contexts && c.name == "" && c.config.directoryUrl == url;
        assert c in after && Context(name, config) in after;
      } else {
        forall c, d | c in after && d in after && c.config.directoryUrl == d.config.directoryUrl
          ensures c.name == d.name
        {
          OnlyOneTargets(r.contexts, existing, url, c);
          OnlyOneTargets(r.contexts, existing, url, d);
        }
      }
    }
  }

  /** Saving a loaded context, under the name it was loaded with, overwrites a context of another tenant exactly when
      no context with a name targets its tenant any more and that name is now used for another one. */
  lemma SaveKeepsOtherTenantsIff(r: Registry, config: Config, contextName: Option<string>)
    requires DistinctNames(r.contexts)
    ensures var after := Next(r, Save(config, contextName, false)).contexts;
            var existing := NameForUrl(r.contexts, config.directoryUrl, contextName);
            (forall c :: c in r.contexts && c.config.directoryUrl != config.directoryUrl ==> c in after) <==>
            (contextName.None? || (existing.Some? && existing.value != "") ||
             forall c :: c in r.contexts && c.name == contextName.value ==>
                           c.config.directoryUrl == config.directoryUrl)
  {
    var url := config.directoryUrl;
    var existing := NameForUrl(r.contexts, url, contextName);
    NameForUrlIsThere(r.contexts, url, contextName);
    if Apply(r, Save(config, contextName, false)).Ok? {
      var name := SavedName(r, config, contextName);
      PutMembers(r.contexts, name, config);
      if contextName.Some? && existing.Some? && existing.value != "" {
        var e :| e in r.contexts && e.name == existing.value && e.config.directoryUrl == url;
        forall c | c in r.contexts && c.name == name ensures c == e {
          SameNameSame(r.contexts, c, e);
        }
      }
    }
  }

  lemma SameNameSame(cs: seq<Context>, c: Context, d: Context)
    requires DistinctNames(cs) && c in cs && d in cs && c.name == d.name
    ensures c == d
  {
  }

  /** A context is loaded in one shell, and deleted in another, where its name is then given to the context of another
      tenant. When the first shell saves, the context of the other tenant is gone. */
  lemma StaleSaveOverwrites()
    ensures var a, b := Config("https://a", "t", None, None, None), Config("https://b", "u", None, None, None);
            var before := [Save(a, None, false), Save(b, None, false), Delete("t"), Rename("u", "t")];
            Run(before).contexts == [Context("t", b)] &&
            Next(Run(before), Save(a, Some("t"), false)).contexts == [Context("t", a)]
  {
    var a, b := Config("https://a", "t", None, None, None), Config("https://b", "u", None, None, None);
    var o0, o1, o2, o3 := Save(a, None, false), Save(b, None, false), Delete("t"), Rename("u", "t");
    assert [o0, o1, o2, o3][..3] == [o0, o1, o2] && [o0, o1, o2][..2] == [o0, o1] && [o0, o1][..1] == [o0];
    assert [o0][..0] == [] && NamesOf([]) == {};
    var r0 := Registry([Context("t", a)], Some("t"), None);
    assert Run([o0]) == Next(Empty, o0) == r0;
    assert NamesOf(r0.contexts) == {"t"} && Targeting(r0.contexts, "https://b") == [];
    var r1 := Registry([Context("t", a), Context("u", b)], Some("u"), Some("t"));
    assert Put(r0.contexts, "u", b) == r1.contexts;
    assert Run([o0, o1]) == Next(r0, o1) == r1;
    assert r1.contexts[0].name == "t" && HasName(r1.contexts, "t");
    var r2 := Registry([Context("u", b)], Some("u"), None);
    assert Drop(r1.contexts, "t") == r2.contexts;
    assert Run([o0, o1, o2]) == Next(r1, o2) == r2;
    RenameOnly(r2, b);
    assert Run([o0, o1, o2, o3]) == Next(r2, o3);
    assert Targeting([Context("t", b)], "https://a") == [];
  }

  lemma RenameOnly(r: Registry, b: Config)
    requires r == Registry([Context("u", b)], Some("u"), None)
    ensures Next(r, Rename("u", "t")).contexts == [Context("t", b)]
  {
    assert r.contexts[0].name == "u" && HasName(r.contexts, "u") && !HasName(r.contexts, "t");
    assert Drop(r.contexts, "u") == [] && Get(r.contexts, "u") == b;
  }

  lemma OnlyOneTargets(cs: seq<Context>, existing: Option<string>, url: string, c: Context)
    requires UniqueUrls(cs)
    requires if existing.Some? then exists e :: e in cs && e.name == existing.value && e.config.directoryUrl == url
             else forall e :: e in cs ==> e.config.directoryUrl != url
    ensures c in cs && c.config.directoryUrl == url ==> existing == Some(c.name)
  {
  }

  lemma OtherStepsKeepUrlsUnique(r: Registry, op: Op)
    requires Pointers(r) && UniqueUrls(r.contexts) && !op.Save?
    ensures UniqueUrls(Next(r, op).contexts)
  {
    if Apply(r, op).Ok? {
      match op
      case Use(_) =>
      case UsePrevious =>
      case Rename(from, to) =>
        if to != from {
          DropMembers(r.contexts, from);
          PutMembers(Drop(r.contexts, from), to, Get(r.contexts, from));
          GetIsThere(r.contexts, from);
        }
      case Delete(name) =>
        DropMembers(r.contexts, name);
      case SetSession(url, fingerprint) =>
        NameForUrlIsThere(r.contexts, url, None);
        var name := NameForUrl(r.contexts, url, None);
        if name.Some? {
          GetIsThere(r.contexts, name.value);
          PutMembers(r.contexts, name.value, WithSession(Get(r.contexts, name.value), fingerprint));
        }
    }
  }

  /** Nothing is given an empty name. */
  predicate NonEmptyNames(op: Op) {
    (op.Save? ==> op.contextName != Some("")) && (op.Rename? ==> op.to != "")
  }

  lemma StepKeepsNamesNonEmpty(r: Registry, op: Op)
    requires Pointers(r) && NoEmptyName(r.contexts) && NonEmptyNames(op)
    ensures NoEmptyName(Next(r, op).contexts)
  {
    if Apply(r, op).Ok? {
      match op
      case Save(config, contextName, _) =>
        var existing := NameForUrl(r.contexts, config.directoryUrl, contextName);
        var name := SavedName(r, config, contextName);
        PutKeepsNames(r.contexts, name, config);
      case Use(_) =>
      case UsePrevious =>
      case Rename(from, to) =>
        if to != from {
          RenameKeepsNames(r.contexts, from, to);
        }
      case Delete(name) =>
        DropKeepsNames(r.contexts, name);
      case SetSession(url, fingerprint) =>
        NameForUrlIsThere(r.contexts, url, None);
        var name := NameForUrl(r.contexts, url, None);
        if name.Some? {
          PutKeepsNames(r.contexts, name.value, WithSession(Get(r.contexts, name.value), fingerprint));
        }
    }
  }

  /** As long as no context is given an empty name, no two contexts target the same tenant. */
  lemma {:induction false} EveryRunKeepsUrlsUnique(ops: seq<Op>)
    requires forall op :: op in ops ==> NonEmptyNames(op)
    ensures UniqueUrls(Run(ops).contexts) && NoEmptyName(Run(ops).contexts)
  {
    if ops != [] {
      var before, op := ops[..|ops| - 1], ops[|ops| - 1];
      var r := Run(before);
      assert op in ops && forall o :: o in before ==> o in ops;
      EveryRunKeepsUrlsUnique(before);
      EveryRunKeepsPointers(before);
      StepKeepsNamesNonEmpty(r, op);
      if op.Save? {
        NameForUrlIsThere(r.contexts, op.config.directoryUrl, op.contextName);
        SaveKeepsUrlsUniqueIff(r, op.config, op.contextName, op.ephemeral);
      } else {
        OtherStepsKeepUrlsUnique(r, op);
      }
    }
  }

  /** With an empty name it can go wrong: a context is renamed to "" and then saved under its old name. */
  lemma EmptyNameBreaksUniqueness()
    ensures var c := Config("https://t", "t", None, None, None);
            !UniqueUrls(Run([Save(c, None, false), Rename("t", ""), Save(c, Some("t"), false)]).contexts)
  {
    var c := Config("https://t", "t", None, None, None);
    var ops := [Save(c, None, false), Rename("t", ""), Save(c, Some("t"), false)];
    assert ops[..2] == [ops[0], ops[1]] && [ops[0], ops[1]][..1] == [ops[0]] && [ops[0]][..0] == [];
    assert Run([]) == Empty && NamesOf([]) == {};
    var r1 := Next(Empty, ops[0]);
    assert r1 == Registry([Context("t", c)], Some("t"), None);
    assert Context("t", c) in r1.contexts && HasName(r1.contexts, "t") && !HasName(r1.contexts, "");
    var r2 := Next(r1, ops[1]);
    assert Drop(r1.contexts, "t") == [];
    assert r2.contexts == [Context("", c)];
    EveryRunKeepsPointers([ops[0], ops[1]]);
    assert Run([ops[0]]) == r1 && Run([ops[0], ops[1]]) == r2;
    assert Targeting([], c.directoryUrl) == [] && Targeting(r2.contexts, c.directoryUrl) == [""];
    SaveKeepsUrlsUniqueIff(r2, c, Some("t"), false);
  }

  // ---- What the operations mean for the contents ----

  function Table(cs: seq<Context>): map<string, Config> {
    if cs == [] then map[] else Table(cs[1..])[cs[0].name := cs[0].config]
  }

  lemma {:induction false} TableKeys(cs: seq<Context>)
    ensures Table(cs).Keys == NamesOf(cs)
  {
    if cs != [] {
      TableKeys(cs[1..]);
      assert forall c :: c in cs <==> c == cs[0] || c in cs[1..];
    }
  }

  lemma {:induction false} TableOfPut(cs: seq<Context>, name: string, config: Config)
    ensures Table(Put(cs, name, config)) == Table(cs)[name := config]
  {
    if cs != [] && cs[0].name != name {
      TableOfPut(cs[1..], name, config);
    }
  }

  lemma {:induction false} TableOfDrop(cs: seq<Context>, name: string)
    requires DistinctNames(cs)
    ensures Table(Drop(cs, name)) == Table(cs) - {name}
  {
    if cs != [] {
      if cs[0].name == name {
        TableKeys(cs[1..]);
        assert name !in NamesOf(cs[1..]);
      } else {
        TableOfDrop(cs[1..], name);
      }
    }
  }

  lemma {:induction false} TableOfGet(cs: seq<Context>, name: string)
    requires HasName(cs, name)
    ensures name in Table(cs) && Table(cs)[name] == Get(cs, name)
  {
    if cs[0].name != name {
      assert forall c :: c in cs <==> c == cs[0] || c in cs[1..];
      TableOfGet(cs[1..], name);
    }
  }

  lemma TableOfRename(cs: seq<Context>, from: string, to: string)
    requires DistinctNames(cs) && HasName(cs, from) && from != to
    ensures from in Table(cs)
    ensures Table(Put(Drop(cs, from), to, Get(cs, from))) == (Table(cs) - {from})[to := Table(cs)[from]]
  {
    TableOfGet(cs, from);
    TableOfDrop(cs, from);
    TableOfPut(Drop(cs, from), to, Get(cs, from));
  }

  /** As a table from names to contexts: what each operation changes, and that it changes nothing else. */
  lemma ContentsAfter(r: Registry, op: Op)
    requires Pointers(r) && Apply(r, op).Ok?
    ensures var before, after := Table(r.contexts), Table(Next(r, op).contexts);
            match op
            case Save(config, contextName, _) =>
              var existing := NameForUrl(r.contexts, config.directoryUrl, contextName);
              if contextName.None? then
                Next(r, op).current.Some? && Next(r, op).current.value !in before &&
                after == before[Next(r, op).current.value := config] && Next(r, op).previous == r.current
              else after == before[NameOr(existing, contextName.value) := config]
            case Use(_) => after == before
            case UsePrevious => after == before
            case Rename(from, to) =>
              from in before &&
              if from == to then after == before
              else to !in before && after == (before - {from})[to := before[from]]
            case Delete(name) => name in before && after == before - {name}
            case SetSession(url, fingerprint) =>
              match NameForUrl(r.contexts, url, None)
              case None => after == before
              case Some(name) =>
                name in before &&
                var saved := before[name];
                after == before[name := Config(saved.directoryUrl, saved.tenantName, fingerprint, None, None)]
  {
    TableKeys(r.contexts);
    match op
    case Save(config, contextName, _) =>
      var existing := NameForUrl(r.contexts, config.directoryUrl, contextName);
      var name := SavedName(r, config, contextName);
      TableOfPut(r.contexts, name, config);
    case Use(_) =>
    case UsePrevious =>
    case Rename(from, to) =>
      if from != to {
        TableOfRename(r.contexts, from, to);
      } else {
        TableOfGet(r.contexts, from);
      }
    case Delete(name) =>
      TableOfGet(r.contexts, name);
      TableOfDrop(r.contexts, name);
    case SetSession(url, fingerprint) =>
      NameForUrlIsThere(r.contexts, url, None);
      var name := NameForUrl(r.contexts, url, None);
      if name.Some? {
        TableOfGet(r.contexts, name.value);
        TableOfPut(r.contexts, name.value, WithSession(Get(r.contexts, name.value), fingerprint));
      }
  }

  /** What is refused: a name that is not there, or is there already, deleting the current context, going back without a
      previous one, a second context for a tenant, and saving what must not be saved. */
  lemma RefusedIff(r: Registry, op: Op)
    requires Pointers(r)
    ensures Apply(r, op).Err? <==>
            match op
            case Save(config, contextName, ephemeral) =>
              ephemeral ||
              (contextName == None && exists c :: c in r.contexts && c.config.directoryUrl == config.directoryUrl)
            case Use(name) => !exists c :: c in r.contexts && c.name == name
            case UsePrevious => r.previous == None
            case Rename(from, to) =>
              (!exists c :: c in r.contexts && c.name == from) ||
              (from != to && exists c :: c in r.contexts && c.name == to)
            case Delete(name) => (!exists c :: c in r.contexts && c.name == name) || r.current == Some(name)
            case SetSession(_, _) => false
  {
    if op.Save? {
      NameForUrlIsThere(r.contexts, op.config.directoryUrl, op.contextName);
    }
  }

  /** Where the pointers are after what is not refused. */
  lemma PointersAfter(r: Registry, op: Op)
    requires Pointers(r) && Apply(r, op).Ok?
    ensures var s := Next(r, op);
            match op
            case Save(_, contextName, _) =>
              if contextName.None? then
                s.current.Some? && (forall c :: c in r.contexts ==> Some(c.name) != s.current) &&
                s.previous == r.current
              else s.current == r.current && s.previous == r.previous
            case Use(name) =>
              s.current == Some(name) && s.previous == if r.current == Some(name) then r.previous else r.current
            case UsePrevious => s.current == r.previous && s.previous == r.current
            case Rename(from, to) =>
              s.current == (if r.current == Some(from) then Some(to) else r.current) &&
              s.previous == (if r.previous == Some(from) then Some(to) else r.previous)
            case Delete(name) =>
              s.current == r.current && s.previous == if r.previous == Some(name) then None else r.previous
            case SetSession(_, _) => s.current == r.current && s.previous == r.previous
  {
    if op.Save? {
      assert forall c :: c in r.contexts ==> c.name in NamesOf(r.contexts);
    }
  }

  /** A context that is replaced keeps its place, and a new one comes last. */
  lemma {:induction false} PutKeepsPlaces(cs: seq<Context>, name: string, config: Config)
    requires DistinctNames(cs)
    ensures var after := Put(cs, name, config);
            && |after| == (if HasName(cs, name) then |cs| else |cs| + 1)
            && (forall i :: 0 <= i < |cs| ==> after[i] == if cs[i].name == name then Context(name, config) else cs[i])
            && (!HasName(cs, name) ==> after[|cs|] == Context(name, config))
  {
    if cs != [] {
      assert forall c :: c in cs <==> c == cs[0] || c in cs[1..];
      if cs[0].name != name {
        PutKeepsPlaces(cs[1..], name, config);
      }
    }
  }

  /** Switching to another context and back leads to where one was, and nothing is left of the detour exactly
      when the other context was the previous one already. */
  lemma UsePreviousUndoesUse(r: Registry, name: string)
    requires Pointers(r) && Apply(r, Use(name)).Ok? && r.current.Some? && r.current.value != name
    ensures var there := Next(r, Use(name));
            there.current == Some(name) && Next(there, UsePrevious).current == r.current &&
            Next(there, UsePrevious).contexts == r.contexts &&
            (Next(there, UsePrevious) == r <==> r.previous == Some(name))
  {
  }

  lemma MovedBack(t: map<string, Config>, from: string, to: string)
    requires from in t && to !in t
    ensures ((t - {from})[to := t[from]] - {to})[from := t[from]] == t
  {
  }

  lemma TableRenamedBack(cs: seq<Context>, from: string, to: string)
    requires DistinctNames(cs) && HasName(cs, from) && !HasName(cs, to)
    ensures var there := Put(Drop(cs, from), to, Get(cs, from));
            DistinctNames(there) && HasName(there, to) && !HasName(there, from) &&
            Table(Put(Drop(there, to), from, Get(there, to))) == Table(cs)
  {
    var there := Put(Drop(cs, from), to, Get(cs, from));
    RenameKeepsNames(cs, from, to);
    TableKeys(cs);
    TableOfRename(cs, from, to);
    TableOfRename(there, to, from);
    MovedBack(Table(cs), from, to);
  }

  /** Renaming back gives the contents and both pointers back. */
  lemma RenameBack(r: Registry, from: string, to: string)
    requires Pointers(r) && Apply(r, Rename(from, to)).Ok?
    ensures var there := Next(r, Rename(from, to));
            var back := Next(there, Rename(to, from));
            Apply(there, Rename(to, from)).Ok? && back.current == r.current && back.previous == r.previous &&
            Table(back.contexts) == Table(r.contexts)
  {
    if from != to {
      TableRenamedBack(r.contexts, from, to);
    }
  }

  // ---- The code ----

  class RegistryObject {
    var contexts: seq<Context>
    var current: Option<string>
    var previous: Option<string>

    ghost function Abs(): Registry
      reads this
    {
      Registry(contexts, current, previous)
    }

    constructor (saved: Registry)
      ensures Abs() == saved
    {
      contexts, current, previous := saved.contexts, saved.current, saved.previous;
    }

    method UseContext(name: string) returns (r: Result<bool, Refusal>)
      modifies this
      ensures Abs() == Next(old(Abs()), Use(name)) && (r.Ok? <==> Apply(old(Abs()), Use(name)).Ok?)
      ensures r.Ok? ==> r.value == (old(current) != Some(name))
    {
      if !HasName(contexts, name) {
        return Err(NoSuchContext);
      }
      if Some(name) == current {
        return Ok(false);
      }
      previous := current;
      current := Some(name);
      r := Ok(true);
    }

    method UsePreviousContext() returns (r: Result<(), Refusal>)
      modifies this
      ensures Abs() == Next(old(Abs()), UsePrevious) && (r.Ok? <==> Apply(old(Abs()), UsePrevious).Ok?)
    {
      if previous.None? || !HasName(contexts, previous.value) {
        return Err(NoPreviousContext);
      }
      current, previous := previous, current;
      r := Ok(());
    }

    method RenameContext(from: string, to: string) returns (r: Result<(), Refusal>)
      modifies this
      ensures Abs() == Next(old(Abs()), Rename(from, to)) && (r.Ok? <==> Apply(old(Abs()), Rename(from, to)).Ok?)
    {
      if !HasName(contexts, from) {
        return Err(NoSuchContext);
      }
      if to == from {
        return Ok(());
      }
      if HasName(contexts, to) {
        return Err(ContextExists);
      }
      var config := Get(contexts, from);
      contexts := Drop(contexts, from);
      contexts := Put(contexts, to, config);
      if current == Some(from) {
        current := Some(to);
      }
      if previous == Some(from) {
        previous := Some(to);
      }
      r := Ok(());
    }

    method DeleteContext(name: string) returns (r: Result<(), Refusal>)
      modifies this
      ensures Abs() == Next(old(Abs()), Delete(name)) && (r.Ok? <==> Apply(old(Abs()), Delete(name)).Ok?)
    {
      if !HasName(contexts, name) {
        return Err(NoSuchContext);
      }
      if Some(name) == current {
        return Err(ContextIsCurrent);
      }
      contexts := Drop(contexts, name);
      if previous == Some(name) {
        previous := None;
      }
      r := Ok(());
    }

    method PickName(config: Config) returns (name: string)
      ensures name == AutoName(config, NamesOf(contexts))
    {
      var existing := NamesOf(contexts);
      var base := BaseName(config);
      if base !in existing {
        return base;
      }
      var i := 2;
      while Suffixed(base, i) in existing
        invariant 2 <= i && FreeSuffix(base, existing, i) == FreeSuffix(base, existing, 2)
        decreases |existing - Tried(base, i)|
      {
        EachTryCounts(base, existing, i);
        i := i + 1;
      }
      name := Suffixed(base, i);
    }

    /** Gives the name under which the context now is. */
    method SaveContext(config: Config, contextName: Option<string>, ephemeral: bool)
      returns (r: Result<string, Refusal>)
      modifies this
      ensures Abs() == Next(old(Abs()), Save(config, contextName, ephemeral))
      ensures r.Ok? <==> Apply(old(Abs()), Save(config, contextName, ephemeral)).Ok?
      ensures r.Ok? ==> contexts == Put(old(contexts), r.value, config)
    {
      if ephemeral {
        return Err(Ephemeral);
      }
      var existing := NameForUrl(contexts, config.directoryUrl, contextName);
      var name: string;
      if contextName.None? {
        if existing.Some? {
          return Err(DuplicateUrl);
        }
        name := PickName(config);
        previous := current;
        current := Some(name);
      } else {
        name := NameOr(existing, contextName.value);
      }
      contexts := Put(contexts, name, config);
      r := Ok(name);
    }

    method SetSessionFingerprint(url: string, fingerprint: Option<string>)
      modifies this
      ensures Abs() == Next(old(Abs()), SetSession(url, fingerprint))
    {
      var name := NameForUrl(contexts, url, None);
      if name.None? {
        return;
      }
      NameForUrlIsThere(contexts, url, None);
      contexts := Put(contexts, name.value, WithSession(Get(contexts, name.value), fingerprint));
    }
  }

  /** The file. Every change is one transaction: read, change, and write back only if nothing was refused. */
  class RegistryFile {
    var saved: Registry
    ghost var ops: seq<Op>

    ghost predicate Valid()
      reads this
    {
      saved == Run(ops)
    }

    constructor ()
      ensures Valid() && saved == Empty && ops == []
    {
      saved, ops := Empty, [];
    }

    method Transaction(op: Op) returns (done: bool)
      requires Valid()
      modifies this
      ensures Valid() && ops == old(ops) + [op]
      ensures done == Apply(old(saved), op).Ok? && saved == Next(old(saved), op)
    {
      var registry := new RegistryObject(saved);
      done := Perform(registry, op);
      if done {
        saved := Registry(registry.contexts, registry.current, registry.previous);
      }
      RunOneMore(ops, op);
      ops := ops + [op];
    }
  }

  lemma RunOneMore(ops: seq<Op>, op: Op)
    ensures Run(ops + [op]) == Next(Run(ops), op)
  {
    assert (ops + [op])[..|ops|] == ops;
  }

  method Perform(registry: RegistryObject, op: Op) returns (done: bool)
    modifies registry
    ensures registry.Abs() == Next(old(registry.Abs()), op) && done == Apply(old(registry.Abs()), op).Ok?
  {
    match op {
      case Save(config, contextName, ephemeral) =>
        var r := registry.SaveContext(config, contextName, ephemeral);
        done := r.Ok?;
      case Use(name) =>
        var r := registry.UseContext(name);
        done := r.Ok?;
      case UsePrevious =>
        var r := registry.UsePreviousContext();
        done := r.Ok?;
      case Rename(from, to) =>
        var r := registry.RenameContext(from, to);
        done := r.Ok?;
      case Delete(name) =>
        var r := registry.DeleteContext(name);
        done := r.Ok?;
      case SetSession(url, fingerprint) =>
        registry.SetSessionFingerprint(url, fingerprint);
        done := true;
    }
  }
}

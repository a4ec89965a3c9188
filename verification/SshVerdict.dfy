/** Session bounds and the two finite forms that hold them: a map from capability to bound,
    and `named`/`other` for commands (src/provablyfine/api/grant.py:333-537).

    A verdict is read through the demands it admits: `Admits(v, d)` says that a session of length
    `d` (or one without end) is allowed. Two verdicts that admit the same demands are equal. */
module SshVerdict {
  import opened Wrappers
  import opened Grants

  /** What a session asks for: one capability, or the right to run one command. */
  datatype Item = Cap(capability: Capability) | Command(command: string)

  /** Denied is not the same as an allowed session without a bound. */
  datatype Verdict = Denied | Allowed(ttl: Ttl)

  predicate Within(d: Ttl, bound: Ttl) {
    bound.Unbounded? || (d.Seconds? && d.s <= bound.s)
  }

  predicate Admits(v: Verdict, d: Ttl) {
    v.Allowed? && Within(d, v.ttl)
  }

  /** Not permitted < a finite bound < unbounded. */
  predicate Leq(v: Verdict, w: Verdict) {
    v.Denied? || (w.Allowed? && Within(v.ttl, w.ttl))
  }

  lemma LeqIsAdmission(v: Verdict, w: Verdict)
    ensures Leq(v, w) <==> forall d :: Admits(v, d) ==> Admits(w, d)
  {
    if v.Allowed? {
      assert Admits(v, v.ttl);
    }
  }

  lemma AdmissionDecides(v: Verdict, w: Verdict)
    requires forall d :: Admits(v, d) <==> Admits(w, d)
    ensures v == w
  {
    LeqIsAdmission(v, w);
    LeqIsAdmission(w, v);
  }

  function TtlMax(a: Ttl, b: Ttl): (r: Ttl)
    ensures forall d :: Within(d, r) <==> Within(d, a) || Within(d, b)
  {
    if a.Unbounded? then Unbounded
    else if b.Unbounded? then Unbounded
    else if a.s >= b.s then a else b
  }

  function TtlMin(a: Ttl, b: Ttl): (r: Ttl)
    ensures forall d :: Within(d, r) <==> Within(d, a) && Within(d, b)
  {
    if a.Unbounded? then b
    else if b.Unbounded? then a
    else if a.s <= b.s then a else b
  }

  function CoveredUnion(a: Verdict, b: Verdict): (r: Verdict)
    ensures forall d :: Admits(r, d) <==> Admits(a, d) || Admits(b, d)
  {
    if a.Denied? then b
    else if b.Denied? then a
    else Allowed(TtlMax(a.ttl, b.ttl))
  }

  function CoveredIntersection(a: Verdict, b: Verdict): (r: Verdict)
    ensures forall d :: Admits(r, d) <==> Admits(a, d) && Admits(b, d)
  {
    if a.Denied? || b.Denied? then Denied
    else Allowed(TtlMin(a.ttl, b.ttl))
  }

  /** A deny entry without a bound removes the item. One with a bound caps it. */
  function CoveredDeny(a: Verdict, ttl: Ttl): (r: Verdict)
    ensures forall d :: Admits(r, d) <==> Admits(a, d) && ttl.Seconds? && Within(d, ttl)
  {
    if a.Denied? || ttl.Unbounded? then Denied
    else Allowed(TtlMin(a.ttl, ttl))
  }

  predicate Names(p: SshPermission, x: Item) {
    match x
    case Cap(k) => p.capabilities.None? || k in p.capabilities.value
    case Command(c) => p.commands.None? || c in p.commands.value
  }

  // ---- The pointwise meaning of a list of entries, one item at a time ----

  /** The largest bound among the entries that name `x`. */
  function Best(ps: seq<SshPermission>, x: Item): Verdict {
    if ps == [] then Denied
    else
      var before := Best(ps[..|ps| - 1], x);
      var p := ps[|ps| - 1];
      if Names(p, x) then CoveredUnion(before, Allowed(p.ttl)) else before
  }

  function Capped(v: Verdict, ceilings: seq<seq<SshPermission>>, x: Item): Verdict {
    if ceilings == [] then v
    else CoveredIntersection(Capped(v, ceilings[..|ceilings| - 1], x), Best(ceilings[|ceilings| - 1], x))
  }

  function Reduced(v: Verdict, denied: seq<SshPermission>, x: Item): Verdict {
    if denied == [] then v
    else
      var before := Reduced(v, denied[..|denied| - 1], x);
      var p := denied[|denied| - 1];
      if Names(p, x) then CoveredDeny(before, p.ttl) else before
  }

  ghost predicate SomeAllows(ps: seq<SshPermission>, x: Item, d: Ttl) {
    exists p :: p in ps && Names(p, x) && Within(d, p.ttl)
  }

  ghost predicate NoneForbids(ps: seq<SshPermission>, x: Item, d: Ttl) {
    forall p :: p in ps && Names(p, x) ==> p.ttl.Seconds? && Within(d, p.ttl)
  }

  lemma SplitLast<T>(s: seq<T>, e: T)
    requires s != []
    ensures e in s <==> e in s[..|s| - 1] || e == s[|s| - 1]
  {
    assert s == s[..|s| - 1] + [s[|s| - 1]];
  }

  lemma {:induction false} BestAdmits(ps: seq<SshPermission>, x: Item, d: Ttl)
    ensures Admits(Best(ps, x), d) <==> SomeAllows(ps, x, d)
  {
    if ps != [] {
      BestAdmits(ps[..|ps| - 1], x, d);
      forall p ensures p in ps <==> p in ps[..|ps| - 1] || p == ps[|ps| - 1] {
        SplitLast(ps, p);
      }
    }
  }

  lemma {:induction false} CappedAdmits(v: Verdict, ceilings: seq<seq<SshPermission>>, x: Item, d: Ttl)
    ensures Admits(Capped(v, ceilings, x), d) <==>
            Admits(v, d) && forall c :: c in ceilings ==> SomeAllows(c, x, d)
  {
    if ceilings != [] {
      var last := ceilings[|ceilings| - 1];
      CappedAdmits(v, ceilings[..|ceilings| - 1], x, d);
      BestAdmits(last, x, d);
      forall c ensures c in ceilings <==> c in ceilings[..|ceilings| - 1] || c == last {
        SplitLast(ceilings, c);
      }
    }
  }

  lemma {:induction false} ReducedAdmits(v: Verdict, denied: seq<SshPermission>, x: Item, d: Ttl)
    ensures Admits(Reduced(v, denied, x), d) <==> Admits(v, d) && NoneForbids(denied, x, d)
  {
    if denied != [] {
      ReducedAdmits(v, denied[..|denied| - 1], x, d);
      forall p ensures p in denied <==> p in denied[..|denied| - 1] || p == denied[|denied| - 1] {
        SplitLast(denied, p);
      }
    }
  }

  // ---- The finite forms ----

  type CapabilityTtl = map<Capability, Ttl>

  /** A capability is granted exactly when it has an entry. */
  function Held(m: CapabilityTtl, k: Capability): Verdict {
    if k in m then Allowed(m[k]) else Denied
  }

  function Capabilities(p: SshPermission): (r: set<Capability>)
    ensures forall k :: k in r <==> Names(p, Cap(k))
  {
    if p.capabilities.None? then
      var all := {Shell, Pty, UserRc, AgentForwarding, X11Forwarding, PortForwarding};
      assert forall k: Capability {:trigger k in all} :: k.Shell? ==> k in all;
      all
    else set k | k in p.capabilities.value
  }

  lemma BestNext(ps: seq<SshPermission>, i: nat, x: Item)
    requires i < |ps|
    ensures Best(ps[..i + 1], x) ==
            if Names(ps[i], x) then CoveredUnion(Best(ps[..i], x), Allowed(ps[i].ttl)) else Best(ps[..i], x)
  {
    assert ps[..i + 1][..i] == ps[..i];
  }

  lemma ReducedNext(v: Verdict, denied: seq<SshPermission>, i: nat, x: Item)
    requires i < |denied|
    ensures Reduced(v, denied[..i + 1], x) ==
            if Names(denied[i], x) then CoveredDeny(Reduced(v, denied[..i], x), denied[i].ttl)
            else Reduced(v, denied[..i], x)
  {
    assert denied[..i + 1][..i] == denied[..i];
  }

  method CapabilitiesAllowedBy(ps: seq<SshPermission>) returns (m: CapabilityTtl)
    ensures forall k :: Held(m, k) == Best(ps, Cap(k))
  {
    m := map[];
    for i := 0 to |ps|
      invariant forall k :: Held(m, k) == Best(ps[..i], Cap(k))
    {
      var p := ps[i];
      ghost var before := m;
      var todo := Capabilities(p);
      while todo != {}
        invariant todo <= Capabilities(p)
        invariant forall k :: k in todo ==> Held(m, k) == Held(before, k)
        invariant forall k :: k !in todo ==>
                    Held(m, k) ==
                    if Names(p, Cap(k)) then CoveredUnion(Held(before, k), Allowed(p.ttl)) else Held(before, k)
        decreases |todo|
      {
        var k :| k in todo;
        m := m[k := if k !in m then p.ttl else TtlMax(m[k], p.ttl)];
        todo := todo - {k};
      }
      forall k ensures Held(m, k) == Best(ps[..i + 1], Cap(k)) {
        BestNext(ps, i, Cap(k));
      }
    }
    assert ps[..|ps|] == ps;
  }

  function CapabilitiesIntersect(m: CapabilityTtl, ceiling: CapabilityTtl): (r: CapabilityTtl)
    ensures forall k :: Held(r, k) == CoveredIntersection(Held(m, k), Held(ceiling, k))
  {
    map k | k in m && k in ceiling :: TtlMin(m[k], ceiling[k])
  }

  method CapabilitiesSubtract(held: CapabilityTtl, denied: seq<SshPermission>) returns (m: CapabilityTtl)
    ensures forall k :: Held(m, k) == Reduced(Held(held, k), denied, Cap(k))
  {
    m := held;
    for i := 0 to |denied|
      invariant forall k :: Held(m, k) == Reduced(Held(held, k), denied[..i], Cap(k))
    {
      var p := denied[i];
      ghost var before := m;
      var todo := Capabilities(p) * m.Keys;
      while todo != {}
        invariant todo <= Capabilities(p) * m.Keys
        invariant forall k :: k in todo ==> Held(m, k) == Held(before, k)
        invariant forall k :: k !in todo ==>
                    Held(m, k) == if Names(p, Cap(k)) then CoveredDeny(Held(before, k), p.ttl) else Held(before, k)
        decreases |todo|
      {
        var k :| k in todo;
        if p.ttl.Unbounded? {
          m := m - {k};
        } else {
          m := m[k := TtlMin(m[k], p.ttl)];
        }
        todo := todo - {k};
      }
      forall k ensures Held(m, k) == Reduced(Held(held, k), denied[..i + 1], Cap(k)) {
        ReducedNext(Held(held, k), denied, i, Cap(k));
      }
    }
    assert denied[..|denied|] == denied;
  }

  /** Which commands may be run. `other` holds for every command that `named` does not mention. */
  datatype CommandPermissions = CommandPermissions(named: map<string, Verdict>, other: Verdict) {

    function Permits(c: string): Verdict {
      if c in named then named[c] else other
    }

    function Intersect(ceiling: CommandPermissions): (r: CommandPermissions)
      ensures forall c :: r.Permits(c) == CoveredIntersection(Permits(c), ceiling.Permits(c))
    {
      CommandPermissions(
        map c | c in named.Keys + ceiling.named.Keys :: CoveredIntersection(Permits(c), ceiling.Permits(c)),
        CoveredIntersection(other, ceiling.other))
    }

    /** The named commands that are allowed, and whether the commands that are not named are. */
    method Candidates() returns (commands: seq<string>, any: bool)
      ensures forall c :: c in commands <==> c in named && named[c].Allowed?
      ensures forall i, j :: 0 <= i < j < |commands| ==> commands[i] != commands[j]
      ensures any <==> other.Allowed?
    {
      commands := [];
      var todo := named.Keys;
      while todo != {}
        invariant todo <= named.Keys
        invariant forall c :: c in commands <==> c in named && c !in todo && named[c].Allowed?
        invariant forall i, j :: 0 <= i < j < |commands| ==> commands[i] != commands[j]
        decreases |todo|
      {
        var c :| c in todo;
        if named[c].Allowed? {
          commands := commands + [c];
        }
        todo := todo - {c};
      }
      any := other.Allowed?;
    }
  }

  /** The row of the list of hosts for the commands of one username, if there is one: a list, or None for any
      command. */
  method CommandRow(p: CommandPermissions) returns (row: Option<Option<seq<string>>>)
    // there is a row exactly when some command is permitted
    ensures row.Some? <==> exists c :: p.Permits(c).Allowed?
    // every permitted command is in it
    ensures row.Some? ==> forall c :: p.Permits(c).Allowed? ==> Shows(row.value, c)
    // and nothing else, exactly when it is a list or no named command is denied
    ensures row.Some? ==> ((forall c :: Shows(row.value, c) ==> p.Permits(c).Allowed?) <==>
                           row.value.Some? || forall c :: c in p.named ==> p.named[c].Allowed?)
  {
    var commands, any := p.Candidates();
    var unnamed := NotNamed(p.named.Keys);
    assert p.Permits(unnamed) == p.other;
    if commands == [] && !any {
      return None;
    }
    if commands != [] {
      assert commands[0] in commands && p.Permits(commands[0]).Allowed?;
    }
    row := Some(if any then None else Some(commands));
    assert forall c :: c in p.named ==> Shows(row.value, c) || p.Permits(c).Denied?;
    assert forall c :: c in p.named ==> p.Permits(c) == p.named[c];
  }

  predicate Shows(commands: Option<seq<string>>, c: string) {
    commands.None? || c in commands.value
  }

  /** There are more command strings than any finite form names. */
  lemma NotNamed(names: set<string>) returns (c: string)
    ensures c !in names
  {
    var n := LongerThanAll(names);
    c := seq(n, i => 'a');
  }

  lemma {:induction false} LongerThanAll(names: set<string>) returns (n: nat)
    ensures forall c :: c in names ==> |c| < n
    decreases |names|
  {
    if c :| c in names {
      var rest := LongerThanAll(names - {c});
      n := if |c| < rest then rest else |c| + 1;
    } else {
      n := 0;
    }
  }

  method CommandsAllowedBy(ps: seq<SshPermission>) returns (r: CommandPermissions)
    ensures forall c :: r.Permits(c) == Best(ps, Command(c))
  {
    var named: map<string, Verdict>, other := map[], Denied;
    for i := 0 to |ps|
      invariant forall c :: CommandPermissions(named, other).Permits(c) == Best(ps[..i], Command(c))
    {
      var p := ps[i];
      var allowed := Allowed(p.ttl);
      assert ps[..i + 1][..i] == ps[..i];
      if p.commands.None? {
        named := map c | c in named :: CoveredUnion(named[c], allowed);
        other := CoveredUnion(other, allowed);
      } else {
        var commands := p.commands.value;
        for j := 0 to |commands|
          invariant forall c :: CommandPermissions(named, other).Permits(c) ==
                                Best(if c in commands[..j] then ps[..i + 1] else ps[..i], Command(c))
        {
          var command := commands[j];
          assert commands[..j + 1] == commands[..j] + [command];
          named := named[command := CoveredUnion(if command in named then named[command] else other, allowed)];
        }
        assert commands[..|commands|] == commands;
      }
    }
    assert ps[..|ps|] == ps;
    r := CommandPermissions(named, other);
  }

  method CommandsSubtract(held: CommandPermissions, denied: seq<SshPermission>) returns (r: CommandPermissions)
    ensures forall c :: r.Permits(c) == Reduced(held.Permits(c), denied, Command(c))
  {
    var named, other := held.named, held.other;
    for i := 0 to |denied|
      invariant forall c :: CommandPermissions(named, other).Permits(c) ==
                            Reduced(held.Permits(c), denied[..i], Command(c))
    {
      var p := denied[i];
      assert denied[..i + 1][..i] == denied[..i];
      if p.commands.None? {
        named := map c | c in named :: CoveredDeny(named[c], p.ttl);
        other := CoveredDeny(other, p.ttl);
      } else {
        var commands := p.commands.value;
        for j := 0 to |commands|
          invariant forall c :: CommandPermissions(named, other).Permits(c) ==
                                Reduced(held.Permits(c),
                                        if c in commands[..j] then denied[..i + 1] else denied[..i], Command(c))
        {
          var command := commands[j];
          assert commands[..j + 1] == commands[..j] + [command];
          named := named[command := CoveredDeny(if command in named then named[command] else other, p.ttl)];
        }
        assert commands[..|commands|] == commands;
      }
    }
    assert denied[..|denied|] == denied;
    r := CommandPermissions(named, other);
  }
}

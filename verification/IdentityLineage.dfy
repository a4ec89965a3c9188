/** Identities create identities. A new identity gets every boundary of its creator and possibly more
    (src/provablyfine/api/endpoints/identity.py:141-150 and 187-239, src/provablyfine/api/model/identity.py:22-39). */
module IdentityLineage {
  import opened Wrappers
  import opened Grants
  import opened SshVerdict
  import opened SshChecker
  import opened AccessChecker

  datatype Identity = Identity(name: string, boundaries: seq<int>, tags: seq<int>, unixUsername: Option<string>)

  /** The identity tables, and the history that they do not keep: what each identity ever created was given,
      and who created it. Ids are handed out in order and are never used again. */
  datatype State = State(rows: map<nat, Identity>, nextId: nat, born: map<nat, seq<int>>, creator: map<nat, nat>)

  datatype Event =
    | CreateEvent(caller: nat, identity: Identity)
    | DeleteEvent(id: nat)
    | UpdateEvent(id: nat, name: string, unixUsername: Option<string>, tags: seq<int>)

  function Next(s: State, e: Event): State {
    match e
    case CreateEvent(caller, identity) =>
      State(s.rows[s.nextId := identity], s.nextId + 1,
            s.born[s.nextId := identity.boundaries], s.creator[s.nextId := caller])
    case DeleteEvent(id) => s.(rows := s.rows - {id})
    case UpdateEvent(id, name, unixUsername, tags) =>
      if id !in s.rows then s
      else s.(rows := s.rows[id := s.rows[id].(name := name, unixUsername := unixUsername, tags := tags)])
  }

  /** Another identity has this name, or this unix username. */
  predicate Clashes(rows: map<nat, Identity>, self: Option<nat>, name: string, unixUsername: Option<string>) {
    exists id :: id in rows && self != Some(id) &&
                 (rows[id].name == name || (unixUsername.Some? && rows[id].unixUsername == unixUsername))
  }

  /** Only an identity that exists can create one, and it passes all its boundaries on. Names and unix usernames are
      unique. */
  predicate Enabled(s: State, e: Event) {
    match e
    case CreateEvent(caller, identity) =>
      caller in s.rows && s.rows[caller].boundaries <= identity.boundaries &&
      !Clashes(s.rows, None, identity.name, identity.unixUsername)
    case DeleteEvent(_) => true
    case UpdateEvent(id, name, unixUsername, _) => !Clashes(s.rows, Some(id), name, unixUsername)
  }

  function Founded(founder: Identity): State {
    State(map[1 := founder], 2, map[1 := founder.boundaries], map[])
  }

  function Run(founder: Identity, events: seq<Event>): State {
    if events == [] then Founded(founder)
    else Next(Run(founder, events[..|events| - 1]), events[|events| - 1])
  }

  ghost predicate PossibleRun(founder: Identity, events: seq<Event>) {
    forall i :: 0 <= i < |events| ==> Enabled(Run(founder, events[..i]), events[i])
  }

  function ToSet<T(==)>(s: seq<T>): set<T> {
    set e | e in s
  }

  /** No two identities have the same name, or the same unix username. */
  ghost predicate UniqueUsers(rows: map<nat, Identity>) {
    forall i, j :: i in rows && j in rows && i != j ==>
      rows[i].name != rows[j].name &&
      (rows[i].unixUsername.None? || rows[i].unixUsername != rows[j].unixUsername)
  }

  /** What identities were given starts with what their creators were given. */
  ghost predicate Lineage(s: State) {
    && (forall id :: id in s.born ==> id < s.nextId)
    && (forall id :: id in s.rows ==> id in s.born && s.rows[id].boundaries == s.born[id])
    && (forall id :: id in s.creator ==> id in s.born && s.creator[id] in s.born && s.creator[id] < id)
    && (forall id :: id in s.creator ==> s.born[s.creator[id]] <= s.born[id])
  }

  ghost predicate Inv(s: State) {
    Lineage(s) && UniqueUsers(s.rows)
  }

  /** `a` is `d`, or created it, directly or through others. */
  predicate Ancestor(s: State, a: nat, d: nat) {
    a == d || (d in s.creator && s.creator[d] < d && Ancestor(s, a, s.creator[d]))
  }

  lemma StepKeepsLineage(s: State, e: Event)
    requires Lineage(s) && Enabled(s, e)
    ensures Lineage(Next(s, e))
  {
  }

  lemma SetKeepsUnique(rows: map<nat, Identity>, id: nat, row: Identity)
    requires UniqueUsers(rows)
    requires forall o :: o in rows && o != id ==>
               rows[o].name != row.name && (row.unixUsername.None? || rows[o].unixUsername != row.unixUsername)
    ensures UniqueUsers(rows[id := row])
  {
  }

  lemma StepKeepsUnique(s: State, e: Event)
    requires Lineage(s) && UniqueUsers(s.rows) && Enabled(s, e)
    ensures UniqueUsers(Next(s, e).rows)
  {
    match e
    case CreateEvent(caller, identity) => SetKeepsUnique(s.rows, s.nextId, identity);
    case DeleteEvent(id) => assert forall o :: o in s.rows - {id} ==> o in s.rows && (s.rows - {id})[o] == s.rows[o];
    case UpdateEvent(id, name, unixUsername, tags) =>
      if id in s.rows {
        SetKeepsUnique(s.rows, id, s.rows[id].(name := name, unixUsername := unixUsername, tags := tags));
      }
  }

  lemma StepKeepsInv(s: State, e: Event)
    requires Inv(s) && Enabled(s, e)
    ensures Inv(Next(s, e))
  {
    StepKeepsLineage(s, e);
    StepKeepsUnique(s, e);
  }

  lemma {:induction false} EveryRunKeepsInv(founder: Identity, events: seq<Event>)
    requires PossibleRun(founder, events)
    ensures Inv(Run(founder, events))
  {
    if events != [] {
      var before := events[..|events| - 1];
      assert forall i :: 0 <= i < |before| ==> before[..i] == events[..i];
      EveryRunKeepsInv(founder, before);
      StepKeepsInv(Run(founder, before), events[|events| - 1]);
    }
  }

  lemma {:induction false} AncestorBoundariesArePassedOn(s: State, a: nat, d: nat)
    requires Inv(s) && d in s.born && Ancestor(s, a, d)
    ensures a in s.born && ToSet(s.born[a]) <= ToSet(s.born[d])
    decreases d
  {
    if a != d {
      AncestorBoundariesArePassedOn(s, a, s.creator[d]);
      assert s.born[s.creator[d]] <= s.born[d];
      assert forall e :: e in s.born[s.creator[d]] ==> e in s.born[d];
    }
  }

  /** After any run, whatever the boundaries now contain and whatever the roles: no check lets a descendant
      through that does not let each of its ancestors through. */
  lemma DescendantCanDoNoMore(
    founder: Identity, events: seq<Event>, a: nat, d: nat,
    table: seq<Boundary>, roles: seq<Role>, matches: Grant -> bool)
    requires PossibleRun(founder, events)
    requires var s := Run(founder, events); d in s.born && Ancestor(s, a, d)
    ensures var s := Run(founder, events);
            a in s.born &&
            (Can(BoundariesOf(table, ToSet(s.born[d])), roles, matches) ==>
             Can(BoundariesOf(table, ToSet(s.born[a])), roles, matches))
  {
    var s := Run(founder, events);
    EveryRunKeepsInv(founder, events);
    AncestorBoundariesArePassedOn(s, a, d);
    var tight, loose := BoundariesOf(table, ToSet(s.born[d])), BoundariesOf(table, ToSet(s.born[a]));
    if Can(tight, roles, matches) {
      forall b | b in loose ensures b in tight && NoLooser(b, b) {
      }
      TighterNeverAllowsMore(tight, roles, loose, roles, matches);
    }
  }

  // ---- SSH sessions ----

  /** One and the same caller is given no more under more boundaries. */
  lemma MoreBoundariesGiveNoMoreSsh(table: seq<Boundary>, ba: set<int>, bd: set<int>, roles: seq<Role>, ask: Ask)
    requires ba <= bd
    ensures Leq(SshVerdictOf(BoundariesOf(table, bd), roles, ask), SshVerdictOf(BoundariesOf(table, ba), roles, ask))
  {
    SubsetOfBoundaries(BoundariesOf(table, bd), BoundariesOf(table, ba));
    SubsetOfRoles(roles, roles);
    TighterNeverRaises(BoundariesOf(table, bd), roles, BoundariesOf(table, ba), roles, ask);
  }

  /** Whatever the roles and boundaries contain: as this username on a host, the second of two callers, with these
      boundaries and unix usernames, is given nothing that the first is not, nor for longer. */
  ghost predicate NeverMoreSsh(ba: set<int>, bd: set<int>, ua: Option<string>, ud: Option<string>, name: string) {
    forall table: seq<Boundary>, roles: seq<Role>, t: Target, x: Item ::
      Leq(SshVerdictOf(BoundariesOf(table, bd), roles, Ask(t, User(name, ud), x)),
          SshVerdictOf(BoundariesOf(table, ba), roles, Ask(t, User(name, ua), x)))
  }

  /** `{self}` gives this username to the second caller only if it does to the first. And it denies it to the first
      only if it does to the second, or if the first has no boundary, so that nothing is denied. */
  predicate SelfIsHarmless(ba: set<int>, ua: Option<string>, ud: Option<string>, name: string) {
    (ud == Some(name) ==> ua == Some(name)) && (ua == Some(name) ==> ud == Some(name) || ba == {})
  }

  lemma NeverMoreSshIff(ba: set<int>, bd: set<int>, ua: Option<string>, ud: Option<string>, name: string)
    requires ba <= bd
    ensures NeverMoreSsh(ba, bd, ua, ud, name) <==> SelfIsHarmless(ba, ua, ud, name)
  {
    if SelfIsHarmless(ba, ua, ud, name) {
      forall table: seq<Boundary>, roles: seq<Role>, t: Target, x: Item
        ensures Leq(SshVerdictOf(BoundariesOf(table, bd), roles, Ask(t, User(name, ud), x)),
                    SshVerdictOf(BoundariesOf(table, ba), roles, Ask(t, User(name, ua), x)))
      {
        HarmlessSelfGivesNoMore(table, ba, bd, roles, t, ua, ud, name, x);
      }
    } else if ud == Some(name) {
      SelfInARole(ba, bd, ua, ud, name);
    } else {
      SelfInADeny(ba, bd, ua, ud, name);
    }
  }

  lemma CoversAsMuch(p: SshPermission, ua: Option<string>, ud: Option<string>, name: string)
    requires ud == Some(name) ==> ua == Some(name)
    ensures Covers(p, User(name, ud)) ==> Covers(p, User(name, ua))
  {
    if p.usernames.Some? && Covers(p, User(name, ud)) {
      var e :| e in p.usernames.value && ResolveUsername(e, ud) == Some(name);
      assert ResolveUsername(e, ua) == Some(name);
    }
  }

  lemma HarmlessSelfGivesNoMore(
    table: seq<Boundary>, ba: set<int>, bd: set<int>, roles: seq<Role>, t: Target,
    ua: Option<string>, ud: Option<string>, name: string, x: Item)
    requires ba <= bd && SelfIsHarmless(ba, ua, ud, name)
    ensures Leq(SshVerdictOf(BoundariesOf(table, bd), roles, Ask(t, User(name, ud), x)),
                SshVerdictOf(BoundariesOf(table, ba), roles, Ask(t, User(name, ua), x)))
  {
    var askA, askD := Ask(t, User(name, ua), x), Ask(t, User(name, ud), x);
    forall g | Reaches(g, askD) ensures Reaches(g, askA) {
      CoversAsMuch(g.permission, ua, ud, name);
    }
    if ba == {} {
      assert forall b :: b !in BoundariesOf(table, ba);
    } else {
      forall g | Reaches(g, askA) ensures Reaches(g, askD) {
        CoversAsMuch(g.permission, ud, ua, name);
      }
    }
    SameReachGivesNoMore(BoundariesOf(table, ba), roles, askA, askD);
    MoreBoundariesGiveNoMoreSsh(table, ba, bd, roles, askD);
  }

  lemma GivesToBoth(gs: seq<Grant>, askA: Ask, askD: Ask, d: Ttl)
    requires forall g :: g in gs && Reaches(g, askD) ==> Reaches(g, askA)
    requires GivenBy(gs, askD, d)
    ensures GivenBy(gs, askA, d)
  {
    var g :| g in gs && Reaches(g, askD) && Within(d, g.permission.ttl);
    assert Reaches(g, askA);
  }

  ghost predicate ReachesLess(b: Boundary, askA: Ask, askD: Ask) {
    && (b.ceiling.Some? ==> forall g :: g in b.ceiling.value && Reaches(g, askD) ==> Reaches(g, askA))
    && (forall g :: g in b.denied && Reaches(g, askA) ==> Reaches(g, askD))
  }

  lemma AllowsToBoth(b: Boundary, askA: Ask, askD: Ask, d: Ttl)
    requires ReachesLess(b, askA, askD) && AllowedUnder(b, askD, d)
    ensures AllowedUnder(b, askA, d)
  {
    if b.ceiling.Some? {
      GivesToBoth(b.ceiling.value, askA, askD, d);
    }
  }

  lemma SameReachGivesNoMore(bs: seq<Boundary>, roles: seq<Role>, askA: Ask, askD: Ask)
    requires forall r, g :: r in roles && g in r.grants && Reaches(g, askD) ==> Reaches(g, askA)
    requires forall b :: b in bs ==> ReachesLess(b, askA, askD)
    ensures Leq(SshVerdictOf(bs, roles, askD), SshVerdictOf(bs, roles, askA))
  {
    forall d ensures Admits(SshVerdictOf(bs, roles, askD), d) ==> Admits(SshVerdictOf(bs, roles, askA), d) {
      DecideIsPointwise(bs, roles, askD, d);
      DecideIsPointwise(bs, roles, askA, d);
      if Authorised(bs, roles, askD, d) {
        var r :| r in roles && GivenBy(r.grants, askD, d);
        GivesToBoth(r.grants, askA, askD, d);
        forall b | b in bs ensures AllowedUnder(b, askA, d) {
          AllowsToBoth(b, askA, askD, d);
        }
      }
    }
    LeqIsAdmission(SshVerdictOf(bs, roles, askD), SshVerdictOf(bs, roles, askA));
  }

  const EVERYWHERE := TripletFilter(None, None, None)

  /** Everything on every host, to these usernames. */
  function AllFor(usernames: Option<seq<string>>): Grant {
    SshGrant(EVERYWHERE, SshPermission(usernames, None, None, Unbounded))
  }

  lemma AllForReaches(usernames: Option<seq<string>>, ask: Ask)
    ensures Reaches(AllFor(usernames), ask) <==> Covers(AllFor(usernames).permission, ask.who)
  {
  }

  lemma SelfCovers(name: string, unixUsername: Option<string>)
    ensures Covers(AllFor(Some([SELF])).permission, User(name, unixUsername)) <==> unixUsername == Some(name)
  {
    assert SELF in [SELF] && ResolveUsername(SELF, unixUsername) == unixUsername;
  }

  lemma SelfInARole(ba: set<int>, bd: set<int>, ua: Option<string>, ud: Option<string>, name: string)
    requires ud == Some(name) && ua != Some(name)
    ensures !NeverMoreSsh(ba, bd, ua, ud, name)
  {
    var g := AllFor(Some([SELF]));
    var role := Role(1, "", "", [g]);
    var t, x := Target(1, [], []), Cap(Shell);
    var askA, askD := Ask(t, User(name, ua), x), Ask(t, User(name, ud), x);
    SelfCovers(name, ua);
    SelfCovers(name, ud);
    AllForReaches(Some([SELF]), askA);
    AllForReaches(Some([SELF]), askD);
    assert g in role.grants && role in [role] && GivenBy(role.grants, askD, Unbounded);
    DecideIsPointwise([], [role], askD, Unbounded);
    DecideIsPointwise([], [role], askA, Unbounded);
    assert BoundariesOf([], ba) == [] && BoundariesOf([], bd) == [];
    assert !Leq(SshVerdictOf(BoundariesOf([], bd), [role], askD), SshVerdictOf(BoundariesOf([], ba), [role], askA));
  }

  lemma RemovedByADeny(bs: seq<Boundary>, roles: seq<Role>, ask: Ask, b: Boundary, deny: Grant)
    requires b in bs && deny in b.denied && Reaches(deny, ask) && deny.permission.ttl.Unbounded?
    ensures SshVerdictOf(bs, roles, ask) == Denied
  {
    var v := SshVerdictOf(bs, roles, ask);
    if v.Allowed? {
      DecideIsPointwise(bs, roles, ask, v.ttl);
    }
  }

  lemma GivenEverything(bs: seq<Boundary>, ask: Ask)
    requires forall b :: b in bs ==> b.ceiling.None? && NotDeniedBy(b.denied, ask, Unbounded)
    ensures SshVerdictOf(bs, [Role(1, "", "", [AllFor(None)])], ask) == Allowed(Unbounded)
  {
    var role := Role(1, "", "", [AllFor(None)]);
    AllForReaches(None, ask);
    assert AllFor(None) in role.grants && role in [role] && GivenBy(role.grants, ask, Unbounded);
    DecideIsPointwise(bs, [role], ask, Unbounded);
  }

  lemma Member<T>(s: set<T>) returns (e: T)
    requires s != {}
    ensures e in s
  {
    e :| e in s;
  }

  lemma OnceIsMore(
    ba: set<int>, bd: set<int>, ua: Option<string>, ud: Option<string>, name: string,
    table: seq<Boundary>, roles: seq<Role>, t: Target, x: Item)
    requires SshVerdictOf(BoundariesOf(table, ba), roles, Ask(t, User(name, ua), x)) == Denied
    requires SshVerdictOf(BoundariesOf(table, bd), roles, Ask(t, User(name, ud), x)) == Allowed(Unbounded)
    ensures !NeverMoreSsh(ba, bd, ua, ud, name)
  {
    assert !Leq(SshVerdictOf(BoundariesOf(table, bd), roles, Ask(t, User(name, ud), x)),
                SshVerdictOf(BoundariesOf(table, ba), roles, Ask(t, User(name, ua), x)));
  }

  lemma SelfInADeny(ba: set<int>, bd: set<int>, ua: Option<string>, ud: Option<string>, name: string)
    requires ba <= bd && ba != {} && ua == Some(name) && ud != Some(name)
    ensures !NeverMoreSsh(ba, bd, ua, ud, name)
  {
    var id := Member(ba);
    var b := Boundary(id, "", "", None, [AllFor(Some([SELF]))]);
    var roles := [Role(1, "", "", [AllFor(None)])];
    var t, x := Target(1, [], []), Cap(Shell);
    assert b in [b] && b in BoundariesOf([b], ba);
    DeniedToSelf(BoundariesOf([b], ba), roles, b, t, ua, name, x);
    assert forall c :: c in BoundariesOf([b], bd) ==> c == b;
    GivenToOthers(BoundariesOf([b], bd), b, t, ud, name, x);
    OnceIsMore(ba, bd, ua, ud, name, [b], roles, t, x);
  }

  lemma DeniedToSelf(
    bs: seq<Boundary>, roles: seq<Role>, b: Boundary, t: Target, u: Option<string>, name: string, x: Item)
    requires b in bs && b.denied == [AllFor(Some([SELF]))] && u == Some(name)
    ensures SshVerdictOf(bs, roles, Ask(t, User(name, u), x)) == Denied
  {
    SelfCovers(name, u);
    AllForReaches(Some([SELF]), Ask(t, User(name, u), x));
    assert b.denied[0] in b.denied;
    RemovedByADeny(bs, roles, Ask(t, User(name, u), x), b, b.denied[0]);
  }

  lemma GivenToOthers(bs: seq<Boundary>, b: Boundary, t: Target, u: Option<string>, name: string, x: Item)
    requires b.ceiling.None? && b.denied == [AllFor(Some([SELF]))] && u != Some(name)
    requires forall c :: c in bs ==> c == b
    ensures SshVerdictOf(bs, [Role(1, "", "", [AllFor(None)])], Ask(t, User(name, u), x)) == Allowed(Unbounded)
  {
    SelfCovers(name, u);
    AllForReaches(Some([SELF]), Ask(t, User(name, u), x));
    GivenEverything(bs, Ask(t, User(name, u), x));
  }

  /** After any run, for an identity and one of its ancestors that both still exist, each with its own unix username:
      as which usernames the descendant is never given more. */
  lemma DescendantGetsNoMoreAsIff(founder: Identity, events: seq<Event>, a: nat, d: nat, name: string)
    requires PossibleRun(founder, events)
    requires var s := Run(founder, events); a in s.rows && d in s.rows && Ancestor(s, a, d)
    ensures var s := Run(founder, events);
            var ba, bd := ToSet(s.rows[a].boundaries), ToSet(s.rows[d].boundaries);
            var ua, ud := s.rows[a].unixUsername, s.rows[d].unixUsername;
            NeverMoreSsh(ba, bd, ua, ud, name) <==> SelfIsHarmless(ba, ua, ud, name)
  {
    var s := Run(founder, events);
    EveryRunKeepsInv(founder, events);
    AncestorBoundariesArePassedOn(s, a, d);
    NeverMoreSshIff(ToSet(s.rows[a].boundaries), ToSet(s.rows[d].boundaries),
                    s.rows[a].unixUsername, s.rows[d].unixUsername, name);
  }

  /** The descendant is never given more, under any username, exactly when it has no unix username and its ancestor has
      none either or no boundary. Two identities never share a unix username. */
  lemma DescendantGetsNoMoreSshIff(founder: Identity, events: seq<Event>, a: nat, d: nat)
    requires PossibleRun(founder, events) && a != d
    requires var s := Run(founder, events); a in s.rows && d in s.rows && Ancestor(s, a, d)
    ensures var s := Run(founder, events);
            var ba, bd := ToSet(s.rows[a].boundaries), ToSet(s.rows[d].boundaries);
            var ua, ud := s.rows[a].unixUsername, s.rows[d].unixUsername;
            (forall name :: NeverMoreSsh(ba, bd, ua, ud, name)) <==> ud.None? && (ua.None? || ba == {})
  {
    var s := Run(founder, events);
    var ba, bd := ToSet(s.rows[a].boundaries), ToSet(s.rows[d].boundaries);
    var ua, ud := s.rows[a].unixUsername, s.rows[d].unixUsername;
    EveryRunKeepsInv(founder, events);
    forall name ensures NeverMoreSsh(ba, bd, ua, ud, name) <==> SelfIsHarmless(ba, ua, ud, name) {
      DescendantGetsNoMoreAsIff(founder, events, a, d, name);
    }
    if ud.Some? {
      assert !SelfIsHarmless(ba, ua, ud, ud.value);
    } else if ua.Some? && ba != {} {
      assert !SelfIsHarmless(ba, ua, ud, ua.value);
    }
  }

  predicate ListsSelf(g: Grant) {
    g.SshGrant? && g.permission.usernames.Some? && SELF in g.permission.usernames.value
  }

  predicate NoneListsSelf(gs: seq<Grant>) {
    forall g :: g in gs ==> !ListsSelf(g)
  }

  lemma ReachesWithoutSelf(g: Grant, t: Target, name: string, u: Option<string>, v: Option<string>, x: Item)
    requires !ListsSelf(g) && Reaches(g, Ask(t, User(name, u), x))
    ensures Reaches(g, Ask(t, User(name, v), x))
  {
  }

  /** As long as no SSH grant lists `{self}`, a descendant is given no SSH capability or command that an ancestor is
      not, nor for longer, whatever the unix usernames of the two. */
  lemma DescendantGetsNoMoreSsh(
    founder: Identity, events: seq<Event>, a: nat, d: nat, table: seq<Boundary>, roles: seq<Role>,
    t: Target, name: string, ua: Option<string>, ud: Option<string>, x: Item)
    requires PossibleRun(founder, events)
    requires var s := Run(founder, events); d in s.born && Ancestor(s, a, d)
    requires forall r :: r in roles ==> NoneListsSelf(r.grants)
    requires forall b :: b in table ==> NoneListsSelf(b.denied) && (b.ceiling.Some? ==> NoneListsSelf(b.ceiling.value))
    ensures var s := Run(founder, events);
            a in s.born &&
            Leq(SshVerdictOf(BoundariesOf(table, ToSet(s.born[d])), roles, Ask(t, User(name, ud), x)),
                SshVerdictOf(BoundariesOf(table, ToSet(s.born[a])), roles, Ask(t, User(name, ua), x)))
  {
    var s := Run(founder, events);
    EveryRunKeepsInv(founder, events);
    AncestorBoundariesArePassedOn(s, a, d);
    var askA, askD := Ask(t, User(name, ua), x), Ask(t, User(name, ud), x);
    forall g | !ListsSelf(g) ensures Reaches(g, askA) <==> Reaches(g, askD) {
      if Reaches(g, askA) {
        ReachesWithoutSelf(g, t, name, ua, ud, x);
      }
      if Reaches(g, askD) {
        ReachesWithoutSelf(g, t, name, ud, ua, x);
      }
    }
    SameReachGivesNoMore(BoundariesOf(table, ToSet(s.born[a])), roles, askA, askD);
    MoreBoundariesGiveNoMoreSsh(table, ToSet(s.born[a]), ToSet(s.born[d]), roles, askD);
  }

  const ALICE := Identity("alice", [1], [], Some("alice"))
  const BOB := Identity("bob", [1], [], Some("bob"))

  lemma AliceCreatesBob()
    ensures var events := [CreateEvent(1, BOB)];
            var s := Run(ALICE, events);
            PossibleRun(ALICE, events) && s.rows == map[1 := ALICE, 2 := BOB] && Ancestor(s, 1, 2)
  {
    var events := [CreateEvent(1, BOB)];
    assert events[..0] == [];
    assert Run(ALICE, events[..0]) == Founded(ALICE);
    assert Run(ALICE, events) == Next(Founded(ALICE), events[0]);
    assert map[1 := ALICE][2 := BOB] == map[1 := ALICE, 2 := BOB];
    var s := Run(ALICE, events);
    assert s.creator[2] == 1 && Ancestor(s, 1, 1);
  }

  /** Alice creates bob under her own boundary, which lets everyone have sessions as themselves only: bob can now have
      a shell as bob, which alice, who created him, cannot. */
  lemma SelfGivesTheDescendantMore(d: Ttl)
    ensures var events := [CreateEvent(1, BOB)];
            var s := Run(ALICE, events);
            var table := [Boundary(1, "own", "", Some([AllFor(Some([SELF]))]), [])];
            var roles := [Role(1, "all", "", [AllFor(None)])];
            && PossibleRun(ALICE, events) && Ancestor(s, 1, 2) && 1 in s.rows && 2 in s.rows
            && Authorised(BoundariesOf(table, ToSet(s.rows[2].boundaries)), roles,
                          Ask(Target(1, [], []), User("bob", s.rows[2].unixUsername), Cap(Shell)), d)
            && !Authorised(BoundariesOf(table, ToSet(s.rows[1].boundaries)), roles,
                           Ask(Target(1, [], []), User("bob", s.rows[1].unixUsername), Cap(Shell)), d)
  {
    AliceCreatesBob();
    var own, all := AllFor(Some([SELF])), AllFor(None);
    var table, roles := [Boundary(1, "own", "", Some([own]), [])], [Role(1, "all", "", [all])];
    var asBob, asAlice := Ask(Target(1, [], []), User("bob", Some("bob")), Cap(Shell)),
                          Ask(Target(1, [], []), User("bob", Some("alice")), Cap(Shell));
    SelfCovers("bob", Some("bob"));
    SelfCovers("bob", Some("alice"));
    AllForReaches(Some([SELF]), asBob);
    AllForReaches(Some([SELF]), asAlice);
    AllForReaches(None, asBob);
    assert own in [own] && all in [all] && GivenBy([own], asBob, d) && GivenBy([all], asBob, d);
    assert roles[0] in roles && table[0] in table;
    assert 1 in ToSet([1]) && table[0] in BoundariesOf(table, ToSet([1]));
    assert !GivenBy([own], asAlice, d);
  }

  // ---- The endpoint ----

  datatype Problem = InvalidFields | NotAllowed | InvalidUnixUsername | AlreadyExists | NotFound

  datatype CreateRequest = CreateRequest(
    name: string, boundaryIds: seq<int>, boundaryNames: seq<string>,
    tagIds: seq<int>, tagNames: seq<(string, string)>, unixUsername: Option<string>)

  datatype Tag = Tag(id: int, name: string, value: string)

  /** The id of the tag with this name and value. They are unique together. */
  function TagNamed(tags: seq<Tag>, wanted: (string, string)): (r: Option<int>)
    ensures r.Some? ==> Tag(r.value, wanted.0, wanted.1) in tags
    ensures r.None? ==> forall t :: t in tags ==> (t.name, t.value) != wanted
  {
    if tags == [] then None
    else if (tags[0].name, tags[0].value) == wanted then Some(tags[0].id)
    else TagNamed(tags[1..], wanted)
  }

  /** `ids` are the tags with these names and values, in order. */
  ghost predicate AreNamed(tags: seq<Tag>, ids: seq<int>, wanted: seq<(string, string)>) {
    |ids| == |wanted| && forall i :: 0 <= i < |ids| ==> TagNamed(tags, wanted[i]) == Some(ids[i])
  }

  /** Each tag is there, and none is asked for twice. */
  ghost predicate TagsFound(tags: seq<Tag>, request: CreateRequest, ids: seq<int>) {
    && (forall id :: id in request.tagIds ==> exists t :: t in tags && t.id == id)
    && |ids| == |request.tagNames| + |request.tagIds|
    && AreNamed(tags, ids[..|request.tagNames|], request.tagNames) && ids[|request.tagNames|..] == request.tagIds
    && NoDuplicates(ids)
  }

  method ReadTagIds(tags: seq<Tag>, request: CreateRequest) returns (r: Result<seq<int>, Problem>)
    ensures r.Ok? ==> TagsFound(tags, request, r.value)
    ensures r.Err? ==> r == Err(InvalidFields) && forall ids :: !TagsFound(tags, request, ids)
  {
    if exists id :: id in request.tagIds && !exists t :: t in tags && t.id == id {
      return Err(InvalidFields);
    }
    var named: seq<int> := [];
    for i := 0 to |request.tagNames|
      invariant AreNamed(tags, named, request.tagNames[..i])
    {
      var tag := TagNamed(tags, request.tagNames[i]);
      if tag.None? {
        forall ids ensures !TagsFound(tags, request, ids) {
          assert |ids| == |request.tagNames| + |request.tagIds| ==> |ids[..|request.tagNames|]| == |request.tagNames|;
        }
        return Err(InvalidFields);
      }
      named := named + [tag.value];
    }
    assert request.tagNames[..|request.tagNames|] == request.tagNames;
    var all := named + request.tagIds;
    assert all[..|request.tagNames|] == named && all[|request.tagNames|..] == request.tagIds;
    SizeOfSet(all);
    if |ToSet(all)| != |all| {
      forall ids ensures !TagsFound(tags, request, ids) {
        if TagsFound(tags, request, ids) {
          TagsAreDetermined(tags, request, ids, all);
          assert false;
        }
      }
      return Err(InvalidFields);
    }
    r := Ok(all);
  }

  lemma TagsAreDetermined(tags: seq<Tag>, request: CreateRequest, ids: seq<int>, all: seq<int>)
    requires TagsFound(tags, request, ids)
    requires |all| == |request.tagNames| + |request.tagIds|
    requires AreNamed(tags, all[..|request.tagNames|], request.tagNames) && all[|request.tagNames|..] == request.tagIds
    ensures ids == all
  {
    var n := |request.tagNames|;
    assert ids[..n] == all[..n];
    assert ids == ids[..n] + ids[n..] && all == all[..n] + all[n..];
  }

  function NamedBoundaries(table: seq<Boundary>, names: seq<string>): seq<int> {
    if table == [] then []
    else (if table[0].name in names then [table[0].id] else []) + NamedBoundaries(table[1..], names)
  }

  /** They are the ids of the boundaries with these names. */
  lemma {:induction false} NamedBoundariesAre(table: seq<Boundary>, names: seq<string>)
    ensures forall id :: id in NamedBoundaries(table, names) <==>
                         exists b :: b in table && b.id == id && b.name in names
  {
    if table != [] {
      NamedBoundariesAre(table[1..], names);
      assert forall b :: b in table <==> b == table[0] || b in table[1..];
    }
  }

  predicate NoDuplicates<T(==)>(s: seq<T>) {
    forall i, j :: 0 <= i < j < |s| ==> s[i] != s[j]
  }

  function TableNames(table: seq<Boundary>): set<string> {
    set b | b in table :: b.name
  }

  ghost predicate UniqueNames(table: seq<Boundary>) {
    forall i, j :: 0 <= i < j < |table| ==> table[i].name != table[j].name
  }

  lemma FirstName(table: seq<Boundary>)
    requires table != [] && UniqueNames(table)
    ensures UniqueNames(table[1..]) && table[0].name !in TableNames(table[1..])
    ensures TableNames(table) == {table[0].name} + TableNames(table[1..])
  {
    assert forall b :: b in table <==> b == table[0] || b in table[1..];
  }

  lemma MeetSplits<T>(first: T, rest: set<T>, s: set<T>)
    requires first !in rest
    ensures |({first} + rest) * s| == |rest * s| + if first in s then 1 else 0
  {
    if first in s {
      assert ({first} + rest) * s == {first} + rest * s;
    } else {
      assert ({first} + rest) * s == rest * s;
    }
  }

  lemma {:induction false} NamedCount(table: seq<Boundary>, names: seq<string>)
    requires UniqueNames(table)
    ensures |NamedBoundaries(table, names)| == |TableNames(table) * ToSet(names)|
  {
    if table != [] {
      FirstName(table);
      NamedCount(table[1..], names);
      MeetSplits(table[0].name, TableNames(table[1..]), ToSet(names));
    }
  }

  lemma SubsetOfSameSize<T>(a: set<T>, b: set<T>)
    requires a <= b && |a| == |b|
    ensures a == b
  {
    if e :| e in b && e !in a {
      SubsetIsSmaller(a, b - {e});
    }
  }

  lemma {:induction false} SubsetIsSmaller<T>(a: set<T>, b: set<T>)
    requires a <= b
    ensures |a| <= |b|
    decreases a
  {
    if e :| e in a {
      SubsetIsSmaller(a - {e}, b - {e});
    }
  }

  /** Comparing the two counts, as the endpoint does, is enough: they are equal exactly when each requested name
      is asked for once and names a boundary. Boundary names are unique in the table. */
  lemma NamesResolveIff(table: seq<Boundary>, names: seq<string>)
    requires UniqueNames(table)
    ensures |NamedBoundaries(table, names)| == |names| <==> NoDuplicates(names) && ToSet(names) <= TableNames(table)
  {
    var found := TableNames(table) * ToSet(names);
    NamedCount(table, names);
    SizeOfSet(names);
    SubsetIsSmaller(found, ToSet(names));
    if |found| == |names| {
      SubsetOfSameSize(found, ToSet(names));
    }
    if ToSet(names) <= TableNames(table) {
      assert found == ToSet(names);
    }
  }

  function Additional(table: seq<Boundary>, request: CreateRequest): seq<int> {
    NamedBoundaries(table, request.boundaryNames) + request.boundaryIds
  }

  lemma RequestedBoundaries(own: seq<int>, table: seq<Boundary>, request: CreateRequest)
    ensures forall b :: b in own + Additional(table, request) <==>
                        b in own || b in request.boundaryIds ||
                        exists row :: row in table && row.id == b && row.name in request.boundaryNames
  {
    NamedBoundariesAre(table, request.boundaryNames);
  }

  predicate NamesFound(table: seq<Boundary>, request: CreateRequest) {
    |NamedBoundaries(table, request.boundaryNames)| == |request.boundaryNames|
  }

  class IdentityTable {
    var rows: map<nat, Identity>
    var nextId: nat
    ghost var born: map<nat, seq<int>>
    ghost var creator: map<nat, nat>

    ghost function Abs(): State
      reads this
    {
      State(rows, nextId, born, creator)
    }

    ghost predicate Valid()
      reads this
    {
      Inv(Abs())
    }

    constructor (founder: Identity)
      ensures Abs() == Founded(founder) && Valid()
    {
      rows, nextId, born, creator := map[1 := founder], 2, map[1 := founder.boundaries], map[];
    }

    /** `mayCreate` is the permission check for these tags and additional boundaries,
        `unixUsernameIsFine` says that the username is valid and not privileged. */
    method Check(
        caller: nat, request: CreateRequest, table: seq<Boundary>, tags: seq<Tag>, roles: seq<Role>,
        mayCreate: (seq<int>, seq<int>) -> (Grant -> bool), unixUsernameIsFine: string -> bool)
      returns (r: Result<Identity, Problem>, ghost tagIds: seq<int>)
      requires caller in rows
      ensures NamesFound(table, request) && (exists ids :: TagsFound(tags, request, ids)) ==>
                TagsFound(tags, request, tagIds)
      ensures var own := rows[caller].boundaries;
              var all := own + Additional(table, request);
              var found := NamesFound(table, request) && TagsFound(tags, request, tagIds);
              var allowed := Can(BoundariesOf(table, ToSet(own)), roles, mayCreate(tagIds, Additional(table, request)));
              var fine := request.unixUsername.Some? ==> unixUsernameIsFine(request.unixUsername.value);
              r == if !found then Err(InvalidFields)
                   else if !allowed then Err(NotAllowed)
                   else if !NoDuplicates(all) then Err(InvalidFields)
                   else if !fine then Err(InvalidUnixUsername)
                   else if Clashes(rows, None, request.name, request.unixUsername) then Err(AlreadyExists)
                   else Ok(Identity(request.name, all, tagIds, request.unixUsername))
    {
      tagIds := [];
      var named := NamedBoundaries(table, request.boundaryNames);
      if |named| != |request.boundaryNames| {
        return Err(InvalidFields), [];
      }
      var additional := named + request.boundaryIds;
      var read := ReadTagIds(tags, request);
      if read.Err? {
        return Err(InvalidFields), [];
      }
      tagIds := read.value;
      var own := rows[caller].boundaries;
      var allowed := ListCan(BoundariesOf(table, ToSet(own)), roles, mayCreate(read.value, additional));
      if allowed == [] {
        r := Err(NotAllowed);
        return;
      }
      var all := own + additional;
      SizeOfSet(all);
      if |ToSet(all)| != |all| {
        r := Err(InvalidFields);
        return;
      }
      if request.unixUsername.Some? && !unixUsernameIsFine(request.unixUsername.value) {
        r := Err(InvalidUnixUsername);
        return;
      }
      if Clashes(rows, None, request.name, request.unixUsername) {
        r := Err(AlreadyExists);
        return;
      }
      r := Ok(Identity(request.name, all, read.value, request.unixUsername));
    }

    method Create(
        caller: nat, request: CreateRequest, table: seq<Boundary>, tags: seq<Tag>, roles: seq<Role>,
        mayCreate: (seq<int>, seq<int>) -> (Grant -> bool), unixUsernameIsFine: string -> bool)
      returns (r: Result<nat, Problem>, ghost tagIds: seq<int>)
      requires Valid()
      requires caller in rows
      modifies this
      ensures Valid()
      ensures NamesFound(table, request) && (exists ids :: TagsFound(tags, request, ids)) ==>
                TagsFound(tags, request, tagIds)
      // which of the refusals a request gets, without a change
      ensures var own := old(rows)[caller].boundaries;
              var all := own + Additional(table, request);
              var found := NamesFound(table, request) && TagsFound(tags, request, tagIds);
              var allowed := Can(BoundariesOf(table, ToSet(own)), roles, mayCreate(tagIds, Additional(table, request)));
              var fine := request.unixUsername.Some? ==> unixUsernameIsFine(request.unixUsername.value);
              if !found then r == Err(InvalidFields) && Abs() == old(Abs())
              else if !allowed then r == Err(NotAllowed) && Abs() == old(Abs())
              else if !NoDuplicates(all) then r == Err(InvalidFields) && Abs() == old(Abs())
              else if !fine then r == Err(InvalidUnixUsername) && Abs() == old(Abs())
              else if exists id :: id in old(rows) &&
                                   var row := old(rows)[id];
                                   (row.name == request.name ||
                                    (request.unixUsername != None && row.unixUsername == request.unixUsername))
              then r == Err(AlreadyExists) && Abs() == old(Abs())
              else r == Ok(old(nextId)) && old(nextId) !in old(born)
      // the new identity is as asked for, and the others stay as they are
      ensures r.Ok? ==>
                && r.value in rows && rows == old(rows)[r.value := rows[r.value]]
                && rows[r.value] == Identity(request.name, rows[r.value].boundaries, tagIds, request.unixUsername)
                && Enabled(old(Abs()), CreateEvent(caller, rows[r.value]))
                && Abs() == Next(old(Abs()), CreateEvent(caller, rows[r.value]))
      // its boundaries are those of its creator, those asked for by name, and those asked for by id
      ensures r.Ok? ==>
                forall b :: b in rows[r.value].boundaries <==>
                            b in old(rows)[caller].boundaries || b in request.boundaryIds ||
                            exists row :: row in table && row.id == b && row.name in request.boundaryNames
    {
      var checked;
      checked, tagIds := Check(caller, request, table, tags, roles, mayCreate, unixUsernameIsFine);
      if checked.Err? {
        r := Err(checked.error);
        return;
      }
      RequestedBoundaries(rows[caller].boundaries, table, request);
      var id := Insert(caller, checked.value);
      r := Ok(id);
    }

    method Insert(caller: nat, identity: Identity) returns (id: nat)
      requires Valid() && Enabled(Abs(), CreateEvent(caller, identity))
      modifies this
      ensures Valid() && Abs() == Next(old(Abs()), CreateEvent(caller, identity))
      ensures id == old(nextId) && id !in old(born)
    {
      StepKeepsInv(Abs(), CreateEvent(caller, identity));
      id := nextId;
      rows, born, creator :=
        rows[nextId := identity], born[nextId := identity.boundaries], creator[nextId := caller];
      nextId := nextId + 1;
    }

    method Delete(id: nat)
      requires Valid()
      modifies this`rows
      ensures Valid() && Abs() == Next(old(Abs()), DeleteEvent(id)) && rows == old(rows) - {id}
    {
      ghost var before := Abs();
      StepKeepsInv(before, DeleteEvent(id));
      rows := rows - {id};
      assert Abs() == Next(before, DeleteEvent(id));
    }

    method Update(
        id: nat, name: string, unixUsername: Option<string>, tags: seq<int>, unixUsernameIsFine: string -> bool)
      returns (r: Result<(), Problem>)
      requires Valid()
      modifies this
      ensures Valid()
      ensures var updated := UpdateEvent(id, name, unixUsername, tags);
              var fine := unixUsername.Some? ==> unixUsernameIsFine(unixUsername.value);
              if id !in old(rows) then r == Err(NotFound) && Abs() == old(Abs())
              else if !fine then r == Err(InvalidUnixUsername) && Abs() == old(Abs())
              else if Clashes(old(rows), Some(id), name, unixUsername) then
                r == Err(AlreadyExists) && Abs() == old(Abs())
              else r == Ok(()) && Enabled(old(Abs()), updated) && Abs() == Next(old(Abs()), updated)
      // an update changes nothing but the fields of that identity, and never its boundaries
      ensures r.Ok? ==> rows.Keys == old(rows).Keys && forall o :: o in old(rows) && o != id ==> rows[o] == old(rows)[o]
      ensures r.Ok? ==> rows[id] == Identity(name, old(rows)[id].boundaries, tags, unixUsername)
    {
      if id !in rows {
        return Err(NotFound);
      }
      if unixUsername.Some? && !unixUsernameIsFine(unixUsername.value) {
        return Err(InvalidUnixUsername);
      }
      if Clashes(rows, Some(id), name, unixUsername) {
        return Err(AlreadyExists);
      }
      StepKeepsInv(Abs(), UpdateEvent(id, name, unixUsername, tags));
      rows := rows[id := rows[id].(name := name, unixUsername := unixUsername, tags := tags)];
      r := Ok(());
    }
  }

  lemma {:induction false} SizeOfSet<T>(s: seq<T>)
    ensures |ToSet(s)| <= |s|
    ensures |ToSet(s)| == |s| <==> NoDuplicates(s)
  {
    if s != [] {
      var init, last := s[..|s| - 1], s[|s| - 1];
      SizeOfSet(init);
      assert ToSet(s) == ToSet(init) + {last};
      if last in init {
        assert ToSet(s) == ToSet(init);
        var i :| 0 <= i < |init| && init[i] == last;
        assert s[i] == s[|s| - 1];
      }
    }
  }
}

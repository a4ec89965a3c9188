/** The SSH decision engine: which sessions the roles and boundaries of a caller allow
    (src/provablyfine/api/grant.py:314-371 and 554-630). */
module SshChecker {
  import opened Wrappers
  import opened Grants
  import opened Sequences
  import opened SshVerdict

  /** The host that a session is for. */
  datatype Target = Target(id: int, tags: seq<int>, boundaries: seq<int>)

  /** One username, or the group of usernames that no entry names. */
  datatype Who = User(name: string, unixUsername: Option<string>) | Unnamed

  datatype Ask = Ask(target: Target, who: Who, item: Item)

  /** A filter that is absent lets every host through. A list of tags that is there has to name one, and all of them
      have to be on the host. */
  predicate TripletMatch(f: TripletFilter, t: Target): (r: bool)
    ensures r <==> (f.id == None || f.id == Some(t.id)) &&
                   (f.tags == None || (f.tags.value != [] && forall tag :: tag in f.tags.value ==> tag in t.tags)) &&
                   (f.boundaries == None || forall b :: b in f.boundaries.value ==> b in t.boundaries)
  {
    if f.id.Some? && f.id.value != t.id then false
    else if f.tags.Some? && (|f.tags.value| == 0 || !(forall tag :: tag in f.tags.value ==> tag in t.tags)) then false
    else if f.boundaries.Some? && !(forall b :: b in f.boundaries.value ==> b in t.boundaries) then false
    else true
  }

  const SELF := "{self}"

  function ResolveUsername(entry: string, unixUsername: Option<string>): Option<string> {
    if entry == SELF then unixUsername else Some(entry)
  }

  predicate Covers(p: SshPermission, who: Who): (r: bool)
    ensures r <==> p.usernames == None ||
                   (who.User? && who.name != "{self}" && who.name in p.usernames.value) ||
                   (who.User? && who.unixUsername == Some(who.name) && "{self}" in p.usernames.value)
  {
    match who
    case User(name, unix) =>
      p.usernames.None? || exists e :: e in p.usernames.value && ResolveUsername(e, unix) == Some(name)
    case Unnamed => p.usernames.None?
  }

  // ---- The pointwise meaning, over the stored grants themselves ----

  /** The grant is about this host, this username and this capability or command, by the fields of the grant. */
  predicate Reaches(g: Grant, ask: Ask) {
    g.SshGrant? &&
    var f, p, t, who := g.filter, g.permission, ask.target, ask.who;
    && (f.id == None || f.id == Some(t.id))
    && (f.tags == None || (f.tags.value != [] && forall tag :: tag in f.tags.value ==> tag in t.tags))
    && (f.boundaries == None || forall b :: b in f.boundaries.value ==> b in t.boundaries)
    && (p.usernames == None ||
        (who.User? && who.name != "{self}" && who.name in p.usernames.value) ||
        (who.User? && who.unixUsername == Some(who.name) && "{self}" in p.usernames.value))
    && match ask.item
       case Cap(k) => p.capabilities == None || k in p.capabilities.value
       case Command(c) => p.commands == None || c in p.commands.value
  }

  /** It is what the checker finds. */
  lemma ReachesIff(g: Grant, ask: Ask)
    ensures Reaches(g, ask) <==>
            g.SshGrant? && TripletMatch(g.filter, ask.target) && Covers(g.permission, ask.who) &&
            Names(g.permission, ask.item)
  {
  }

  ghost predicate GivenBy(gs: seq<Grant>, ask: Ask, d: Ttl) {
    exists g :: g in gs && Reaches(g, ask) && Within(d, g.permission.ttl)
  }

  ghost predicate NotDeniedBy(gs: seq<Grant>, ask: Ask, d: Ttl) {
    forall g :: g in gs && Reaches(g, ask) ==> g.permission.ttl.Seconds? && Within(d, g.permission.ttl)
  }

  ghost predicate AllowedUnder(b: Boundary, ask: Ask, d: Ttl) {
    (b.ceiling.Some? ==> GivenBy(b.ceiling.value, ask, d)) && NotDeniedBy(b.denied, ask, d)
  }

  /** A session of length `d` is authorised: a role gives it, every ceiling also gives it, and no deny is against it. */
  ghost predicate Authorised(boundaries: seq<Boundary>, roles: seq<Role>, ask: Ask, d: Ttl) {
    (exists r :: r in roles && GivenBy(r.grants, ask, d)) &&
    (forall b :: b in boundaries ==> AllowedUnder(b, ask, d))
  }

  // ---- The checker ----

  function Matching(gs: seq<Grant>, t: Target): (r: seq<SshPermission>)
    ensures forall p :: p in r <==> exists g :: g in gs && g.SshGrant? && TripletMatch(g.filter, t) && g.permission == p
  {
    if gs == [] then []
    else
      assert forall g :: g in gs <==> g == gs[0] || g in gs[1..];
      var rest := Matching(gs[1..], t);
      if gs[0].SshGrant? && TripletMatch(gs[0].filter, t) then [gs[0].permission] + rest else rest
  }

  function MatchingRoles(roles: seq<Role>, t: Target): (r: seq<SshPermission>)
    ensures forall p :: p in r <==> exists role :: role in roles && p in Matching(role.grants, t)
  {
    if roles == [] then []
    else
      assert forall x :: x in roles <==> x == roles[0] || x in roles[1..];
      Matching(roles[0].grants, t) + MatchingRoles(roles[1..], t)
  }

  function MatchingCeilings(boundaries: seq<Boundary>, t: Target): (r: seq<seq<SshPermission>>)
    ensures forall c :: c in r <==>
                        exists b :: b in boundaries && b.ceiling.Some? && c == Matching(b.ceiling.value, t)
  {
    if boundaries == [] then []
    else
      assert forall x :: x in boundaries <==> x == boundaries[0] || x in boundaries[1..];
      var rest := MatchingCeilings(boundaries[1..], t);
      if boundaries[0].ceiling.Some? then [Matching(boundaries[0].ceiling.value, t)] + rest else rest
  }

  function MatchingDenied(boundaries: seq<Boundary>, t: Target): (r: seq<SshPermission>)
    ensures forall p :: p in r <==> exists b :: b in boundaries && p in Matching(b.denied, t)
  {
    if boundaries == [] then []
    else
      assert forall x :: x in boundaries <==> x == boundaries[0] || x in boundaries[1..];
      Matching(boundaries[0].denied, t) + MatchingDenied(boundaries[1..], t)
  }

  function Covering(ps: seq<SshPermission>, who: Who): (r: seq<SshPermission>)
    ensures forall p :: p in r <==> p in ps && Covers(p, who)
  {
    if ps == [] then []
    else
      assert forall p :: p in ps <==> p == ps[0] || p in ps[1..];
      var rest := Covering(ps[1..], who);
      if Covers(ps[0], who) then [ps[0]] + rest else rest
  }

  function CoveringEach(ceilings: seq<seq<SshPermission>>, who: Who): (r: seq<seq<SshPermission>>)
    ensures |r| == |ceilings| && forall i :: 0 <= i < |r| ==> r[i] == Covering(ceilings[i], who)
  {
    seq(|ceilings|, i requires 0 <= i < |ceilings| => Covering(ceilings[i], who))
  }

  predicate ForEveryone(ps: seq<SshPermission>) {
    exists p :: p in ps && p.usernames.None?
  }

  /** The entries that match one host. The triplet filter does not look at the username. */
  datatype Checker = Checker(
    granted: seq<SshPermission>, ceilings: seq<seq<SshPermission>>, denied: seq<SshPermission>)
  {

    function Verdict(who: Who, x: Item): Verdict {
      Reduced(
        Capped(Best(Covering(granted, who), x), CoveringEach(ceilings, who), x),
        Covering(denied, who), x)
    }

    /** What the role grants, the ceilings and the denies would each leave on their own. */
    function Given(who: Who, x: Item): Verdict {
      Best(Covering(granted, who), x)
    }

    function LeftByCeilings(who: Who, x: Item): Verdict {
      Capped(Allowed(Unbounded), CoveringEach(ceilings, who), x)
    }

    function LeftByDenies(who: Who, x: Item): Verdict {
      Reduced(Allowed(Unbounded), Covering(denied, who), x)
    }

    predicate HasWildcard() {
      ForEveryone(granted)
    }

    /** Some entry, of any of the three lists, gives this username after resolving `{self}`. */
    predicate NamedBySomeEntry(name: string, unixUsername: Option<string>) {
      var who := User(name, unixUsername);
      || (exists p :: p in granted && p.usernames.Some? && Covers(p, who))
      || (exists c, p :: c in ceilings && p in c && p.usernames.Some? && Covers(p, who))
      || (exists p :: p in denied && p.usernames.Some? && Covers(p, who))
    }
  }

  function NewChecker(boundaries: seq<Boundary>, roles: seq<Role>, t: Target): Checker {
    Checker(MatchingRoles(roles, t), MatchingCeilings(boundaries, t), MatchingDenied(boundaries, t))
  }

  function SshVerdictOf(boundaries: seq<Boundary>, roles: seq<Role>, ask: Ask): Verdict {
    NewChecker(boundaries, roles, ask.target).Verdict(ask.who, ask.item)
  }

  datatype Decision = Decision(commands: CommandPermissions, capabilityTtl: CapabilityTtl) {

    function For(x: Item): Verdict {
      match x
      case Cap(k) => Held(capabilityTtl, k)
      case Command(c) => commands.Permits(c)
    }
  }

  lemma CappedNext(each: seq<seq<SshPermission>>, i: nat)
    requires i < |each|
    ensures forall v, x :: Capped(v, each[..i + 1], x) == CoveredIntersection(Capped(v, each[..i], x), Best(each[i], x))
  {
    assert each[..i + 1][..i] == each[..i];
  }

  /** What the finite forms hold after the folds is the verdict, on every capability and every command string. */
  method DecideFor(k: Checker, who: Who) returns (decision: Decision)
    ensures forall x :: decision.For(x) == k.Verdict(who, x)
  {
    var granted := Covering(k.granted, who);
    var capabilityTtl := CapabilitiesAllowedBy(granted);
    var commands := CommandsAllowedBy(granted);

    ghost var each := CoveringEach(k.ceilings, who);
    for i := 0 to |k.ceilings|
      invariant forall c :: Held(capabilityTtl, c) == Capped(Best(granted, Cap(c)), each[..i], Cap(c))
      invariant forall c :: commands.Permits(c) == Capped(Best(granted, Command(c)), each[..i], Command(c))
    {
      var covering := Covering(k.ceilings[i], who);
      assert covering == each[i];
      CappedNext(each, i);
      var capabilityCeiling := CapabilitiesAllowedBy(covering);
      capabilityTtl := CapabilitiesIntersect(capabilityTtl, capabilityCeiling);
      var commandCeiling := CommandsAllowedBy(covering);
      commands := commands.Intersect(commandCeiling);
    }
    assert each[..|k.ceilings|] == each;

    var denied := Covering(k.denied, who);
    capabilityTtl := CapabilitiesSubtract(capabilityTtl, denied);
    commands := CommandsSubtract(commands, denied);
    decision := Decision(commands, capabilityTtl);
  }

  method Decide(boundaries: seq<Boundary>, roles: seq<Role>, t: Target, name: string, unixUsername: Option<string>)
    returns (decision: Decision)
    ensures forall x, d :: Admits(decision.For(x), d) <==>
                           Authorised(boundaries, roles, Ask(t, User(name, unixUsername), x), d)
  {
    decision := DecideFor(NewChecker(boundaries, roles, t), User(name, unixUsername));
    forall x, d
      ensures Admits(decision.For(x), d) <==> Authorised(boundaries, roles, Ask(t, User(name, unixUsername), x), d)
    {
      DecideIsPointwise(boundaries, roles, Ask(t, User(name, unixUsername), x), d);
    }
  }

  // ---- The finite form and the pointwise meaning agree ----

  lemma MatchingGives(gs: seq<Grant>, ask: Ask, d: Ttl)
    ensures SomeAllows(Covering(Matching(gs, ask.target), ask.who), ask.item, d) <==> GivenBy(gs, ask, d)
  {
    var ps := Covering(Matching(gs, ask.target), ask.who);
    if g :| g in gs && Reaches(g, ask) && Within(d, g.permission.ttl) {
      assert g.permission in ps;
    }
  }

  lemma MatchingRolesGive(roles: seq<Role>, ask: Ask, d: Ttl)
    ensures SomeAllows(Covering(MatchingRoles(roles, ask.target), ask.who), ask.item, d) <==>
            exists r :: r in roles && GivenBy(r.grants, ask, d)
  {
    var ps := Covering(MatchingRoles(roles, ask.target), ask.who);
    forall r | r in roles ensures GivenBy(r.grants, ask, d) ==> SomeAllows(ps, ask.item, d) {
      MatchingGives(r.grants, ask, d);
    }
    if p :| p in ps && Names(p, ask.item) && Within(d, p.ttl) {
      var r :| r in roles && p in Matching(r.grants, ask.target);
      MatchingGives(r.grants, ask, d);
      assert p in Covering(Matching(r.grants, ask.target), ask.who);
    }
  }

  lemma MatchingCeilingsGive(boundaries: seq<Boundary>, ask: Ask, d: Ttl)
    ensures (forall c :: c in CoveringEach(MatchingCeilings(boundaries, ask.target), ask.who) ==>
                         SomeAllows(c, ask.item, d)) <==>
            (forall b :: b in boundaries && b.ceiling.Some? ==> GivenBy(b.ceiling.value, ask, d))
  {
    var ceilings := MatchingCeilings(boundaries, ask.target);
    var each := CoveringEach(ceilings, ask.who);
    forall b | b in boundaries && b.ceiling.Some?
      ensures Covering(Matching(b.ceiling.value, ask.target), ask.who) in each
      ensures SomeAllows(Covering(Matching(b.ceiling.value, ask.target), ask.who), ask.item, d) <==>
              GivenBy(b.ceiling.value, ask, d)
    {
      MatchingGives(b.ceiling.value, ask, d);
      var c := Matching(b.ceiling.value, ask.target);
      assert c in ceilings;
      var i :| 0 <= i < |ceilings| && ceilings[i] == c;
      assert each[i] == Covering(c, ask.who);
    }
    forall c | c in each
      ensures exists b :: b in boundaries && b.ceiling.Some? &&
                          c == Covering(Matching(b.ceiling.value, ask.target), ask.who)
    {
      var i :| 0 <= i < |each| && each[i] == c;
      assert ceilings[i] in ceilings;
    }
  }

  lemma MatchingForbids(gs: seq<Grant>, ask: Ask, d: Ttl)
    ensures NoneForbids(Covering(Matching(gs, ask.target), ask.who), ask.item, d) <==> NotDeniedBy(gs, ask, d)
  {
    var ps := Covering(Matching(gs, ask.target), ask.who);
    forall g | g in gs && Reaches(g, ask) ensures g.permission in ps {
      ReachesIff(g, ask);
    }
    forall p | p in ps && Names(p, ask.item) ensures exists g :: g in gs && Reaches(g, ask) && g.permission == p {
      var g :| g in gs && g.SshGrant? && TripletMatch(g.filter, ask.target) && g.permission == p;
      ReachesIff(g, ask);
    }
  }

  lemma MatchingDeniedForbids(boundaries: seq<Boundary>, ask: Ask, d: Ttl)
    ensures NoneForbids(Covering(MatchingDenied(boundaries, ask.target), ask.who), ask.item, d) <==>
            forall b :: b in boundaries ==> NotDeniedBy(b.denied, ask, d)
  {
    var denied := MatchingDenied(boundaries, ask.target);
    forall b | b in boundaries
      ensures NoneForbids(Covering(Matching(b.denied, ask.target), ask.who), ask.item, d) <==>
              NotDeniedBy(b.denied, ask, d)
    {
      MatchingForbids(b.denied, ask, d);
    }
    forall p ensures p in Covering(denied, ask.who) <==>
                     exists b :: b in boundaries && p in Covering(Matching(b.denied, ask.target), ask.who) {
      if p in Covering(denied, ask.who) {
        var b :| b in boundaries && p in Matching(b.denied, ask.target);
        assert p in Covering(Matching(b.denied, ask.target), ask.who);
      }
    }
  }

  /** For every demand, the decision admits it exactly when the stored grants authorise it. */
  lemma DecideIsPointwise(boundaries: seq<Boundary>, roles: seq<Role>, ask: Ask, d: Ttl)
    ensures Admits(SshVerdictOf(boundaries, roles, ask), d) <==> Authorised(boundaries, roles, ask, d)
  {
    var k := NewChecker(boundaries, roles, ask.target);
    var granted := Best(Covering(k.granted, ask.who), ask.item);
    var each := CoveringEach(k.ceilings, ask.who);
    BestAdmits(Covering(k.granted, ask.who), ask.item, d);
    CappedAdmits(granted, each, ask.item, d);
    ReducedAdmits(Capped(granted, each, ask.item), Covering(k.denied, ask.who), ask.item, d);
    MatchingRolesGive(roles, ask, d);
    MatchingCeilingsGive(boundaries, ask, d);
    MatchingDeniedForbids(boundaries, ask, d);
  }

  // ---- Boundaries only ever restrict ----

  /** Wherever `h` applies, `g` applies too and allows at least as long a session. */
  ghost predicate GivesAtLeast(g: Grant, h: Grant) {
    forall ask :: Reaches(h, ask) ==> Reaches(g, ask) && Within(h.permission.ttl, g.permission.ttl)
  }

  /** Wherever the deny entry `h` applies, `g` applies too and leaves no more than `h` does. */
  ghost predicate DeniesAtLeast(g: Grant, h: Grant) {
    forall ask :: Reaches(h, ask) ==>
      Reaches(g, ask) &&
      (g.permission.ttl.Seconds? ==> h.permission.ttl.Seconds? && g.permission.ttl.s <= h.permission.ttl.s)
  }

  ghost predicate ListGivesAtLeast(gs: seq<Grant>, hs: seq<Grant>) {
    forall h :: h in hs ==> exists g :: g in gs && GivesAtLeast(g, h)
  }

  ghost predicate ListDeniesAtLeast(gs: seq<Grant>, hs: seq<Grant>) {
    forall h :: h in hs ==> exists g :: g in gs && DeniesAtLeast(g, h)
  }

  ghost predicate TighterBoundary(b: Boundary, a: Boundary) {
    (a.ceiling.Some? ==> b.ceiling.Some? && ListGivesAtLeast(a.ceiling.value, b.ceiling.value)) &&
    ListDeniesAtLeast(b.denied, a.denied)
  }

  /** Each boundary of `loose` has one in `tight` with a smaller ceiling and more denies. */
  ghost predicate TighterBoundaries(tight: seq<Boundary>, loose: seq<Boundary>) {
    forall a :: a in loose ==> exists b :: b in tight && TighterBoundary(b, a)
  }

  ghost predicate NoMoreRoles(fewer: seq<Role>, more: seq<Role>) {
    forall r :: r in fewer ==> exists s :: s in more && ListGivesAtLeast(s.grants, r.grants)
  }

  lemma ListGives(gs: seq<Grant>, hs: seq<Grant>, ask: Ask, d: Ttl)
    requires ListGivesAtLeast(gs, hs) && GivenBy(hs, ask, d)
    ensures GivenBy(gs, ask, d)
  {
    var h :| h in hs && Reaches(h, ask) && Within(d, h.permission.ttl);
    var g :| g in gs && GivesAtLeast(g, h);
    assert Reaches(g, ask);
  }

  lemma ListDenies(gs: seq<Grant>, hs: seq<Grant>, ask: Ask, d: Ttl)
    requires ListDeniesAtLeast(gs, hs) && NotDeniedBy(gs, ask, d)
    ensures NotDeniedBy(hs, ask, d)
  {
    forall h | h in hs && Reaches(h, ask) ensures h.permission.ttl.Seconds? && Within(d, h.permission.ttl) {
      var g :| g in gs && DeniesAtLeast(g, h);
      assert Reaches(g, ask);
    }
  }

  /** Fewer role grants, smaller ceilings, more boundaries or more denies never raise a verdict. */
  lemma TighterNeverRaises(
    tight: seq<Boundary>, fewer: seq<Role>, loose: seq<Boundary>, more: seq<Role>, ask: Ask)
    requires TighterBoundaries(tight, loose) && NoMoreRoles(fewer, more)
    ensures Leq(SshVerdictOf(tight, fewer, ask), SshVerdictOf(loose, more, ask))
  {
    forall d | Admits(SshVerdictOf(tight, fewer, ask), d)
      ensures Admits(SshVerdictOf(loose, more, ask), d)
    {
      DecideIsPointwise(tight, fewer, ask, d);
      DecideIsPointwise(loose, more, ask, d);
      TighterAuthorises(tight, fewer, loose, more, ask, d);
    }
    LeqIsAdmission(SshVerdictOf(tight, fewer, ask), SshVerdictOf(loose, more, ask));
  }

  lemma TighterAuthorises(
    tight: seq<Boundary>, fewer: seq<Role>, loose: seq<Boundary>, more: seq<Role>, ask: Ask, d: Ttl)
    requires TighterBoundaries(tight, loose) && NoMoreRoles(fewer, more)
    requires Authorised(tight, fewer, ask, d)
    ensures Authorised(loose, more, ask, d)
  {
    var r :| r in fewer && GivenBy(r.grants, ask, d);
    var s :| s in more && ListGivesAtLeast(s.grants, r.grants);
    ListGives(s.grants, r.grants, ask, d);
    forall a | a in loose ensures AllowedUnder(a, ask, d) {
      var b :| b in tight && TighterBoundary(b, a);
      TighterAllows(b, a, ask, d);
    }
  }

  lemma TighterAllows(b: Boundary, a: Boundary, ask: Ask, d: Ttl)
    requires TighterBoundary(b, a) && AllowedUnder(b, ask, d)
    ensures AllowedUnder(a, ask, d)
  {
    if a.ceiling.Some? {
      ListGives(a.ceiling.value, b.ceiling.value, ask, d);
    }
    ListDenies(b.denied, a.denied, ask, d);
  }

  lemma SameListGives(gs: seq<Grant>, hs: seq<Grant>)
    requires forall h :: h in hs ==> h in gs
    ensures ListGivesAtLeast(gs, hs) && ListDeniesAtLeast(gs, hs)
  {
    forall h | h in hs ensures GivesAtLeast(h, h) && DeniesAtLeast(h, h) {
    }
  }

  lemma SameBoundary(b: Boundary)
    ensures TighterBoundary(b, b)
  {
    SameListGives(b.denied, b.denied);
    if b.ceiling.Some? {
      SameListGives(b.ceiling.value, b.ceiling.value);
    }
  }

  lemma SubsetOfBoundaries(tight: seq<Boundary>, loose: seq<Boundary>)
    requires forall b :: b in loose ==> b in tight
    ensures TighterBoundaries(tight, loose)
  {
    forall b | b in loose ensures TighterBoundary(b, b) {
      SameBoundary(b);
    }
  }

  lemma SubsetOfRoles(fewer: seq<Role>, more: seq<Role>)
    requires forall r :: r in fewer ==> r in more
    ensures NoMoreRoles(fewer, more)
  {
    forall r | r in fewer ensures ListGivesAtLeast(r.grants, r.grants) {
      SameListGives(r.grants, r.grants);
    }
  }

  lemma BoundaryNeverRaises(boundaries: seq<Boundary>, extra: Boundary, roles: seq<Role>, ask: Ask)
    ensures Leq(SshVerdictOf(boundaries + [extra], roles, ask), SshVerdictOf(boundaries, roles, ask))
  {
    SubsetOfBoundaries(boundaries + [extra], boundaries);
    SubsetOfRoles(roles, roles);
    TighterNeverRaises(boundaries + [extra], roles, boundaries, roles, ask);
  }

  lemma InMiddle<T>(before: seq<T>, x: T, after: seq<T>, e: T)
    ensures e in before + [x] + after <==> e in before || e == x || e in after
  {
  }

  lemma DenyNeverRaises(
    before: seq<Boundary>, b: Boundary, after: seq<Boundary>, deny: Grant, roles: seq<Role>, ask: Ask)
    ensures var denying := b.(denied := b.denied + [deny]);
            Leq(SshVerdictOf(before + [denying] + after, roles, ask), SshVerdictOf(before + [b] + after, roles, ask))
  {
    var denying := b.(denied := b.denied + [deny]);
    var tight, loose := before + [denying] + after, before + [b] + after;
    MoreDeniesAreTighter(b, deny);
    InMiddle(before, denying, after, denying);
    forall a | a in loose ensures exists c :: c in tight && TighterBoundary(c, a) {
      InMiddle(before, b, after, a);
      InMiddle(before, denying, after, a);
      SameBoundary(a);
    }
    SubsetOfRoles(roles, roles);
    TighterNeverRaises(tight, roles, loose, roles, ask);
  }

  lemma MoreDeniesAreTighter(b: Boundary, deny: Grant)
    ensures TighterBoundary(b.(denied := b.denied + [deny]), b)
  {
    SameBoundary(b);
    SameListGives(b.denied + [deny], b.denied);
  }

  lemma RoleGrantNeverLowers(
    before: seq<Role>, r: Role, after: seq<Role>, extra: Grant, boundaries: seq<Boundary>, ask: Ask)
    ensures var larger := r.(grants := r.grants + [extra]);
            Leq(SshVerdictOf(boundaries, before + [r] + after, ask),
                SshVerdictOf(boundaries, before + [larger] + after, ask))
  {
    var larger := r.(grants := r.grants + [extra]);
    var fewer, more := before + [r] + after, before + [larger] + after;
    SameListGives(r.grants + [extra], r.grants);
    InMiddle(before, larger, after, larger);
    forall q | q in fewer ensures exists s :: s in more && ListGivesAtLeast(s.grants, q.grants) {
      InMiddle(before, r, after, q);
      InMiddle(before, larger, after, q);
      SameListGives(q.grants, q.grants);
    }
    SubsetOfBoundaries(boundaries, boundaries);
    TighterNeverRaises(boundaries, fewer, boundaries, more, ask);
  }

  ghost predicate SameItems<T(!new)>(a: Option<seq<T>>, b: Option<seq<T>>) {
    a.Some? == b.Some? && (a.Some? ==> forall e :: e in a.value <==> e in b.value)
  }

  /** The same SSH grant up to the order and repetition of what its lists hold. The list of tags of the
      filter keeps being empty or not, because its elements are the same. */
  ghost predicate SameGrant(g: Grant, h: Grant) {
    g.SshGrant? && h.SshGrant? &&
    g.filter.id == h.filter.id && SameItems(g.filter.tags, h.filter.tags) &&
    SameItems(g.filter.boundaries, h.filter.boundaries) &&
    SameItems(g.permission.usernames, h.permission.usernames) &&
    SameItems(g.permission.capabilities, h.permission.capabilities) &&
    SameItems(g.permission.commands, h.permission.commands) &&
    g.permission.ttl == h.permission.ttl
  }

  lemma SameGrantReaches(g: Grant, h: Grant, ask: Ask)
    requires SameGrant(g, h) && Reaches(h, ask)
    ensures Reaches(g, ask)
  {
    if h.filter.tags.Some? {
      assert h.filter.tags.value[0] in g.filter.tags.value;
    }
  }

  lemma SameGrantIsEquivalent(g: Grant, h: Grant)
    requires SameGrant(g, h)
    ensures GivesAtLeast(g, h) && DeniesAtLeast(g, h)
  {
    forall ask | Reaches(h, ask) ensures Reaches(g, ask) {
      SameGrantReaches(g, h, ask);
    }
  }

  /** Every grant of either list has its like in the other one, whatever the order and the repetitions. */
  ghost predicate SameGrants(gs: seq<Grant>, hs: seq<Grant>) {
    (forall g :: g in gs ==> g in hs || exists h :: h in hs && SameGrant(g, h)) &&
    (forall h :: h in hs ==> h in gs || exists g :: g in gs && SameGrant(h, g))
  }

  ghost predicate LikeBoundary(a: Boundary, b: Boundary) {
    a.ceiling.Some? == b.ceiling.Some? &&
    (a.ceiling.Some? ==> SameGrants(a.ceiling.value, b.ceiling.value)) && SameGrants(a.denied, b.denied)
  }

  lemma SameGrantsGive(gs: seq<Grant>, hs: seq<Grant>)
    requires SameGrants(gs, hs)
    ensures ListGivesAtLeast(gs, hs) && ListDeniesAtLeast(gs, hs)
  {
    forall h | h in hs ensures exists g :: g in gs && GivesAtLeast(g, h)
    {
      if h in gs {
        assert GivesAtLeast(h, h);
      } else {
        var g :| g in gs && SameGrant(h, g);
        SameGrantIsEquivalent(g, h);
      }
    }
    forall h | h in hs ensures exists g :: g in gs && DeniesAtLeast(g, h)
    {
      if h in gs {
        assert DeniesAtLeast(h, h);
      } else {
        var g :| g in gs && SameGrant(h, g);
        SameGrantIsEquivalent(g, h);
      }
    }
  }

  lemma LikeIsTighter(a: Boundary, b: Boundary)
    requires LikeBoundary(a, b)
    ensures TighterBoundary(a, b)
  {
    SameGrantsGive(a.denied, b.denied);
    if a.ceiling.Some? {
      SameGrantsGive(b.ceiling.value, a.ceiling.value);
    }
  }

  /** The order and the repetition of boundaries, roles, grants and list items do not matter. */
  lemma OrderAndRepetitionDoNotMatter(
    bs: seq<Boundary>, rs: seq<Role>, bs': seq<Boundary>, rs': seq<Role>, ask: Ask)
    requires forall b :: b in bs ==> exists c :: c in bs' && LikeBoundary(b, c)
    requires forall c :: c in bs' ==> exists b :: b in bs && LikeBoundary(c, b)
    requires forall r :: r in rs ==> exists s :: s in rs' && SameGrants(r.grants, s.grants)
    requires forall s :: s in rs' ==> exists r :: r in rs && SameGrants(s.grants, r.grants)
    ensures SshVerdictOf(bs, rs, ask) == SshVerdictOf(bs', rs', ask)
  {
    LikeNeverRaises(bs, rs, bs', rs', ask);
    LikeNeverRaises(bs', rs', bs, rs, ask);
  }

  lemma LikeNeverRaises(bs: seq<Boundary>, rs: seq<Role>, bs': seq<Boundary>, rs': seq<Role>, ask: Ask)
    requires forall c :: c in bs' ==> exists b :: b in bs && LikeBoundary(c, b)
    requires forall r :: r in rs ==> exists s :: s in rs' && SameGrants(r.grants, s.grants)
    ensures Leq(SshVerdictOf(bs, rs, ask), SshVerdictOf(bs', rs', ask))
  {
    forall c | c in bs' ensures exists b :: b in bs && TighterBoundary(b, c) {
      var b :| b in bs && LikeBoundary(c, b);
      LikeIsTighter(b, c);
    }
    forall r | r in rs ensures exists s :: s in rs' && ListGivesAtLeast(s.grants, r.grants) {
      var s :| s in rs' && SameGrants(r.grants, s.grants);
      SameGrantsGive(s.grants, r.grants);
    }
    TighterNeverRaises(bs, rs, bs', rs', ask);
  }

  // ---- Enumeration ----

  /** The usernames that the entries of one list stand for, in order. */
  function Resolved(entries: seq<string>, unixUsername: Option<string>): seq<string> {
    if entries == [] then []
    else
      var init, last := entries[..|entries| - 1], entries[|entries| - 1];
      var name := ResolveUsername(last, unixUsername);
      Resolved(init, unixUsername) + if name.Some? then [name.value] else []
  }

  function GrantedNames(ps: seq<SshPermission>, unixUsername: Option<string>): seq<string> {
    if ps == [] then []
    else
      var init, last := ps[..|ps| - 1], ps[|ps| - 1];
      GrantedNames(init, unixUsername) +
      if last.usernames.Some? then Resolved(last.usernames.value, unixUsername) else []
  }

  lemma {:induction false} ResolvedMembers(entries: seq<string>, unixUsername: Option<string>, u: string)
    ensures u in Resolved(entries, unixUsername) <==>
            exists e :: e in entries && ResolveUsername(e, unixUsername) == Some(u)
  {
    if entries != [] {
      var init, last := entries[..|entries| - 1], entries[|entries| - 1];
      assert entries == init + [last];
      ResolvedMembers(init, unixUsername, u);
    }
  }

  lemma {:induction false} GrantedNamesMembers(ps: seq<SshPermission>, unixUsername: Option<string>, u: string)
    ensures u in GrantedNames(ps, unixUsername) <==>
            exists p :: p in ps && p.usernames.Some? && Covers(p, User(u, unixUsername))
  {
    if ps != [] {
      var init, last := ps[..|ps| - 1], ps[|ps| - 1];
      assert ps == init + [last];
      GrantedNamesMembers(init, unixUsername, u);
      if last.usernames.Some? {
        ResolvedMembers(last.usernames.value, unixUsername, u);
      }
    }
  }

  lemma ForEveryoneNext(ps: seq<SshPermission>, i: nat)
    requires i < |ps|
    ensures ForEveryone(ps[..i + 1]) <==> ForEveryone(ps[..i]) || ps[i].usernames.None?
  {
    assert ps[..i + 1] == ps[..i] + [ps[i]];
  }

  lemma GrantedNamesNext(ps: seq<SshPermission>, i: nat, unixUsername: Option<string>)
    requires i < |ps|
    ensures ps[i].usernames.None? ==> GrantedNames(ps[..i + 1], unixUsername) == GrantedNames(ps[..i], unixUsername)
    ensures ps[i].usernames.Some? ==>
              GrantedNames(ps[..i + 1], unixUsername) ==
              GrantedNames(ps[..i], unixUsername) + Resolved(ps[i].usernames.value, unixUsername)
  {
    assert ps[..i + 1][..i] == ps[..i];
  }

  lemma ResolvedNext(before: seq<string>, entries: seq<string>, j: nat, unixUsername: Option<string>)
    requires j < |entries|
    ensures before + Resolved(entries[..j + 1], unixUsername) ==
            before + Resolved(entries[..j], unixUsername) +
            match ResolveUsername(entries[j], unixUsername) case None => [] case Some(name) => [name]
  {
    assert entries[..j + 1][..j] == entries[..j];
  }

  method AddResolved(known: seq<string>, entries: seq<string>, unixUsername: Option<string>, ghost before: seq<string>)
    returns (usernames: seq<string>)
    requires known == Distinct(before)
    ensures usernames == Distinct(before + Resolved(entries, unixUsername))
  {
    usernames := known;
    assert before + [] == before;
    for j := 0 to |entries|
      invariant usernames == Distinct(before + Resolved(entries[..j], unixUsername))
    {
      ghost var names := before + Resolved(entries[..j], unixUsername);
      var resolved := ResolveUsername(entries[j], unixUsername);
      ResolvedNext(before, entries, j, unixUsername);
      DistinctMembers(names);
      if resolved.Some? {
        DistinctAppend(names, resolved.value);
        if resolved.value !in usernames {
          usernames := usernames + [resolved.value];
        }
      } else {
        assert names + [] == names;
      }
    }
    assert entries[..|entries|] == entries;
  }

  /** Each name once, in the order in which the grants first name them. */
  method CandidateUsernames(granted: seq<SshPermission>, unixUsername: Option<string>)
    returns (usernames: seq<string>, wildcard: bool)
    ensures wildcard <==> ForEveryone(granted)
    ensures usernames == Distinct(GrantedNames(granted, unixUsername))
  {
    usernames, wildcard := [], false;
    for i := 0 to |granted|
      invariant wildcard <==> ForEveryone(granted[..i])
      invariant usernames == Distinct(GrantedNames(granted[..i], unixUsername))
    {
      GrantedNamesNext(granted, i, unixUsername);
      ForEveryoneNext(granted, i);
      if granted[i].usernames.None? {
        wildcard := true;
      } else {
        ghost var before := GrantedNames(granted[..i], unixUsername);
        usernames := AddResolved(usernames, granted[i].usernames.value, unixUsername, before);
      }
    }
    assert granted[..|granted|] == granted;
  }

  /** Nothing is allowed to a username that is not listed, unless there is a wildcard entry. */
  lemma UnlistedHasNothing(k: Checker, u: string, unixUsername: Option<string>, x: Item)
    requires !k.HasWildcard()
    requires u !in Distinct(GrantedNames(k.granted, unixUsername))
    ensures k.Verdict(User(u, unixUsername), x) == Denied
  {
    var who := User(u, unixUsername);
    DistinctMembers(GrantedNames(k.granted, unixUsername));
    GrantedNamesMembers(k.granted, unixUsername, u);
    if k.Verdict(who, x).Allowed? {
      VerdictAdmits(k, who, x, k.Verdict(who, x).ttl);
    }
  }

  lemma VerdictAdmits(k: Checker, who: Who, x: Item, d: Ttl)
    ensures Admits(k.Verdict(who, x), d) ==> SomeAllows(Covering(k.granted, who), x, d)
  {
    var granted := Best(Covering(k.granted, who), x);
    var each := CoveringEach(k.ceilings, who);
    BestAdmits(Covering(k.granted, who), x, d);
    CappedAdmits(granted, each, x, d);
    ReducedAdmits(Capped(granted, each, x), Covering(k.denied, who), x, d);
  }

  lemma {:induction false} CoveringIsUnnamed(ps: seq<SshPermission>, who: Who)
    requires forall p :: p in ps && p.usernames.Some? ==> !Covers(p, who)
    ensures Covering(ps, who) == Covering(ps, Unnamed)
  {
    if ps != [] {
      assert ps[0] in ps;
      CoveringIsUnnamed(ps[1..], who);
    }
  }

  /** The wildcard entry is the exact decision for every username that no matching entry names. */
  lemma WildcardIsExact(k: Checker, u: string, unixUsername: Option<string>, x: Item)
    requires !k.NamedBySomeEntry(u, unixUsername)
    ensures k.Verdict(Unnamed, x) == k.Verdict(User(u, unixUsername), x)
  {
    var who := User(u, unixUsername);
    CoveringIsUnnamed(k.granted, who);
    CoveringIsUnnamed(k.denied, who);
    forall i | 0 <= i < |k.ceilings| ensures Covering(k.ceilings[i], who) == Covering(k.ceilings[i], Unnamed) {
      assert k.ceilings[i] in k.ceilings;
      CoveringIsUnnamed(k.ceilings[i], who);
    }
    assert CoveringEach(k.ceilings, who) == CoveringEach(k.ceilings, Unnamed);
  }

  /** A verdict is the least of what the three lists leave. */
  lemma VerdictIsTheLeast(k: Checker, who: Who, x: Item)
    ensures k.Verdict(who, x) ==
            CoveredIntersection(CoveredIntersection(k.Given(who, x), k.LeftByCeilings(who, x)), k.LeftByDenies(who, x))
  {
    var granted, each := Best(Covering(k.granted, who), x), CoveringEach(k.ceilings, who);
    var least :=
      CoveredIntersection(CoveredIntersection(k.Given(who, x), k.LeftByCeilings(who, x)), k.LeftByDenies(who, x));
    forall d ensures Admits(k.Verdict(who, x), d) <==> Admits(least, d) {
      CappedAdmits(granted, each, x, d);
      CappedAdmits(Allowed(Unbounded), each, x, d);
      ReducedAdmits(Capped(granted, each, x), Covering(k.denied, who), x, d);
      ReducedAdmits(Allowed(Unbounded), Covering(k.denied, who), x, d);
    }
    AdmissionDecides(k.Verdict(who, x), least);
  }

  lemma LeastIsBelow(a: Verdict, b: Verdict, w: Verdict)
    ensures Leq(CoveredIntersection(a, b), w) <==> Leq(a, w) || Leq(b, w)
    ensures Leq(w, CoveredIntersection(a, b)) <==> Leq(w, a) && Leq(w, b)
  {
  }

  /** Entries that name a username can only add to what role grants and ceilings leave, and take from what denies do. */
  lemma NamingEntries(k: Checker, u: string, unixUsername: Option<string>, x: Item)
    ensures var who := User(u, unixUsername);
            && Leq(k.Given(Unnamed, x), k.Given(who, x))
            && Leq(k.LeftByCeilings(Unnamed, x), k.LeftByCeilings(who, x))
            && Leq(k.LeftByDenies(who, x), k.LeftByDenies(Unnamed, x))
  {
    var who := User(u, unixUsername);
    forall d ensures Admits(k.Given(Unnamed, x), d) ==> Admits(k.Given(who, x), d) {
      BestAdmits(Covering(k.granted, Unnamed), x, d);
      BestAdmits(Covering(k.granted, who), x, d);
    }
    LeqIsAdmission(k.Given(Unnamed, x), k.Given(who, x));
    forall d ensures Admits(k.LeftByCeilings(Unnamed, x), d) ==> Admits(k.LeftByCeilings(who, x), d) {
      NamingCeilings(k, who, x, d);
    }
    LeqIsAdmission(k.LeftByCeilings(Unnamed, x), k.LeftByCeilings(who, x));
    forall d ensures Admits(k.LeftByDenies(who, x), d) ==> Admits(k.LeftByDenies(Unnamed, x), d) {
      ReducedAdmits(Allowed(Unbounded), Covering(k.denied, who), x, d);
      ReducedAdmits(Allowed(Unbounded), Covering(k.denied, Unnamed), x, d);
    }
    LeqIsAdmission(k.LeftByDenies(who, x), k.LeftByDenies(Unnamed, x));
  }

  lemma NamingCeilings(k: Checker, who: Who, x: Item, d: Ttl)
    ensures Admits(k.LeftByCeilings(Unnamed, x), d) ==> Admits(k.LeftByCeilings(who, x), d)
  {
    var unnamed, each := CoveringEach(k.ceilings, Unnamed), CoveringEach(k.ceilings, who);
    CappedAdmits(Allowed(Unbounded), unnamed, x, d);
    CappedAdmits(Allowed(Unbounded), each, x, d);
    if forall c :: c in unnamed ==> SomeAllows(c, x, d) {
      forall c | c in each ensures SomeAllows(c, x, d) {
        var i :| 0 <= i < |each| && each[i] == c;
        assert unnamed[i] in unnamed;
      }
    }
  }

  /** The wildcard entry holds for this username too: no deny takes more from the username than the entry already
      lacks, and the role grants, the ceilings or the denies leave the username no more than the entry gives. */
  predicate WildcardSpeaksFor(k: Checker, u: string, unixUsername: Option<string>, x: Item) {
    var who, row := User(u, unixUsername), k.Verdict(Unnamed, x);
    Leq(row, k.LeftByDenies(who, x)) &&
    (Leq(k.Given(who, x), row) || Leq(k.LeftByCeilings(who, x), row) || Leq(k.LeftByDenies(who, x), row))
  }

  /** Exactly for these usernames, named by some entry or not, is the wildcard entry the decision. */
  lemma WildcardIsExactIff(k: Checker, u: string, unixUsername: Option<string>, x: Item)
    ensures k.Verdict(Unnamed, x) == k.Verdict(User(u, unixUsername), x) <==> WildcardSpeaksFor(k, u, unixUsername, x)
  {
    var who, row := User(u, unixUsername), k.Verdict(Unnamed, x);
    var given, ceilings, denies := k.Given(who, x), k.LeftByCeilings(who, x), k.LeftByDenies(who, x);
    VerdictIsTheLeast(k, Unnamed, x);
    VerdictIsTheLeast(k, who, x);
    NamingEntries(k, u, unixUsername, x);
    LeastIsBelow(given, ceilings, row);
    LeastIsBelow(CoveredIntersection(given, ceilings), denies, row);
    LeqIsAnOrder(row, k.Verdict(who, x));
  }

  lemma LeqIsAnOrder(v: Verdict, w: Verdict)
    ensures v == w <==> Leq(v, w) && Leq(w, v)
  {
  }

  /** It need not be exact for a username that only a deny entry names: such a username is not listed. */
  lemma WildcardIsNotExactForADeniedName()
    ensures var everyone := SshPermission(None, None, None, Unbounded);
            var notRoot := SshPermission(Some(["root"]), None, None, Unbounded);
            var k := Checker([everyone], [], [notRoot]);
            k.Verdict(Unnamed, Cap(Shell)) == Allowed(Unbounded) && k.Verdict(User("root", None), Cap(Shell)) == Denied
  {
    var everyone := SshPermission(None, None, None, Unbounded);
    var notRoot := SshPermission(Some(["root"]), None, None, Unbounded);
    var root := User("root", None);
    assert "root" in notRoot.usernames.value && ResolveUsername("root", None) == Some("root");
    assert [everyone][1..] == [] && [notRoot][1..] == [];
    assert Covering([everyone], Unnamed) == [everyone] && Covering([everyone], root) == [everyone];
    assert Covering([notRoot], Unnamed) == [] && Covering([notRoot], root) == [notRoot];
    assert [everyone][..0] == [] && [notRoot][..0] == [];
  }

  lemma AllowedIsCandidate(k: Checker, u: string, unixUsername: Option<string>, x: Item)
    requires !k.HasWildcard() && k.Verdict(User(u, unixUsername), x).Allowed?
    ensures u in Distinct(GrantedNames(k.granted, unixUsername))
  {
    if u !in Distinct(GrantedNames(k.granted, unixUsername)) {
      UnlistedHasNothing(k, u, unixUsername, x);
    }
  }

  lemma WildcardRow(k: Checker, unixUsername: Option<string>)
    ensures forall u, x :: k.Verdict(Unnamed, x) == k.Verdict(User(u, unixUsername), x) <==>
                           WildcardSpeaksFor(k, u, unixUsername, x)
    ensures forall u, x :: !k.NamedBySomeEntry(u, unixUsername) ==> WildcardSpeaksFor(k, u, unixUsername, x)
  {
    forall u, x
      ensures k.Verdict(Unnamed, x) == k.Verdict(User(u, unixUsername), x) <==> WildcardSpeaksFor(k, u, unixUsername, x)
      ensures !k.NamedBySomeEntry(u, unixUsername) ==> WildcardSpeaksFor(k, u, unixUsername, x)
    {
      WildcardIsExactIff(k, u, unixUsername, x);
      if !k.NamedBySomeEntry(u, unixUsername) {
        WildcardIsExact(k, u, unixUsername, x);
      }
    }
  }

  method DecideEach(k: Checker, usernames: seq<string>, unixUsername: Option<string>)
    returns (output: seq<(Option<string>, Decision)>)
    ensures |output| == |usernames| && forall j :: 0 <= j < |output| ==> output[j].0 == Some(usernames[j])
    ensures forall j, x :: 0 <= j < |output| ==> output[j].1.For(x) == k.Verdict(User(usernames[j], unixUsername), x)
  {
    output := [];
    for i := 0 to |usernames|
      invariant |output| == i
      invariant forall j :: 0 <= j < i ==> output[j].0 == Some(usernames[j])
      invariant forall j, x :: 0 <= j < i ==> output[j].1.For(x) == k.Verdict(User(usernames[j], unixUsername), x)
    {
      var decision := DecideFor(k, User(usernames[i], unixUsername));
      output := output + [(Some(usernames[i]), decision)];
    }
  }

  method ListDecisions(k: Checker, unixUsername: Option<string>) returns (output: seq<(Option<string>, Decision)>)
    // every listed decision is the one that `decide` gives
    ensures forall e, x :: e in output && e.0.Some? ==> e.1.For(x) == k.Verdict(User(e.0.value, unixUsername), x)
    // each username once, and the wildcard last
    ensures forall i, j :: 0 <= i < j < |output| ==> output[i].0 != output[j].0 && output[i].0.Some?
    // whoever is allowed something is listed, or falls under the wildcard entry
    ensures forall u, x :: k.Verdict(User(u, unixUsername), x).Allowed? ==>
                           exists e :: e in output && (e.0 == Some(u) || e.0 == None)
    // the wildcard entry is the decision of exactly the usernames that it speaks for
    ensures forall e, u, x :: e in output && e.0 == None ==>
                              (e.1.For(x) == k.Verdict(User(u, unixUsername), x) <==>
                               WildcardSpeaksFor(k, u, unixUsername, x))
    // and it speaks for every username that no matching entry names
    ensures forall u, x :: !k.NamedBySomeEntry(u, unixUsername) ==> WildcardSpeaksFor(k, u, unixUsername, x)
    ensures (exists e :: e in output && e.0 == None) <==> k.HasWildcard()
  {
    var usernames, wildcard := CandidateUsernames(k.granted, unixUsername);
    DistinctMembers(GrantedNames(k.granted, unixUsername));
    WildcardRow(k, unixUsername);
    output := DecideEach(k, usernames, unixUsername);
    ghost var named := output;
    if wildcard {
      var decision := DecideFor(k, Unnamed);
      output := output + [(None, decision)];
      assert output[|output| - 1] in output;
    }
    forall u, x | k.Verdict(User(u, unixUsername), x).Allowed?
      ensures exists e :: e in output && (e.0 == Some(u) || e.0 == None)
    {
      if !wildcard {
        AllowedIsCandidate(k, u, unixUsername, x);
        var j :| 0 <= j < |usernames| && usernames[j] == u;
        assert named[j] in output;
      }
    }
  }
}

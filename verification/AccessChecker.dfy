/** The permission check that every resource but SSH shares, and what a caller's grants are
    (src/provablyfine/api/grant.py:14-49, 673-716 and 762-778). */
module AccessChecker {
  import opened Wrappers
  import opened Grants

  /** `matches` stands for the grant type, the resource filter and the permission asked for, together. */
  predicate AnyMatch(gs: seq<Grant>, matches: Grant -> bool) {
    exists g :: g in gs && matches(g)
  }

  predicate Passes(b: Boundary, matches: Grant -> bool) {
    !AnyMatch(b.denied, matches) && (b.ceiling.Some? ==> AnyMatch(b.ceiling.value, matches))
  }

  predicate Can(boundaries: seq<Boundary>, roles: seq<Role>, matches: Grant -> bool) {
    (forall b :: b in boundaries ==> Passes(b, matches)) && exists r :: r in roles && AnyMatch(r.grants, matches)
  }

  method ListCan(boundaries: seq<Boundary>, roles: seq<Role>, matches: Grant -> bool) returns (allowed: seq<Grant>)
    ensures allowed != [] <==> Can(boundaries, roles, matches)
    ensures allowed != [] <==>
            (forall b :: b in boundaries ==>
                           (forall g :: g in b.denied ==> !matches(g)) &&
                           (b.ceiling.Some? ==> exists g :: g in b.ceiling.value && matches(g))) &&
            (exists r, g :: r in roles && g in r.grants && matches(g))
    ensures allowed != [] ==> forall g :: g in allowed <==> matches(g) && exists r :: r in roles && g in r.grants
  {
    for i := 0 to |boundaries|
      invariant forall b :: b in boundaries[..i] ==> Passes(b, matches)
    {
      var b := boundaries[i];
      assert b in boundaries;
      assert boundaries[..i + 1] == boundaries[..i] + [b];
      if AnyMatch(b.denied, matches) {
        return [];
      }
      if b.ceiling.Some? && !AnyMatch(b.ceiling.value, matches) {
        return [];
      }
    }
    assert boundaries[..|boundaries|] == boundaries;
    allowed := [];
    for i := 0 to |roles|
      invariant forall g :: g in allowed <==> matches(g) && exists r :: r in roles[..i] && g in r.grants
    {
      var gs := roles[i].grants;
      assert roles[..i + 1] == roles[..i] + [roles[i]];
      ghost var before := allowed;
      for j := 0 to |gs|
        invariant forall g :: g in allowed <==> g in before || (matches(g) && g in gs[..j])
      {
        assert gs[..j + 1] == gs[..j] + [gs[j]];
        if matches(gs[j]) {
          allowed := allowed + [gs[j]];
        }
      }
      assert gs[..|gs|] == gs;
    }
    assert roles[..|roles|] == roles;
    if allowed != [] {
      assert allowed[0] in allowed;
    }
  }

  /** Fewer role grants, smaller ceilings, more boundaries or more denies never allow more. */
  lemma TighterNeverAllowsMore(
    tight: seq<Boundary>, fewer: seq<Role>, loose: seq<Boundary>, more: seq<Role>, matches: Grant -> bool)
    requires forall a :: a in loose ==> exists b :: b in tight && NoLooser(b, a)
    requires forall r :: r in fewer ==> exists s :: s in more && forall g :: g in r.grants ==> g in s.grants
    requires Can(tight, fewer, matches)
    ensures Can(loose, more, matches)
  {
    forall a | a in loose ensures Passes(a, matches) {
      var b :| b in tight && NoLooser(b, a);
      assert Passes(b, matches);
    }
    var r :| r in fewer && AnyMatch(r.grants, matches);
    var s :| s in more && forall g :: g in r.grants ==> g in s.grants;
    assert AnyMatch(s.grants, matches);
  }

  ghost predicate NoLooser(b: Boundary, a: Boundary) {
    (a.ceiling.Some? ==> b.ceiling.Some? && forall g :: g in b.ceiling.value ==> g in a.ceiling.value) &&
    (forall g :: g in a.denied ==> g in b.denied)
  }

  // ---- Bastions ----

  datatype BastionField = UrlField | SshProxyJumpField | TagListField

  datatype BastionAction = CreateBastion | ReadBastion | UpdateBastion(field: BastionField) | DeleteBastion

  predicate Gives(p: BastionPermission, action: BastionAction) {
    match action
    case CreateBastion => p.create
    case ReadBastion => p.read
    case DeleteBastion => p.delete
    case UpdateBastion(field) =>
      if p.update.None? then true
      else match field
           case UrlField => p.update.value.url
           case SshProxyJumpField => p.update.value.sshProxyJump
           case TagListField => p.update.value.tagList
  }

  /** `about` is None for an action that is about no bastion in particular. */
  function BastionMatches(about: Option<int>, action: BastionAction): Grant -> bool {
    (g: Grant) => g.BastionGrant? && !(g.id.Some? && g.id != about) && Gives(g.access, action)
  }

  /** A bastion grant is about the bastion with its id, or about every bastion and none in particular if it has no id.
      What it allows is what its fields say. An update without a list of fields allows every field. */
  lemma BastionMatchesIff(about: Option<int>, action: BastionAction, g: Grant)
    ensures BastionMatches(about, action)(g) <==>
            g.BastionGrant? && (g.id == None || g.id == about) &&
            var p := g.access;
            ((action == CreateBastion && p.create) || (action == ReadBastion && p.read) ||
             (action == DeleteBastion && p.delete) ||
             (action == UpdateBastion(UrlField) && (p.update == None || p.update.value.url)) ||
             (action == UpdateBastion(SshProxyJumpField) && (p.update == None || p.update.value.sshProxyJump)) ||
             (action == UpdateBastion(TagListField) && (p.update == None || p.update.value.tagList)))
  {
    if action.UpdateBastion? {
      match action.field
      case UrlField =>
      case SshProxyJumpField =>
      case TagListField =>
    }
  }

  // ---- What applies to a caller ----

  /** The rows of the boundary table with these ids. */
  function BoundariesOf(table: seq<Boundary>, ids: set<int>): (r: seq<Boundary>)
    ensures forall b :: b in r <==> b in table && b.id in ids
  {
    if table == [] then []
    else
      assert forall b :: b in table <==> b == table[0] || b in table[1..];
      (if table[0].id in ids then [table[0]] else []) + BoundariesOf(table[1..], ids)
  }

  /** A session acts under at most one role. */
  function RolesOf(table: seq<Role>, active: Option<int>): (r: seq<Role>)
    ensures forall x :: x in r <==> x in table && Some(x.id) == active
  {
    if table == [] then []
    else
      assert forall x :: x in table <==> x == table[0] || x in table[1..];
      (if Some(table[0].id) == active then [table[0]] else []) + RolesOf(table[1..], active)
  }
}

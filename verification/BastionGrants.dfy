/** Deleting a bastion rewrites the stored grants that name it
    (src/provablyfine/api/model/bastion_grants.py, src/provablyfine/api/model/boundary.py:92-140). */
module BastionGrants {
  import opened Wrappers
  import opened Grants
  import opened Sequences
  import opened SshVerdict
  import opened SshChecker
  import opened AccessChecker

  datatype OwnerType = RoleOwner | BoundaryOwner

  datatype Owner = Owner(kind: OwnerType, id: int, name: string)

  /** The argument of an update. Leaving a field alone is not the same as setting it to None. */
  datatype Change<T> = Unset | Set(value: T)

  predicate NamesBastion(g: Grant, bastion: int) {
    g.BastionGrant? && g.id == Some(bastion)
  }

  predicate AnyNames(gs: seq<Grant>, bastion: int) {
    exists g :: g in gs && NamesBastion(g, bastion)
  }

  function Without(gs: seq<Grant>, bastion: int): (r: seq<Grant>)
    ensures forall g :: g in r <==> g in gs && !NamesBastion(g, bastion)
    ensures !AnyNames(gs, bastion) ==> r == gs
  {
    if gs == [] then []
    else
      assert forall g :: g in gs <==> g == gs[0] || g in gs[1..];
      (if NamesBastion(gs[0], bastion) then [] else [gs[0]]) + Without(gs[1..], bastion)
  }

  function RoleWithout(r: Role, bastion: int): Role {
    r.(grants := Without(r.grants, bastion))
  }

  function BoundaryWithout(b: Boundary, bastion: int): Boundary {
    b.(denied := Without(b.denied, bastion),
       ceiling := if b.ceiling.None? then None else Some(Without(b.ceiling.value, bastion)))
  }

  function RolesWithout(rs: seq<Role>, bastion: int): (out: seq<Role>)
    ensures |out| == |rs| && forall i :: 0 <= i < |rs| ==> out[i] == RoleWithout(rs[i], bastion)
  {
    seq(|rs|, i requires 0 <= i < |rs| => RoleWithout(rs[i], bastion))
  }

  function BoundariesWithout(bs: seq<Boundary>, bastion: int): (out: seq<Boundary>)
    ensures |out| == |bs| && forall i :: 0 <= i < |bs| ==> out[i] == BoundaryWithout(bs[i], bastion)
  {
    seq(|bs|, i requires 0 <= i < |bs| => BoundaryWithout(bs[i], bastion))
  }

  function CeilingOr(b: Boundary): seq<Grant> {
    if b.ceiling.Some? then b.ceiling.value else []
  }

  predicate BoundaryNames(b: Boundary, bastion: int) {
    AnyNames(b.denied, bastion) || AnyNames(CeilingOr(b), bastion)
  }

  function RoleOwners(rs: seq<Role>, bastion: int): seq<Owner> {
    if rs == [] then []
    else
      var r := rs[|rs| - 1];
      RoleOwners(rs[..|rs| - 1], bastion) +
      if AnyNames(r.grants, bastion) then [Owner(RoleOwner, r.id, r.name)] else []
  }

  function BoundaryOwners(bs: seq<Boundary>, bastion: int): seq<Owner> {
    if bs == [] then []
    else
      var b := bs[|bs| - 1];
      BoundaryOwners(bs[..|bs| - 1], bastion) +
      if BoundaryNames(b, bastion) then [Owner(BoundaryOwner, b.id, b.name)] else []
  }

  function Owners(rs: seq<Role>, bs: seq<Boundary>, bastion: int): seq<Owner> {
    RoleOwners(rs, bastion) + BoundaryOwners(bs, bastion)
  }

  ghost predicate UniqueIds(rs: seq<Role>, bs: seq<Boundary>) {
    (forall i, j :: 0 <= i < j < |rs| ==> rs[i].id != rs[j].id) &&
    (forall i, j :: 0 <= i < j < |bs| ==> bs[i].id != bs[j].id)
  }

  lemma {:induction false} OwnersAreRows(rs: seq<Role>, bs: seq<Boundary>, bastion: int)
    ensures forall o :: o in RoleOwners(rs, bastion) ==> o.kind == RoleOwner
    ensures forall o :: o in BoundaryOwners(bs, bastion) ==>
                        o.kind == BoundaryOwner && exists b :: b in bs && o.id == b.id
    decreases |rs| + |bs|
  {
    if rs != [] {
      OwnersAreRows(rs[..|rs| - 1], bs, bastion);
    } else if bs != [] {
      OwnersAreRows(rs, bs[..|bs| - 1], bastion);
      forall b ensures b in bs <==> b in bs[..|bs| - 1] || b == bs[|bs| - 1] {
        SplitLast(bs, b);
      }
    }
  }

  class GrantStore {
    var roles: seq<Role>
    var boundaries: seq<Boundary>

    ghost predicate Valid()
      reads this
    {
      UniqueIds(roles, boundaries)
    }

    method Find(bastion: int) returns (owners: seq<Owner>)
      ensures owners == Owners(roles, boundaries, bastion)
    {
      owners := [];
      for i := 0 to |roles|
        invariant owners == RoleOwners(roles[..i], bastion)
      {
        assert roles[..i + 1][..i] == roles[..i];
        if AnyNames(roles[i].grants, bastion) {
          owners := owners + [Owner(RoleOwner, roles[i].id, roles[i].name)];
        }
      }
      assert roles[..|roles|] == roles;
      for i := 0 to |boundaries|
        invariant owners == RoleOwners(roles, bastion) + BoundaryOwners(boundaries[..i], bastion)
      {
        var b := boundaries[i];
        assert boundaries[..i + 1][..i] == boundaries[..i];
        var grants := b.denied + CeilingOr(b);
        if AnyNames(grants, bastion) {
          owners := owners + [Owner(BoundaryOwner, b.id, b.name)];
        }
      }
      assert boundaries[..|boundaries|] == boundaries;
    }

    method UpdateRole(id: int, grants: seq<Grant>)
      modifies this`roles
      ensures roles == WithRole(old(roles), id, grants)
    {
      roles := seq(|roles|, i requires 0 <= i < |roles| reads this =>
                 if roles[i].id == id then roles[i].(grants := grants) else roles[i]);
    }

    method UpdateBoundary(id: int, ceiling: Change<Option<seq<Grant>>>, denied: Change<seq<Grant>>)
      modifies this`boundaries
      ensures boundaries == WithBoundary(old(boundaries), id, ceiling, denied)
    {
      if ceiling.Set? {
        boundaries := seq(|boundaries|, i requires 0 <= i < |boundaries| reads this =>
                        if boundaries[i].id == id then boundaries[i].(ceiling := ceiling.value) else boundaries[i]);
      }
      if denied.Set? {
        boundaries := seq(|boundaries|, i requires 0 <= i < |boundaries| reads this =>
                        if boundaries[i].id == id then boundaries[i].(denied := denied.value) else boundaries[i]);
      }
    }

    method RemoveFromRoles(bastion: int) returns (changes: seq<Owner>)
      requires Valid()
      modifies this`roles
      ensures roles == RolesWithout(old(roles), bastion)
      ensures changes == RoleOwners(old(roles), bastion)
    {
      changes := [];
      var rows := roles;
      for i := 0 to |rows|
        invariant roles == RolesUpTo(rows, i, bastion)
        invariant changes == RoleOwners(rows[..i], bastion)
      {
        var r := rows[i];
        RoleOwnersNext(rows, i, bastion);
        RoleStep(rows, i, bastion);
        if AnyNames(r.grants, bastion) {
          UpdateRole(r.id, Without(r.grants, bastion));
          changes := changes + [Owner(RoleOwner, r.id, r.name)];
        }
      }
      assert rows[..|rows|] == rows;
    }

    method RemoveFromBoundaries(bastion: int) returns (changes: seq<Owner>)
      requires Valid()
      modifies this`boundaries
      ensures boundaries == BoundariesWithout(old(boundaries), bastion)
      ensures Distinct(changes) == BoundaryOwners(old(boundaries), bastion)
      ensures forall o :: o in changes <==> o in BoundaryOwners(old(boundaries), bastion)
    {
      changes := [];
      var rows := boundaries;
      for i := 0 to |rows|
        invariant boundaries == BoundariesUpTo(rows, i, bastion)
        invariant Distinct(changes) == BoundaryOwners(rows[..i], bastion)
        invariant forall o :: o in changes <==> o in BoundaryOwners(rows[..i], bastion)
      {
        var b := rows[i];
        assert rows[..i + 1][..i] == rows[..i];
        BoundaryStep(rows, i, bastion);
        OwnersStep(changes, rows, i, bastion);
        var deniedRemoved := AnyNames(b.denied, bastion);
        var ceilingRemoved := AnyNames(CeilingOr(b), bastion);
        if deniedRemoved || ceilingRemoved {
          UpdateBoundary(
            b.id,
            if ceilingRemoved then Set(Some(Without(CeilingOr(b), bastion))) else Unset,
            if deniedRemoved then Set(Without(b.denied, bastion)) else Unset);
          var owner := Owner(BoundaryOwner, b.id, b.name);
          if deniedRemoved {
            changes := changes + [owner];
          }
          if ceilingRemoved {
            changes := changes + [owner];
          }
        }
      }
      assert rows[..|rows|] == rows;
    }

    /** Every grant that names the bastion goes, everything else stays, and the result is what `Find` would have
        said. */
    method Remove(bastion: int) returns (changed: seq<Owner>)
      requires Valid()
      modifies this
      ensures Valid()
      ensures roles == RolesWithout(old(roles), bastion)
      ensures boundaries == BoundariesWithout(old(boundaries), bastion)
      ensures changed == Owners(old(roles), old(boundaries), bastion)
    {
      var changes := RemoveFromRoles(bastion);
      var boundaryChanges := RemoveFromBoundaries(bastion);
      changes := changes + boundaryChanges;
      DistinctOwners(old(roles), old(boundaries), boundaryChanges, bastion);
      changed := Distinct(changes);
    }
  }

  function WithRole(rs: seq<Role>, id: int, grants: seq<Grant>): (out: seq<Role>)
    ensures |out| == |rs|
    ensures forall i :: 0 <= i < |rs| ==> out[i] == if rs[i].id == id then rs[i].(grants := grants) else rs[i]
  {
    seq(|rs|, i requires 0 <= i < |rs| => if rs[i].id == id then rs[i].(grants := grants) else rs[i])
  }

  function Changed(b: Boundary, ceiling: Change<Option<seq<Grant>>>, denied: Change<seq<Grant>>): Boundary {
    b.(ceiling := if ceiling.Set? then ceiling.value else b.ceiling,
       denied := if denied.Set? then denied.value else b.denied)
  }

  function WithBoundary(
      bs: seq<Boundary>, id: int, ceiling: Change<Option<seq<Grant>>>, denied: Change<seq<Grant>>): (out: seq<Boundary>)
    ensures |out| == |bs|
    ensures forall i :: 0 <= i < |bs| ==> out[i] == if bs[i].id == id then Changed(bs[i], ceiling, denied) else bs[i]
  {
    seq(|bs|, i requires 0 <= i < |bs| => if bs[i].id == id then Changed(bs[i], ceiling, denied) else bs[i])
  }

  /** The table when the first `i` rows have been dealt with. */
  ghost function RolesUpTo(rows: seq<Role>, i: nat, bastion: int): (out: seq<Role>)
    ensures |out| == |rows|
    ensures forall k :: 0 <= k < |rows| ==> out[k] == if k < i then RoleWithout(rows[k], bastion) else rows[k]
  {
    seq(|rows|, k requires 0 <= k < |rows| => if k < i then RoleWithout(rows[k], bastion) else rows[k])
  }

  ghost function BoundariesUpTo(rows: seq<Boundary>, i: nat, bastion: int): (out: seq<Boundary>)
    ensures |out| == |rows|
    ensures forall k :: 0 <= k < |rows| ==> out[k] == if k < i then BoundaryWithout(rows[k], bastion) else rows[k]
  {
    seq(|rows|, k requires 0 <= k < |rows| => if k < i then BoundaryWithout(rows[k], bastion) else rows[k])
  }

  lemma RoleStep(rows: seq<Role>, i: nat, bastion: int)
    requires i < |rows| && UniqueIds(rows, [])
    ensures RolesUpTo(rows, i + 1, bastion) ==
            if AnyNames(rows[i].grants, bastion)
            then WithRole(RolesUpTo(rows, i, bastion), rows[i].id, Without(rows[i].grants, bastion))
            else RolesUpTo(rows, i, bastion)
  {
    var before, after := RolesUpTo(rows, i, bastion), RolesUpTo(rows, i + 1, bastion);
    if AnyNames(rows[i].grants, bastion) {
      var changed := WithRole(before, rows[i].id, Without(rows[i].grants, bastion));
      forall k | 0 <= k < |rows| ensures after[k] == changed[k] {
        RoleStepAt(rows, i, k, bastion);
      }
      assert after == changed;
    } else {
      assert after == before;
    }
  }

  lemma RoleStepAt(rows: seq<Role>, i: nat, k: nat, bastion: int)
    requires i < |rows| && k < |rows| && UniqueIds(rows, [])
    ensures var before := RolesUpTo(rows, i, bastion)[k];
            RolesUpTo(rows, i + 1, bastion)[k] ==
            if before.id == rows[i].id then before.(grants := Without(rows[i].grants, bastion)) else before
  {
  }

  lemma BoundaryStep(rows: seq<Boundary>, i: nat, bastion: int)
    requires i < |rows| && UniqueIds([], rows)
    ensures var b := rows[i];
            var inDenied, inCeiling := AnyNames(b.denied, bastion), AnyNames(CeilingOr(b), bastion);
            BoundariesUpTo(rows, i + 1, bastion) ==
            if inDenied || inCeiling then
              WithBoundary(
                BoundariesUpTo(rows, i, bastion), b.id,
                if inCeiling then Set(Some(Without(CeilingOr(b), bastion))) else Unset,
                if inDenied then Set(Without(b.denied, bastion)) else Unset)
            else BoundariesUpTo(rows, i, bastion)
  {
    assert forall k :: 0 <= k < |rows| ==> BoundariesUpTo(rows, i, bastion)[k].id == rows[k].id;
    ChangedIsWithout(rows[i], bastion);
  }

  lemma ChangedIsWithout(b: Boundary, bastion: int)
    ensures BoundaryWithout(b, bastion) ==
            Changed(
              b,
              if AnyNames(CeilingOr(b), bastion) then Set(Some(Without(CeilingOr(b), bastion))) else Unset,
              if AnyNames(b.denied, bastion) then Set(Without(b.denied, bastion)) else Unset)
  {
  }

  lemma BoundaryOwnersNext(rows: seq<Boundary>, i: nat, bastion: int)
    requires i < |rows|
    ensures BoundaryOwners(rows[..i + 1], bastion) ==
            if BoundaryNames(rows[i], bastion)
            then BoundaryOwners(rows[..i], bastion) + [Owner(BoundaryOwner, rows[i].id, rows[i].name)]
            else BoundaryOwners(rows[..i], bastion)
  {
    assert rows[..i + 1][..i] == rows[..i];
    assert BoundaryOwners(rows[..i], bastion) + [] == BoundaryOwners(rows[..i], bastion);
  }

  lemma OwnersStep(changes: seq<Owner>, rows: seq<Boundary>, i: nat, bastion: int)
    requires i < |rows| && UniqueIds([], rows)
    requires Distinct(changes) == BoundaryOwners(rows[..i], bastion)
    requires forall o :: o in changes <==> o in BoundaryOwners(rows[..i], bastion)
    ensures var b := rows[i];
            var owner := [Owner(BoundaryOwner, b.id, b.name)];
            var once := if AnyNames(b.denied, bastion) then changes + owner else changes;
            var after := if AnyNames(CeilingOr(b), bastion) then once + owner else once;
            && Distinct(after) == BoundaryOwners(rows[..i + 1], bastion)
            && forall o :: o in after <==> o in BoundaryOwners(rows[..i + 1], bastion)
  {
    var b := rows[i];
    var owner := Owner(BoundaryOwner, b.id, b.name);
    BoundaryIsNew(rows, i, bastion);
    BoundaryOwnersNext(rows, i, bastion);
    DistinctAppend(changes, owner);
    DistinctAppend(changes + [owner], owner);
  }

  lemma RoleOwnersNext(rows: seq<Role>, i: nat, bastion: int)
    requires i < |rows|
    ensures RoleOwners(rows[..i + 1], bastion) ==
            if AnyNames(rows[i].grants, bastion)
            then RoleOwners(rows[..i], bastion) + [Owner(RoleOwner, rows[i].id, rows[i].name)]
            else RoleOwners(rows[..i], bastion)
  {
    assert rows[..i + 1][..i] == rows[..i];
    assert RoleOwners(rows[..i], bastion) + [] == RoleOwners(rows[..i], bastion);
  }

  lemma {:induction false} DistinctRoleOwners(rs: seq<Role>, bastion: int)
    requires UniqueIds(rs, [])
    ensures Distinct(RoleOwners(rs, bastion)) == RoleOwners(rs, bastion)
  {
    if rs != [] {
      var i := |rs| - 1;
      DistinctRoleOwners(rs[..i], bastion);
      RoleIsNew(rs, i, bastion);
      RoleOwnersNext(rs, i, bastion);
      assert rs[..i + 1] == rs;
      DistinctAppend(RoleOwners(rs[..i], bastion), Owner(RoleOwner, rs[i].id, rs[i].name));
    }
  }

  lemma DistinctOwners(rs: seq<Role>, bs: seq<Boundary>, boundaryChanges: seq<Owner>, bastion: int)
    requires UniqueIds(rs, bs)
    requires Distinct(boundaryChanges) == BoundaryOwners(bs, bastion)
    requires forall o :: o in boundaryChanges <==> o in BoundaryOwners(bs, bastion)
    ensures Distinct(RoleOwners(rs, bastion) + boundaryChanges) == Owners(rs, bs, bastion)
  {
    OwnersAreRows(rs, [], bastion);
    OwnersAreRows([], bs, bastion);
    DistinctRoleOwners(rs, bastion);
    DistinctConcat(RoleOwners(rs, bastion), boundaryChanges);
  }

  lemma {:induction false} RoleOwnersAreRows(rs: seq<Role>, bastion: int)
    ensures forall o :: o in RoleOwners(rs, bastion) ==> exists r :: r in rs && o.id == r.id
  {
    if rs != [] {
      RoleOwnersAreRows(rs[..|rs| - 1], bastion);
      forall r ensures r in rs <==> r in rs[..|rs| - 1] || r == rs[|rs| - 1] {
        SplitLast(rs, r);
      }
    }
  }

  lemma RoleIsNew(rs: seq<Role>, i: nat, bastion: int)
    requires i < |rs| && UniqueIds(rs, [])
    ensures Owner(RoleOwner, rs[i].id, rs[i].name) !in RoleOwners(rs[..i], bastion)
  {
    RoleOwnersAreRows(rs[..i], bastion);
  }

  lemma BoundaryIsNew(bs: seq<Boundary>, i: nat, bastion: int)
    requires i < |bs| && UniqueIds([], bs)
    ensures Owner(BoundaryOwner, bs[i].id, bs[i].name) !in BoundaryOwners(bs[..i], bastion)
  {
    OwnersAreRows([], bs[..i], bastion);
  }

  // ---- What the removal means ----

  lemma WithoutKeepsMatches(gs: seq<Grant>, bastion: int, matches: Grant -> bool)
    requires forall g :: NamesBastion(g, bastion) ==> !matches(g)
    ensures AnyMatch(Without(gs, bastion), matches) <==> AnyMatch(gs, matches)
  {
  }

  /** Every decision that no grant naming the bastion could take part in stays as it was. */
  lemma RemovalKeepsDecisions(rs: seq<Role>, bs: seq<Boundary>, bastion: int, matches: Grant -> bool)
    requires forall g :: NamesBastion(g, bastion) ==> !matches(g)
    ensures Can(BoundariesWithout(bs, bastion), RolesWithout(rs, bastion), matches) <==> Can(bs, rs, matches)
  {
    BoundariesKept(bs, bastion, matches);
    RolesKept(rs, bastion, matches);
  }

  lemma BoundariesKept(bs: seq<Boundary>, bastion: int, matches: Grant -> bool)
    requires forall g :: NamesBastion(g, bastion) ==> !matches(g)
    ensures (forall b :: b in BoundariesWithout(bs, bastion) ==> Passes(b, matches)) <==>
            (forall b :: b in bs ==> Passes(b, matches))
  {
    forall b | b in bs
      ensures BoundaryWithout(b, bastion) in BoundariesWithout(bs, bastion)
      ensures Passes(BoundaryWithout(b, bastion), matches) <==> Passes(b, matches)
    {
      WithoutKeepsMatches(b.denied, bastion, matches);
      WithoutKeepsMatches(CeilingOr(b), bastion, matches);
      var i :| 0 <= i < |bs| && bs[i] == b;
      assert BoundariesWithout(bs, bastion)[i] == BoundaryWithout(b, bastion);
    }
    forall b' | b' in BoundariesWithout(bs, bastion) ensures exists b :: b in bs && b' == BoundaryWithout(b, bastion) {
      var i :| 0 <= i < |bs| && BoundariesWithout(bs, bastion)[i] == b';
      assert bs[i] in bs;
    }
  }

  lemma RolesKept(rs: seq<Role>, bastion: int, matches: Grant -> bool)
    requires forall g :: NamesBastion(g, bastion) ==> !matches(g)
    ensures (exists r :: r in RolesWithout(rs, bastion) && AnyMatch(r.grants, matches)) <==>
            (exists r :: r in rs && AnyMatch(r.grants, matches))
  {
    forall r | r in rs
      ensures RoleWithout(r, bastion) in RolesWithout(rs, bastion)
      ensures AnyMatch(RoleWithout(r, bastion).grants, matches) <==> AnyMatch(r.grants, matches)
    {
      WithoutKeepsMatches(r.grants, bastion, matches);
      var i :| 0 <= i < |rs| && rs[i] == r;
      assert RolesWithout(rs, bastion)[i] == RoleWithout(r, bastion);
    }
    forall r' | r' in RolesWithout(rs, bastion) ensures exists r :: r in rs && r' == RoleWithout(r, bastion) {
      var i :| 0 <= i < |rs| && RolesWithout(rs, bastion)[i] == r';
      assert rs[i] in rs;
    }
  }

  lemma {:induction false} SelectionCommutes(bs: seq<Boundary>, ids: set<int>, bastion: int)
    ensures BoundariesOf(BoundariesWithout(bs, bastion), ids) == BoundariesWithout(BoundariesOf(bs, ids), bastion)
  {
    if bs != [] {
      assert BoundariesWithout(bs, bastion)[1..] == BoundariesWithout(bs[1..], bastion);
      SelectionCommutes(bs[1..], ids, bastion);
    }
  }

  lemma {:induction false} RoleSelectionCommutes(rs: seq<Role>, active: Option<int>, bastion: int)
    ensures RolesOf(RolesWithout(rs, bastion), active) == RolesWithout(RolesOf(rs, active), bastion)
  {
    if rs != [] {
      assert RolesWithout(rs, bastion)[1..] == RolesWithout(rs[1..], bastion);
      RoleSelectionCommutes(rs[1..], active, bastion);
    }
  }

  /** For every caller, nothing changes about any other bastion, or about no bastion in particular. */
  lemma OtherBastionsKept(
    rs: seq<Role>, bs: seq<Boundary>, bastion: int, ids: set<int>, active: Option<int>,
    about: Option<int>, action: BastionAction)
    requires about != Some(bastion)
    ensures Can(BoundariesOf(BoundariesWithout(bs, bastion), ids), RolesOf(RolesWithout(rs, bastion), active),
                BastionMatches(about, action)) <==>
            Can(BoundariesOf(bs, ids), RolesOf(rs, active), BastionMatches(about, action))
  {
    SelectionCommutes(bs, ids, bastion);
    RoleSelectionCommutes(rs, active, bastion);
    RemovalKeepsDecisions(RolesOf(rs, active), BoundariesOf(bs, ids), bastion, BastionMatches(about, action));
  }

  /** For every caller, nothing changes about any resource of another type. */
  lemma OtherTypesKept(
    rs: seq<Role>, bs: seq<Boundary>, bastion: int, ids: set<int>, active: Option<int>, matches: Grant -> bool)
    requires forall g :: matches(g) ==> !g.BastionGrant?
    ensures Can(BoundariesOf(BoundariesWithout(bs, bastion), ids),
                RolesOf(RolesWithout(rs, bastion), active), matches) <==>
            Can(BoundariesOf(bs, ids), RolesOf(rs, active), matches)
  {
    SelectionCommutes(bs, ids, bastion);
    RoleSelectionCommutes(rs, active, bastion);
    RemovalKeepsDecisions(RolesOf(rs, active), BoundariesOf(bs, ids), bastion, matches);
  }

  /** Everything that an SSH authorisation asks of a list is asked of its SSH grants. */
  lemma SshListKept(gs: seq<Grant>, bastion: int, ask: Ask, d: Ttl)
    ensures GivenBy(Without(gs, bastion), ask, d) <==> GivenBy(gs, ask, d)
    ensures NotDeniedBy(Without(gs, bastion), ask, d) <==> NotDeniedBy(gs, ask, d)
  {
    var giving := (g: Grant) => Reaches(g, ask) && Within(d, g.permission.ttl);
    var denying := (g: Grant) => Reaches(g, ask) && !(g.permission.ttl.Seconds? && Within(d, g.permission.ttl));
    assert forall hs: seq<Grant> :: GivenBy(hs, ask, d) <==> AnyMatch(hs, giving);
    assert forall hs: seq<Grant> :: NotDeniedBy(hs, ask, d) <==> !AnyMatch(hs, denying);
    WithoutKeepsMatches(gs, bastion, giving);
    WithoutKeepsMatches(gs, bastion, denying);
  }

  lemma BoundaryKept(b: Boundary, bastion: int, ask: Ask, d: Ttl)
    ensures AllowedUnder(BoundaryWithout(b, bastion), ask, d) <==> AllowedUnder(b, ask, d)
  {
    SshListKept(b.denied, bastion, ask, d);
    if b.ceiling.Some? {
      SshListKept(b.ceiling.value, bastion, ask, d);
    }
  }

  lemma SshRolesKept(rs: seq<Role>, bastion: int, ask: Ask, d: Ttl)
    ensures (exists r :: r in RolesWithout(rs, bastion) && GivenBy(r.grants, ask, d)) <==>
            (exists r :: r in rs && GivenBy(r.grants, ask, d))
  {
    var giving := (g: Grant) => Reaches(g, ask) && Within(d, g.permission.ttl);
    assert forall hs: seq<Grant> :: GivenBy(hs, ask, d) <==> AnyMatch(hs, giving);
    RolesKept(rs, bastion, giving);
  }

  lemma AuthorisationKept(rs: seq<Role>, bs: seq<Boundary>, bastion: int, ask: Ask, d: Ttl)
    ensures Authorised(BoundariesWithout(bs, bastion), RolesWithout(rs, bastion), ask, d) <==>
            Authorised(bs, rs, ask, d)
  {
    SshRolesKept(rs, bastion, ask, d);
    forall b | b in bs
      ensures BoundaryWithout(b, bastion) in BoundariesWithout(bs, bastion)
      ensures AllowedUnder(BoundaryWithout(b, bastion), ask, d) <==> AllowedUnder(b, ask, d)
    {
      BoundaryKept(b, bastion, ask, d);
      WithoutIsThere(bs, b, bastion);
    }
    forall b' | b' in BoundariesWithout(bs, bastion) ensures exists b :: b in bs && b' == BoundaryWithout(b, bastion) {
      var i :| 0 <= i < |bs| && BoundariesWithout(bs, bastion)[i] == b';
      assert bs[i] in bs;
    }
  }

  lemma WithoutIsThere(bs: seq<Boundary>, b: Boundary, bastion: int)
    requires b in bs
    ensures BoundaryWithout(b, bastion) in BoundariesWithout(bs, bastion)
  {
    var i :| 0 <= i < |bs| && bs[i] == b;
    assert BoundariesWithout(bs, bastion)[i] == BoundaryWithout(b, bastion);
  }

  /** For every caller, no SSH decision changes, nor its bound. */
  lemma SshDecisionsKept(
    rs: seq<Role>, bs: seq<Boundary>, bastion: int, ids: set<int>, active: Option<int>, ask: Ask)
    ensures SshVerdictOf(BoundariesOf(BoundariesWithout(bs, bastion), ids),
                         RolesOf(RolesWithout(rs, bastion), active), ask) ==
            SshVerdictOf(BoundariesOf(bs, ids), RolesOf(rs, active), ask)
  {
    SelectionCommutes(bs, ids, bastion);
    RoleSelectionCommutes(rs, active, bastion);
    var bs0, rs0 := BoundariesOf(bs, ids), RolesOf(rs, active);
    var bs1, rs1 := BoundariesWithout(bs0, bastion), RolesWithout(rs0, bastion);
    forall d ensures Admits(SshVerdictOf(bs1, rs1, ask), d) <==> Admits(SshVerdictOf(bs0, rs0, ask), d) {
      DecideIsPointwise(bs0, rs0, ask, d);
      DecideIsPointwise(bs1, rs1, ask, d);
      AuthorisationKept(rs0, bs0, bastion, ask, d);
    }
    AdmissionDecides(SshVerdictOf(bs1, rs1, ask), SshVerdictOf(bs0, rs0, ask));
  }

  /** No grant names the bastion any more, a missing ceiling stays missing, and an emptied one denies everything. */
  lemma NothingNamesItAnyMore(rs: seq<Role>, bs: seq<Boundary>, bastion: int)
    ensures Owners(RolesWithout(rs, bastion), BoundariesWithout(bs, bastion), bastion) == []
    ensures forall r, g :: r in RolesWithout(rs, bastion) && g in r.grants && g.BastionGrant? ==> g.id != Some(bastion)
    ensures forall b, g: Grant :: b in BoundariesWithout(bs, bastion) && g in b.denied && g.BastionGrant? ==>
                                    g.id != Some(bastion)
    ensures forall b, g: Grant ::
              b in BoundariesWithout(bs, bastion) && b.ceiling.Some? && g in b.ceiling.value && g.BastionGrant? ==>
                g.id != Some(bastion)
    ensures forall i :: 0 <= i < |bs| ==> (BoundariesWithout(bs, bastion)[i].ceiling.None? <==> bs[i].ceiling.None?)
    ensures forall i :: 0 <= i < |bs| && bs[i].ceiling.Some? ==>
                          (BoundariesWithout(bs, bastion)[i].ceiling == Some([]) <==>
                           forall g :: g in bs[i].ceiling.value ==> g.BastionGrant? && g.id == Some(bastion))
  {
    NoOwnersLeft(RolesWithout(rs, bastion), BoundariesWithout(bs, bastion), bastion);
    forall i | 0 <= i < |bs| && bs[i].ceiling.Some?
      ensures BoundariesWithout(bs, bastion)[i].ceiling == Some([]) <==>
              forall g :: g in bs[i].ceiling.value ==> NamesBastion(g, bastion)
    {
      var left := Without(bs[i].ceiling.value, bastion);
      if left != [] {
        assert left[0] in left;
      }
    }
  }

  lemma {:induction false} NoOwnersLeft(rs: seq<Role>, bs: seq<Boundary>, bastion: int)
    requires forall r :: r in rs ==> !AnyNames(r.grants, bastion)
    requires forall b :: b in bs ==> !BoundaryNames(b, bastion)
    ensures Owners(rs, bs, bastion) == []
    decreases |rs| + |bs|
  {
    if rs != [] {
      NoOwnersLeft(rs[..|rs| - 1], bs, bastion);
    } else if bs != [] {
      NoOwnersLeft(rs, bs[..|bs| - 1], bastion);
    }
  }

  lemma {:induction false} WithoutConcat(before: seq<Grant>, after: seq<Grant>, bastion: int)
    ensures Without(before + after, bastion) == Without(before, bastion) + Without(after, bastion)
  {
    if before == [] {
      assert [] + after == after;
    } else {
      assert (before + after)[1..] == before[1..] + after;
      WithoutConcat(before[1..], after, bastion);
    }
  }

  lemma WithoutOne(g: Grant, bastion: int)
    ensures Without([g], bastion) == if g.BastionGrant? && g.id == Some(bastion) then [] else [g]
  {
    assert Without([], bastion) == [];
  }

  /** Every other grant stays, in its place. */
  lemma OnlyThoseGo(before: seq<Grant>, g: Grant, after: seq<Grant>, bastion: int)
    ensures Without(before + [g] + after, bastion) ==
            Without(before, bastion) + (if g.BastionGrant? && g.id == Some(bastion) then [] else [g]) +
            Without(after, bastion)
  {
    WithoutConcat(before + [g], after, bastion);
    WithoutConcat(before, [g], bastion);
    WithoutOne(g, bastion);
  }

  /** And nothing else about a role or a boundary changes. */
  lemma OnlyGrantsChange(rs: seq<Role>, bs: seq<Boundary>, bastion: int)
    ensures var roles, boundaries := RolesWithout(rs, bastion), BoundariesWithout(bs, bastion);
            && |roles| == |rs| && |boundaries| == |bs|
            && (forall i :: 0 <= i < |rs| ==>
                              roles[i] == Role(rs[i].id, rs[i].name, rs[i].description, roles[i].grants))
            && (forall i :: 0 <= i < |bs| ==>
                              boundaries[i] == Boundary(bs[i].id, bs[i].name, bs[i].description,
                                                        boundaries[i].ceiling, boundaries[i].denied))
  {
  }

  /** Turning an emptied ceiling into a missing one would have given the caller what the ceiling withheld. */
  lemma MissingCeilingIsNotEmptyCeiling()
    ensures var everything := BastionPermission(true, true, true, None);
            var role := Role(1, "r", "", [BastionGrant(None, everything)]);
            var only7 := Boundary(1, "b", "", Some([BastionGrant(Some(7), everything)]), []);
            var matches := BastionMatches(Some(8), ReadBastion);
            !Can([BoundaryWithout(only7, 7)], [role], matches) &&
            Can([only7.(ceiling := None)], [role], matches)
  {
    var everything := BastionPermission(true, true, true, None);
    var role := Role(1, "r", "", [BastionGrant(None, everything)]);
    var only7 := Boundary(1, "b", "", Some([BastionGrant(Some(7), everything)]), []);
    var matches := BastionMatches(Some(8), ReadBastion);
    assert BoundaryWithout(only7, 7) in [BoundaryWithout(only7, 7)];
    assert BastionGrant(None, everything) in role.grants && matches(BastionGrant(None, everything));
    assert AnyMatch(role.grants, matches) && role in [role];
  }
}

/** Signing a user certificate: what it embeds and until when
    (src/provablyfine/api/grant.py:390-401, src/provablyfine/api/endpoints/ssh.py:79-186). */
module SshCertificate {
  import opened Wrappers
  import opened Grants
  import opened SshVerdict
  import opened SshChecker

  function Bounded(ttls: seq<Ttl>): (r: seq<int>)
    ensures forall s :: s in r <==> Seconds(s) in ttls
    ensures forall t :: t in ttls && t.Seconds? ==> t.s in r
    ensures r == [] <==> forall t :: t in ttls ==> t.Unbounded?
  {
    if ttls == [] then []
    else
      assert forall t :: t in ttls <==> t == ttls[0] || t in ttls[1..];
      match ttls[0]
      case Unbounded => Bounded(ttls[1..])
      case Seconds(s) => [s] + Bounded(ttls[1..])
  }

  function Min(s: seq<int>): (r: int)
    requires s != []
    ensures r in s && forall e :: e in s ==> r <= e
  {
    if |s| == 1 then s[0]
    else
      var rest := Min(s[1..]);
      assert forall e :: e in s <==> e == s[0] || e in s[1..];
      if s[0] <= rest then s[0] else rest
  }

  /** The session is still alive at instant `t`. */
  predicate Alive(deadline: Option<int>, t: int) {
    deadline.None? || t <= deadline.value
  }

  /** The session lives exactly as long as every one of the bounds lets it, counted from `now`. */
  function Deadline(now: int, ttls: seq<Ttl>): (r: Option<int>)
    ensures forall t :: Alive(r, t) <==> forall ttl :: ttl in ttls ==> Within(Seconds(t - now), ttl)
    ensures r.None? <==> forall ttl :: ttl in ttls ==> ttl.Unbounded?
  {
    var bounded := Bounded(ttls);
    if bounded == [] then None
    else
      assert Seconds(Min(bounded)) in ttls;
      Some(now + Min(bounded))
  }

  datatype Action = ShellAction | PortForwardingAction | CommandAction(command: Option<string>)

  /** What depends on the decision: the permits among the extensions of the certificate, the command that it forces,
      and the deadline of its session. */
  datatype Certificate = Certificate(
    permitPty: bool, permitUserRc: bool, permitPortForwarding: bool, permitX11Forwarding: bool,
    permitAgentForwarding: bool, forceCommand: Option<string>, deadline: Option<int>)

  datatype Refusal = Forbidden | CommandRequired

  /** What the certificate lets its holder do. There is no extension for a shell: the certificate itself opens one,
      unless it forces a command. A command is conveyed here when it is forced. What a session may run is `CanRun`. */
  predicate Conveys(c: Certificate, x: Item) {
    match x
    case Cap(Shell) => c.forceCommand.None?
    case Cap(Pty) => c.permitPty
    case Cap(UserRc) => c.permitUserRc
    case Cap(PortForwarding) => c.permitPortForwarding
    case Cap(X11Forwarding) => c.permitX11Forwarding
    case Cap(AgentForwarding) => c.permitAgentForwarding
    case Command(command) => c.forceCommand == Some(command)
  }

  /** In a session that forces no command its holder can run any. */
  predicate CanRun(c: Certificate, command: string) {
    c.forceCommand.None? || c.forceCommand == Some(command)
  }

  predicate Asks(action: Action, x: Item) {
    match action
    case ShellAction => x == Cap(Shell)
    case PortForwardingAction => x == Cap(PortForwarding)
    case CommandAction(command) => command.Some? && x == Command(command.value)
  }

  /** What the deadline is the tightest bound of: what was asked for, and with a shell every capability that is held. */
  predicate Bounds(decision: Decision, action: Action, x: Item) {
    Asks(action, x) || (action.ShellAction? && x.Cap? && decision.For(x).Allowed?)
  }

  /** The certificate that an action gets under a decision. */
  ghost predicate IsIssued(decision: Decision, action: Action, now: int, c: Certificate) {
    && (forall x :: Asks(action, x) ==> decision.For(x).Allowed?)
    && action != CommandAction(None)
    && (forall x :: Conveys(c, x) <==> Bounds(decision, action, x) || (action.PortForwardingAction? && x == Cap(Shell)))
    && (forall t :: Alive(c.deadline, t) <==>
                    forall x :: Bounds(decision, action, x) ==> Admits(decision.For(x), Seconds(t - now)))
    && (c.deadline.None? <==> forall x :: Bounds(decision, action, x) ==> Admits(decision.For(x), Unbounded))
  }

  method Sign(decision: Decision, action: Action, now: int) returns (r: Result<Certificate, Refusal>)
    ensures r == Err(CommandRequired) <==> action == CommandAction(None)
    ensures r == Err(Forbidden) <==> exists x :: Asks(action, x) && decision.For(x).Denied?
    ensures r.Ok? ==> IsIssued(decision, action, now, r.value)
  {
    match action
    case ShellAction =>
      if Shell !in decision.capabilityTtl {
        assert Asks(action, Cap(Shell));
        return Err(Forbidden);
      }
      var cert := SignShell(decision, now);
      r := Ok(cert);
    case PortForwardingAction =>
      if PortForwarding !in decision.capabilityTtl {
        assert Asks(action, Cap(PortForwarding));
        return Err(Forbidden);
      }
      var ttl := decision.capabilityTtl[PortForwarding];
      var cert := Certificate(false, false, true, false, false, None, Deadline(now, [ttl]));
      assert Bounds(decision, action, Cap(PortForwarding));
      BoundedBy(decision, action, cert, now, [ttl]);
      r := Ok(cert);
    case CommandAction(command) =>
      if command.None? {
        return Err(CommandRequired);
      }
      var allowed := decision.commands.Permits(command.value);
      if allowed.Denied? {
        assert Asks(action, Command(command.value));
        return Err(Forbidden);
      }
      var cert := Certificate(false, false, false, false, false, command, Deadline(now, [allowed.ttl]));
      assert Bounds(decision, action, Command(command.value));
      BoundedBy(decision, action, cert, now, [allowed.ttl]);
      r := Ok(cert);
  }

  method SignShell(decision: Decision, now: int) returns (cert: Certificate)
    requires Shell in decision.capabilityTtl
    ensures IsIssued(decision, ShellAction, now, cert)
  {
    var held := decision.capabilityTtl;
    var embedded := EmbeddedWithShell(held);
    var ttls := TtlsOf(held, embedded);
    cert := Certificate(Pty in held, UserRc in held, PortForwarding in held, X11Forwarding in held,
                        AgentForwarding in held, None, Deadline(now, ttls));
    ShellBounds(decision, ttls);
    BoundedBy(decision, ShellAction, cert, now, ttls);
    ShellConveys(decision, cert);
  }

  method EmbeddedWithShell(held: CapabilityTtl) returns (embedded: set<Capability>)
    requires Shell in held
    ensures embedded == held.Keys
  {
    embedded := {Shell};
    for i := 0 to |OPTIONAL|
      invariant forall k :: k in embedded <==> k == Shell || (k in OPTIONAL[..i] && k in held)
    {
      assert OPTIONAL[..i + 1] == OPTIONAL[..i] + [OPTIONAL[i]];
      if OPTIONAL[i] in held {
        embedded := embedded + {OPTIONAL[i]};
      }
    }
    assert OPTIONAL[..|OPTIONAL|] == OPTIONAL;
    OptionalAndShellAreAll();
  }

  lemma ShellBounds(decision: Decision, ttls: seq<Ttl>)
    requires Shell in decision.capabilityTtl
    requires forall t :: t in ttls <==> exists k :: k in decision.capabilityTtl && decision.capabilityTtl[k] == t
    ensures forall x :: Bounds(decision, ShellAction, x) ==> decision.For(x).Allowed? && decision.For(x).ttl in ttls
    ensures forall t :: t in ttls ==> exists x :: Bounds(decision, ShellAction, x) && decision.For(x) == Allowed(t)
  {
    forall t | t in ttls ensures exists x :: Bounds(decision, ShellAction, x) && decision.For(x) == Allowed(t) {
      var k :| k in decision.capabilityTtl && decision.capabilityTtl[k] == t;
      assert Bounds(decision, ShellAction, Cap(k));
    }
  }

  lemma ShellConveys(decision: Decision, cert: Certificate)
    requires var held := decision.capabilityTtl;
             Shell in held &&
             cert == Certificate(Pty in held, UserRc in held, PortForwarding in held, X11Forwarding in held,
                                 AgentForwarding in held, None, cert.deadline)
    ensures forall x :: Conveys(cert, x) <==> Bounds(decision, ShellAction, x)
  {
  }

  const OPTIONAL: seq<Capability> := [Pty, UserRc, PortForwarding, X11Forwarding, AgentForwarding]

  lemma OptionalAndShellAreAll()
    ensures forall k: Capability :: k == Shell || k in OPTIONAL
  {
    forall k: Capability ensures k == Shell || k in OPTIONAL {
      assert OPTIONAL[0] == Pty && OPTIONAL[1] == UserRc && OPTIONAL[2] == PortForwarding;
      assert OPTIONAL[3] == X11Forwarding && OPTIONAL[4] == AgentForwarding;
    }
  }

  method TtlsOf(held: CapabilityTtl, ks: set<Capability>) returns (ttls: seq<Ttl>)
    requires ks <= held.Keys
    ensures forall t :: t in ttls <==> exists k :: k in ks && held[k] == t
  {
    ttls := [];
    var todo := ks;
    while todo != {}
      invariant todo <= ks
      invariant forall t :: t in ttls <==> exists k :: k in ks - todo && held[k] == t
      decreases |todo|
    {
      var k :| k in todo;
      ghost var done := ks - todo;
      ttls := ttls + [held[k]];
      todo := todo - {k};
      assert ks - todo == done + {k};
    }
    assert ks - todo == ks;
  }

  lemma BoundedBy(decision: Decision, action: Action, cert: Certificate, now: int, ttls: seq<Ttl>)
    requires forall x :: Bounds(decision, action, x) ==> decision.For(x).Allowed? && decision.For(x).ttl in ttls
    requires forall t :: t in ttls ==> exists x :: Bounds(decision, action, x) && decision.For(x) == Allowed(t)
    requires cert.deadline == Deadline(now, ttls)
    ensures forall t :: Alive(cert.deadline, t) <==>
                        forall x :: Bounds(decision, action, x) ==> Admits(decision.For(x), Seconds(t - now))
    ensures cert.deadline.None? <==> forall x :: Bounds(decision, action, x) ==> Admits(decision.For(x), Unbounded)
  {
  }

  // ---- Whether a certificate conveys no more than the decision ----

  /** Every capability of the certificate, and the command that it forces, is allowed for as long as its session
      lives. */
  ghost predicate StaysWithin(c: Certificate, decision: Decision, now: int) {
    && (forall x, t :: Conveys(c, x) && Alive(c.deadline, t) ==> Admits(decision.For(x), Seconds(t - now)))
    && (c.deadline.None? ==> forall x :: Conveys(c, x) ==> Admits(decision.For(x), Unbounded))
  }

  /** A certificate for port forwarding forces no command, so it also opens a session, which its deadline does not
      look at. It stays within the decision exactly when a shell is allowed for at least as long. A certificate for
      another action always does. */
  lemma StaysWithinIff(decision: Decision, action: Action, now: int, c: Certificate)
    requires IsIssued(decision, action, now, c)
    ensures StaysWithin(c, decision, now) <==>
            (action.PortForwardingAction? ==> Leq(decision.For(Cap(PortForwarding)), decision.For(Cap(Shell))))
  {
    if action.PortForwardingAction? {
      ForwardingStaysWithinIff(decision, now, c);
    } else {
      assert forall x :: Conveys(c, x) <==> Bounds(decision, action, x);
    }
  }

  lemma ForwardingStaysWithinIff(decision: Decision, now: int, c: Certificate)
    requires IsIssued(decision, PortForwardingAction, now, c)
    ensures StaysWithin(c, decision, now) <==> Leq(decision.For(Cap(PortForwarding)), decision.For(Cap(Shell)))
  {
    var forwarding, shell := decision.For(Cap(PortForwarding)), decision.For(Cap(Shell));
    assert Asks(PortForwardingAction, Cap(PortForwarding)) && Conveys(c, Cap(Shell));
    assert forall x :: Bounds(decision, PortForwardingAction, x) <==> x == Cap(PortForwarding);
    assert forall t :: Alive(c.deadline, t) <==> Admits(forwarding, Seconds(t - now));
    if StaysWithin(c, decision, now) && forwarding.ttl.Seconds? {
      assert Alive(c.deadline, now + forwarding.ttl.s);
    }
  }

  /** Port forwarding for eight hours next to a shell for one hour, or none: the session lives for eight hours. */
  lemma ForwardingOutlivesTheShell(shell: Option<int>, c: Certificate)
    requires shell == None || shell == Some(3600)
    requires var forwarding: CapabilityTtl := map[PortForwarding := Seconds(28800)];
             var held := if shell.Some? then forwarding[Shell := Seconds(shell.value)] else forwarding;
             IsIssued(Decision(CommandPermissions(map[], Denied), held), PortForwardingAction, 0, c)
    ensures Conveys(c, Cap(Shell)) && Alive(c.deadline, 28800)
    ensures var forwarding: CapabilityTtl := map[PortForwarding := Seconds(28800)];
            var held := if shell.Some? then forwarding[Shell := Seconds(shell.value)] else forwarding;
            !Admits(Held(held, Shell), Seconds(28800))
  {
    assert Asks(PortForwardingAction, Cap(PortForwarding));
  }

  // ---- Whether it lets its holder run no more commands than the decision ----

  ghost predicate RunsWithin(c: Certificate, decision: Decision, now: int) {
    && (forall command, t :: CanRun(c, command) && Alive(c.deadline, t) ==>
                             Admits(decision.For(Command(command)), Seconds(t - now)))
    && (c.deadline.None? ==>
          forall command :: CanRun(c, command) ==> Admits(decision.For(Command(command)), Unbounded))
  }

  /** Something that bounds the deadline is allowed for exactly that long. */
  lemma TightestBound(decision: Decision, action: Action, now: int, c: Certificate) returns (x: Item)
    requires IsIssued(decision, action, now, c)
    ensures Bounds(decision, action, x)
    ensures decision.For(x) == Allowed(if c.deadline.None? then Unbounded else Seconds(c.deadline.value - now))
  {
    if c.deadline.None? {
      x := match action
        case ShellAction => Cap(Shell)
        case PortForwardingAction => Cap(PortForwarding)
        case CommandAction(command) => Command(command.value);
      assert Asks(action, x);
    } else {
      assert !Alive(c.deadline, c.deadline.value + 1) && Alive(c.deadline, c.deadline.value);
      x :| Bounds(decision, action, x) && !Admits(decision.For(x), Seconds(c.deadline.value + 1 - now));
    }
  }

  /** The commands that a certificate lets its holder run are all allowed until the deadline exactly when each is
      allowed for as long as something that bounds the deadline. A forced command always is. */
  lemma RunsWithinIff(decision: Decision, action: Action, now: int, c: Certificate)
    requires IsIssued(decision, action, now, c)
    ensures RunsWithin(c, decision, now) <==>
            forall command :: CanRun(c, command) ==>
              exists x :: Bounds(decision, action, x) && Leq(decision.For(x), decision.For(Command(command)))
    ensures action.CommandAction? ==> RunsWithin(c, decision, now)
  {
    var tightest := TightestBound(decision, action, now, c);
    if RunsWithin(c, decision, now) {
      forall command | CanRun(c, command) ensures Leq(decision.For(tightest), decision.For(Command(command))) {
        if c.deadline.Some? {
          assert Alive(c.deadline, c.deadline.value);
        }
      }
    }
    if action.CommandAction? {
      var forced := Command(action.command.value);
      assert Asks(action, forced) && Conveys(c, forced);
      assert forall command :: CanRun(c, command) ==> Command(command) == forced;
    }
  }

  /** Every command can be run in a session that an action other than a command opens. */
  lemma UnforcedRunsAnything(decision: Decision, action: Action, now: int, c: Certificate, command: string)
    requires IsIssued(decision, action, now, c)
    ensures CanRun(c, command) <==> action.CommandAction? ==> action.command == Some(command)
  {
    if action.CommandAction? {
      assert Asks(action, Command(action.command.value)) && Conveys(c, Command(action.command.value));
    } else {
      assert action.ShellAction? ==> Asks(action, Cap(Shell));
      assert Conveys(c, Cap(Shell));
    }
  }

  // ---- From the stored grants to the certificate ----

  /** While the certificate is alive, every capability of it, and the command that it forces, is authorised for a
      session of that length by the roles and boundaries of the caller. */
  ghost predicate StaysAuthorised(
    c: Certificate, boundaries: seq<Boundary>, roles: seq<Role>, t: Target, who: Who, now: int)
  {
    && (forall x, instant :: Conveys(c, x) && Alive(c.deadline, instant) ==>
                             Authorised(boundaries, roles, Ask(t, who, x), Seconds(instant - now)))
    && (c.deadline.None? ==> forall x :: Conveys(c, x) ==> Authorised(boundaries, roles, Ask(t, who, x), Unbounded))
  }

  ghost predicate RunsAuthorised(
    c: Certificate, boundaries: seq<Boundary>, roles: seq<Role>, t: Target, who: Who, now: int)
  {
    && (forall command, instant :: CanRun(c, command) && Alive(c.deadline, instant) ==>
                                   Authorised(boundaries, roles, Ask(t, who, Command(command)), Seconds(instant - now)))
    && (c.deadline.None? ==>
          forall command :: CanRun(c, command) ==>
                              Authorised(boundaries, roles, Ask(t, who, Command(command)), Unbounded))
  }

  /** Every session that is authorised for `x` is authorised for `y`. */
  ghost predicate NoLonger(boundaries: seq<Boundary>, roles: seq<Role>, t: Target, who: Who, x: Item, y: Item) {
    forall d :: Authorised(boundaries, roles, Ask(t, who, x), d) ==> Authorised(boundaries, roles, Ask(t, who, y), d)
  }

  /** What the certificate conveys, but for the session that one for port forwarding opens. */
  predicate Intended(c: Certificate, action: Action, x: Item) {
    Conveys(c, x) && !(action.PortForwardingAction? && x == Cap(Shell))
  }

  method IssueUserCertificate(
      boundaries: seq<Boundary>, roles: seq<Role>, t: Target, name: string, unixUsername: Option<string>,
      action: Action, now: int)
    returns (r: Result<Certificate, Refusal>)
    ensures r.Ok? ==> var who := User(name, unixUsername);
                      (StaysAuthorised(r.value, boundaries, roles, t, who, now) <==>
                       (action.PortForwardingAction? ==>
                          NoLonger(boundaries, roles, t, who, Cap(PortForwarding), Cap(Shell))))
    ensures r.Ok? ==> var who := User(name, unixUsername);
                      (RunsAuthorised(r.value, boundaries, roles, t, who, now) <==>
                       forall command :: CanRun(r.value, command) ==>
                         exists x :: Intended(r.value, action, x) &&
                                     NoLonger(boundaries, roles, t, who, x, Command(command)))
    // whatever it is meant to convey is authorised until the deadline
    ensures r.Ok? ==> forall x, instant :: Intended(r.value, action, x) && Alive(r.value.deadline, instant) ==>
                        Authorised(boundaries, roles, Ask(t, User(name, unixUsername), x), Seconds(instant - now))
    ensures r == Err(Forbidden) ==>
              exists x :: Asks(action, x) &&
                          forall d :: !Authorised(boundaries, roles, Ask(t, User(name, unixUsername), x), d)
  {
    var decision := Decide(boundaries, roles, t, name, unixUsername);
    r := Sign(decision, action, now);
    if r == Err(Forbidden) {
      var x :| Asks(action, x) && decision.For(x).Denied?;
      forall d ensures !Authorised(boundaries, roles, Ask(t, User(name, unixUsername), x), d) {
        assert !Admits(decision.For(x), d);
      }
    }
    if r.Ok? {
      var who := User(name, unixUsername);
      StoredIff(decision, boundaries, roles, t, who, action, now, r.value);
    }
  }

  lemma NoLongerIsLeq(
    decision: Decision, boundaries: seq<Boundary>, roles: seq<Role>, t: Target, who: Who, x: Item, y: Item)
    requires forall z, d :: Admits(decision.For(z), d) <==> Authorised(boundaries, roles, Ask(t, who, z), d)
    ensures NoLonger(boundaries, roles, t, who, x, y) <==> Leq(decision.For(x), decision.For(y))
  {
    LeqIsAdmission(decision.For(x), decision.For(y));
    assert forall d :: Admits(decision.For(x), d) <==> Authorised(boundaries, roles, Ask(t, who, x), d);
    assert forall d :: Admits(decision.For(y), d) <==> Authorised(boundaries, roles, Ask(t, who, y), d);
  }

  lemma StoredIff(
    decision: Decision, boundaries: seq<Boundary>, roles: seq<Role>, t: Target, who: Who,
    action: Action, now: int, c: Certificate)
    requires forall z, d :: Admits(decision.For(z), d) <==> Authorised(boundaries, roles, Ask(t, who, z), d)
    requires IsIssued(decision, action, now, c)
    ensures StaysAuthorised(c, boundaries, roles, t, who, now) <==>
            (action.PortForwardingAction? ==> NoLonger(boundaries, roles, t, who, Cap(PortForwarding), Cap(Shell)))
    ensures RunsAuthorised(c, boundaries, roles, t, who, now) <==>
            forall command :: CanRun(c, command) ==>
              exists x :: Intended(c, action, x) && NoLonger(boundaries, roles, t, who, x, Command(command))
    ensures forall x, instant :: Intended(c, action, x) && Alive(c.deadline, instant) ==>
              Authorised(boundaries, roles, Ask(t, who, x), Seconds(instant - now))
  {
    StaysWithinIff(decision, action, now, c);
    assert StaysWithin(c, decision, now) <==> StaysAuthorised(c, boundaries, roles, t, who, now);
    NoLongerIsLeq(decision, boundaries, roles, t, who, Cap(PortForwarding), Cap(Shell));
    StoredRunsIff(decision, boundaries, roles, t, who, action, now, c);
  }

  lemma StoredRunsIff(
    decision: Decision, boundaries: seq<Boundary>, roles: seq<Role>, t: Target, who: Who,
    action: Action, now: int, c: Certificate)
    requires forall z, d :: Admits(decision.For(z), d) <==> Authorised(boundaries, roles, Ask(t, who, z), d)
    requires IsIssued(decision, action, now, c)
    ensures RunsAuthorised(c, boundaries, roles, t, who, now) <==>
            forall command :: CanRun(c, command) ==>
              exists x :: Intended(c, action, x) && NoLonger(boundaries, roles, t, who, x, Command(command))
    ensures forall x :: Intended(c, action, x) <==> Bounds(decision, action, x)
  {
    RunsWithinIff(decision, action, now, c);
    RunsAlike(decision, boundaries, roles, t, who, now, c);
    IntendedBounds(decision, action, now, c);
    forall command
      ensures (exists x :: Bounds(decision, action, x) && Leq(decision.For(x), decision.For(Command(command)))) <==>
              (exists x :: Intended(c, action, x) && NoLonger(boundaries, roles, t, who, x, Command(command)))
    {
      CoveredAlike(decision, boundaries, roles, t, who, action, c, command);
    }
  }

  lemma IntendedBounds(decision: Decision, action: Action, now: int, c: Certificate)
    requires IsIssued(decision, action, now, c)
    ensures forall x :: Intended(c, action, x) <==> Bounds(decision, action, x)
  {
  }

  lemma CoveredAlike(
    decision: Decision, boundaries: seq<Boundary>, roles: seq<Role>, t: Target, who: Who,
    action: Action, c: Certificate, command: string)
    requires forall z, d :: Admits(decision.For(z), d) <==> Authorised(boundaries, roles, Ask(t, who, z), d)
    requires forall x :: Intended(c, action, x) <==> Bounds(decision, action, x)
    ensures (exists x :: Bounds(decision, action, x) && Leq(decision.For(x), decision.For(Command(command)))) <==>
            (exists x :: Intended(c, action, x) && NoLonger(boundaries, roles, t, who, x, Command(command)))
  {
    forall x ensures NoLonger(boundaries, roles, t, who, x, Command(command)) <==>
                     Leq(decision.For(x), decision.For(Command(command))) {
      NoLongerIsLeq(decision, boundaries, roles, t, who, x, Command(command));
    }
  }

  lemma RunsAlike(
    decision: Decision, boundaries: seq<Boundary>, roles: seq<Role>, t: Target, who: Who, now: int, c: Certificate)
    requires forall z, d :: Admits(decision.For(z), d) <==> Authorised(boundaries, roles, Ask(t, who, z), d)
    ensures RunsWithin(c, decision, now) <==> RunsAuthorised(c, boundaries, roles, t, who, now)
  {
  }
}

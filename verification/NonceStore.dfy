/** Refusing replayed request signatures: the freshness checks and the store of nonces that were seen
    (src/provablyfine/api/signature.py:21-75 and 231-301). */
module Replay {

  const FRESHNESS_WINDOW_SECONDS := 300
  const MAX_FUTURE_SKEW_SECONDS := 30

  /** `insertedAt` is history for the statements below. No operation looks at it. */
  datatype Entry = Entry(keyId: string, nonce: string, expiry: int, insertedAt: int)

  /** An insertion-ordered dictionary from (key, nonce) to expiry. */
  datatype Store = Store(startedAt: int, seen: seq<Entry>)

  datatype Request = Request(keyId: string, nonce: string, created: int)

  predicate Holds(seen: seq<Entry>, r: Request) {
    exists e :: e in seen && e.keyId == r.keyId && e.nonce == r.nonce
  }

  /** Only the front is looked at: an expired entry behind a live one stays. */
  function Expired(seen: seq<Entry>, now: int): seq<Entry> {
    if seen == [] || seen[0].expiry >= now then seen else Expired(seen[1..], now)
  }

  function Checked(s: Store, r: Request, now: int): (Store, bool) {
    var seen := Expired(s.seen, now);
    if r.created < s.startedAt then (s.(seen := seen), false)
    else if Holds(seen, r) then (s.(seen := seen), false)
    else (s.(seen := seen + [Entry(r.keyId, r.nonce, r.created + FRESHNESS_WINDOW_SECONDS, now)]), true)
  }

  predicate Fresh(r: Request, now: int) {
    r.created <= now + MAX_FUTURE_SKEW_SECONDS && now - r.created <= FRESHNESS_WINDOW_SECONDS
  }

  /** `signed` says whether the signature itself verifies. Only then is the store touched. */
  function Verified(s: Store, r: Request, now: int, signed: bool): (Store, bool) {
    if !Fresh(r, now) || !signed then (s, false) else Checked(s, r, now)
  }

  // ---- Runs of a server that may restart ----

  datatype Event = VerifyAt(request: Request, now: int, signed: bool) | RestartAt(now: int)

  /** A request that was accepted, when, and by which store: its number and when it was started. */
  datatype Accepted = Accepted(request: Request, at: int, store: nat, startedAt: int)

  datatype Server = Server(store: Store, number: nat, clock: int, accepted: seq<Accepted>)

  function Next(s: Server, e: Event): Server {
    match e
    case RestartAt(now) => Server(Store(now, []), s.number + 1, now, s.accepted)
    case VerifyAt(r, now, signed) =>
      var (store, ok) := Verified(s.store, r, now, signed);
      Server(store, s.number, now, s.accepted + if ok then [Accepted(r, now, s.number, store.startedAt)] else [])
  }

  function Run(start: int, events: seq<Event>): Server {
    if events == [] then Server(Store(start, []), 0, start, [])
    else Next(Run(start, events[..|events| - 1]), events[|events| - 1])
  }

  /** The clock never goes back. */
  ghost predicate Monotone(start: int, events: seq<Event>) {
    forall i :: 0 <= i < |events| ==> Run(start, events[..i]).clock <= events[i].now
  }

  ghost predicate InOrder(seen: seq<Entry>, now: int) {
    (forall i, j :: 0 <= i < j < |seen| ==> seen[i].insertedAt <= seen[j].insertedAt) &&
    (forall e :: e in seen ==>
                   e.insertedAt <= now &&
                   e.expiry <= e.insertedAt + FRESHNESS_WINDOW_SECONDS + MAX_FUTURE_SKEW_SECONDS)
  }

  /** A request that the current store accepted is remembered for as long as it would be fresh. */
  ghost predicate Remembers(s: Server) {
    forall a :: a in s.accepted && a.store == s.number && a.request.created + FRESHNESS_WINDOW_SECONDS >= s.clock ==>
      exists e :: e in s.store.seen && e.keyId == a.request.keyId && e.nonce == a.request.nonce &&
                  e.expiry >= a.request.created + FRESHNESS_WINDOW_SECONDS
  }

  /** Whatever is in the store was accepted by it. */
  ghost predicate Justified(s: Server) {
    forall e :: e in s.store.seen ==>
      exists a :: a in s.accepted && a.store == s.number && a.request.keyId == e.keyId && a.request.nonce == e.nonce
  }

  ghost predicate Recorded(s: Server) {
    forall a :: a in s.accepted ==>
      && a.store <= s.number && a.startedAt <= a.at <= s.clock
      && a.startedAt <= a.request.created <= a.at + MAX_FUTURE_SKEW_SECONDS
      && (a.store == s.number ==> a.startedAt == s.store.startedAt)
      && (a.store < s.number ==> a.at <= s.store.startedAt)
  }

  /** What a replay can look like: never by one store, and across a restart only for a request
      that was created at most `MAX_FUTURE_SKEW_SECONDS` after it. */
  ghost predicate OnlyAcrossRestart(a: Accepted, b: Accepted) {
    a.request == b.request ==>
      a.store < b.store && b.startedAt <= b.request.created <= b.startedAt + MAX_FUTURE_SKEW_SECONDS
  }

  ghost predicate NoReplays(accepted: seq<Accepted>) {
    forall i, j :: 0 <= i < j < |accepted| ==> OnlyAcrossRestart(accepted[i], accepted[j])
  }

  ghost predicate Inv(s: Server) {
    && s.store.startedAt <= s.clock && InOrder(s.store.seen, s.clock)
    && Remembers(s) && Justified(s) && Recorded(s) && NoReplays(s.accepted)
  }

  lemma {:induction false} ExpiredIsSuffix(seen: seq<Entry>, now: int) returns (n: nat)
    ensures n <= |seen| && Expired(seen, now) == seen[n..]
    ensures forall e :: e in seen && e.expiry >= now ==> e in Expired(seen, now)
    ensures Expired(seen, now) != [] ==> Expired(seen, now)[0].expiry >= now
  {
    if seen == [] || seen[0].expiry >= now {
      n := 0;
    } else {
      n := ExpiredIsSuffix(seen[1..], now);
      assert seen[1..][n..] == seen[n + 1..];
      n := n + 1;
    }
  }

  lemma InOrderLater(seen: seq<Entry>, before: int, now: int)
    requires InOrder(seen, before) && before <= now
    ensures InOrder(Expired(seen, now), now)
  {
    var n := ExpiredIsSuffix(seen, now);
  }

  lemma AcceptedKeepsInv(s: Server, r: Request, now: int)
    requires Inv(s) && s.clock <= now && Fresh(r, now)
    requires Checked(s.store, r, now).1
    ensures Inv(Next(s, VerifyAt(r, now, true)))
  {
    InsertionIsInOrder(s, r, now);
    AcceptedIsRemembered(s, r, now);
    AcceptedIsJustified(s, r, now);
    AcceptedIsNoReplay(s, r, now);
  }

  lemma InsertionIsInOrder(s: Server, r: Request, now: int)
    requires InOrder(s.store.seen, s.clock) && s.clock <= now && Fresh(r, now)
    requires Checked(s.store, r, now).1
    ensures InOrder(Checked(s.store, r, now).0.seen, now)
  {
    InOrderLater(s.store.seen, s.clock, now);
  }

  lemma AcceptedIsNoReplay(s: Server, r: Request, now: int)
    requires s.store.startedAt <= s.clock <= now && Fresh(r, now)
    requires Remembers(s) && Recorded(s) && NoReplays(s.accepted)
    requires Checked(s.store, r, now).1
    ensures var t := Next(s, VerifyAt(r, now, true)); Recorded(t) && NoReplays(t.accepted)
  {
    var t := Next(s, VerifyAt(r, now, true));
    var n := ExpiredIsSuffix(s.store.seen, now);
    var latest := Accepted(r, now, s.number, s.store.startedAt);
    assert t.accepted == s.accepted + [latest];
    forall i, j | 0 <= i < j < |t.accepted| ensures OnlyAcrossRestart(t.accepted[i], t.accepted[j]) {
      if j == |s.accepted| && t.accepted[i].request == r {
        assert t.accepted[i] in s.accepted;
      }
    }
  }

  lemma AcceptedIsJustified(s: Server, r: Request, now: int)
    requires Justified(s) && Fresh(r, now) && Checked(s.store, r, now).1
    ensures Justified(Next(s, VerifyAt(r, now, true)))
  {
    var t := Next(s, VerifyAt(r, now, true));
    var n := ExpiredIsSuffix(s.store.seen, now);
    var latest := Accepted(r, now, s.number, s.store.startedAt);
    assert t.accepted == s.accepted + [latest];
    assert latest in t.accepted;
    forall e | e in t.store.seen
      ensures exists a :: a in t.accepted && a.store == t.number &&
                          a.request.keyId == e.keyId && a.request.nonce == e.nonce
    {
      if e in Expired(s.store.seen, now) {
        var a :| a in s.accepted && a.store == s.number && a.request.keyId == e.keyId && a.request.nonce == e.nonce;
        assert a in t.accepted;
      }
    }
  }

  lemma AcceptedIsRemembered(s: Server, r: Request, now: int)
    requires Remembers(s) && s.clock <= now && Fresh(r, now)
    requires Checked(s.store, r, now).1
    ensures Remembers(Next(s, VerifyAt(r, now, true)))
  {
    var t := Next(s, VerifyAt(r, now, true));
    var n := ExpiredIsSuffix(s.store.seen, now);
    var latest := Accepted(r, now, s.number, s.store.startedAt);
    assert t.accepted == s.accepted + [latest];
    forall a | a in t.accepted && a.store == t.number && a.request.created + FRESHNESS_WINDOW_SECONDS >= now
      ensures exists e :: e in t.store.seen && e.keyId == a.request.keyId && e.nonce == a.request.nonce &&
                          e.expiry >= a.request.created + FRESHNESS_WINDOW_SECONDS
    {
      if a == latest {
        assert t.store.seen[|t.store.seen| - 1] in t.store.seen;
      } else {
        assert a in s.accepted;
      }
    }
  }

  lemma RefusedKeepsInv(s: Server, r: Request, now: int, signed: bool)
    requires Inv(s) && s.clock <= now
    requires !Verified(s.store, r, now, signed).1
    ensures Inv(Next(s, VerifyAt(r, now, signed)))
  {
    var n := ExpiredIsSuffix(s.store.seen, now);
    InOrderLater(s.store.seen, s.clock, now);
    assert s.accepted + [] == s.accepted;
  }

  lemma {:induction false} EveryRunKeepsInv(start: int, events: seq<Event>)
    requires Monotone(start, events)
    ensures Inv(Run(start, events))
  {
    if events != [] {
      var before := events[..|events| - 1];
      var s, e := Run(start, before), events[|events| - 1];
      assert forall i :: 0 <= i < |before| ==> before[..i] == events[..i];
      EveryRunKeepsInv(start, before);
      assert s.clock <= e.now;
      if e.VerifyAt? {
        if Verified(s.store, e.request, e.now, e.signed).1 {
          AcceptedKeepsInv(s, e.request, e.now);
        } else {
          RefusedKeepsInv(s, e.request, e.now, e.signed);
        }
      }
    }
  }

  /** No store accepts a request twice, and two stores accept the same one only if it was created within
      `MAX_FUTURE_SKEW_SECONDS` of the start of the later one. */
  lemma ReplaysAreRefused(start: int, events: seq<Event>, i: nat, j: nat)
    requires Monotone(start, events)
    requires i < j < |Run(start, events).accepted|
    requires Run(start, events).accepted[i].request == Run(start, events).accepted[j].request
    ensures var a, b := Run(start, events).accepted[i], Run(start, events).accepted[j];
            a.store < b.store && b.startedAt <= b.request.created <= b.startedAt + 30
  {
    EveryRunKeepsInv(start, events);
    assert OnlyAcrossRestart(Run(start, events).accepted[i], Run(start, events).accepted[j]);
  }

  /** Nobody is refused without a reason: a nonce that this store has not accepted from the key passes exactly
      when the request is signed, was created in the last 300 seconds or for the next 30, and is not older than the
      store. */
  lemma UnusedNonceIsAcceptedIff(start: int, events: seq<Event>, r: Request, now: int, signed: bool)
    requires Monotone(start, events)
    requires var s := Run(start, events);
             forall a :: a in s.accepted && a.store == s.number ==>
               a.request.keyId != r.keyId || a.request.nonce != r.nonce
    ensures var s := Run(start, events);
            Verified(s.store, r, now, signed).1 <==>
            signed && now - 300 <= r.created <= now + 30 && r.created >= s.store.startedAt
  {
    EveryRunKeepsInv(start, events);
    var n := ExpiredIsSuffix(Run(start, events).store.seen, now);
  }

  ghost predicate AcceptedByTwo(start: int, events: seq<Event>, r: Request, restart: int) {
    exists i, j :: 0 <= i < j < |Run(start, events).accepted| &&
      Run(start, events).accepted[i].request == r && Run(start, events).accepted[j].request == r &&
      Run(start, events).accepted[j].startedAt == restart
  }

  /** The window that a restart opens is exactly that long. */
  lemma ReplayWindowIff(r: Request, restart: int)
    ensures (exists start, events :: Monotone(start, events) && AcceptedByTwo(start, events, r, restart)) <==>
            restart <= r.created <= restart + 30
  {
    forall start, events | Monotone(start, events) && AcceptedByTwo(start, events, r, restart)
      ensures restart <= r.created <= restart + MAX_FUTURE_SKEW_SECONDS
    {
      var i, j :| 0 <= i < j < |Run(start, events).accepted| &&
        Run(start, events).accepted[i].request == r && Run(start, events).accepted[j].request == r &&
        Run(start, events).accepted[j].startedAt == restart;
      ReplaysAreRefused(start, events, i, j);
    }
    if restart <= r.created <= restart + MAX_FUTURE_SKEW_SECONDS {
      var events := [VerifyAt(r, restart, true), RestartAt(restart), VerifyAt(r, restart, true)];
      RestartReopens(r, restart);
      var accepted := Run(restart, events).accepted;
      assert accepted[0].request == r && accepted[1].request == r && accepted[1].startedAt == restart;
      assert Monotone(restart, events) && AcceptedByTwo(restart, events, r, restart);
    }
  }

  lemma RestartReopens(r: Request, restart: int)
    requires restart <= r.created <= restart + MAX_FUTURE_SKEW_SECONDS
    ensures var events := [VerifyAt(r, restart, true), RestartAt(restart), VerifyAt(r, restart, true)];
            && Monotone(restart, events)
            && Run(restart, events).accepted == [Accepted(r, restart, 0, restart), Accepted(r, restart, 1, restart)]
  {
    var e0, e1 := VerifyAt(r, restart, true), RestartAt(restart);
    var events := [e0, e1, e0];
    assert events[..0] == [] && events[..1] == [e0] && events[..2] == [e0, e1];
    assert [e0, e1][..1] == [e0] && [e0][..0] == [];
    var s0, s1, s2 := Run(restart, []), Run(restart, [e0]), Run(restart, [e0, e1]);
    assert s0 == Server(Store(restart, []), 0, restart, []);
    assert s1 == Next(s0, e0) && s2 == Next(s1, e1) && Run(restart, events) == Next(s2, e0);
    assert s1.accepted == [Accepted(r, restart, 0, restart)];
    assert s2 == Server(Store(restart, []), 1, restart, s1.accepted);
  }

  /** After a call that reaches the store, nothing in it is older than the two windows together. */
  lemma ResidenceIsBounded(start: int, events: seq<Event>, r: Request, now: int, e: Entry)
    requires Monotone(start, events) && Run(start, events).clock <= now && Fresh(r, now)
    requires e in Next(Run(start, events), VerifyAt(r, now, true)).store.seen
    ensures 0 <= now - e.insertedAt <= 330
  {
    var s := Run(start, events);
    EveryRunKeepsInv(start, events);
    var n := ExpiredIsSuffix(s.store.seen, now);
    InOrderLater(s.store.seen, s.clock, now);
    var left := Expired(s.store.seen, now);
    if e in left {
      assert left[0] in left;
      assert left[0].insertedAt <= e.insertedAt;
    }
  }

  /** The bound is reached. */
  lemma ResidenceBoundIsReached()
    ensures var late, last := Request("k", "n", 30), Request("k", "m", 330);
            var s := Run(0, [VerifyAt(late, 0, true)]);
            Entry("k", "n", 330, 0) in Next(s, VerifyAt(last, 330, true)).store.seen
  {
    var e := VerifyAt(Request("k", "n", 30), 0, true);
    assert [e][..0] == [];
    assert Run(0, []) == Server(Store(0, []), 0, 0, []);
    var s := Run(0, [e]);
    assert [] + [Entry("k", "n", 330, 0)] == [Entry("k", "n", 330, 0)];
    assert s.store.seen == [Entry("k", "n", 330, 0)];
    assert Expired(s.store.seen, 330) == s.store.seen;
  }

  // ---- The code ----

  class NonceStore {
    const windowSeconds: int := FRESHNESS_WINDOW_SECONDS
    const startedAt: int
    var seen: seq<Entry>

    ghost function Abs(): Store
      reads this
    {
      Store(startedAt, seen)
    }

    constructor (now: int)
      ensures Abs() == Store(now, [])
    {
      startedAt := now;
      seen := [];
    }

    method Expire(now: int)
      modifies this
      ensures seen == Expired(old(seen), now)
    {
      while seen != []
        invariant Expired(seen, now) == Expired(old(seen), now)
        decreases |seen|
      {
        var oldest := seen[0];
        if oldest.expiry >= now {
          break;
        }
        seen := seen[1..];
      }
    }

    method CheckAndAdd(r: Request, now: int) returns (ok: bool)
      modifies this
      ensures (Abs(), ok) == Checked(old(Abs()), r, now)
    {
      Expire(now);
      if r.created < startedAt {
        return false;
      }
      if Holds(seen, r) {
        return false;
      }
      seen := seen + [Entry(r.keyId, r.nonce, r.created + windowSeconds, now)];
      ok := true;
    }

    method Verify(r: Request, now: int, signed: bool) returns (ok: bool)
      modifies this
      ensures (Abs(), ok) == Verified(old(Abs()), r, now, signed)
    {
      if r.created > now + MAX_FUTURE_SKEW_SECONDS {
        return false;
      }
      if now - r.created > FRESHNESS_WINDOW_SECONDS {
        return false;
      }
      if !signed {
        return false;
      }
      ok := CheckAndAdd(r, now);
    }
  }
}

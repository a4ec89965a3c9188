/** Signing keys: the one that signs, the one that waits, and the rotation that replaces them
    (src/provablyfine/api/rotate.py, src/provablyfine/api/endpoints/initialize.py:13-47,
    src/provablyfine/api/endpoints/ssh.py:18-24 and 307-337). */
module KeyRotation {

  datatype KeyKind = HostKey | UserKey | OidcKey

  datatype Key = Key(kind: KeyKind, validAfter: int, validBefore: int)

  datatype Periods = Periods(rotation: int, staging: int)

  predicate Signs(k: Key, now: int, staging: int) {
    k.validAfter <= now - staging && k.validBefore > now
  }

  predicate IsStaged(k: Key, now: int, staging: int) {
    k.validAfter > now - staging
  }

  /** The key is in the list of trusted keys that hosts and clients fetch. */
  predicate Published(k: Key, now: int) {
    k.validBefore > now
  }

  function Where(keys: seq<Key>, p: Key -> bool): seq<Key> {
    if keys == [] then []
    else if p(keys[0]) then [keys[0]] + Where(keys[1..], p)
    else Where(keys[1..], p)
  }

  function OfKind(keys: seq<Key>, kind: KeyKind): seq<Key> {
    Where(keys, (k: Key) => k.kind == kind)
  }

  /** What a certificate request reads. It signs with the first of these. */
  function Signers(keys: seq<Key>, now: int, staging: int): seq<Key> {
    Where(keys, (k: Key) => Signs(k, now, staging))
  }

  function Recent(keys: seq<Key>, now: int, rotation: int): seq<Key> {
    Where(keys, (k: Key) => k.validAfter >= now - rotation)
  }

  function StagedOf(keys: seq<Key>, now: int, staging: int): seq<Key> {
    Where(keys, (k: Key) => IsStaged(k, now, staging))
  }

  lemma {:induction false} WhereMembers(keys: seq<Key>, p: Key -> bool)
    ensures forall k :: k in Where(keys, p) <==> k in keys && p(k)
  {
    if keys != [] {
      WhereMembers(keys[1..], p);
      assert forall k :: k in keys <==> k == keys[0] || k in keys[1..];
    }
  }

  function FirstKey(kind: KeyKind, now: int, p: Periods): Key {
    Key(kind, now - p.staging - 10, now - p.staging - 10 + p.rotation)
  }

  /** The key that takes over when the current one ends. */
  function NextKey(kind: KeyKind, currentEnd: int, p: Periods): Key {
    Key(kind, currentEnd - p.staging, currentEnd - p.staging + p.rotation)
  }

  function Initial(kind: KeyKind, now: int, p: Periods): seq<Key> {
    var current := FirstKey(kind, now, p);
    [current, NextKey(kind, current.validBefore, p)]
  }

  predicate CurrentIsMissing(keys: seq<Key>, now: int, p: Periods) {
    Signers(Recent(keys, now, p.rotation), now, p.staging) == []
  }

  /** One run of the rotation, over the keys of one kind. */
  function Rotated(keys: seq<Key>, kind: KeyKind, now: int, p: Periods): seq<Key> {
    var recent := Recent(keys, now, p.rotation);
    var current := Signers(recent, now, p.staging);
    var first := if current == [] then [FirstKey(kind, now, p)] else [];
    var end := if current == [] then FirstKey(kind, now, p).validBefore else current[0].validBefore;
    keys + first + if StagedOf(recent, now, p.staging) == [] then [NextKey(kind, end, p)] else []
  }

  // ---- Runs ----

  /** The keys of one kind after `initialize` at `start` and rotations at these times. */
  function KeysAfter(kind: KeyKind, start: int, times: seq<int>, p: Periods): seq<Key> {
    if times == [] then Initial(kind, start, p)
    else Rotated(KeysAfter(kind, start, times[..|times| - 1], p), kind, times[|times| - 1], p)
  }

  function LastTime(start: int, times: seq<int>): int {
    if times == [] then start else times[|times| - 1]
  }

  /** The clock does not go back, and rotations are at most `gap` seconds apart. */
  ghost predicate Paced(start: int, times: seq<int>, gap: int) {
    forall i :: 0 <= i < |times| ==> LastTime(start, times[..i]) <= times[i] <= LastTime(start, times[..i]) + gap
  }

  /** The clock does not go back. The rotations may be as far apart as they like. */
  ghost predicate Ordered(start: int, times: seq<int>) {
    forall i :: 0 <= i < |times| ==> LastTime(start, times[..i]) <= times[i]
  }

  /** The last key waits, the one before it signs until then, and all older ones have expired. */
  ghost predicate Settled(keys: seq<Key>, now: int, p: Periods) {
    && |keys| >= 2
    && (forall i :: 0 <= i < |keys| ==> keys[i].validBefore == keys[i].validAfter + p.rotation)
    && (forall i :: 0 <= i < |keys| - 2 ==> keys[i].validBefore <= now)
    && keys[|keys| - 1].validAfter == keys[|keys| - 2].validBefore - p.staging
    && Signs(keys[|keys| - 2], now, p.staging) && IsStaged(keys[|keys| - 1], now, p.staging)
  }

  lemma {:induction false} OnlyOne(keys: seq<Key>, p: Key -> bool, i: nat)
    requires i < |keys| && p(keys[i])
    requires forall j :: 0 <= j < |keys| && j != i ==> !p(keys[j])
    ensures Where(keys, p) == [keys[i]]
  {
    if i > 0 {
      OnlyOne(keys[1..], p, i - 1);
    } else {
      WhereIsEmpty(keys[1..], p);
    }
  }

  lemma {:induction false} WhereIsEmpty(keys: seq<Key>, p: Key -> bool)
    requires forall k :: k in keys ==> !p(k)
    ensures Where(keys, p) == []
  {
    if keys != [] {
      assert keys[0] in keys;
      WhereIsEmpty(keys[1..], p);
    }
  }

  lemma {:induction false} WhereOfWhere(keys: seq<Key>, p: Key -> bool, q: Key -> bool)
    requires forall k :: k in keys && q(k) ==> p(k)
    ensures Where(Where(keys, p), q) == Where(keys, q)
  {
    if keys != [] {
      assert keys[0] in keys;
      WhereOfWhere(keys[1..], p, q);
      assert ([keys[0]] + Where(keys[1..], p))[1..] == Where(keys[1..], p);
    }
  }

  /** Nothing that signs or waits is too old to be read by a rotation. */
  lemma RecentIsEnough(keys: seq<Key>, now: int, p: Periods)
    requires p.rotation > p.staging
    requires forall k :: k in keys ==> k.validBefore == k.validAfter + p.rotation
    ensures Signers(Recent(keys, now, p.rotation), now, p.staging) == Signers(keys, now, p.staging)
    ensures StagedOf(Recent(keys, now, p.rotation), now, p.staging) == StagedOf(keys, now, p.staging)
  {
    WhereOfWhere(keys, (k: Key) => k.validAfter >= now - p.rotation, (k: Key) => Signs(k, now, p.staging));
    WhereOfWhere(keys, (k: Key) => k.validAfter >= now - p.rotation, (k: Key) => IsStaged(k, now, p.staging));
  }

  /** From a settled state until the last key expires, one key signs: the last or the one before. */
  lemma OneSignerUntilTheLastExpires(keys: seq<Key>, t: int, now: int, p: Periods)
    requires Settled(keys, t, p) && p.rotation > p.staging
    requires t <= now < keys[|keys| - 1].validBefore
    ensures var n := |keys|;
            Signers(keys, now, p.staging) ==
              [if IsStaged(keys[n - 1], now, p.staging) then keys[n - 2] else keys[n - 1]]
  {
    var n := |keys|;
    var i := if IsStaged(keys[n - 1], now, p.staging) then n - 2 else n - 1;
    OnlyOne(keys, (k: Key) => Signs(k, now, p.staging), i);
  }

  lemma RotatedForm(keys: seq<Key>, kind: KeyKind, t: int, now: int, p: Periods)
    requires Settled(keys, t, p) && p.rotation > p.staging
    requires t <= now < keys[|keys| - 1].validBefore
    ensures !CurrentIsMissing(keys, now, p)
    ensures Rotated(keys, kind, now, p) ==
            if IsStaged(keys[|keys| - 1], now, p.staging) then keys
            else keys + [NextKey(kind, keys[|keys| - 1].validBefore, p)]
  {
    var last := keys[|keys| - 1];
    OneSignerUntilTheLastExpires(keys, t, now, p);
    RecentIsEnough(keys, now, p);
    if IsStaged(last, now, p.staging) {
      WhereMembers(keys, (k: Key) => IsStaged(k, now, p.staging));
      assert last in StagedOf(keys, now, p.staging);
      assert keys + [] + [] == keys;
    } else {
      WhereIsEmpty(keys, (k: Key) => IsStaged(k, now, p.staging));
      var next := NextKey(kind, last.validBefore, p);
      assert keys + [] + [next] == keys + [next];
    }
  }

  /** After an outage that even the last key has not survived, a rotation starts over. */
  lemma RotatedAfterOutage(keys: seq<Key>, kind: KeyKind, t: int, now: int, p: Periods)
    requires Settled(keys, t, p) && p.rotation > p.staging
    requires t <= now && keys[|keys| - 1].validBefore <= now
    ensures CurrentIsMissing(keys, now, p)
    ensures Rotated(keys, kind, now, p) == keys + Initial(kind, now, p)
  {
    RecentIsEnough(keys, now, p);
    WhereIsEmpty(keys, (k: Key) => Signs(k, now, p.staging));
    WhereIsEmpty(keys, (k: Key) => IsStaged(k, now, p.staging));
    var current := FirstKey(kind, now, p);
    assert keys + [current] + [NextKey(kind, current.validBefore, p)] == keys + Initial(kind, now, p);
  }

  lemma RotationSettles(keys: seq<Key>, kind: KeyKind, t: int, now: int, p: Periods)
    requires Settled(keys, t, p) && p.rotation > p.staging + 10 && t <= now
    ensures Settled(Rotated(keys, kind, now, p), now, p)
  {
    if keys[|keys| - 1].validBefore <= now {
      RotatedAfterOutage(keys, kind, t, now, p);
    } else {
      RotatedForm(keys, kind, t, now, p);
    }
  }

  lemma OrderedPrefix(start: int, times: seq<int>, n: nat)
    requires Ordered(start, times) && n <= |times|
    ensures Ordered(start, times[..n])
  {
    forall i | 0 <= i < n ensures LastTime(start, times[..n][..i]) <= times[..n][i] {
      assert times[..n][..i] == times[..i];
    }
  }

  lemma {:induction false} EveryRunIsSettled(kind: KeyKind, start: int, times: seq<int>, p: Periods)
    requires p.rotation > p.staging + 10 && Ordered(start, times)
    ensures Settled(KeysAfter(kind, start, times, p), LastTime(start, times), p)
  {
    if times != [] {
      var before := times[..|times| - 1];
      OrderedPrefix(start, times, |times| - 1);
      EveryRunIsSettled(kind, start, before, p);
      RotationSettles(KeysAfter(kind, start, before, p), kind, LastTime(start, before), times[|times| - 1], p);
    }
  }

  /** No gap and no overlap: whatever outages there were before, certificates are signed with exactly one key from
      any rotation until `rotation - staging` seconds later. */
  lemma ExactlyOneSigner(kind: KeyKind, start: int, times: seq<int>, now: int, p: Periods)
    requires p.rotation > p.staging + 10 && Ordered(start, times)
    requires LastTime(start, times) <= now <= LastTime(start, times) + p.rotation - p.staging
    ensures |Signers(KeysAfter(kind, start, times, p), now, p.staging)| == 1
  {
    EveryRunIsSettled(kind, start, times, p);
    OneSignerUntilTheLastExpires(KeysAfter(kind, start, times, p), LastTime(start, times), now, p);
  }

  /** The branch for a missing current key, which the code calls an error, is taken exactly when the rotation comes
      so late that even the key that was waiting has expired. */
  lemma CurrentIsMissingIff(kind: KeyKind, start: int, times: seq<int>, i: nat, p: Periods)
    requires p.rotation > p.staging + 10 && Ordered(start, times) && i < |times|
    ensures var keys := KeysAfter(kind, start, times[..i], p);
            && keys != []
            && (CurrentIsMissing(keys, times[i], p) <==> keys[|keys| - 1].validBefore <= times[i])
            && (CurrentIsMissing(keys, times[i], p) ==> times[i] > LastTime(start, times[..i]) + p.rotation - p.staging)
  {
    var keys := KeysAfter(kind, start, times[..i], p);
    OrderedPrefix(start, times, i);
    EveryRunIsSettled(kind, start, times[..i], p);
    if keys[|keys| - 1].validBefore <= times[i] {
      RotatedAfterOutage(keys, kind, LastTime(start, times[..i]), times[i], p);
    } else {
      RotatedForm(keys, kind, LastTime(start, times[..i]), times[i], p);
    }
  }

  /** A certificate is good for its whole lifetime only while the key that signed it is published. That is so exactly
      when it ends no later than the key, and never when it lives longer than a key signs. */
  lemma CertificateStaysVerifiableIff(
    kind: KeyKind, start: int, times: seq<int>, issued: int, lifetime: int, p: Periods)
    requires p.rotation > p.staging + 10 && Ordered(start, times) && lifetime > 0
    requires LastTime(start, times) <= issued <= LastTime(start, times) + p.rotation - p.staging
    ensures var signers := Signers(KeysAfter(kind, start, times, p), issued, p.staging);
            && signers != []
            && ((forall instant :: issued <= instant < issued + lifetime ==> Published(signers[0], instant)) <==>
                issued + lifetime <= signers[0].validBefore)
            && (lifetime > p.rotation - p.staging ==> issued + lifetime > signers[0].validBefore)
  {
    var keys := KeysAfter(kind, start, times, p);
    EveryRunIsSettled(kind, start, times, p);
    OneSignerUntilTheLastExpires(keys, LastTime(start, times), issued, p);
    WhereMembers(keys, (k: Key) => Signs(k, issued, p.staging));
    var signer := Signers(keys, issued, p.staging)[0];
    assert signer in keys && signer.validBefore == signer.validAfter + p.rotation;
    if issued + lifetime > signer.validBefore {
      assert !Published(signer, signer.validBefore);
    }
  }

  ghost predicate OutlastedBySigners(signers: seq<Key>, issued: int, lifetime: int) {
    forall k, instant :: k in signers && issued <= instant < issued + lifetime ==> Published(k, instant)
  }

  /** Whenever it is issued, a certificate with this lifetime stays verifiable until it ends. */
  ghost predicate AlwaysVerifiable(kind: KeyKind, lifetime: int, p: Periods) {
    forall start, times, issued ::
      Ordered(start, times) && LastTime(start, times) <= issued <= LastTime(start, times) + p.rotation - p.staging ==>
        OutlastedBySigners(Signers(KeysAfter(kind, start, times, p), issued, p.staging), issued, lifetime)
  }

  /** A key signs until the very second in which it stops being published. So no lifetime of more than a second is
      short enough for every certificate. */
  lemma AlwaysVerifiableIff(kind: KeyKind, lifetime: int, p: Periods)
    requires p.rotation > p.staging + 10
    ensures AlwaysVerifiable(kind, lifetime, p) <==> lifetime <= 1
  {
    if lifetime <= 1 {
      forall start, times, issued
        ensures OutlastedBySigners(Signers(KeysAfter(kind, start, times, p), issued, p.staging), issued, lifetime)
      {
        WhereMembers(KeysAfter(kind, start, times, p), (x: Key) => Signs(x, issued, p.staging));
      }
    } else {
      var issued := p.rotation - p.staging - 11;
      var keys := KeysAfter(kind, 0, [], p);
      EveryRunIsSettled(kind, 0, [], p);
      OneSignerUntilTheLastExpires(keys, 0, issued, p);
      assert keys == Initial(kind, 0, p);
      var k := FirstKey(kind, 0, p);
      assert k in Signers(keys, issued, p.staging) && !Published(k, issued + 1);
      assert Ordered(0, []) && LastTime(0, []) == 0;
    }
  }

  /** A key that a rotation stages is published for more than `rotation - staging - gap` seconds before it first
      signs, and it is published at every instant until it stops signing. */
  lemma StagedLongEnough(kind: KeyKind, start: int, times: seq<int>, i: nat, gap: int, p: Periods)
    requires p.rotation > p.staging + 10 && Ordered(start, times) && i < |times|
    requires times[i] <= LastTime(start, times[..i]) + gap && gap <= p.rotation - p.staging
    ensures var before, after := KeysAfter(kind, start, times[..i], p), KeysAfter(kind, start, times[..i + 1], p);
            after == before ||
            (|after| == |before| + 1 && before == after[..|before|] &&
             var k := after[|before|];
             && (forall now :: Signs(k, now, p.staging) ==> now - times[i] > p.rotation - p.staging - gap)
             && (forall now, instant :: Signs(k, now, p.staging) && instant <= now ==> Published(k, instant)))
  {
    OrderedPrefix(start, times, i);
    EveryRunIsSettled(kind, start, times[..i], p);
    var before := KeysAfter(kind, start, times[..i], p);
    assert times[..i + 1][..i] == times[..i];
    assert KeysAfter(kind, start, times[..i + 1], p) == Rotated(before, kind, times[i], p);
    RotationStagesEarly(before, kind, LastTime(start, times[..i]), times[i], gap, p);
  }

  lemma RotationStagesEarly(keys: seq<Key>, kind: KeyKind, t: int, now: int, gap: int, p: Periods)
    requires Settled(keys, t, p) && p.rotation > p.staging
    requires t <= now <= t + gap && gap <= p.rotation - p.staging
    ensures var after := Rotated(keys, kind, now, p);
            after == keys ||
            (|after| == |keys| + 1 && keys == after[..|keys|] &&
             var k := after[|keys|];
             && (forall later :: Signs(k, later, p.staging) ==> later - now > p.rotation - p.staging - gap)
             && (forall later, instant :: Signs(k, later, p.staging) && instant <= later ==> Published(k, instant)))
  {
    RotatedForm(keys, kind, t, now, p);
  }

  lemma {:induction false} KeysAreKept(kind: KeyKind, start: int, times: seq<int>, i: nat, p: Periods)
    requires i <= |times|
    ensures KeysAfter(kind, start, times[..i], p) <= KeysAfter(kind, start, times, p)
    decreases |times|
  {
    if i < |times| {
      KeysAreKept(kind, start, times[..|times| - 1], i, p);
      assert times[..|times| - 1][..i] == times[..i];
    } else {
      assert times[..i] == times;
    }
  }

  /** One second more between two rotations is too much: then some run has an instant without a signer. */
  lemma LongerGapLeavesNoSigner(kind: KeyKind, start: int, p: Periods)
    requires p.rotation > p.staging + 10
    ensures var times := [start + p.rotation - p.staging - 11];
            var now := times[0] + p.rotation - p.staging + 1;
            Paced(start, times, p.rotation - p.staging) &&
            Signers(KeysAfter(kind, start, times, p), now, p.staging) == []
  {
    var times := [start + p.rotation - p.staging - 11];
    assert times[..0] == [];
    var keys := Initial(kind, start, p);
    RotatedForm(keys, kind, start, times[0], p);
    assert KeysAfter(kind, start, times, p) == keys;
    var now := times[0] + p.rotation - p.staging + 1;
    WhereIsEmpty(keys, (k: Key) => Signs(k, now, p.staging));
  }

  ghost predicate NeverWithoutSigner(kind: KeyKind, gap: int, p: Periods) {
    forall start, times, now ::
      Paced(start, times, gap) && LastTime(start, times) <= now <= LastTime(start, times) + gap ==>
      |Signers(KeysAfter(kind, start, times, p), now, p.staging)| == 1
  }

  /** The rotation schedule is safe exactly when its gaps are at most the rotation period less the staging period. */
  lemma SafeScheduleIff(kind: KeyKind, gap: int, p: Periods)
    requires p.rotation > p.staging + 10
    ensures NeverWithoutSigner(kind, gap, p) <==> gap <= p.rotation - p.staging
  {
    if gap <= p.rotation - p.staging {
      forall start, times, now |
        Paced(start, times, gap) && LastTime(start, times) <= now <= LastTime(start, times) + gap
        ensures |Signers(KeysAfter(kind, start, times, p), now, p.staging)| == 1
      {
        ExactlyOneSigner(kind, start, times, now, p);
      }
    } else {
      LongerGapLeavesNoSigner(kind, 0, p);
      var times := [0 + p.rotation - p.staging - 11];
      assert Paced(0, times, gap) by {
        assert Paced(0, times, p.rotation - p.staging);
      }
    }
  }

  /** Whatever was lost, one rotation brings a signer back. */
  lemma RotationRecovers(keys: seq<Key>, kind: KeyKind, now: int, p: Periods)
    requires p.rotation > p.staging + 10
    ensures Signers(Rotated(keys, kind, now, p), now, p.staging) != []
  {
    var signs := (k: Key) => Signs(k, now, p.staging);
    var recent := Recent(keys, now, p.rotation);
    var current := Signers(recent, now, p.staging);
    var out := Rotated(keys, kind, now, p);
    WhereMembers(out, signs);
    if current == [] {
      assert FirstKey(kind, now, p) in out;
      assert FirstKey(kind, now, p) in Signers(out, now, p.staging);
    } else {
      WhereMembers(keys, (k: Key) => k.validAfter >= now - p.rotation);
      WhereMembers(recent, signs);
      assert current[0] in current && current[0] in out;
      assert current[0] in Signers(out, now, p.staging);
    }
  }

  // ---- The tables ----

  lemma {:induction false} OfKindAppend(keys: seq<Key>, k: Key, kind: KeyKind)
    ensures OfKind(keys + [k], kind) == OfKind(keys, kind) + if k.kind == kind then [k] else []
  {
    WhereAppend(keys, k, (x: Key) => x.kind == kind);
  }

  lemma {:induction false} WhereAppend(keys: seq<Key>, k: Key, p: Key -> bool)
    ensures Where(keys + [k], p) == Where(keys, p) + if p(k) then [k] else []
  {
    if keys != [] {
      assert (keys + [k])[1..] == keys[1..] + [k];
      WhereAppend(keys[1..], k, p);
    }
  }

  lemma SignersAppend(keys: seq<Key>, k: Key, kind: KeyKind, now: int, staging: int)
    ensures Signers(OfKind(keys + [k], kind), now, staging) ==
            Signers(OfKind(keys, kind), now, staging) + if k.kind == kind && Signs(k, now, staging) then [k] else []
  {
    OfKindAppend(keys, k, kind);
    if k.kind == kind {
      WhereAppend(OfKind(keys, kind), k, (x: Key) => Signs(x, now, staging));
    } else {
      assert OfKind(keys, kind) + [] == OfKind(keys, kind);
    }
  }

  lemma {:induction false} OfKindConcat(keys: seq<Key>, more: seq<Key>, kind: KeyKind)
    ensures OfKind(keys + more, kind) == OfKind(keys, kind) + OfKind(more, kind)
    decreases |more|
  {
    if more == [] {
      assert keys + more == keys;
    } else {
      assert keys + more == keys + [more[0]] + more[1..];
      OfKindAppend(keys, more[0], kind);
      OfKindConcat(keys + [more[0]], more[1..], kind);
    }
  }

  // ---- All kinds of keys in one table ----

  lemma AddedToBoth(own: seq<Key>, all: seq<Key>, first: seq<Key>, next: seq<Key>)
    ensures all + (own + first + next)[|own|..] == all + first + next
  {
    assert (own + first + next)[|own|..] == first + next;
  }

  /** One run of the rotation of one kind, over the whole table. */
  function TableRotated(keys: seq<Key>, kind: KeyKind, now: int, p: Periods): seq<Key> {
    var own := OfKind(keys, kind);
    keys + Rotated(own, kind, now, p)[|own|..]
  }

  lemma TableRotatedKinds(keys: seq<Key>, kind: KeyKind, now: int, p: Periods, other: KeyKind)
    ensures OfKind(TableRotated(keys, kind, now, p), other) ==
            if other == kind then Rotated(OfKind(keys, kind), kind, now, p) else OfKind(keys, other)
  {
    var own := OfKind(keys, kind);
    var added := Rotated(own, kind, now, p)[|own|..];
    OfKindConcat(keys, added, other);
    AddedAreOfKind(own, kind, now, p, other);
    assert OfKind(keys, other) + [] == OfKind(keys, other);
    assert own + added == Rotated(own, kind, now, p);
  }

  lemma AddedAreOfKind(own: seq<Key>, kind: KeyKind, now: int, p: Periods, other: KeyKind)
    ensures |Rotated(own, kind, now, p)| >= |own| && own == Rotated(own, kind, now, p)[..|own|]
    ensures var added := Rotated(own, kind, now, p)[|own|..];
            OfKind(added, other) == if other == kind then added else []
  {
    var added := Rotated(own, kind, now, p)[|own|..];
    assert |added| <= 2 && forall k :: k in added ==> k.kind == kind;
    AllOrNone(added, other);
  }

  lemma {:induction false} AllOrNone(keys: seq<Key>, other: KeyKind)
    requires forall k, l :: k in keys && l in keys ==> k.kind == l.kind
    ensures OfKind(keys, other) == if keys != [] && keys[0].kind == other then keys else []
  {
    if keys != [] {
      assert keys[0] in keys && forall k :: k in keys[1..] ==> k in keys;
      AllOrNone(keys[1..], other);
      if |keys| > 1 {
        assert keys[1] in keys;
      }
    }
  }

  datatype Rotation = Rotation(kind: KeyKind, now: int)

  function TableAfter(start: int, rotations: seq<Rotation>, periods: KeyKind -> Periods): seq<Key> {
    if rotations == [] then
      Initial(HostKey, start, periods(HostKey)) + Initial(UserKey, start, periods(UserKey)) +
      Initial(OidcKey, start, periods(OidcKey))
    else
      var last := rotations[|rotations| - 1];
      TableRotated(TableAfter(start, rotations[..|rotations| - 1], periods), last.kind, last.now, periods(last.kind))
  }

  function TimesOf(rotations: seq<Rotation>, kind: KeyKind): seq<int> {
    if rotations == [] then []
    else
      var last := rotations[|rotations| - 1];
      TimesOf(rotations[..|rotations| - 1], kind) + if last.kind == kind then [last.now] else []
  }

  /** Whatever the order in which the kinds are rotated, each kind goes its own way. */
  lemma {:induction false} KindsDoNotInterfere(
    start: int, rotations: seq<Rotation>, periods: KeyKind -> Periods, kind: KeyKind)
    ensures OfKind(TableAfter(start, rotations, periods), kind) ==
            KeysAfter(kind, start, TimesOf(rotations, kind), periods(kind))
  {
    if rotations == [] {
      InitialTable(start, periods, kind);
    } else {
      var before, last := rotations[..|rotations| - 1], rotations[|rotations| - 1];
      KindsDoNotInterfere(start, before, periods, kind);
      TableRotatedKinds(TableAfter(start, before, periods), last.kind, last.now, periods(last.kind), kind);
      var times := TimesOf(before, kind);
      if last.kind == kind {
        assert (times + [last.now])[..|times|] == times;
      } else {
        assert times + [] == times;
      }
    }
  }

  lemma InitialTable(start: int, periods: KeyKind -> Periods, kind: KeyKind)
    ensures OfKind(TableAfter(start, [], periods), kind) == Initial(kind, start, periods(kind))
  {
    var host, user, oidc :=
      Initial(HostKey, start, periods(HostKey)),
      Initial(UserKey, start, periods(UserKey)),
      Initial(OidcKey, start, periods(OidcKey));
    OfKindConcat(host + user, oidc, kind);
    OfKindConcat(host, user, kind);
    AllOrNone(host, kind);
    AllOrNone(user, kind);
    AllOrNone(oidc, kind);
  }

  /** So one table with all kinds has exactly one signer of each kind at every instant. */
  lemma ExactlyOneSignerOfEachKind(
    start: int, rotations: seq<Rotation>, periods: KeyKind -> Periods, kind: KeyKind, now: int)
    requires var p := periods(kind);
             var times := TimesOf(rotations, kind);
             && p.rotation > p.staging + 10 && Ordered(start, times)
             && LastTime(start, times) <= now <= LastTime(start, times) + p.rotation - p.staging
    ensures |Signers(OfKind(TableAfter(start, rotations, periods), kind), now, periods(kind).staging)| == 1
  {
    KindsDoNotInterfere(start, rotations, periods, kind);
    ExactlyOneSigner(kind, start, TimesOf(rotations, kind), now, periods(kind));
  }

  /** The signing keys of a tenant. The keys for OIDC tokens live in a table of their own with the same columns. */
  class KeyTable {
    var keys: seq<Key>

    constructor ()
      ensures keys == []
    {
      keys := [];
    }

    method Insert(k: Key)
      modifies this
      ensures keys == old(keys) + [k]
      ensures forall kind :: OfKind(keys, kind) == OfKind(old(keys), kind) + if k.kind == kind then [k] else []
    {
      keys := keys + [k];
      forall kind ensures OfKind(keys, kind) == OfKind(old(keys), kind) + if k.kind == kind then [k] else [] {
        OfKindAppend(old(keys), k, kind);
      }
    }

    method CreateKeys(kind: KeyKind, now: int, p: Periods)
      requires OfKind(keys, kind) == []
      modifies this
      ensures OfKind(keys, kind) == Initial(kind, now, p)
      ensures forall other :: other != kind ==> OfKind(keys, other) == OfKind(old(keys), other)
    {
      var currentStart := now - p.staging - 10;
      var currentEnd := currentStart + p.rotation;
      Insert(Key(kind, currentStart, currentEnd));
      var stagedStart := currentEnd - p.staging;
      Insert(Key(kind, stagedStart, stagedStart + p.rotation));
    }

    /** A tenant without an identity is not initialized, and is left alone. */
    method Rotate(kind: KeyKind, now: int, p: Periods, initialized: bool)
      modifies this
      ensures keys == if initialized then TableRotated(old(keys), kind, now, p) else old(keys)
    {
      if !initialized {
        return;
      }
      ghost var before := keys;
      ghost var own := OfKind(keys, kind);
      var recent := Recent(OfKind(keys, kind), now, p.rotation);
      var current := Signers(recent, now, p.staging);
      var staged := StagedOf(recent, now, p.staging);
      var currentEnd: int;
      if |current| == 0 {
        var currentStart := now - p.staging - 10;
        currentEnd := currentStart + p.rotation;
        Insert(Key(kind, currentStart, currentEnd));
      } else {
        currentEnd := current[0].validBefore;
      }
      ghost var first := if current == [] then [FirstKey(kind, now, p)] else [];
      assert keys == before + first;
      if |staged| == 0 {
        var stagedStart := currentEnd - p.staging;
        Insert(Key(kind, stagedStart, stagedStart + p.rotation));
      }
      ghost var next := if staged == [] then [NextKey(kind, currentEnd, p)] else [];
      assert keys == before + first + next;
      assert Rotated(own, kind, now, p) == own + first + next;
      AddedToBoth(own, before, first, next);
    }

    /** The rows of the kind that have been valid for the staging period and still are, in table order. */
    method ReadCurrent(kind: KeyKind, now: int, staging: int) returns (signers: seq<Key>)
      ensures forall k :: k in signers <==>
                          k in keys && k.kind == kind && k.validAfter <= now - staging && k.validBefore > now
      ensures signers == Signers(OfKind(keys, kind), now, staging)
    {
      signers := [];
      for i := 0 to |keys|
        invariant forall k :: k in signers <==>
                              k in keys[..i] && k.kind == kind && k.validAfter <= now - staging && k.validBefore > now
        invariant signers == Signers(OfKind(keys[..i], kind), now, staging)
      {
        assert keys[..i + 1] == keys[..i] + [keys[i]];
        SignersAppend(keys[..i], keys[i], kind, now, staging);
        if keys[i].kind == kind && keys[i].validAfter <= now - staging && keys[i].validBefore > now {
          signers := signers + [keys[i]];
        }
      }
      assert keys[..|keys|] == keys;
    }
  }
}

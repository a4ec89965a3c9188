/** Reading the audit log page by page, while it grows
    (src/provablyfine/api/model/audit_log.py:318-480,
    packages/provablyfine-client/src/provablyfine_client/session_client.py:809-817). */
module AuditPages {
  import opened Wrappers
  import opened LetterCase
  import AuditCounter

  datatype Ref = Ref(objectType: string, objectId: string, objectName: Option<string>)

  datatype Row = Row(
    id: int, at: int, level: int, typeName: string, objectType: string, action: string,
    byIdentityId: Option<string>, byTenantId: Option<int>, refs: seq<Ref>)

  /** An object got a name. The rows are in the order in which they were inserted. */
  datatype NameRow = NameRow(objectType: string, objectId: string, objectName: string)

  /** What one transaction of a reader sees. */
  datatype View = View(log: seq<Row>, names: seq<NameRow>)

  datatype Filter = Filter(
    level: Option<int>, objectTypes: Option<seq<string>>, actions: Option<seq<string>>, typePrefix: Option<string>,
    byIdentityId: Option<string>, byTenantId: Option<int>, startTime: Option<int>, endTime: Option<int>,
    refType: Option<string>, refId: Option<string>, refName: Option<string>, refFollow: bool)

  /** What the digest of the filters is taken of: it sorts lists first. It is taken to tell any two of these apart. */
  datatype FilterKey = FilterKey(
    objectTypes: Option<multiset<string>>, actions: Option<multiset<string>>, others: Filter)

  function KeyOf(f: Filter): FilterKey {
    FilterKey(Unsorted(f.objectTypes), Unsorted(f.actions), f.(objectTypes := None, actions := None))
  }

  function Unsorted(list: Option<seq<string>>): Option<multiset<string>> {
    if list.None? then None else Some(multiset(list.value))
  }

  datatype Cursor = Cursor(
    version: int, position: Option<int>, descending: bool, key: FilterKey, followed: Option<seq<string>>)

  /** What a client sends back: text that decodes to a cursor, or not. */
  datatype Token = Unreadable | Readable(cursor: Cursor)

  datatype Error = InvalidCursor | InvalidFilter

  datatype Page = Page(entries: seq<Row>, next: Token, isLast: bool)

  /** A filter, and the objects that a followed name stood for on the first page. */
  datatype Query = Query(filter: Filter, followed: seq<string>)

  const MAX_LIMIT := 1000
  const MAX_FOLLOWED_OBJECTS := 100
  const CURSOR_VERSION := 1

  /** `LIKE` on SQLite takes a letter in either case. */
  function FoldCase(s: string): string {
    seq(|s|, i requires 0 <= i < |s| => if 'A' <= s[i] <= 'Z' then s[i] - 'A' + 'a' else s[i])
  }

  /** An empty list is no filter. */
  predicate Listed(value: string, list: Option<seq<string>>) {
    list.None? || list.value == [] || value in list.value
  }

  predicate RefMatches(r: Ref, q: Query) {
    && (q.filter.refType.Some? ==> r.objectType == q.filter.refType.value)
    && (q.filter.refId.Some? ==> r.objectId == q.filter.refId.value)
    && (q.filter.refName.Some? && !q.filter.refFollow ==> r.objectName == q.filter.refName)
    && (q.filter.refFollow ==> r.objectId in q.followed)
  }

  predicate Matches(e: Row, q: Query) {
    var f := q.filter;
    && (f.startTime.Some? ==> e.at >= f.startTime.value)
    && (f.endTime.Some? ==> e.at <= f.endTime.value)
    && (f.typePrefix.Some? ==> FoldCase(f.typePrefix.value) <= FoldCase(e.typeName))
    && Listed(e.objectType, f.objectTypes)
    && Listed(e.action, f.actions)
    && (f.level.Some? ==> e.level == f.level.value)
    && (f.byIdentityId.Some? ==> e.byIdentityId == f.byIdentityId)
    && (f.byTenantId.Some? ==> e.byTenantId == f.byTenantId)
    && (f.refType.Some? || f.refId.Some? || f.refName.Some? ==> exists r :: r in e.refs && RefMatches(r, q))
  }

  /** The ids of the objects that ever had this name, at most `limit`. */
  function ObjectsWithName(names: seq<NameRow>, objectType: string, name: string, limit: nat): (r: seq<string>)
    ensures |r| <= limit
    ensures forall id :: id in r ==> NameRow(objectType, id, name) in names
    ensures |r| < limit ==> forall id :: NameRow(objectType, id, name) in names ==> id in r
  {
    if names == [] || limit == 0 then []
    else if names[0].objectType == objectType && names[0].objectName == name then
      [names[0].objectId] + ObjectsWithName(names[1..], objectType, name, limit - 1)
    else ObjectsWithName(names[1..], objectType, name, limit)
  }

  function Decode(token: Token, descending: bool, filter: Filter): Result<Cursor, Error> {
    if token.Unreadable? then Err(InvalidCursor)
    else if token.cursor.version != CURSOR_VERSION then Err(InvalidCursor)
    else if token.cursor.descending != descending || token.cursor.key != KeyOf(filter) then Err(InvalidCursor)
    else Ok(token.cursor)
  }

  /** The query of a page: its objects come from the names of the first page, or from the cursor. */
  function QueryFor(view: View, filter: Filter, descending: bool, token: Option<Token>)
    : Result<(Query, Option<int>), Error>
  {
    if filter.refFollow && filter.refName.None? then Err(InvalidFilter)
    else
      var decoded := if token.None? then Ok(Cursor(CURSOR_VERSION, None, descending, KeyOf(filter), None))
                     else Decode(token.value, descending, filter);
      match decoded
      case Err(e) => Err(e)
      case Ok(cursor) =>
        if !filter.refFollow then Ok((Query(filter, []), cursor.position))
        else if filter.refType.None? then Err(InvalidFilter)
        else if token.None? then
          var ids := ObjectsWithName(view.names, filter.refType.value, filter.refName.value, MAX_FOLLOWED_OBJECTS + 1);
          if |ids| > MAX_FOLLOWED_OBJECTS then Err(InvalidFilter) else Ok((Query(filter, ids), cursor.position))
        else if cursor.followed.None? then Err(InvalidCursor)
        else Ok((Query(filter, cursor.followed.value), cursor.position))
  }

  predicate Above(e: Row, low: Option<int>) {
    low.None? || e.id > low.value
  }

  predicate Below(e: Row, high: Option<int>) {
    high.None? || e.id < high.value
  }

  /** The matching entries between two positions, in the order of the log. */
  function Select(log: seq<Row>, q: Query, low: Option<int>, high: Option<int>): seq<Row> {
    if log == [] then []
    else
      var rest := Select(log[1..], q, low, high);
      if Matches(log[0], q) && Above(log[0], low) && Below(log[0], high) then [log[0]] + rest else rest
  }

  function Reverse(s: seq<Row>): (r: seq<Row>)
    ensures |r| == |s| && forall i :: 0 <= i < |s| ==> r[i] == s[|s| - 1 - i]
  {
    seq(|s|, i requires 0 <= i < |s| => s[|s| - 1 - i])
  }

  /** What is left to read from a position on, in reading order. */
  function Remaining(log: seq<Row>, q: Query, descending: bool, position: Option<int>): seq<Row> {
    if descending then Reverse(Select(log, q, None, position)) else Select(log, q, position, None)
  }

  function Clamp(limit: int): (r: int)
    ensures 1 <= limit <= 1000 ==> r == limit
    ensures (limit < 1 ==> r == 1) && (limit > 1000 ==> r == 1000)
  {
    if limit < 1 then 1 else if limit > MAX_LIMIT then MAX_LIMIT else limit
  }

  function Take(s: seq<Row>, n: nat): seq<Row> {
    if |s| <= n then s else s[..n]
  }

  function TokenAt(q: Query, descending: bool, position: Option<int>): Token {
    var followed := if q.filter.refFollow then Some(q.followed) else None;
    Readable(Cursor(CURSOR_VERSION, position, descending, KeyOf(q.filter), followed))
  }

  function PageOf(view: View, q: Query, descending: bool, limit: int, position: Option<int>): Page {
    // One row more than asked for tells whether there is another page.
    var rows := Take(Remaining(view.log, q, descending, position), Clamp(limit) + 1);
    var entries := Take(rows, Clamp(limit));
    var next := if entries == [] then position else Some(entries[|entries| - 1].id);
    Page(entries,
         TokenAt(q, descending, next),
         |rows| <= Clamp(limit))
  }

  function ReadPage(view: View, filter: Filter, descending: bool, limit: int, token: Option<Token>)
    : Result<Page, Error>
  {
    match QueryFor(view, filter, descending, token)
    case Err(e) => Err(e)
    case Ok((q, position)) => Ok(PageOf(view, q, descending, limit, position))
  }

  ghost predicate InIdOrder(log: seq<Row>) {
    forall i, j :: 0 <= i < j < |log| ==> log[i].id < log[j].id
  }

  /** Each page is read from a view that extends the one before, and ids grow with the log. */
  ghost predicate Growing(views: seq<View>) {
    (forall i :: 0 <= i < |views| ==> InIdOrder(views[i].log)) &&
    (forall i, j :: 0 <= i < j < |views| ==> views[i].log <= views[j].log)
  }

  // ---- Selections ----

  lemma {:induction false} SelectMembers(log: seq<Row>, q: Query, low: Option<int>, high: Option<int>)
    ensures forall e :: e in Select(log, q, low, high) <==> e in log && Matches(e, q) && Above(e, low) && Below(e, high)
  {
    if log != [] {
      SelectMembers(log[1..], q, low, high);
      assert forall e :: e in log <==> e == log[0] || e in log[1..];
    }
  }

  lemma {:induction false} SelectInOrder(log: seq<Row>, q: Query, low: Option<int>, high: Option<int>)
    requires InIdOrder(log)
    ensures InIdOrder(Select(log, q, low, high))
  {
    if log != [] {
      SelectInOrder(log[1..], q, low, high);
      SelectMembers(log[1..], q, low, high);
      var rest := Select(log[1..], q, low, high);
      forall j | 0 <= j < |rest| ensures log[0].id < rest[j].id {
        assert rest[j] in log[1..];
      }
    }
  }

  lemma {:induction false} SelectConcat(a: seq<Row>, b: seq<Row>, q: Query, low: Option<int>, high: Option<int>)
    ensures Select(a + b, q, low, high) == Select(a, q, low, high) + Select(b, q, low, high)
  {
    if a == [] {
      assert a + b == b;
    } else {
      assert (a + b)[1..] == a[1..] + b;
      SelectConcat(a[1..], b, q, low, high);
    }
  }

  lemma SliceMembers(all: seq<Row>, n: nat)
    requires InIdOrder(all) && n < |all|
    ensures forall e :: e in all[n + 1..] <==> e in all && e.id > all[n].id
    ensures forall e :: e in all[..n] <==> e in all && e.id < all[n].id
  {
    forall e ensures e in all[n + 1..] <==> e in all && e.id > all[n].id {
      if e in all && e.id > all[n].id {
        var i :| 0 <= i < |all| && all[i] == e;
        assert all[n + 1..][i - n - 1] == e;
      }
    }
    forall e ensures e in all[..n] <==> e in all && e.id < all[n].id {
      if e in all && e.id < all[n].id {
        var i :| 0 <= i < |all| && all[i] == e;
        assert all[..n][i] == e;
      }
    }
  }

  /** Continuing after the k-th entry, upwards, leaves exactly the entries from the k-th on. */
  lemma ContinueUp(log: seq<Row>, q: Query, low: Option<int>, k: nat)
    requires InIdOrder(log) && 0 < k <= |Select(log, q, low, None)|
    ensures Select(log, q, Some(Select(log, q, low, None)[k - 1].id), None) == Select(log, q, low, None)[k..]
  {
    var all := Select(log, q, low, None);
    var p := all[k - 1];
    SelectInOrder(log, q, low, None);
    SelectMembers(log, q, low, None);
    SelectInOrder(log, q, Some(p.id), None);
    SelectMembers(log, q, Some(p.id), None);
    assert p in all;
    SliceMembers(all, k - 1);
    OrderedByMembers(Select(log, q, Some(p.id), None), all[k..]);
  }

  lemma {:induction false} OrderedByMembers(s: seq<Row>, t: seq<Row>)
    requires InIdOrder(s) && InIdOrder(t)
    requires forall e :: e in s <==> e in t
    ensures s == t
  {
    assert s != [] ==> s[0] in s;
    assert t != [] ==> t[0] in t;
    if s != [] {
      assert s[0] in t;
      var j :| 0 <= j < |t| && t[j] == s[0];
      assert t[0] in s;
      var i :| 0 <= i < |s| && s[i] == t[0];
      assert i == 0 && j == 0;
      forall e ensures e in s[1..] <==> e in t[1..] {
        if e in s[1..] {
          var n :| 0 <= n < |s[1..]| && s[1..][n] == e;
          assert s[n + 1] == e && e in t && e.id > s[0].id;
        }
        if e in t[1..] {
          var n :| 0 <= n < |t[1..]| && t[1..][n] == e;
          assert t[n + 1] == e && e in s && e.id > s[0].id;
        }
      }
      OrderedByMembers(s[1..], t[1..]);
    }
  }

  /** Continuing downwards from the k-th last entry leaves exactly the entries before it. */
  lemma ContinueDown(log: seq<Row>, q: Query, high: Option<int>, k: nat)
    requires InIdOrder(log) && 0 < k <= |Select(log, q, None, high)|
    ensures var all := Select(log, q, None, high);
            Select(log, q, None, Some(all[|all| - k].id)) == all[..|all| - k]
  {
    var all := Select(log, q, None, high);
    var n := |all| - k;
    var p := all[n];
    SelectInOrder(log, q, None, high);
    SelectMembers(log, q, None, high);
    SelectInOrder(log, q, None, Some(p.id));
    SelectMembers(log, q, None, Some(p.id));
    assert p in all;
    SliceMembers(all, n);
    OrderedByMembers(Select(log, q, None, Some(p.id)), all[..n]);
  }

  lemma {:induction false} SelectNone(log: seq<Row>, q: Query, low: Option<int>, high: Option<int>)
    requires forall e :: e in log ==> !(Above(e, low) && Below(e, high))
    ensures Select(log, q, low, high) == []
  {
    if log != [] {
      assert log[0] in log;
      SelectNone(log[1..], q, low, high);
    }
  }

  /** Entries that are written later do not show below a position that has been read. */
  lemma GrowthIsAbove(before: seq<Row>, after: seq<Row>, q: Query, p: Row)
    requires InIdOrder(after) && before <= after && p in before
    ensures Select(after, q, None, Some(p.id)) == Select(before, q, None, Some(p.id))
  {
    var more := after[|before|..];
    assert after == before + more;
    SelectConcat(before, more, q, None, Some(p.id));
    var i :| 0 <= i < |before| && before[i] == p;
    forall e | e in more ensures e.id > p.id {
      var j :| 0 <= j < |more| && more[j] == e;
      assert after[|before| + j] == e && after[i] == p;
    }
    SelectNone(more, q, None, Some(p.id));
  }

  // ---- A whole read ----

  /** What following `next` gives: the entries, how many pages that took, and whether the last page was reached. */
  datatype Reading = Reading(entries: seq<Row>, pages: nat, finished: bool, error: Option<Error>)

  /** One page per view, until the last page. */
  function Follow(views: seq<View>, filter: Filter, descending: bool, limit: int, token: Option<Token>): Reading {
    if views == [] then Reading([], 0, false, None)
    else
      match ReadPage(views[0], filter, descending, limit, token)
      case Err(e) => Reading([], 1, false, Some(e))
      case Ok(page) =>
        if page.isLast then Reading(page.entries, 1, true, None)
        else
          var rest := Follow(views[1..], filter, descending, limit, Some(page.next));
          Reading(page.entries + rest.entries, rest.pages + 1, rest.finished, rest.error)
  }

  predicate Sound(q: Query) {
    if q.filter.refFollow then q.filter.refName.Some? && q.filter.refType.Some? else q.followed == []
  }

  lemma QueryIsSound(view: View, filter: Filter, descending: bool, token: Option<Token>)
    requires QueryFor(view, filter, descending, token).Ok?
    ensures Sound(QueryFor(view, filter, descending, token).value.0)
    ensures QueryFor(view, filter, descending, token).value.0.filter == filter
  {
  }

  /** A cursor brings back its query, with the objects of the first page, whatever happened to the names since. */
  lemma CursorFixesTheQuery(view: View, q: Query, descending: bool, position: Option<int>)
    requires Sound(q)
    ensures QueryFor(view, q.filter, descending, Some(TokenAt(q, descending, position))) == Ok((q, position))
  {
  }

  lemma SameKeyMatches(q: Query, filter: Filter, e: Row)
    requires KeyOf(filter) == KeyOf(q.filter)
    ensures Matches(e, Query(filter, q.followed)) <==> Matches(e, q)
  {
    SameListed(filter.objectTypes, q.filter.objectTypes, e.objectType);
    SameListed(filter.actions, q.filter.actions, e.action);
    SameOthers(filter, q.filter);
    assert forall r :: RefMatches(r, Query(filter, q.followed)) <==> RefMatches(r, q);
  }

  lemma SameListed(a: Option<seq<string>>, b: Option<seq<string>>, value: string)
    requires Unsorted(a) == Unsorted(b)
    ensures Listed(value, a) <==> Listed(value, b)
  {
    if a.Some? {
      assert value in a.value <==> value in multiset(a.value);
      assert value in b.value <==> value in multiset(b.value);
      assert |multiset(a.value)| == |multiset(b.value)|;
    }
  }

  lemma SameOthers(f: Filter, g: Filter)
    requires KeyOf(f) == KeyOf(g)
    ensures f == g.(objectTypes := f.objectTypes, actions := f.actions)
  {
    var others := f.(objectTypes := None, actions := None);
    assert others == g.(objectTypes := None, actions := None);
    assert f == others.(objectTypes := f.objectTypes, actions := f.actions);
  }

  /** A cursor is good for its order and its filters only, up to the order of their lists, and it always goes on
      with the same query. */
  lemma CursorFitsOnlyItsQuery(
    view: View, q: Query, descending: bool, position: Option<int>, filter: Filter, order: bool)
    requires Sound(q)
    ensures var next := QueryFor(view, filter, order, Some(TokenAt(q, descending, position)));
            && (next.Ok? <==> KeyOf(filter) == KeyOf(q.filter) && order == descending)
            && (next.Ok? ==> next.value.1 == position && forall e :: Matches(e, next.value.0) <==> Matches(e, q))
  {
    if KeyOf(filter) == KeyOf(q.filter) {
      SameOthers(filter, q.filter);
      forall e ensures Matches(e, Query(filter, q.followed)) <==> Matches(e, q) {
        SameKeyMatches(q, filter, e);
      }
    }
  }

  lemma RemainingSplitsDown(log: seq<Row>, q: Query, position: Option<int>, k: nat)
    requires InIdOrder(log) && 0 < k <= |Remaining(log, q, true, position)|
    ensures var all := Remaining(log, q, true, position);
            all[k - 1] in log && Remaining(log, q, true, Some(all[k - 1].id)) == all[k..]
  {
    var all, up := Remaining(log, q, true, position), Select(log, q, None, position);
    SelectMembers(log, q, None, position);
    assert all[k - 1] == up[|up| - k] && up[|up| - k] in up;
    ContinueDown(log, q, position, k);
    assert Reverse(up[..|up| - k]) == all[k..];
  }

  lemma RemainingSplitsUp(log: seq<Row>, q: Query, position: Option<int>, k: nat)
    requires InIdOrder(log) && 0 < k <= |Remaining(log, q, false, position)|
    ensures var all := Remaining(log, q, false, position);
            all[k - 1] in log && Remaining(log, q, false, Some(all[k - 1].id)) == all[k..]
  {
    var all := Remaining(log, q, false, position);
    SelectMembers(log, q, position, None);
    assert all[k - 1] in all;
    ContinueUp(log, q, position, k);
  }

  /** After the first `k` entries in reading order, the rest is left. */
  lemma RemainingSplits(log: seq<Row>, q: Query, descending: bool, position: Option<int>, k: nat)
    requires InIdOrder(log) && 0 < k <= |Remaining(log, q, descending, position)|
    ensures var all := Remaining(log, q, descending, position);
            all[k - 1] in log && Remaining(log, q, descending, Some(all[k - 1].id)) == all[k..]
  {
    if descending {
      RemainingSplitsDown(log, q, position, k);
    } else {
      RemainingSplitsUp(log, q, position, k);
    }
  }

  lemma TakeOneMore(s: seq<Row>, n: nat)
    ensures Take(Take(s, n + 1), n) == Take(s, n)
    ensures |Take(s, n + 1)| <= n <==> |s| <= n
  {
  }

  lemma PageForm(view: View, q: Query, descending: bool, limit: int, position: Option<int>)
    ensures var page := PageOf(view, q, descending, limit, position);
            var all := Remaining(view.log, q, descending, position);
            && page.entries == Take(all, Clamp(limit)) && page.isLast == (|all| <= Clamp(limit))
            && page.next == TokenAt(
                 q, descending, if page.entries == [] then position else Some(page.entries[|page.entries| - 1].id))
  {
    TakeOneMore(Remaining(view.log, q, descending, position), Clamp(limit));
  }

  lemma PageSplits(view: View, q: Query, descending: bool, limit: int, position: Option<int>)
    requires InIdOrder(view.log)
    ensures var page := PageOf(view, q, descending, limit, position);
            var all := Remaining(view.log, q, descending, position);
            && page.entries <= all && page.isLast == (page.entries == all)
            && |page.entries| <= Clamp(limit) && (!page.isLast ==> |page.entries| == Clamp(limit))
            && (page.entries == [] ==> page.isLast && page.next == TokenAt(q, descending, position))
            && (page.entries != [] ==>
                  var p := page.entries[|page.entries| - 1];
                  p in view.log && page.next == TokenAt(q, descending, Some(p.id)) &&
                  all == page.entries + Remaining(view.log, q, descending, Some(p.id)))
  {
    PageForm(view, q, descending, limit, position);
    var all := Remaining(view.log, q, descending, position);
    var entries := Take(all, Clamp(limit));
    if entries != [] {
      RemainingSplits(view.log, q, descending, position, |entries|);
    }
  }

  lemma ViewsAfterTheFirst(views: seq<View>)
    requires Growing(views) && views != []
    ensures Growing(views[1..])
  {
  }

  lemma FollowStep(views: seq<View>, q: Query, descending: bool, limit: int, position: Option<int>)
    requires views != [] && Sound(q)
    ensures var page := PageOf(views[0], q, descending, limit, position);
            var rest := Follow(views[1..], q.filter, descending, limit, Some(page.next));
            Follow(views, q.filter, descending, limit, Some(TokenAt(q, descending, position))) ==
            if page.isLast then Reading(page.entries, 1, true, None)
            else Reading(page.entries + rest.entries, rest.pages + 1, rest.finished, rest.error)
  {
    CursorFixesTheQuery(views[0], q, descending, position);
  }

  /** A read that has reached the last page gave every match above the position of the log as it was then. */
  ghost predicate ReadUpwards(views: seq<View>, q: Query, position: Option<int>, r: Reading) {
    && r.error.None? && r.pages <= |views|
    && (r.finished ==> r.pages > 0 && r.entries == Select(views[r.pages - 1].log, q, position, None))
  }

  lemma UpwardsJoin(views: seq<View>, q: Query, position: Option<int>, entries: seq<Row>, rest: Reading)
    requires Growing(views) && views != []
    requires entries != [] && entries <= Select(views[0].log, q, position, None)
    requires ReadUpwards(views[1..], q, Some(entries[|entries| - 1].id), rest)
    ensures ReadUpwards(views, q, position, Reading(entries + rest.entries, rest.pages + 1, rest.finished, rest.error))
  {
    if rest.finished {
      assert views[1..][rest.pages - 1] == views[rest.pages];
      UpwardsGrowth(views[0].log, views[rest.pages].log, q, position, entries);
    }
  }

  lemma UpwardsPage(view: View, q: Query, limit: int, position: Option<int>)
    requires InIdOrder(view.log)
    ensures var page := PageOf(view, q, false, limit, position);
            var all := Select(view.log, q, position, None);
            && page.entries <= all && page.isLast == (page.entries == all)
            && (!page.isLast ==>
                  page.entries != [] && page.next == TokenAt(q, false, Some(page.entries[|page.entries| - 1].id)))
  {
    PageSplits(view, q, false, limit, position);
  }

  lemma UpwardsStep(views: seq<View>, q: Query, limit: int, position: Option<int>)
    requires Growing(views) && Sound(q) && views != []
    requires var page := PageOf(views[0], q, false, limit, position);
             !page.isLast ==>
               page.entries != [] &&
               var next := Some(page.entries[|page.entries| - 1].id);
               ReadUpwards(views[1..], q, next,
                           Follow(views[1..], q.filter, false, limit, Some(TokenAt(q, false, next))))
    ensures ReadUpwards(views, q, position, Follow(views, q.filter, false, limit, Some(TokenAt(q, false, position))))
  {
    FollowStep(views, q, false, limit, position);
    UpwardsPage(views[0], q, limit, position);
    var page := PageOf(views[0], q, false, limit, position);
    if !page.isLast {
      UpwardsJoin(views, q, position, page.entries, Follow(views[1..], q.filter, false, limit, Some(page.next)));
    }
  }

  lemma MoreToRead(view: View, q: Query, limit: int, position: Option<int>)
    requires InIdOrder(view.log)
    ensures var page := PageOf(view, q, false, limit, position); !page.isLast ==> page.entries != []
  {
    UpwardsPage(view, q, limit, position);
  }

  lemma {:induction false} UpwardsFrom(views: seq<View>, q: Query, limit: int, position: Option<int>)
    requires Growing(views) && Sound(q)
    ensures ReadUpwards(views, q, position, Follow(views, q.filter, false, limit, Some(TokenAt(q, false, position))))
    decreases |views|
  {
    if views != [] {
      var page := PageOf(views[0], q, false, limit, position);
      MoreToRead(views[0], q, limit, position);
      if !page.isLast {
        ViewsAfterTheFirst(views);
        UpwardsFrom(views[1..], q, limit, Some(page.entries[|page.entries| - 1].id));
      }
      UpwardsStep(views, q, limit, position);
    }
  }

  lemma UpwardsGrowth(before: seq<Row>, after: seq<Row>, q: Query, position: Option<int>, entries: seq<Row>)
    requires InIdOrder(after) && before <= after
    requires entries != [] && entries <= Select(before, q, position, None)
    ensures Select(after, q, position, None) ==
            entries + Select(after, q, Some(entries[|entries| - 1].id), None)
  {
    var more := after[|before|..];
    assert after == before + more;
    SelectConcat(before, more, q, position, None);
    PrefixOfSum(entries, Select(before, q, position, None), Select(more, q, position, None));
    ContinueUp(after, q, position, |entries|);
  }

  lemma PrefixOfSum(e: seq<Row>, a: seq<Row>, b: seq<Row>)
    requires e <= a
    ensures e == (a + b)[..|e|] && a + b == e + (a + b)[|e|..]
  {
  }

  /** A read that has reached the last page gave exactly what was below the position at its first page, and what was
      written meanwhile does not show. It reaches the last page. */
  ghost predicate ReadDownwards(views: seq<View>, q: Query, position: Option<int>, r: Reading)
    requires views != []
  {
    && r.error.None? && r.pages <= |views|
    && (r.finished ==> r.entries == Reverse(Select(views[0].log, q, None, position)))
    && (|views| > |Select(views[0].log, q, None, position)| ==> r.finished)
  }

  lemma DownwardsJoin(
    views: seq<View>, q: Query, position: Option<int>, entries: seq<Row>, last: Row, rest: Reading)
    requires Growing(views) && |views| > 1 && entries != [] && last in views[0].log
    requires Reverse(Select(views[0].log, q, None, position)) ==
             entries + Reverse(Select(views[0].log, q, None, Some(last.id)))
    requires ReadDownwards(views[1..], q, Some(last.id), rest)
    ensures ReadDownwards(views, q, position,
                          Reading(entries + rest.entries, rest.pages + 1, rest.finished, rest.error))
  {
    assert views[0].log <= views[1].log;
    GrowthIsAbove(views[0].log, views[1].log, q, last);
  }

  lemma DownwardsEnd(views: seq<View>, q: Query, position: Option<int>, entries: seq<Row>)
    requires |views| == 1 && entries != []
    requires entries <= Reverse(Select(views[0].log, q, None, position))
    ensures ReadDownwards(views, q, position, Reading(entries, 1, false, None))
  {
  }

  lemma DownwardsPage(view: View, q: Query, limit: int, position: Option<int>)
    requires InIdOrder(view.log)
    ensures var page := PageOf(view, q, true, limit, position);
            var all := Reverse(Select(view.log, q, None, position));
            && page.entries <= all && page.isLast == (page.entries == all)
            && (!page.isLast ==>
                  page.entries != [] &&
                  var last := page.entries[|page.entries| - 1];
                  last in view.log && page.next == TokenAt(q, true, Some(last.id)) &&
                  all == page.entries + Reverse(Select(view.log, q, None, Some(last.id))))
  {
    PageSplits(view, q, true, limit, position);
  }

  lemma DownwardsStep(views: seq<View>, q: Query, limit: int, position: Option<int>)
    requires Growing(views) && Sound(q) && views != []
    requires var page := PageOf(views[0], q, true, limit, position);
             !page.isLast && |views| > 1 ==>
               page.entries != [] &&
               var next := Some(page.entries[|page.entries| - 1].id);
               ReadDownwards(views[1..], q, next,
                             Follow(views[1..], q.filter, true, limit, Some(TokenAt(q, true, next))))
    ensures ReadDownwards(views, q, position, Follow(views, q.filter, true, limit, Some(TokenAt(q, true, position))))
  {
    FollowStep(views, q, true, limit, position);
    DownwardsPage(views[0], q, limit, position);
    var page := PageOf(views[0], q, true, limit, position);
    if !page.isLast {
      if |views| == 1 {
        assert page.entries + [] == page.entries;
        DownwardsEnd(views, q, position, page.entries);
      } else {
        var last := page.entries[|page.entries| - 1];
        DownwardsJoin(views, q, position, page.entries, last,
                      Follow(views[1..], q.filter, true, limit, Some(page.next)));
      }
    }
  }

  lemma MoreBelow(views: seq<View>, q: Query, limit: int, position: Option<int>) returns (last: Row)
    requires Growing(views) && |views| > 1 && !PageOf(views[0], q, true, limit, position).isLast
    ensures var entries := PageOf(views[0], q, true, limit, position).entries;
            entries != [] && last == entries[|entries| - 1] && last in views[1].log
  {
    DownwardsPage(views[0], q, limit, position);
    var entries := PageOf(views[0], q, true, limit, position).entries;
    last := entries[|entries| - 1];
    assert views[0].log <= views[1].log;
  }

  lemma {:induction false} DownwardsFrom(views: seq<View>, q: Query, limit: int, position: Option<int>)
    requires Growing(views) && Sound(q) && views != []
    ensures ReadDownwards(views, q, position, Follow(views, q.filter, true, limit, Some(TokenAt(q, true, position))))
    decreases |views|
  {
    if |views| > 1 && !PageOf(views[0], q, true, limit, position).isLast {
      var last := MoreBelow(views, q, limit, position);
      ViewsAfterTheFirst(views);
      DownwardsFrom(views[1..], q, limit, Some(last.id));
    }
    DownwardsStep(views, q, limit, position);
  }

  lemma FirstPageIsTheStart(views: seq<View>, filter: Filter, descending: bool, limit: int)
    requires views != [] && QueryFor(views[0], filter, descending, None).Ok?
    ensures var q := QueryFor(views[0], filter, descending, None).value.0;
            Sound(q) && q.filter == filter &&
            Follow(views, filter, descending, limit, None) ==
            Follow(views, filter, descending, limit, Some(TokenAt(q, descending, None)))
  {
    var q := QueryFor(views[0], filter, descending, None).value.0;
    QueryIsSound(views[0], filter, descending, None);
    CursorFixesTheQuery(views[0], q, descending, None);
  }

  /** An ascending read that reaches the last page, while the log grows, has read every match of the log as it
      then is. The objects that it follows are those of the first page. */
  lemma AscendingReadIsComplete(views: seq<View>, filter: Filter, limit: int)
    requires Growing(views) && views != [] && QueryFor(views[0], filter, false, None).Ok?
    ensures var q := QueryFor(views[0], filter, false, None).value.0;
            var r := Follow(views, filter, false, limit, None);
            && r.error.None?
            && (r.finished ==> 0 < r.pages <= |views|)
            && (r.finished ==> r.entries == Select(views[r.pages - 1].log, q, None, None))
  {
    FirstPageIsTheStart(views, filter, false, limit);
    UpwardsFrom(views, QueryFor(views[0], filter, false, None).value.0, limit, None);
  }

  /** A descending read gives exactly the matches that existed at the first page, newest first. However much is
      written meanwhile, it ends: no page but the last is empty. */
  lemma DescendingReadIsASnapshot(views: seq<View>, filter: Filter, limit: int)
    requires Growing(views) && views != [] && QueryFor(views[0], filter, true, None).Ok?
    ensures var q := QueryFor(views[0], filter, true, None).value.0;
            var r := Follow(views, filter, true, limit, None);
            && r.error.None?
            && (r.finished ==> r.entries == Reverse(Select(views[0].log, q, None, None)))
            && (|views| > |Select(views[0].log, q, None, None)| ==> r.finished)
  {
    FirstPageIsTheStart(views, filter, true, limit);
    DownwardsFrom(views, QueryFor(views[0], filter, true, None).value.0, limit, None);
  }

  // ---- The log that is read is the log that requests write ----

  /** `describe` gives the columns of an entry, of which its id is one. */
  ghost predicate KeepsIds(describe: AuditCounter.Entry -> Row) {
    forall e :: describe(e).id == e.id
  }

  function RowsOf(log: seq<AuditCounter.Entry>, describe: AuditCounter.Entry -> Row): seq<Row> {
    seq(|log|, i requires 0 <= i < |log| => describe(log[i]))
  }

  /** Each view is what is committed at some instant of a run, and no view is from before the one in front of it. */
  ghost predicate ViewsOfRun(
    views: seq<View>, steps: seq<AuditCounter.Step>, instants: seq<nat>, describe: AuditCounter.Entry -> Row)
    requires AuditCounter.Possible(steps)
  {
    && |instants| == |views|
    && (forall i :: 0 <= i < |instants| ==> instants[i] <= |steps| && AuditCounter.Possible(steps[..instants[i]]))
    && (forall i, j :: 0 <= i < j < |instants| ==> instants[i] <= instants[j])
    && (forall i :: 0 <= i < |views| ==> views[i].log == RowsOf(AuditCounter.After(steps[..instants[i]]).log, describe))
  }

  /** However the requests interleave, what readers see grows, and by higher ids only. */
  lemma ViewsOfRunGrow(
    views: seq<View>, steps: seq<AuditCounter.Step>, instants: seq<nat>, describe: AuditCounter.Entry -> Row)
    requires AuditCounter.Possible(steps) && KeepsIds(describe) && ViewsOfRun(views, steps, instants, describe)
    ensures Growing(views)
  {
    forall i | 0 <= i < |views| ensures InIdOrder(views[i].log) {
      AuditCounter.LogIsNumberedBlocks(steps[..instants[i]]);
    }
    forall i, j | 0 <= i < j < |views| ensures views[i].log <= views[j].log {
      assert steps[..instants[i]] <= steps[..instants[j]];
      AuditCounter.LogOnlyGrows(steps[..instants[i]], steps[..instants[j]]);
    }
  }

  /** The matches among what is committed after so many steps. */
  ghost function Committed(steps: seq<AuditCounter.Step>, n: nat, describe: AuditCounter.Entry -> Row, q: Query)
    : seq<Row>
    requires n <= |steps| && AuditCounter.Possible(steps[..n])
  {
    Select(RowsOf(AuditCounter.After(steps[..n]).log, describe), q, None, None)
  }

  /** So whatever the requests do between the pages, a descending read ends and gives the matches that were committed
      at its first page. */
  lemma DescendingReadOfRun(
    views: seq<View>, steps: seq<AuditCounter.Step>, instants: seq<nat>, describe: AuditCounter.Entry -> Row,
    filter: Filter, limit: int)
    requires AuditCounter.Possible(steps) && KeepsIds(describe) && ViewsOfRun(views, steps, instants, describe)
    requires views != [] && QueryFor(views[0], filter, true, None).Ok?
    ensures var first := Committed(steps, instants[0], describe, QueryFor(views[0], filter, true, None).value.0);
            var r := Follow(views, filter, true, limit, None);
            r.error.None? && (r.finished ==> r.entries == Reverse(first)) && (|views| > |first| ==> r.finished)
  {
    ViewsOfRunGrow(views, steps, instants, describe);
    DescendingReadIsASnapshot(views, filter, limit);
  }

  /** An ascending read that ends gives those that are committed at its last page. */
  lemma AscendingReadOfRun(
    views: seq<View>, steps: seq<AuditCounter.Step>, instants: seq<nat>, describe: AuditCounter.Entry -> Row,
    filter: Filter, limit: int)
    requires AuditCounter.Possible(steps) && KeepsIds(describe) && ViewsOfRun(views, steps, instants, describe)
    requires views != [] && QueryFor(views[0], filter, false, None).Ok?
    ensures var q := QueryFor(views[0], filter, false, None).value.0;
            var r := Follow(views, filter, false, limit, None);
            r.error.None? && (r.finished ==> 0 < r.pages <= |views|) &&
            (r.finished ==> r.entries == Committed(steps, instants[r.pages - 1], describe, q))
  {
    ViewsOfRunGrow(views, steps, instants, describe);
    AscendingReadIsComplete(views, filter, limit);
  }

  // ---- What a filter selects, by the columns of an entry ----

  ghost predicate Wanted(e: Row, f: Filter, followed: seq<string>) {
    && (f.startTime == None || f.startTime.value <= e.at)
    && (f.endTime == None || e.at <= f.endTime.value)
    && (f.level == None || e.level == f.level.value)
    && (f.byIdentityId == None || e.byIdentityId == f.byIdentityId)
    && (f.byTenantId == None || e.byTenantId == f.byTenantId)
    && (f.objectTypes == None || f.objectTypes == Some([]) || e.objectType in f.objectTypes.value)
    && (f.actions == None || f.actions == Some([]) || e.action in f.actions.value)
    && (f.typePrefix == None ||
        (|f.typePrefix.value| <= |e.typeName| &&
         forall i :: 0 <= i < |f.typePrefix.value| ==> SameButCase(f.typePrefix.value[i], e.typeName[i])))
    && ((f.refType == None && f.refId == None && f.refName == None) ||
        exists r :: r in e.refs &&
                    (f.refType == None || r.objectType == f.refType.value) &&
                    (f.refId == None || r.objectId == f.refId.value) &&
                    (if f.refFollow then r.objectId in followed else f.refName == None || r.objectName == f.refName))
  }

  lemma PrefixMatches(prefix: string, typeName: string)
    ensures FoldCase(prefix) <= FoldCase(typeName) <==>
            |prefix| <= |typeName| && forall i :: 0 <= i < |prefix| ==> SameButCase(prefix[i], typeName[i])
  {
    if |prefix| <= |typeName| {
      assert forall i :: 0 <= i < |prefix| ==>
                           (FoldCase(prefix)[i] == FoldCase(typeName)[i] <==> SameButCase(prefix[i], typeName[i]));
      if FoldCase(prefix) <= FoldCase(typeName) {
        forall i | 0 <= i < |prefix| ensures FoldCase(prefix)[i] == FoldCase(typeName)[i] {
          assert FoldCase(typeName)[..|prefix|][i] == FoldCase(typeName)[i];
        }
      }
    }
  }

  lemma MatchesWanted(e: Row, q: Query)
    ensures Matches(e, q) <==> Wanted(e, q.filter, q.followed)
  {
    if q.filter.typePrefix.Some? {
      PrefixMatches(q.filter.typePrefix.value, e.typeName);
    }
  }

  /** What is left to read is every entry that the filters want on that side of the position, once, in order of ids. */
  lemma SelectionIsExact(log: seq<Row>, q: Query, descending: bool, position: Option<int>)
    requires InIdOrder(log)
    ensures var left := Remaining(log, q, descending, position);
            && (forall i, j :: 0 <= i < j < |left| ==>
                                 if descending then left[i].id > left[j].id else left[i].id < left[j].id)
            && (forall e :: e in left <==>
                            e in log && Wanted(e, q.filter, q.followed) &&
                            (position == None || if descending then e.id < position.value else e.id > position.value))
  {
    var low, high := if descending then None else position, if descending then position else None;
    SelectInOrder(log, q, low, high);
    SelectMembers(log, q, low, high);
    forall e ensures Matches(e, q) <==> Wanted(e, q.filter, q.followed) {
      MatchesWanted(e, q);
    }
    var up, left := Select(log, q, low, high), Remaining(log, q, descending, position);
    if descending {
      ReverseMembers(up);
    }
  }

  lemma ReverseMembers(s: seq<Row>)
    ensures forall e :: e in Reverse(s) <==> e in s
  {
    forall e | e in s ensures e in Reverse(s) {
      var i :| 0 <= i < |s| && s[i] == e;
      assert Reverse(s)[|s| - 1 - i] == e;
    }
  }

  const NO_FILTER := Filter(None, None, None, None, None, None, None, None, None, None, None, false)

  /** Without any filter everything is read. */
  lemma {:induction false} NoFilterSelectsAll(log: seq<Row>)
    ensures Select(log, Query(NO_FILTER, []), None, None) == log
  {
    if log != [] {
      NoFilterSelectsAll(log[1..]);
    }
  }

  /** The first page of a read that follows a name finds all objects that ever had it. More than a hundred are refused,
      and so is following without a name or a type. */
  lemma FirstPageFollows(view: View, filter: Filter, descending: bool)
    ensures match QueryFor(view, filter, descending, None)
            case Ok((q, position)) =>
              && q.filter == filter && position == None
              && if !filter.refFollow then q.followed == []
                 else
                   filter.refName.Some? && filter.refType.Some? && |q.followed| <= 100 &&
                   forall id :: id in q.followed <==>
                                NameRow(filter.refType.value, id, filter.refName.value) in view.names
            case Err(e) =>
              e == InvalidFilter && filter.refFollow &&
              (filter.refName.None? || filter.refType.None? ||
               |ObjectsWithName(view.names, filter.refType.value, filter.refName.value, 101)| == 101)
  {
  }

  /** A cursor that cannot be read, or is of another version, is never accepted. */
  lemma WrongCursorsAreRefused(view: View, filter: Filter, descending: bool, token: Token)
    requires token.Unreadable? || token.cursor.version != 1
    ensures QueryFor(view, filter, descending, Some(token)).Err?
  {
  }

  lemma ReadStep(view: View, q: Query, descending: bool, limit: int, position: Option<int>, entries: seq<Row>)
    requires InIdOrder(view.log) && Sound(q)
    ensures var page := PageOf(view, q, descending, limit, position);
            var left := Remaining(view.log, q, descending, position);
            if page.isLast then page.entries == left
            else
              page.entries != [] &&
              var p := Some(page.entries[|page.entries| - 1].id);
              var after := Remaining(view.log, q, descending, p);
              && QueryFor(view, q.filter, descending, Some(page.next)) == Ok((q, p))
              && entries + left == entries + page.entries + after && |after| < |left|
  {
    PageSplits(view, q, descending, limit, position);
    var page := PageOf(view, q, descending, limit, position);
    if !page.isLast {
      var p := Some(page.entries[|page.entries| - 1].id);
      CursorFixesTheQuery(view, q, descending, p);
      assert entries + (page.entries + Remaining(view.log, q, descending, p)) ==
             entries + page.entries + Remaining(view.log, q, descending, p);
    }
  }

  /** The client: every page until the last one, of a log that has stopped growing. The loop ends. */
  method IterAuditLog(view: View, filter: Filter, descending: bool, limit: int, start: Option<Token>)
    returns (r: Result<seq<Row>, Error>)
    requires InIdOrder(view.log)
    ensures r.Ok? <==> QueryFor(view, filter, descending, start).Ok?
    ensures r.Ok? ==> var (q, position) := QueryFor(view, filter, descending, start).value;
                      r.value == Remaining(view.log, q, descending, position)
  {
    var cursor := start;
    var entries: seq<Row> := [];
    ghost var query := QueryFor(view, filter, descending, cursor);
    ghost var total := if query.Ok? then Remaining(view.log, query.value.0, descending, query.value.1) else [];
    assert total == entries + total;
    while true
      invariant query == QueryFor(view, filter, descending, cursor)
      invariant query.Ok? <==> QueryFor(view, filter, descending, start).Ok?
      invariant query.Ok? ==> total == entries + Remaining(view.log, query.value.0, descending, query.value.1)
      decreases if query.Ok? then |Remaining(view.log, query.value.0, descending, query.value.1)| else 0
    {
      var read := ReadPage(view, filter, descending, limit, cursor);
      if read.Err? {
        return Err(read.error);
      }
      var page := read.value;
      QueryIsSound(view, filter, descending, cursor);
      ReadStep(view, query.value.0, descending, limit, query.value.1, entries);
      entries := entries + page.entries;
      if page.isLast {
        return Ok(entries);
      }
      cursor := Some(page.next);
      query := QueryFor(view, filter, descending, cursor);
    }
  }
}

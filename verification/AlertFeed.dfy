/** Alerts listed newest first, a page at a time, by keyset cursor. */
module AlertFeed {
  import opened Wrappers
  import opened Ordering

  datatype Alert = Alert(
    id: string, producerKey: string, occurrenceKey: string, severity: nat, title: string, body: string,
    createdAt: int, updatedAt: int, readAt: Option<int>, resolvedAt: Option<int>)

  type Table = seq<Alert>

  datatype ReadState = All | Read | Unread

  /** A position in the listing: creation time, then id. */
  datatype Cursor = Cursor(createdAt: int, id: string)

  datatype Query = Query(readState: ReadState, severities: Option<seq<nat>>)
  datatype Page = Page(items: seq<Alert>, next: Option<Cursor>)

  const MIN_LIST_LIMIT := 1
  const MAX_LIST_LIMIT := 100

  function KeyOf(a: Alert): Cursor {
    Cursor(a.createdAt, a.id)
  }

  /** `x` comes later in the listing than `y`: it is older, or as old with a smaller id. */
  predicate Below(x: Cursor, y: Cursor) {
    x.createdAt < y.createdAt || (x.createdAt == y.createdAt && Before(x.id, y.id))
  }

  lemma BelowTotal(x: Cursor, y: Cursor)
    ensures x == y || Below(x, y) || Below(y, x)
    ensures !(Below(x, y) && (x == y || Below(y, x)))
  {
    BeforeTotal(x.id, y.id);
  }

  lemma BelowTransitive(x: Cursor, y: Cursor, z: Cursor)
    requires Below(x, y) && Below(y, z)
    ensures Below(x, z)
  {
    if x.createdAt == y.createdAt == z.createdAt { BeforeTransitive(x.id, y.id, z.id); }
  }

  predicate IsUnread(a: Alert) {
    a.readAt.None? && a.resolvedAt.None?
  }

  predicate Matches(a: Alert, q: Query) {
    && (match q.readState case All => true case Read => a.readAt.Some? case Unread => IsUnread(a))
    && (q.severities.Some? ==> a.severity in q.severities.value)
  }

  predicate Selected(a: Alert, q: Query, cursor: Option<Cursor>) {
    Matches(a, q) && (cursor.Some? ==> Below(KeyOf(a), cursor.value))
  }

  // ----- The ordered query -----

  function InsertDescending(rows: seq<Alert>, a: Alert): seq<Alert> {
    if rows == [] || Below(KeyOf(rows[0]), KeyOf(a)) then [a] + rows
    else [rows[0]] + InsertDescending(rows[1..], a)
  }

  /** The matching rows below the cursor, newest first. */
  function Select(table: Table, q: Query, cursor: Option<Cursor>): seq<Alert> {
    if table == [] then []
    else
      var rest := Select(table[..|table| - 1], q, cursor);
      var last := table[|table| - 1];
      if Selected(last, q, cursor) then InsertDescending(rest, last) else rest
  }

  predicate Descending(rows: seq<Alert>) {
    forall i, j :: 0 <= i < j < |rows| ==> Below(KeyOf(rows[j]), KeyOf(rows[i]))
  }

  predicate UniqueIds(table: Table) {
    forall i, j :: 0 <= i < j < |table| ==> table[i].id != table[j].id
  }

  lemma {:induction false} InsertKeepsDescending(rows: seq<Alert>, a: Alert)
    requires Descending(rows) && forall i :: 0 <= i < |rows| ==> KeyOf(rows[i]) != KeyOf(a)
    ensures Descending(InsertDescending(rows, a))
    ensures forall x :: x in InsertDescending(rows, a) <==> x == a || x in rows
    decreases |rows|
  {
    if rows != [] {
      BelowTotal(KeyOf(rows[0]), KeyOf(a));
      var rest := rows[1..];
      assert rows == [rows[0]] + rest;
      if Below(KeyOf(rows[0]), KeyOf(a)) {
        forall j | 0 <= j < |rows| ensures Below(KeyOf(rows[j]), KeyOf(a)) {
          if j > 0 { BelowTransitive(KeyOf(rows[j]), KeyOf(rows[0]), KeyOf(a)); }
        }
      } else {
        InsertKeepsDescending(rest, a);
        var tail := InsertDescending(rest, a);
        forall j | 0 <= j < |tail| ensures Below(KeyOf(tail[j]), KeyOf(rows[0])) {
          assert tail[j] == a || tail[j] in rest;
        }
      }
    }
  }

  /** `a` was created after `b`, or at the same time under a larger id. */
  predicate Newer(a: Alert, b: Alert) {
    a.createdAt > b.createdAt || (a.createdAt == b.createdAt && Before(b.id, a.id))
  }

  predicate NewestFirst(rows: seq<Alert>) {
    forall i, j :: 0 <= i < j < |rows| ==> Newer(rows[i], rows[j])
  }

  /** The alert has the read state and severity asked for, and comes after the cursor. */
  predicate Answers(a: Alert, q: Query, cursor: Option<Cursor>) {
    && (q.readState == Read ==> a.readAt != None)
    && (q.readState == Unread ==> a.readAt == None && a.resolvedAt == None)
    && (q.severities.None? || a.severity in q.severities.value)
    && (cursor.None? || a.createdAt < cursor.value.createdAt
        || (a.createdAt == cursor.value.createdAt && Before(a.id, cursor.value.id)))
  }

  /** The listing has the newest alert first and holds exactly the alerts that answer the query. */
  lemma SelectNewestFirst(table: Table, q: Query, cursor: Option<Cursor>)
    requires UniqueIds(table)
    ensures NewestFirst(Select(table, q, cursor))
    ensures forall a :: a in Select(table, q, cursor) <==> a in table && Answers(a, q, cursor)
  {
    SelectIsListing(table, q, cursor);
  }

  /** The listing is strictly descending and holds exactly the selected rows. */
  lemma {:induction false} SelectIsListing(table: Table, q: Query, cursor: Option<Cursor>)
    requires UniqueIds(table)
    ensures Descending(Select(table, q, cursor))
    ensures forall a :: a in Select(table, q, cursor) <==> a in table && Selected(a, q, cursor)
    decreases |table|
  {
    if table != [] {
      var init, last := table[..|table| - 1], table[|table| - 1];
      SelectIsListing(init, q, cursor);
      var rest := Select(init, q, cursor);
      assert table == init + [last];
      forall i | 0 <= i < |rest| ensures KeyOf(rest[i]) != KeyOf(last) {
        assert rest[i] in init;
        var k :| 0 <= k < |init| && init[k] == rest[i];
        assert table[k].id != table[|table| - 1].id;
      }
      InsertKeepsDescending(rest, last);
    }
  }

  // ----- One page -----

  function PageOf(rows: seq<Alert>, limit: nat): Page
    requires limit >= 1
  {
    if |rows| > limit then Page(rows[..limit], Some(KeyOf(rows[limit - 1]))) else Page(rows, None)
  }

  /** One page: the query fetches one row more than the limit to see whether another page follows. */
  method ListDomainAlerts(table: Table, q: Query, cursor: Option<Cursor>, limit: int) returns (page: Option<Page>)
    ensures page == if MIN_LIST_LIMIT <= limit <= MAX_LIST_LIMIT then Some(PageOf(Select(table, q, cursor), limit))
      else None
    ensures page.Some? <==> 1 <= limit <= 100
    ensures page.Some? ==> |page.value.items| <= limit && page.value.items <= Select(table, q, cursor)
    ensures page.Some? && UniqueIds(table) ==> NewestFirst(page.value.items)
    ensures page.Some? ==> (page.value.next.Some? <==> page.value.items != Select(table, q, cursor))
    ensures page.Some? && page.value.next.Some? ==>
      && |page.value.items| == limit
      && page.value.next.value == Cursor(page.value.items[limit - 1].createdAt, page.value.items[limit - 1].id)
  {
    if UniqueIds(table) { SelectNewestFirst(table, q, cursor); }
    if !(MIN_LIST_LIMIT <= limit <= MAX_LIST_LIMIT) { return None; }
    var selected := Select(table, q, cursor);
    var rows := if |selected| > limit + 1 then selected[..limit + 1] else selected;
    var hasMore := |rows| > limit;
    var items: seq<Alert> := [];
    var lastRow: Option<Alert> := None;
    var i := 0;
    while i < |rows| && i < limit
      invariant 0 <= i <= |rows| && i <= limit && items == rows[..i]
      invariant lastRow == if i == 0 then None else Some(rows[i - 1])
    {
      lastRow := Some(rows[i]);
      items := items + [rows[i]];
      i := i + 1;
    }
    assert i == (if hasMore then limit else |rows|) && rows[..|rows|] == rows;
    assert hasMore ==> rows[..limit] == selected[..limit];
    var next := if hasMore && lastRow.Some? then Some(KeyOf(lastRow.value)) else None;
    page := Some(Page(items, next));
  }

  /** The count of unread, unresolved alerts. */
  function UnreadCount(table: Table): nat {
    if table == [] then 0 else UnreadCount(table[..|table| - 1]) + (if IsUnread(table[|table| - 1]) then 1 else 0)
  }

  // ----- Following the cursor -----

  /** Every page of a traversal joined together, each read from the next state of the table. */
  function Walk(tables: seq<Table>, q: Query, cursor: Option<Cursor>, limit: nat): seq<Alert>
    requires limit >= 1
    decreases |tables|
  {
    if tables == [] then []
    else
      var page := PageOf(Select(tables[0], q, cursor), limit);
      if page.next.None? then page.items else page.items + Walk(tables[1..], q, page.next, limit)
  }

  /** The traversal reaches a page without a next cursor. */
  predicate Completes(tables: seq<Table>, q: Query, cursor: Option<Cursor>, limit: nat)
    requires limit >= 1
    decreases |tables|
  {
    tables != [] &&
    var page := PageOf(Select(tables[0], q, cursor), limit);
    page.next.None? || Completes(tables[1..], q, page.next, limit)
  }

  predicate AllUnique(tables: seq<Table>) {
    forall t :: 0 <= t < |tables| ==> UniqueIds(tables[t])
  }

  /** Some row at this position is there and matches. */
  predicate Shows(table: Table, q: Query, key: Cursor) {
    exists i :: 0 <= i < |table| && KeyOf(table[i]) == key && Matches(table[i], q)
  }

  /** Whatever happens to the table between the pages, the traversal is strictly descending, so no alert is
      returned twice, and everything after the first cursor stays below it. */
  lemma {:induction false} WalkDescends(tables: seq<Table>, q: Query, cursor: Option<Cursor>, limit: nat)
    requires limit >= 1 && AllUnique(tables)
    ensures Descending(Walk(tables, q, cursor, limit))
    ensures cursor.Some? ==> forall i :: 0 <= i < |Walk(tables, q, cursor, limit)| ==>
      Below(KeyOf(Walk(tables, q, cursor, limit)[i]), cursor.value)
    decreases |tables|
  {
    if tables != [] {
      var rows := Select(tables[0], q, cursor);
      SelectIsListing(tables[0], q, cursor);
      assert forall i :: 0 <= i < |rows| ==> rows[i] in rows && Selected(rows[i], q, cursor);
      var page := PageOf(rows, limit);
      if page.next.Some? {
        WalkDescends(tables[1..], q, page.next, limit);
        var tail := Walk(tables[1..], q, page.next, limit);
        TailBelow(rows, tail, limit, cursor);
      }
    }
  }

  /** A traversal goes from the newest alert to the oldest. */
  lemma WalkNewestFirst(tables: seq<Table>, q: Query, cursor: Option<Cursor>, limit: nat)
    requires limit >= 1 && AllUnique(tables)
    ensures NewestFirst(Walk(tables, q, cursor, limit))
  {
    WalkDescends(tables, q, cursor, limit);
  }

  lemma TailBelow(rows: seq<Alert>, tail: seq<Alert>, limit: nat, cursor: Option<Cursor>)
    requires 1 <= limit < |rows| && Descending(rows) && Descending(tail)
    requires forall i :: 0 <= i < |tail| ==> Below(KeyOf(tail[i]), KeyOf(rows[limit - 1]))
    requires cursor.Some? ==> forall i :: 0 <= i < |rows| ==> Below(KeyOf(rows[i]), cursor.value)
    ensures Descending(rows[..limit] + tail)
    ensures cursor.Some? ==> forall i :: 0 <= i < |tail| ==> Below(KeyOf(tail[i]), cursor.value)
  {
    forall i, j | 0 <= i < limit && 0 <= j < |tail|
      ensures Below(KeyOf(tail[j]), KeyOf(rows[i]))
    {
      if i < limit - 1 { BelowTransitive(KeyOf(tail[j]), KeyOf(rows[limit - 1]), KeyOf(rows[i])); }
    }
    if cursor.Some? {
      forall j | 0 <= j < |tail| ensures Below(KeyOf(tail[j]), cursor.value) {
        BelowTransitive(KeyOf(tail[j]), KeyOf(rows[limit - 1]), cursor.value);
      }
    }
  }

  function Keys(rows: seq<Alert>): set<Cursor> {
    set i | 0 <= i < |rows| :: KeyOf(rows[i])
  }

  /** The listing shows exactly the positions below the cursor at which some row matches. */
  lemma ListedIffShown(table: Table, q: Query, cursor: Option<Cursor>, key: Cursor)
    requires UniqueIds(table)
    ensures key in Keys(Select(table, q, cursor)) <==>
      Shows(table, q, key) && (cursor.Some? ==> Below(key, cursor.value))
  {
    SelectIsListing(table, q, cursor);
    var rows := Select(table, q, cursor);
    if key in Keys(rows) {
      var i :| 0 <= i < |rows| && KeyOf(rows[i]) == key;
      assert rows[i] in rows;
      var k :| 0 <= k < |table| && table[k] == rows[i];
    }
    if Shows(table, q, key) && (cursor.Some? ==> Below(key, cursor.value)) {
      var k :| 0 <= k < |table| && KeyOf(table[k]) == key && Matches(table[k], q);
      assert table[k] in rows;
      var i :| 0 <= i < |rows| && rows[i] == table[k];
    }
  }

  /** An alert present and matching at every read is returned, however the table changes meanwhile. */
  lemma {:induction false} LastingAlertReturned(
    tables: seq<Table>, q: Query, cursor: Option<Cursor>, limit: nat, key: Cursor)
    requires limit >= 1 && AllUnique(tables) && Completes(tables, q, cursor, limit)
    requires forall t :: 0 <= t < |tables| ==> Shows(tables[t], q, key)
    requires cursor.Some? ==> Below(key, cursor.value)
    ensures key in Keys(Walk(tables, q, cursor, limit))
    decreases |tables|
  {
    var rows := Select(tables[0], q, cursor);
    ListedIffShown(tables[0], q, cursor, key);
    SelectIsListing(tables[0], q, cursor);
    var i :| 0 <= i < |rows| && KeyOf(rows[i]) == key;
    var walk := Walk(tables, q, cursor, limit);
    if |rows| <= limit || i < limit {
      assert KeyOf(walk[i]) == key;
    } else {
      var next := Some(KeyOf(rows[limit - 1]));
      LastingAlertReturned(tables[1..], q, next, limit, key);
      var tail := Walk(tables[1..], q, next, limit);
      var j :| 0 <= j < |tail| && KeyOf(tail[j]) == key;
      assert walk[limit + j] == tail[j];
    }
  }

  // ----- A table that does not change -----

  lemma {:induction false} DescendingUnique(a: seq<Alert>, b: seq<Alert>)
    requires Descending(a) && Descending(b) && forall x :: x in a <==> x in b
    ensures a == b
    decreases |a|
  {
    assert (a == [] || a[0] in a) && (b == [] || b[0] in b);
    if a != [] {
      var i :| 0 <= i < |b| && b[i] == a[0];
      var j :| 0 <= j < |a| && a[j] == b[0];
      BelowTotal(KeyOf(a[0]), KeyOf(b[0]));
      assert a[0] == b[0];
      TailMembers(a, b);
      DescendingUnique(a[1..], b[1..]);
      assert a == [a[0]] + a[1..] && b == [b[0]] + b[1..];
    }
  }

  lemma TailMembers(a: seq<Alert>, b: seq<Alert>)
    requires a != [] && b != [] && a[0] == b[0] && Descending(a) && Descending(b) && forall x :: x in a <==> x in b
    ensures forall x :: x in a[1..] <==> x in b[1..]
  {
    HeadNotInTail(a);
    HeadNotInTail(b);
    forall x ensures x in a[1..] <==> x in b[1..] {
      assert a == [a[0]] + a[1..] && b == [b[0]] + b[1..];
      assert x in a <==> x == a[0] || x in a[1..];
      assert x in b <==> x == b[0] || x in b[1..];
    }
  }

  lemma HeadNotInTail(a: seq<Alert>)
    requires a != [] && Descending(a)
    ensures a[0] !in a[1..]
  {
    if a[0] in a[1..] {
      var i :| 0 < i < |a| && a[i] == a[0];
      BelowTotal(KeyOf(a[i]), KeyOf(a[0]));
    }
  }

  lemma ComesAfter(rows: seq<Alert>, i: nat, a: Alert)
    requires Descending(rows) && i < |rows| && a in rows && Below(KeyOf(a), KeyOf(rows[i]))
    ensures a in rows[i + 1..]
  {
    var j :| 0 <= j < |rows| && rows[j] == a;
    BelowTotal(KeyOf(a), KeyOf(rows[i]));
    assert j > i;
    assert rows[i + 1..][j - i - 1] == a;
  }

  /** The rows after position `i` are the listing below its key. */
  lemma SelectAfter(table: Table, q: Query, cursor: Option<Cursor>, i: nat)
    requires UniqueIds(table) && i < |Select(table, q, cursor)|
    ensures Select(table, q, Some(KeyOf(Select(table, q, cursor)[i]))) == Select(table, q, cursor)[i + 1..]
  {
    var rows := Select(table, q, cursor);
    var next := Some(KeyOf(rows[i]));
    SelectIsListing(table, q, cursor);
    SelectIsListing(table, q, next);
    assert rows[i] in rows;
    forall a | a in Select(table, q, next) ensures a in rows[i + 1..] {
      if cursor.Some? { BelowTransitive(KeyOf(a), KeyOf(rows[i]), cursor.value); }
      assert a in rows;
      ComesAfter(rows, i, a);
    }
    forall a | a in rows[i + 1..] ensures a in Select(table, q, next) {
      var j :| i < j < |rows| && rows[j] == a;
      assert a in rows;
    }
    DescendingUnique(Select(table, q, next), rows[i + 1..]);
  }

  function Repeat(table: Table, n: nat): seq<Table> {
    seq(n, i => table)
  }

  /** Following the cursor through an unchanging table visits the whole listing once, in order, and stops. */
  lemma {:induction false} WalkVisitsAll(table: Table, q: Query, cursor: Option<Cursor>, limit: nat, fetches: nat)
    requires limit >= 1 && UniqueIds(table) && fetches > |Select(table, q, cursor)|
    ensures Completes(Repeat(table, fetches), q, cursor, limit)
    ensures Walk(Repeat(table, fetches), q, cursor, limit) == Select(table, q, cursor)
    decreases fetches
  {
    var rows := Select(table, q, cursor);
    assert Repeat(table, fetches)[1..] == Repeat(table, fetches - 1);
    if |rows| > limit {
      SelectAfter(table, q, cursor, limit - 1);
      WalkVisitsAll(table, q, Some(KeyOf(rows[limit - 1])), limit, fetches - 1);
      assert rows == rows[..limit] + rows[limit..];
    }
  }

  /** The unread count is the length of the complete unread traversal. */
  lemma {:induction false} UnreadCountIsListing(table: Table)
    ensures UnreadCount(table) == |Select(table, Query(Unread, None), None)|
    decreases |table|
  {
    if table != [] {
      UnreadCountIsListing(table[..|table| - 1]);
      InsertGrows(Select(table[..|table| - 1], Query(Unread, None), None), table[|table| - 1]);
    }
  }

  lemma {:induction false} InsertGrows(rows: seq<Alert>, a: Alert)
    ensures |InsertDescending(rows, a)| == |rows| + 1
    decreases |rows|
  {
    if rows != [] { InsertGrows(rows[1..], a); }
  }

  // ----- A table that only gains newer alerts -----

  lemma {:induction false} KeysCount(rows: seq<Alert>)
    requires Descending(rows)
    ensures |Keys(rows)| == |rows|
    decreases |rows|
  {
    if rows != [] {
      var init, last := rows[..|rows| - 1], rows[|rows| - 1];
      KeysCount(init);
      forall i | 0 <= i < |init| ensures KeyOf(init[i]) != KeyOf(last) { BelowTotal(KeyOf(last), KeyOf(rows[i])); }
      assert Keys(rows) == Keys(init) + {KeyOf(last)};
    }
  }

  lemma FewerKeys(a: seq<Alert>, b: seq<Alert>)
    requires Descending(a) && Descending(b) && Keys(a) <= Keys(b)
    ensures |a| <= |b|
  {
    KeysCount(a);
    KeysCount(b);
    assert Keys(b) == Keys(a) + (Keys(b) - Keys(a));
  }

  /** Every matching alert of the later table was showing before, or is newer than all that were. */
  predicate OnlyNewer(earlier: Table, later: Table, q: Query) {
    forall a :: a in later && Matches(a, q) ==>
      Shows(earlier, q, KeyOf(a)) || forall b :: b in earlier && Matches(b, q) ==> Newer(a, b)
  }

  lemma NextPageShrinks(earlier: Table, later: Table, q: Query, cursor: Option<Cursor>, limit: nat)
    requires UniqueIds(earlier) && UniqueIds(later) && OnlyNewer(earlier, later, q)
    requires 1 <= limit < |Select(earlier, q, cursor)|
    ensures |Select(later, q, Some(KeyOf(Select(earlier, q, cursor)[limit - 1])))|
      <= |Select(earlier, q, cursor)| - limit
  {
    var rows := Select(earlier, q, cursor);
    var next := Some(KeyOf(rows[limit - 1]));
    var after := Select(later, q, next);
    SelectAfter(earlier, q, cursor, limit - 1);
    LastShown(earlier, q, cursor, limit - 1);
    forall key | key in Keys(after) ensures key in Keys(rows[limit..]) {
      NothingNewAfter(earlier, later, q, next.value, key);
    }
    SelectIsListing(earlier, q, next);
    SelectIsListing(later, q, next);
    FewerKeys(after, rows[limit..]);
  }

  /** Below the key of an alert already listed, the later table lists nothing the earlier one did not. */
  lemma NothingNewAfter(earlier: Table, later: Table, q: Query, next: Cursor, key: Cursor)
    requires UniqueIds(earlier) && UniqueIds(later) && OnlyNewer(earlier, later, q)
    requires exists a :: a in earlier && Matches(a, q) && KeyOf(a) == next
    requires key in Keys(Select(later, q, Some(next)))
    ensures key in Keys(Select(earlier, q, Some(next)))
  {
    ListedIffShown(later, q, Some(next), key);
    ListedIffShown(earlier, q, Some(next), key);
    BelowTotal(key, next);
    var k :| 0 <= k < |later| && KeyOf(later[k]) == key && Matches(later[k], q);
    assert later[k] in later;
  }

  lemma LastShown(table: Table, q: Query, cursor: Option<Cursor>, i: nat)
    requires UniqueIds(table) && i < |Select(table, q, cursor)|
    ensures Select(table, q, cursor)[i] in table && Matches(Select(table, q, cursor)[i], q)
  {
    SelectIsListing(table, q, cursor);
    assert Select(table, q, cursor)[i] in Select(table, q, cursor);
  }

  /** With only newer alerts arriving between reads the traversal stops, one page or more per fetch. */
  lemma {:induction false} WalkStops(tables: seq<Table>, q: Query, cursor: Option<Cursor>, limit: nat)
    requires limit >= 1 && AllUnique(tables) && tables != [] && |tables| > |Select(tables[0], q, cursor)|
    requires forall t :: 0 <= t < |tables| - 1 ==> OnlyNewer(tables[t], tables[t + 1], q)
    ensures Completes(tables, q, cursor, limit)
    decreases |tables|
  {
    var rows := Select(tables[0], q, cursor);
    if |rows| > limit {
      assert OnlyNewer(tables[0], tables[0 + 1], q);
      NextPageShrinks(tables[0], tables[1], q, cursor, limit);
      forall t | 0 <= t < |tables[1..]| - 1 ensures OnlyNewer(tables[1..][t], tables[1..][t + 1], q) {
        assert OnlyNewer(tables[t + 1], tables[(t + 1) + 1], q);
      }
      WalkStops(tables[1..], q, Some(KeyOf(rows[limit - 1])), limit);
    }
  }
}

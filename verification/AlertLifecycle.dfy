/** Opening, reading and resolving alerts under a unique producer and occurrence key. */
module AlertLifecycle {
  import opened Wrappers
  import opened AlertFeed

  datatype NewAlert = NewAlert(
    id: Option<string>, producerKey: string, occurrenceKey: string, severity: nat, title: string, body: string)

  datatype InsertOutcome = Created(alert: Alert) | AlreadyExists
  datatype LifecycleOutcome = Changed(alert: Alert) | Unchanged(alert: Alert) | NotFound

  // ----- Lookup -----

  function IndexOfId(table: Table, id: string): (i: nat)
    ensures i <= |table| && (i < |table| ==> table[i].id == id)
    ensures forall k :: 0 <= k < i ==> table[k].id != id
  {
    if table == [] || table[0].id == id then 0 else 1 + IndexOfId(table[1..], id)
  }

  predicate HasKeys(a: Alert, producerKey: string, occurrenceKey: string) {
    a.producerKey == producerKey && a.occurrenceKey == occurrenceKey
  }

  function IndexOfKeys(table: Table, producerKey: string, occurrenceKey: string): (i: nat)
    ensures i <= |table| && (i < |table| ==> HasKeys(table[i], producerKey, occurrenceKey))
    ensures forall k :: 0 <= k < i ==> !HasKeys(table[k], producerKey, occurrenceKey)
  {
    if table == [] || HasKeys(table[0], producerKey, occurrenceKey) then 0
    else 1 + IndexOfKeys(table[1..], producerKey, occurrenceKey)
  }

  predicate IsOpenFor(a: Alert, producerKey: string, occurrenceKey: string) {
    HasKeys(a, producerKey, occurrenceKey) && a.resolvedAt.None?
  }

  function IndexOfOpen(table: Table, producerKey: string, occurrenceKey: string): (i: nat)
    ensures i <= |table| && (i < |table| ==> IsOpenFor(table[i], producerKey, occurrenceKey))
    ensures forall k :: 0 <= k < i ==> !IsOpenFor(table[k], producerKey, occurrenceKey)
  {
    if table == [] || IsOpenFor(table[0], producerKey, occurrenceKey) then 0
    else 1 + IndexOfOpen(table[1..], producerKey, occurrenceKey)
  }

  // ----- Operations on the table -----

  function RowFor(draft: NewAlert, freshId: string, now: int): Alert {
    Alert(if draft.id.Some? then draft.id.value else freshId, draft.producerKey, draft.occurrenceKey, draft.severity,
      draft.title, draft.body, now, now, None, None)
  }

  /** The insert violates the primary key or the unique index on the keys. */
  predicate Conflicts(table: Table, row: Alert) {
    IndexOfId(table, row.id) < |table| || IndexOfKeys(table, row.producerKey, row.occurrenceKey) < |table|
  }

  function Insert(table: Table, row: Alert): Table {
    if Conflicts(table, row) then table else table + [row]
  }

  function EnsureOpen(table: Table, row: Alert, now: int): Table {
    var i := IndexOfKeys(table, row.producerKey, row.occurrenceKey);
    if i == |table| then Insert(table, row)
    else if table[i].resolvedAt.None? then table[i := table[i].(updatedAt := now)]
    else table[i := table[i].(
      resolvedAt := None, updatedAt := now, title := row.title, body := row.body, severity := row.severity)]
  }

  function MarkRead(table: Table, id: string, now: int): Table {
    var i := IndexOfId(table, id);
    if i == |table| || table[i].readAt.Some? then table
    else table[i := table[i].(readAt := Some(now), updatedAt := now)]
  }

  function MarkUnread(table: Table, id: string, now: int): Table {
    var i := IndexOfId(table, id);
    if i == |table| || table[i].readAt.None? then table else table[i := table[i].(readAt := None, updatedAt := now)]
  }

  function Resolve(table: Table, id: string, now: int): Table {
    var i := IndexOfId(table, id);
    if i == |table| || table[i].resolvedAt.Some? then table
    else table[i := table[i].(resolvedAt := Some(now), updatedAt := now)]
  }

  function ResolveByKeys(table: Table, producerKey: string, occurrenceKey: string, now: int): Table {
    var i := IndexOfOpen(table, producerKey, occurrenceKey);
    if i == |table| then table else Resolve(table, table[i].id, now)
  }

  function ReadRow(a: Alert, now: int): Alert {
    if IsUnread(a) then a.(readAt := Some(now), updatedAt := now) else a
  }

  function MarkAllRead(table: Table, now: int): (t: Table)
    ensures |t| == |table| && forall i :: 0 <= i < |t| ==> t[i] == ReadRow(table[i], now)
  {
    if table == [] then [] else MarkAllRead(table[..|table| - 1], now) + [ReadRow(table[|table| - 1], now)]
  }

  // ----- The store -----

  predicate UniqueKeys(table: Table) {
    forall i, j :: 0 <= i < j < |table| ==> !HasKeys(table[j], table[i].producerKey, table[i].occurrenceKey)
  }

  predicate Valid(table: Table) {
    UniqueIds(table) && UniqueKeys(table)
  }

  class AlertStore {
    var table: Table

    constructor ()
      ensures table == [] && Valid(table)
    {
      table := [];
    }

    method InsertAlert(draft: NewAlert, freshId: string, now: int) returns (outcome: InsertOutcome)
      modifies this
      ensures table == Insert(old(table), RowFor(draft, freshId, now))
      ensures outcome == if Conflicts(old(table), RowFor(draft, freshId, now)) then AlreadyExists
        else Created(RowFor(draft, freshId, now))
    {
      var row := RowFor(draft, freshId, now);
      if Conflicts(table, row) { return AlreadyExists; }
      table := table + [row];
      outcome := Created(row);
    }

    method EnsureOpenAlert(draft: NewAlert, freshId: string, now: int) returns (outcome: InsertOutcome)
      modifies this
      ensures table == EnsureOpen(old(table), RowFor(draft, freshId, now), now)
      ensures outcome.Created? <==> |table| > |old(table)|
    {
      var i := IndexOfKeys(table, draft.producerKey, draft.occurrenceKey);
      if i == |table| {
        outcome := InsertAlert(draft, freshId, now);
        return;
      }
      if table[i].resolvedAt.None? {
        table := table[i := table[i].(updatedAt := now)];
      } else {
        table := table[i := table[i].(
          resolvedAt := None, updatedAt := now, title := draft.title, body := draft.body, severity := draft.severity)];
      }
      outcome := AlreadyExists;
    }

    method MarkAlertRead(id: string, now: int) returns (outcome: LifecycleOutcome)
      modifies this
      ensures table == MarkRead(old(table), id, now)
      ensures outcome.NotFound? <==> IndexOfId(old(table), id) == |old(table)|
      ensures outcome.Changed? <==> table != old(table)
      ensures !outcome.NotFound? ==> outcome.alert in table && outcome.alert.id == id && outcome.alert.readAt.Some?
    {
      var i := IndexOfId(table, id);
      if i == |table| { return NotFound; }
      if table[i].readAt.Some? { return Unchanged(table[i]); }
      table := table[i := table[i].(readAt := Some(now), updatedAt := now)];
      outcome := Changed(table[i]);
    }

    method MarkAlertUnread(id: string, now: int) returns (outcome: LifecycleOutcome)
      modifies this
      ensures table == MarkUnread(old(table), id, now)
      ensures outcome.NotFound? <==> IndexOfId(old(table), id) == |old(table)|
      ensures outcome.Changed? <==> table != old(table)
      ensures !outcome.NotFound? ==> outcome.alert in table && outcome.alert.id == id && outcome.alert.readAt.None?
    {
      var i := IndexOfId(table, id);
      if i == |table| { return NotFound; }
      if table[i].readAt.None? { return Unchanged(table[i]); }
      table := table[i := table[i].(readAt := None, updatedAt := now)];
      outcome := Changed(table[i]);
    }

    method ResolveAlert(id: string, now: int) returns (outcome: LifecycleOutcome)
      modifies this
      ensures table == Resolve(old(table), id, now)
      ensures outcome.NotFound? <==> IndexOfId(old(table), id) == |old(table)|
      ensures outcome.Changed? <==> table != old(table)
      ensures !outcome.NotFound? ==> outcome.alert in table && outcome.alert.id == id && outcome.alert.resolvedAt.Some?
    {
      var i := IndexOfId(table, id);
      if i == |table| { return NotFound; }
      if table[i].resolvedAt.Some? { return Unchanged(table[i]); }
      table := table[i := table[i].(resolvedAt := Some(now), updatedAt := now)];
      outcome := Changed(table[i]);
    }

    method ResolveAlertByKeys(producerKey: string, occurrenceKey: string, now: int) returns (changed: bool)
      requires Valid(table)
      modifies this
      ensures table == ResolveByKeys(old(table), producerKey, occurrenceKey, now)
      ensures changed <==> HasOpen(old(table), producerKey, occurrenceKey)
    {
      var i := IndexOfOpen(table, producerKey, occurrenceKey);
      if i == |table| { return false; }
      IdIsIndex(table, i);
      var outcome := ResolveAlert(table[i].id, now);
      changed := outcome.Changed?;
    }

    /** Marks every unread, unresolved alert read and reports how many there were. */
    method MarkAllAlertsRead(now: int) returns (affected: nat)
      modifies this
      ensures table == MarkAllRead(old(table), now)
      ensures affected == UnreadCount(old(table))
    {
      affected := 0;
      var rows: Table := [];
      for i := 0 to |table|
        invariant table == old(table) && rows == MarkAllRead(table[..i], now) && affected == UnreadCount(table[..i])
      {
        assert table[..i + 1][..i] == table[..i];
        if IsUnread(table[i]) { affected := affected + 1; }
        rows := rows + [ReadRow(table[i], now)];
      }
      assert table[..|table|] == table;
      table := rows;
    }
  }

  // ----- What the keys guarantee -----

  predicate HasOpen(table: Table, producerKey: string, occurrenceKey: string) {
    exists i :: 0 <= i < |table| && IsOpenFor(table[i], producerKey, occurrenceKey)
  }

  lemma IdIsIndex(table: Table, i: nat)
    requires UniqueIds(table) && i < |table|
    ensures IndexOfId(table, table[i].id) == i
  {
  }

  /** The row keeps what identifies it. */
  predicate SameIdentity(a: Alert, b: Alert) {
    a.id == b.id && a.producerKey == b.producerKey && a.occurrenceKey == b.occurrenceKey && a.createdAt == b.createdAt
  }

  /** No row is lost, moved or renamed; rows may be added at the end. */
  predicate Keeps(before: Table, after: Table) {
    |before| <= |after| && forall i :: 0 <= i < |before| ==> SameIdentity(before[i], after[i])
  }

  /** At most one row is added, and only one whose id and keys are free. */
  predicate Extends(before: Table, after: Table) {
    && Keeps(before, after) && |after| <= |before| + 1
    && (|after| == |before| + 1 ==> !Conflicts(before, after[|before|]))
  }

  lemma ExtendsKeepsValid(before: Table, after: Table)
    requires Valid(before) && Extends(before, after)
    ensures Valid(after)
  {
    forall i, j | 0 <= i < j < |after|
      ensures after[i].id != after[j].id && !HasKeys(after[j], after[i].producerKey, after[i].occurrenceKey)
    {
      assert SameIdentity(before[i], after[i]);
      if j < |before| { assert SameIdentity(before[j], after[j]); }
    }
  }

  datatype Action =
    | DoInsert(draft: NewAlert, freshId: string)
    | DoEnsureOpen(draft: NewAlert, freshId: string)
    | DoMarkRead(id: string) | DoMarkUnread(id: string) | DoMarkAllRead
    | DoResolve(id: string) | DoResolveByKeys(producerKey: string, occurrenceKey: string)

  datatype Event = Event(action: Action, now: int)

  function Apply(table: Table, e: Event): Table {
    match e.action
    case DoInsert(draft, freshId) => Insert(table, RowFor(draft, freshId, e.now))
    case DoEnsureOpen(draft, freshId) => EnsureOpen(table, RowFor(draft, freshId, e.now), e.now)
    case DoMarkRead(id) => MarkRead(table, id, e.now)
    case DoMarkUnread(id) => MarkUnread(table, id, e.now)
    case DoMarkAllRead => MarkAllRead(table, e.now)
    case DoResolve(id) => Resolve(table, id, e.now)
    case DoResolveByKeys(p, o) => ResolveByKeys(table, p, o, e.now)
  }

  function Run(table: Table, events: seq<Event>): Table
    decreases |events|
  {
    if events == [] then table else Run(Apply(table, events[0]), events[1..])
  }

  lemma EnsureOpenExtends(table: Table, row: Alert, now: int)
    ensures Extends(table, EnsureOpen(table, row, now))
  {
    assert Extends(table, Insert(table, row));
  }

  lemma MarksExtend(table: Table, id: string, now: int)
    ensures Extends(table, MarkRead(table, id, now)) && Extends(table, MarkUnread(table, id, now))
  {
  }

  lemma ResolveExtends(table: Table, id: string, now: int)
    ensures Extends(table, Resolve(table, id, now))
  {
  }

  lemma ApplyExtends(table: Table, e: Event)
    ensures Extends(table, Apply(table, e))
  {
    match e.action
    case DoInsert(_, _) =>
    case DoEnsureOpen(draft, freshId) => EnsureOpenExtends(table, RowFor(draft, freshId, e.now), e.now);
    case DoMarkRead(id) => MarksExtend(table, id, e.now);
    case DoMarkUnread(id) => MarksExtend(table, id, e.now);
    case DoMarkAllRead =>
    case DoResolve(id) => ResolveExtends(table, id, e.now);
    case DoResolveByKeys(p, o) =>
      var i := IndexOfOpen(table, p, o);
      if i < |table| { ResolveExtends(table, table[i].id, e.now); }
  }

  /** Over any run there is at most one row per key pair and per id, and no row is ever lost or renamed. */
  lemma {:induction false} RunKeepsKeysUnique(table: Table, events: seq<Event>)
    requires Valid(table)
    ensures Valid(Run(table, events)) && Keeps(table, Run(table, events))
    decreases |events|
  {
    if events != [] {
      var next := Apply(table, events[0]);
      ApplyExtends(table, events[0]);
      ExtendsKeepsValid(table, next);
      RunKeepsKeysUnique(next, events[1..]);
      var last := Run(next, events[1..]);
      forall i | 0 <= i < |table| ensures SameIdentity(table[i], last[i]) {
        assert SameIdentity(table[i], next[i]) && SameIdentity(next[i], last[i]);
      }
    }
  }

  predicate SameText(a: Alert, b: Alert) {
    a.title == b.title && a.body == b.body && a.severity == b.severity
  }

  /** Ensuring leaves an open alert exactly when the keys were known or the id was free. A known row keeps its id,
      its read mark and its creation time, takes the new text only when it is reopened, and no other row changes. */
  lemma EnsureOpenIff(table: Table, row: Alert, now: int)
    requires Valid(table) && row.resolvedAt.None?
    ensures var i, after := IndexOfKeys(table, row.producerKey, row.occurrenceKey), EnsureOpen(table, row, now);
      && (HasOpen(after, row.producerKey, row.occurrenceKey) <==> i < |table| || IndexOfId(table, row.id) == |table|)
      && (i < |table| ==> |after| == |table| && SameIdentity(table[i], after[i]))
      && (i < |table| ==> after[i].readAt == table[i].readAt && after[i].updatedAt == now)
      && (i < |table| ==> SameText(after[i], if table[i].resolvedAt.None? then table[i] else row))
      && (forall k :: 0 <= k < |table| && k != i ==> after[k] == table[k])
  {
    var i, after := IndexOfKeys(table, row.producerKey, row.occurrenceKey), EnsureOpen(table, row, now);
    if i < |table| {
      assert IsOpenFor(after[i], row.producerKey, row.occurrenceKey);
    } else if IndexOfId(table, row.id) == |table| {
      assert after[|table|] == row;
    }
  }

  /** New keys under an id that is taken: nothing is opened, and the outcome is the one for an open alert. */
  lemma TakenIdOpensNothing()
    ensures var draft := NewAlert(Some("a"), "producer", "second", 0, "title", "body");
      var table := [RowFor(draft.(occurrenceKey := "first"), "", 0)];
      && Valid(table) && EnsureOpen(table, RowFor(draft, "", 1), 1) == table
      && !HasOpen(table, "producer", "second")
  {
    assert "first"[0] != "second"[0];
  }

  /** Resolving by keys closes the open alert, if there is one, and leaves none open. */
  lemma ResolveByKeysCloses(table: Table, producerKey: string, occurrenceKey: string, now: int)
    requires Valid(table)
    ensures !HasOpen(ResolveByKeys(table, producerKey, occurrenceKey, now), producerKey, occurrenceKey)
    ensures ResolveByKeys(table, producerKey, occurrenceKey, now) != table <==>
      HasOpen(table, producerKey, occurrenceKey)
  {
    var i := IndexOfOpen(table, producerKey, occurrenceKey);
    var after := ResolveByKeys(table, producerKey, occurrenceKey, now);
    if i < |table| {
      IdIsIndex(table, i);
      assert after[i].resolvedAt.Some?;
      forall k | 0 <= k < |after| && k != i ensures !HasKeys(after[k], producerKey, occurrenceKey) {
        assert after[k] == table[k];
      }
    }
  }

  /** Marking all read leaves no unread alert. */
  lemma {:induction false} MarkAllReadLeavesNone(table: Table, now: int)
    ensures UnreadCount(MarkAllRead(table, now)) == 0
    decreases |table|
  {
    if table != [] {
      MarkAllReadLeavesNone(table[..|table| - 1], now);
      var after := MarkAllRead(table, now);
      assert after[..|table| - 1] == MarkAllRead(table[..|table| - 1], now);
    }
  }

  // ----- What each operation does to every row -----

  /** Identity, text and resolution agree: only the read mark and the time of the update may differ. */
  predicate SameButReadMark(a: Alert, b: Alert) {
    SameIdentity(a, b) && SameText(a, b) && a.resolvedAt == b.resolvedAt
  }

  /** Identity, text and read mark agree: only the resolution and the time of the update may differ. */
  predicate SameButResolution(a: Alert, b: Alert) {
    SameIdentity(a, b) && SameText(a, b) && a.readAt == b.readAt
  }

  predicate IsTaken(table: Table, id: string, producerKey: string, occurrenceKey: string) {
    exists i :: 0 <= i < |table| &&
      (table[i].id == id || (table[i].producerKey == producerKey && table[i].occurrenceKey == occurrenceKey))
  }

  /** An alert is created exactly when its id and its keys are free. It is unread and unresolved, and carries what its
      draft says. */
  lemma CreatedAsDrafted(table: Table, draft: NewAlert, freshId: string, now: int)
    ensures var id := if draft.id == None then freshId else draft.id.value;
      var after := Insert(table, RowFor(draft, freshId, now));
      if IsTaken(table, id, draft.producerKey, draft.occurrenceKey) then after == table
      else
        && |after| == |table| + 1 && after[..|table|] == table
        && var a := after[|table|];
           && a.id == id && a.producerKey == draft.producerKey && a.occurrenceKey == draft.occurrenceKey
           && a.title == draft.title && a.body == draft.body && a.severity == draft.severity
           && a.createdAt == now && a.updatedAt == now && a.readAt == None && a.resolvedAt == None
  {
    var row := RowFor(draft, freshId, now);
    assert IsTaken(table, row.id, row.producerKey, row.occurrenceKey) <==> Conflicts(table, row);
  }

  lemma MarkReadMeaning(table: Table, id: string, now: int, k: nat)
    requires UniqueIds(table) && k < |table|
    ensures |MarkRead(table, id, now)| == |table|
    ensures var a, b := table[k], MarkRead(table, id, now)[k];
      if a.id == id && a.readAt == None then b.readAt == Some(now) && b.updatedAt == now && SameButReadMark(a, b)
      else b == a
  {
    IdIsIndex(table, k);
  }

  lemma MarkUnreadMeaning(table: Table, id: string, now: int, k: nat)
    requires UniqueIds(table) && k < |table|
    ensures |MarkUnread(table, id, now)| == |table|
    ensures var a, b := table[k], MarkUnread(table, id, now)[k];
      if a.id == id && a.readAt != None then b.readAt == None && b.updatedAt == now && SameButReadMark(a, b)
      else b == a
  {
    IdIsIndex(table, k);
  }

  lemma MarkAllReadMeaning(table: Table, now: int, k: nat)
    requires k < |table|
    ensures |MarkAllRead(table, now)| == |table|
    ensures var a, b := table[k], MarkAllRead(table, now)[k];
      if a.readAt == None && a.resolvedAt == None
      then b.readAt == Some(now) && b.updatedAt == now && SameButReadMark(a, b)
      else b == a
  {
  }

  lemma ResolveMeaning(table: Table, id: string, now: int, k: nat)
    requires UniqueIds(table) && k < |table|
    ensures |Resolve(table, id, now)| == |table|
    ensures var a, b := table[k], Resolve(table, id, now)[k];
      if a.id == id && a.resolvedAt == None
      then b.resolvedAt == Some(now) && b.updatedAt == now && SameButResolution(a, b)
      else b == a
  {
    IdIsIndex(table, k);
  }

  lemma ResolveByKeysMeaning(table: Table, producerKey: string, occurrenceKey: string, now: int, k: nat)
    requires Valid(table) && k < |table|
    ensures |ResolveByKeys(table, producerKey, occurrenceKey, now)| == |table|
    ensures var a, b := table[k], ResolveByKeys(table, producerKey, occurrenceKey, now)[k];
      if a.producerKey == producerKey && a.occurrenceKey == occurrenceKey && a.resolvedAt == None
      then b.resolvedAt == Some(now) && b.updatedAt == now && SameButResolution(a, b)
      else b == a
  {
    var i := IndexOfOpen(table, producerKey, occurrenceKey);
    if i < |table| { ResolveMeaning(table, table[i].id, now, k); }
  }

  /** A failed refresh that affects no currency leaves the alerts alone. */
  lemma UnaffectedRefreshChangesNothing(table: Table, alert: NewAlert, freshId: string, now: int)
    requires alert.producerKey == REFRESH_PRODUCER && alert.occurrenceKey == REFRESH_OCCURRENCE
    ensures ApplyRefresh(table, RefreshFailed(false), alert, freshId, now) == table
  {
  }

  // ----- Refresh outcomes -----

  const REFRESH_PRODUCER := "currency.refresh.failure"
  const REFRESH_OCCURRENCE := "currency-refresh-failure"

  datatype RefreshOutcome = RefreshFailed(anyCurrencyAffected: bool) | Published | NotModified

  /** A failed refresh of currencies in use opens the failure alert, any other result resolves it. */
  function ApplyRefresh(table: Table, outcome: RefreshOutcome, alert: NewAlert, freshId: string, now: int): Table
    requires alert.producerKey == REFRESH_PRODUCER && alert.occurrenceKey == REFRESH_OCCURRENCE
  {
    match outcome
    case RefreshFailed(affected) =>
      if affected then Apply(table, Event(DoEnsureOpen(alert, freshId), now)) else table
    case _ => Apply(table, Event(DoResolveByKeys(REFRESH_PRODUCER, REFRESH_OCCURRENCE), now))
  }

  predicate AtMostOneOpen(table: Table, producerKey: string, occurrenceKey: string) {
    forall i, j :: 0 <= i < j < |table| ==>
      !(HasKeys(table[i], producerKey, occurrenceKey) && HasKeys(table[j], producerKey, occurrenceKey)
        && table[i].resolvedAt.None? && table[j].resolvedAt.None?)
  }

  /** After any run and one more refresh, at most one failure alert is open, none after a success, and one after a
      failure that affects a currency and whose id is free or not needed. */
  lemma RefreshLeavesOneOrNone(
    table: Table, events: seq<Event>, outcome: RefreshOutcome, alert: NewAlert, freshId: string, now: int)
    requires Valid(table) && alert.producerKey == REFRESH_PRODUCER && alert.occurrenceKey == REFRESH_OCCURRENCE
    ensures var before := Run(table, events);
      var after := ApplyRefresh(before, outcome, alert, freshId, now);
      && AtMostOneOpen(after, REFRESH_PRODUCER, REFRESH_OCCURRENCE)
      && (!outcome.RefreshFailed? ==> !HasOpen(after, REFRESH_PRODUCER, REFRESH_OCCURRENCE))
      && (outcome == RefreshFailed(true) && IndexOfId(before, RowFor(alert, freshId, now).id) == |before| ==>
            HasOpen(after, REFRESH_PRODUCER, REFRESH_OCCURRENCE))
  {
    RunKeepsKeysUnique(table, events);
    RefreshOnce(Run(table, events), outcome, alert, freshId, now);
  }

  lemma RefreshOnce(before: Table, outcome: RefreshOutcome, alert: NewAlert, freshId: string, now: int)
    requires Valid(before) && alert.producerKey == REFRESH_PRODUCER && alert.occurrenceKey == REFRESH_OCCURRENCE
    ensures var after := ApplyRefresh(before, outcome, alert, freshId, now);
      && AtMostOneOpen(after, REFRESH_PRODUCER, REFRESH_OCCURRENCE)
      && (!outcome.RefreshFailed? ==> !HasOpen(after, REFRESH_PRODUCER, REFRESH_OCCURRENCE))
      && (outcome == RefreshFailed(true) && IndexOfId(before, RowFor(alert, freshId, now).id) == |before| ==>
            HasOpen(after, REFRESH_PRODUCER, REFRESH_OCCURRENCE))
  {
    if outcome.RefreshFailed? {
      if outcome.anyCurrencyAffected { FailureOpens(before, alert, freshId, now); } else { AtMostOneIfValid(before); }
    } else {
      NoneIsAtMostOne(ResolveByKeys(before, REFRESH_PRODUCER, REFRESH_OCCURRENCE, now));
      ResolveByKeysCloses(before, REFRESH_PRODUCER, REFRESH_OCCURRENCE, now);
    }
  }

  lemma FailureOpens(before: Table, alert: NewAlert, freshId: string, now: int)
    requires Valid(before) && alert.producerKey == REFRESH_PRODUCER && alert.occurrenceKey == REFRESH_OCCURRENCE
    ensures var row := RowFor(alert, freshId, now);
      && AtMostOneOpen(EnsureOpen(before, row, now), REFRESH_PRODUCER, REFRESH_OCCURRENCE)
      && (IndexOfId(before, row.id) == |before| ==>
        HasOpen(EnsureOpen(before, row, now), REFRESH_PRODUCER, REFRESH_OCCURRENCE))
  {
    var row := RowFor(alert, freshId, now);
    EnsureOpenExtends(before, row, now);
    ExtendsKeepsValid(before, EnsureOpen(before, row, now));
    EnsureOpenIff(before, row, now);
    AtMostOneIfValid(EnsureOpen(before, row, now));
  }

  lemma NoneIsAtMostOne(table: Table)
    ensures !HasOpen(table, REFRESH_PRODUCER, REFRESH_OCCURRENCE) ==>
      AtMostOneOpen(table, REFRESH_PRODUCER, REFRESH_OCCURRENCE)
  {
  }

  lemma AtMostOneIfValid(table: Table)
    requires Valid(table)
    ensures AtMostOneOpen(table, REFRESH_PRODUCER, REFRESH_OCCURRENCE)
  {
  }
}

/** Budget mutations guarded by an expected revision, run as jobs of the database writer. */
module BudgetRevisions {
  import opened Wrappers
  import W = Writer

  const I64_MAX := 0x7FFF_FFFF_FFFF_FFFF

  type Id = string

  datatype Settings = Settings(
    baseAllowance: int, measurementMode: nat, rolloverMode: nat, warningPercentage: Option<nat>)
  datatype BudgetRow = BudgetRow(
    name: string, cadence: nat, settings: Settings, paused: bool, revision: int, deletedAt: Option<nat>)

  /** The stored configuration of a budget's current period. */
  datatype Configuration = Configuration(categoryIds: seq<string>, settings: Settings)

  datatype Store = Store(budgets: map<Id, BudgetRow>, configurations: map<Id, Configuration>)

  datatype BudgetUpdate = BudgetUpdate(
    name: string, cadence: nat, categoryIds: seq<string>, settings: Settings, expectedRevision: int)

  /** Where a storage call of the job fails, and what reconciling the timeline makes of the configurations. */
  datatype Faults = Faults(
    before: bool, load: bool, rowWrite: bool, configurationWrite: bool, reconcile: bool, after: bool,
    reconciled: map<Id, Configuration> -> map<Id, Configuration>)

  datatype Request =
    | Update(id: Id, update: BudgetUpdate, faults: Faults)
    | SetPaused(id: Id, expected: int, paused: bool, faults: Faults)
    | Delete(id: Id, expected: int, deletedAt: nat)

  datatype Answer = AtRevision(revision: int) | Deleted

  type Outcome = W.Outcome<Store, Answer>

  function Fail(store: Store, failure: W.JobFailure): Outcome {
    W.Outcome(store, W.Failed(W.JobFailed(failure)))
  }

  predicate IsLive(store: Store, id: Id) {
    id in store.budgets && store.budgets[id].deletedAt.None?
  }

  predicate ConfigurationChanged(current: Configuration, update: BudgetUpdate) {
    current.categoryIds != update.categoryIds || current.settings != update.settings
  }

  function Expected(r: Request): int {
    match r
    case Update(_, u, _) => u.expectedRevision
    case SetPaused(_, expected, _, _) => expected
    case Delete(_, expected, _) => expected
  }

  predicate Tombstoned(store: Store, id: Id) {
    id in store.budgets && store.budgets[id].deletedAt.Some?
  }

  /** The first check that refuses a request, in the order they are made. A tombstone refuses no further delete. */
  function Refusal(store: Store, r: Request): Option<W.JobFailure> {
    if !r.Update? && Expected(r) < 0 then Some(W.InvalidData)
    else if r.Update? && r.faults.before then Some(W.StorageFault)
    else if !IsLive(store, r.id) && !(r.Delete? && r.id in store.budgets) then Some(W.NotFound)
    else if Tombstoned(store, r.id) then None
    else
      var row := store.budgets[r.id];
      if row.revision != Expected(r) then Some(W.RevisionConflict(row.revision))
      else if r.Update? && r.update.cadence != row.cadence then Some(W.InvalidData)
      else if !r.Delete? && r.faults.load then Some(W.StorageFault)
      else if r.Update? && r.id !in store.configurations then Some(W.StorageFault)
      else if row.revision >= I64_MAX then Some(W.RevisionOverflow)
      else if !r.Delete? && r.faults.rowWrite then Some(W.StorageFault)
      else None
  }

  /** The row as its caller asked for it: nothing else of it changes. */
  function Wanted(row: BudgetRow, r: Request): BudgetRow {
    match r
    case Update(_, u, _) => row.(name := u.name, settings := u.settings, revision := row.revision + 1)
    case SetPaused(_, _, paused, _) => row.(paused := paused, revision := row.revision + 1)
    case Delete(_, _, deletedAt) => row.(deletedAt := Some(deletedAt), revision := row.revision + 1)
  }

  /** The mutation that every request asks for: refused, already done, or the wanted row and what follows it. */
  function Perform(store: Store, r: Request): Outcome {
    var refusal := Refusal(store, r);
    if refusal.Some? then Fail(store, refusal.value)
    else if Tombstoned(store, r.id) then W.Outcome(store, W.Done(Deleted))
    else
      var row := Wanted(store.budgets[r.id], r);
      var written := store.(budgets := store.budgets[r.id := row]);
      match r
      case Delete(_, _, _) => W.Outcome(written, W.Done(Deleted))
      case SetPaused(_, _, _, f) =>
        if f.after then Fail(written, W.StorageFault) else W.Outcome(written, W.Done(AtRevision(row.revision)))
      case Update(id, u, f) => Configure(written, id, u, f, row.revision)
  }

  /** What follows the row write: the current configuration and the timeline, when the configuration changed. */
  function Configure(written: Store, id: Id, u: BudgetUpdate, f: Faults, revision: int): Outcome
    requires id in written.configurations
  {
    if !ConfigurationChanged(written.configurations[id], u) then
      if f.after then Fail(written, W.StorageFault) else W.Outcome(written, W.Done(AtRevision(revision)))
    else if f.configurationWrite then Fail(written, W.StorageFault)
    else
      var configured := written.(configurations :=
        written.configurations[id := Configuration(u.categoryIds, u.settings)]);
      if f.reconcile then Fail(configured, W.StorageFault)
      else
        var reconciled := configured.(configurations := f.reconciled(configured.configurations));
        if f.after then Fail(reconciled, W.StorageFault) else W.Outcome(reconciled, W.Done(AtRevision(revision)))
  }

  function Job(r: Request): Store -> Outcome {
    (store: Store) => Perform(store, r)
  }

  // ----- What a mutation promises its caller -----

  /** Only a changed configuration may have the configurations rewritten. */
  predicate KeepsConfigurations(store: Store, r: Request) {
    r.Update? ==> r.id in store.configurations && !ConfigurationChanged(store.configurations[r.id], r.update)
  }

  predicate OtherRowsKept(before: Store, after: Store, id: Id) {
    after.budgets.Keys == before.budgets.Keys
    && forall k :: k in before.budgets && k != id ==> after.budgets[k] == before.budgets[k]
  }

  /** The request found its budget live at the revision it expected, and gave it the row its caller asked for,
      one revision on. */
  predicate TookEffect(before: Store, after: Store, r: Request) {
    && IsLive(before, r.id) && before.budgets[r.id].revision == Expected(r) < I64_MAX
    && OtherRowsKept(before, after, r.id) && after.budgets[r.id] == Wanted(before.budgets[r.id], r)
    && (KeepsConfigurations(before, r) ==> after.configurations == before.configurations)
  }

  predicate RepeatsDelete(before: Store, after: Store, r: Request) {
    r.Delete? && after == before && Tombstoned(before, r.id)
  }

  /** The budget is live, at another revision than the caller expects. */
  predicate MeetsConflict(store: Store, r: Request) {
    && IsLive(store, r.id) && store.budgets[r.id].revision != Expected(r)
    && (if r.Update? then !r.faults.before else Expected(r) >= 0)
  }

  /** Nothing the caller controls stands in the way. */
  predicate Admissible(store: Store, r: Request) {
    && IsLive(store, r.id) && 0 <= Expected(r) == store.budgets[r.id].revision < I64_MAX
    && (r.Update? ==> r.update.cadence == store.budgets[r.id].cadence && r.id in store.configurations)
  }

  predicate StorageWorks(r: Request) {
    r.Delete? || !(r.faults.before || r.faults.load || r.faults.rowWrite || r.faults.configurationWrite
                   || r.faults.reconcile || r.faults.after)
  }

  /** Success means that the mutation took effect, or repeated a delete. An admissible request succeeds unless storage
      fails, and a conflict reports the revision it met. Any failure but a storage fault leaves everything as it was,
      and even that one leaves the other budgets alone. */
  predicate Honours(before: Store, r: Request, after: Store, reply: W.Reply<Answer>) {
    && (reply.Done? ==> TookEffect(before, after, r) || RepeatsDelete(before, after, r))
    && (reply.Done? && !r.Delete? ==> reply.value == AtRevision(Expected(r) + 1))
    && (Admissible(before, r) && StorageWorks(r) ==> reply.Done?)
    && (reply.Failed? && reply.error != W.JobFailed(W.StorageFault) ==> after == before)
    && OtherRowsKept(before, after, r.id)
    && (MeetsConflict(before, r) ==>
          reply == W.Failed(W.JobFailed(W.RevisionConflict(before.budgets[r.id].revision))))
    && (reply.Failed? && reply.error.JobFailed? && reply.error.failure.RevisionConflict? ==> MeetsConflict(before, r))
  }

  lemma PerformHonours(store: Store, r: Request)
    ensures Honours(store, r, Perform(store, r).db, Perform(store, r).reply)
  {
  }

  /** The stored row after a mutation that took effect, field by field, and the configurations beside it. */
  predicate StoredAsAsked(before: Store, r: Request, after: Store)
    requires r.id in before.budgets && r.id in after.budgets
  {
    var a, b := before.budgets[r.id], after.budgets[r.id];
    && b.revision == a.revision + 1 && b.cadence == a.cadence
    && match r
       case SetPaused(_, _, paused, _) =>
         && b.paused == paused && b.name == a.name && b.settings == a.settings && b.deletedAt == a.deletedAt
         && after.configurations == before.configurations
       case Delete(_, _, deletedAt) =>
         && b.deletedAt == Some(deletedAt) && b.name == a.name && b.settings == a.settings && b.paused == a.paused
         && after.configurations == before.configurations
       case Update(id, u, f) =>
         && b.name == u.name && b.settings == u.settings && b.paused == a.paused && b.deletedAt == a.deletedAt
         && id in before.configurations
         && var wanted := Configuration(u.categoryIds, u.settings);
            after.configurations == if before.configurations[id] == wanted then before.configurations
              else f.reconciled(before.configurations[id := wanted])
  }

  lemma SuccessIsStored(store: Store, r: Request)
    requires Perform(store, r).reply.Done?
    ensures r.id in store.budgets && r.id in Perform(store, r).db.budgets
    ensures if store.budgets[r.id].deletedAt == None then StoredAsAsked(store, r, Perform(store, r).db)
      else r.Delete? && Perform(store, r).db == store
  {
  }

  /** The budget is there, not deleted, and at the revision the caller expects. */
  predicate MeetsRevision(store: Store, r: Request) {
    && r.id in store.budgets && store.budgets[r.id].deletedAt == None
    && store.budgets[r.id].revision == Expected(r) && (r.Update? || Expected(r) >= 0)
  }

  /** The caller changes the cadence, which is refused. */
  predicate ChangesCadence(store: Store, r: Request)
    requires r.id in store.budgets
  {
    r.Update? && r.update.cadence != store.budgets[r.id].cadence
  }

  /** Why a request is refused, when storage does not fail first. */
  lemma RefusalReasons(store: Store, r: Request)
    requires StorageWorks(r)
    ensures Expected(r) < 0 && !r.Update? ==> Perform(store, r) == Fail(store, W.InvalidData)
    ensures r.id !in store.budgets && (r.Update? || Expected(r) >= 0) ==> Perform(store, r) == Fail(store, W.NotFound)
    ensures r.id in store.budgets && store.budgets[r.id].deletedAt != None && !r.Delete? ==>
      Perform(store, r).reply in {W.Failed(W.JobFailed(W.NotFound)), W.Failed(W.JobFailed(W.InvalidData))}
    ensures MeetsRevision(store, r) && ChangesCadence(store, r) ==> Perform(store, r) == Fail(store, W.InvalidData)
    ensures MeetsRevision(store, r) && !ChangesCadence(store, r) && Expected(r) == 0x7FFF_FFFF_FFFF_FFFF ==>
      Perform(store, r)
        == Fail(store, if r.Update? && r.id !in store.configurations then W.StorageFault else W.RevisionOverflow)
  {
  }

  // ----- The mutations in place -----

  class BudgetTable {
    var budgets: map<Id, BudgetRow>
    var configurations: map<Id, Configuration>

    ghost function View(): Store
      reads this
    {
      Store(budgets, configurations)
    }

    method SetBudgetPaused(id: Id, expected: int, paused: bool, f: Faults) returns (reply: W.Reply<Answer>)
      modifies this
      ensures Honours(old(View()), SetPaused(id, expected, paused, f), View(), reply)
      ensures W.Outcome(View(), reply) == Perform(old(View()), SetPaused(id, expected, paused, f))
    {
      PerformHonours(View(), SetPaused(id, expected, paused, f));
      if expected < 0 { return W.Failed(W.JobFailed(W.InvalidData)); }
      if id !in budgets || budgets[id].deletedAt.Some? { return W.Failed(W.JobFailed(W.NotFound)); }
      var stored := budgets[id];
      if stored.revision != expected { return W.Failed(W.JobFailed(W.RevisionConflict(stored.revision))); }
      if f.load { return W.Failed(W.JobFailed(W.StorageFault)); }
      if stored.revision >= I64_MAX { return W.Failed(W.JobFailed(W.RevisionOverflow)); }
      if f.rowWrite { return W.Failed(W.JobFailed(W.StorageFault)); }
      budgets := budgets[id := stored.(paused := paused, revision := stored.revision + 1)];
      if f.after { return W.Failed(W.JobFailed(W.StorageFault)); }
      reply := W.Done(AtRevision(stored.revision + 1));
    }

    method DeleteBudget(id: Id, expected: int, deletedAt: nat) returns (reply: W.Reply<Answer>)
      modifies this
      ensures Honours(old(View()), Delete(id, expected, deletedAt), View(), reply)
      ensures W.Outcome(View(), reply) == Perform(old(View()), Delete(id, expected, deletedAt))
    {
      PerformHonours(View(), Delete(id, expected, deletedAt));
      if expected < 0 { return W.Failed(W.JobFailed(W.InvalidData)); }
      if id !in budgets { return W.Failed(W.JobFailed(W.NotFound)); }
      var stored := budgets[id];
      if stored.deletedAt.Some? { return W.Done(Deleted); }
      if stored.revision != expected { return W.Failed(W.JobFailed(W.RevisionConflict(stored.revision))); }
      if stored.revision >= I64_MAX { return W.Failed(W.JobFailed(W.RevisionOverflow)); }
      budgets := budgets[id := stored.(deletedAt := Some(deletedAt), revision := stored.revision + 1)];
      reply := W.Done(Deleted);
    }

    method UpdateBudget(id: Id, u: BudgetUpdate, f: Faults) returns (reply: W.Reply<Answer>)
      modifies this
      ensures Honours(old(View()), Update(id, u, f), View(), reply)
      ensures W.Outcome(View(), reply) == Perform(old(View()), Update(id, u, f))
    {
      PerformHonours(View(), Update(id, u, f));
      if f.before { return W.Failed(W.JobFailed(W.StorageFault)); }
      if id !in budgets || budgets[id].deletedAt.Some? { return W.Failed(W.JobFailed(W.NotFound)); }
      var stored := budgets[id];
      if stored.revision != u.expectedRevision { return W.Failed(W.JobFailed(W.RevisionConflict(stored.revision))); }
      if u.cadence != stored.cadence { return W.Failed(W.JobFailed(W.InvalidData)); }
      if f.load || id !in configurations { return W.Failed(W.JobFailed(W.StorageFault)); }
      var changed := ConfigurationChanged(configurations[id], u);
      if stored.revision >= I64_MAX { return W.Failed(W.JobFailed(W.RevisionOverflow)); }
      if f.rowWrite { return W.Failed(W.JobFailed(W.StorageFault)); }
      budgets := budgets[id := stored.(name := u.name, settings := u.settings, revision := stored.revision + 1)];
      if changed {
        if f.configurationWrite { return W.Failed(W.JobFailed(W.StorageFault)); }
        configurations := configurations[id := Configuration(u.categoryIds, u.settings)];
        if f.reconcile { return W.Failed(W.JobFailed(W.StorageFault)); }
        configurations := f.reconciled(configurations);
      }
      if f.after { return W.Failed(W.JobFailed(W.StorageFault)); }
      reply := W.Done(AtRevision(stored.revision + 1));
    }
  }

  // ----- One job through the writer -----

  /** Budget jobs are transactional and carry no injected failure. */
  function MessageFor(caller: nat, r: Request): W.Message<Store, Answer> {
    W.Message(caller, Job(r), true, false)
  }

  function Executed(store: Store, caller: nat, r: Request, w: W.Weather): Outcome {
    W.Execute(store, MessageFor(caller, r), w)
  }

  /** A failed reply means nothing at all changed, even when the job failed after its row write. A successful one
      means the mutation took effect, or was a repeated delete, which changes nothing. */
  lemma EffectOrNothing(store: Store, caller: nat, r: Request, w: W.Weather)
    ensures var o := Executed(store, caller, r, w);
      && (o.reply.Failed? ==> o.db == store)
      && (o.reply.Done? ==>
        TookEffect(store, o.db, r) || (r.Delete? && o.db == store && r.id in store.budgets && !IsLive(store, r.id)))
  {
    var m := MessageFor(caller, r);
    W.FailedTransactionalJob(store, m, w);
  }

  /** Deleting a deleted budget succeeds, whatever revision it expects, and keeps the tombstone. */
  lemma RepeatedDelete(store: Store, caller: nat, r: Request, w: W.Weather)
    requires r.Delete? && r.expected >= 0 && r.id in store.budgets && !IsLive(store, r.id)
    requires !w.beginFails && !w.commitFails
    ensures Executed(store, caller, r, w) == W.Outcome(store, W.Done(Deleted))
  {
  }

  // ----- Whole runs -----

  type Log = seq<W.Executed<Store, Answer>>

  /** Every executed message is the budget job its caller asked for. */
  ghost predicate IsBudgetLog(log: Log, requests: map<nat, Request>) {
    forall i :: 0 <= i < |log| ==>
      log[i].message.caller in requests
        && log[i].message == MessageFor(log[i].message.caller, requests[log[i].message.caller])
  }

  ghost predicate Changes(store: Store, log: Log, id: Id)
    requires log != []
  {
    var before, after := W.Replay(store, log[..|log| - 1]), W.Replay(store, log);
    id in before.budgets && (id !in after.budgets || before.budgets[id] != after.budgets[id])
  }

  /** The revisions expected by the mutations that changed the budget, in execution order. */
  ghost function EffectiveRevisions(store: Store, log: Log, requests: map<nat, Request>, id: Id): seq<int>
    requires IsBudgetLog(log, requests)
  {
    if log == [] then []
    else
      var earlier := EffectiveRevisions(store, log[..|log| - 1], requests, id);
      if Changes(store, log, id) then earlier + [Expected(requests[log[|log| - 1].message.caller])] else earlier
  }

  function Chain(start: int, n: nat): seq<int> {
    seq(n, i => start + i)
  }

  /** What the last job of a log did to one budget. */
  lemma LastEffect(store: Store, log: Log, requests: map<nat, Request>, id: Id)
    requires log != [] && IsBudgetLog(log, requests) && id in W.Replay(store, log[..|log| - 1]).budgets
    ensures id in W.Replay(store, log).budgets
    ensures var before, after, r := W.Replay(store, log[..|log| - 1]), W.Replay(store, log),
      requests[log[|log| - 1].message.caller];
      if Changes(store, log, id) then r.id == id && TookEffect(before, after, r)
      else after.budgets[id] == before.budgets[id]
  {
    var e := log[|log| - 1];
    EffectOrNothing(W.Replay(store, log[..|log| - 1]), e.message.caller, requests[e.message.caller], e.weather);
  }

  lemma LastRevision(store: Store, log: Log, requests: map<nat, Request>, id: Id)
    requires log != [] && IsBudgetLog(log, requests) && id in W.Replay(store, log[..|log| - 1]).budgets
    ensures id in W.Replay(store, log).budgets
    ensures var before, after := W.Replay(store, log[..|log| - 1]).budgets[id].revision,
      W.Replay(store, log).budgets[id].revision;
      if Changes(store, log, id) then Expected(requests[log[|log| - 1].message.caller]) == before && after == before + 1
      else after == before
  {
    LastEffect(store, log, requests, id);
  }

  lemma ChainGrows(start: int, n: nat)
    ensures Chain(start, n + 1) == Chain(start, n) + [start + n]
  {
  }

  /** The mutations that changed a budget form a gap-free chain from its first revision, so no revision was
      spent twice, and the stored revision counts them. */
  lemma {:induction false} RevisionsChain(store: Store, log: Log, requests: map<nat, Request>, id: Id)
    requires IsBudgetLog(log, requests) && id in store.budgets
    ensures id in W.Replay(store, log).budgets
    ensures var spent := EffectiveRevisions(store, log, requests, id);
      && spent == Chain(store.budgets[id].revision, |spent|)
      && W.Replay(store, log).budgets[id].revision == store.budgets[id].revision + |spent|
    decreases |log|
  {
    if log != [] {
      var init := log[..|log| - 1];
      RevisionsChain(store, init, requests, id);
      var spent := EffectiveRevisions(store, init, requests, id);
      ChainGrows(store.budgets[id].revision, |spent|);
      LastRevision(store, log, requests, id);
    }
  }

  /** A tombstone keeps its timestamp, and the deleted row never changes again. */
  lemma {:induction false} TombstoneForever(store: Store, log: Log, requests: map<nat, Request>, id: Id, k: nat)
    requires IsBudgetLog(log, requests) && k <= |log|
    requires id in W.Replay(store, log[..k]).budgets && W.Replay(store, log[..k]).budgets[id].deletedAt.Some?
    ensures id in W.Replay(store, log).budgets
    ensures W.Replay(store, log).budgets[id] == W.Replay(store, log[..k]).budgets[id]
    decreases |log|
  {
    if k == |log| {
      assert log[..k] == log;
    } else {
      var init := log[..|log| - 1];
      assert init[..k] == log[..k];
      TombstoneForever(store, init, requests, id, k);
      LastEffect(store, log, requests, id);
    }
  }

  type Action = W.Action<Store, Answer>

  /** Every call hands the writer the budget job its caller asked for. */
  ghost predicate OnlyBudgetCalls(actions: seq<Action>, requests: map<nat, Request>) {
    forall i :: 0 <= i < |actions| && actions[i].Call? ==> IsBudgetMessage(requests, actions[i].message)
  }

  ghost predicate IsBudgetMessage(requests: map<nat, Request>, m: W.Message<Store, Answer>) {
    m.caller in requests && m == MessageFor(m.caller, requests[m.caller])
  }

  lemma RunLogsBudgetJobs(store: Store, capacity: nat, actions: seq<Action>, requests: map<nat, Request>)
    requires OnlyBudgetCalls(actions, requests)
    ensures var s := W.Run(W.Init(store, capacity), actions);
      IsBudgetLog(s.executed, requests) && s.db == W.Replay(store, s.executed)
  {
    var s := W.Run(W.Init<Store, Answer>(store, capacity), actions);
    W.WriterRuns(store, capacity, actions);
    W.AcceptedWereCalled(W.Init(store, capacity), actions, m => IsBudgetMessage(requests, m));
    forall i | 0 <= i < |s.executed|
      ensures IsBudgetMessage(requests, s.executed[i].message)
    {
      assert s.accepted[i] == s.executed[i].message;
    }
  }

  /** Any run of the writer over budget jobs, whatever is queued, aborted, retried or rolled back. */
  lemma WriterKeepsRevisionChain(store: Store, capacity: nat, actions: seq<Action>, requests: map<nat, Request>, id: Id)
    requires OnlyBudgetCalls(actions, requests) && id in store.budgets
    ensures var s := W.Run(W.Init(store, capacity), actions);
      && IsBudgetLog(s.executed, requests) && id in s.db.budgets
      && var spent := EffectiveRevisions(store, s.executed, requests, id);
         spent == Chain(store.budgets[id].revision, |spent|)
         && s.db.budgets[id].revision == store.budgets[id].revision + |spent|
  {
    RunLogsBudgetJobs(store, capacity, actions, requests);
    RevisionsChain(store, W.Run(W.Init<Store, Answer>(store, capacity), actions).executed, requests, id);
  }

  /** Once a budget is deleted, no continuation of the run changes its row or its timestamp. */
  lemma WriterKeepsTombstones(
    store: Store, capacity: nat, actions: seq<Action>, more: seq<Action>, requests: map<nat, Request>, id: Id)
    requires OnlyBudgetCalls(actions, requests) && OnlyBudgetCalls(more, requests)
    requires var s := W.Run(W.Init(store, capacity), actions); id in s.db.budgets && s.db.budgets[id].deletedAt.Some?
    ensures var s, t := W.Run(W.Init(store, capacity), actions), W.Run(W.Init(store, capacity), actions + more);
      id in t.db.budgets && t.db.budgets[id] == s.db.budgets[id]
  {
    var start := W.Init<Store, Answer>(store, capacity);
    var s, t := W.Run(start, actions), W.Run(start, actions + more);
    RunLogsBudgetJobs(store, capacity, actions, requests);
    RunLogsBudgetJobs(store, capacity, actions + more, requests);
    W.RunAppend(start, actions, more);
    W.ExecutedGrows(s, more);
    assert t.executed[..|s.executed|] == s.executed;
    TombstoneForever(store, t.executed, requests, id, |s.executed|);
  }
}

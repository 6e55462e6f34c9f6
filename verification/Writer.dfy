/** The single database writer: a bounded first-in first-out queue, one executing thread, and its callers. */
module Writer {

  datatype JobFailure = NotFound | InvalidData | RevisionConflict(current: int) | RevisionOverflow | StorageFault

  datatype Error =
    | JobFailed(failure: JobFailure) | TransactionFailed | InjectedAfterCommit | WriterStopped | ReplyDropped
  datatype Reply<+V> = Done(value: V) | Failed(error: Error)

  /** What a job leaves in the database, and what it answers. */
  datatype Outcome<+DB, +V> = Outcome(db: DB, reply: Reply<V>)

  datatype Message<!DB, !V> = Message(
    caller: nat, job: DB -> Outcome<DB, V>, transactional: bool, injectAfterCommit: bool)

  /** What the environment decides about one execution. */
  datatype Weather = Weather(beginFails: bool, commitFails: bool, failpointHit: bool)

  datatype Executed<!DB, !V> = Executed(message: Message<DB, V>, weather: Weather, reply: Reply<V>)

  datatype Caller<!DB, !V> =
    | Sending(message: Message<DB, V>)  // holds its message until there is room
    | Waiting                           // accepted, awaiting the reply
    | Answered(reply: Reply<V>)
    | Rejected                          // the channel was closed
    | Aborted

  datatype State<!DB, !V> = State(
    db: DB, capacity: nat, queue: seq<Message<DB, V>>, stopped: bool, callers: map<nat, Caller<DB, V>>,
    accepted: seq<Message<DB, V>>, executed: seq<Executed<DB, V>>)

  datatype Action<!DB, !V> =
    | Call(id: nat, message: Message<DB, V>)
    | TrySend(id: nat)
    | ExecuteNext(weather: Weather)
    | Stop
    | Abort(id: nat)

  // ----- One execution -----

  /** An immediate transaction keeps the job's changes only if it begins, the job succeeds and it commits. */
  function InTransaction<DB, V>(db: DB, o: Outcome<DB, V>, w: Weather): Outcome<DB, V> {
    if w.beginFails then Outcome(db, Failed(TransactionFailed))
    else if o.reply.Failed? then Outcome(db, o.reply)
    else if w.commitFails then Outcome(db, Failed(TransactionFailed))
    else o
  }

  function AfterCommit<V>(reply: Reply<V>, inject: bool, hit: bool): Reply<V> {
    if inject && reply.Done? && hit then Failed(InjectedAfterCommit) else reply
  }

  function Execute<DB, V>(db: DB, m: Message<DB, V>, w: Weather): Outcome<DB, V> {
    var o := m.job(db);
    var result := if m.transactional then InTransaction(db, o, w) else o;
    Outcome(result.db, AfterCommit(result.reply, m.injectAfterCommit, w.failpointHit))
  }

  /** A job that fails inside its transaction leaves the database as it found it, and a failed reply means no
      change unless the failure was injected after the commit. */
  lemma FailedTransactionalJob<DB, V>(db: DB, m: Message<DB, V>, w: Weather)
    requires m.transactional
    ensures m.job(db).reply.Failed? ==> Execute(db, m, w).db == db && Execute(db, m, w).reply.Failed?
    ensures Execute(db, m, w).reply.Failed? && !m.injectAfterCommit ==> Execute(db, m, w).db == db
    ensures Execute(db, m, w).reply.Done? ==> Execute(db, m, w) == m.job(db)
  {
  }

  /** What one execution keeps and answers, in terms of the job alone. Without a transaction all that the job did
      stays, and its reply is passed on unless a failure is injected after it. */
  lemma ExecuteMeaning<DB, V>(db: DB, m: Message<DB, V>, w: Weather)
    ensures var o, x := m.job(db), Execute(db, m, w);
      && x.db == (if KeepsJob(db, m, w) then o.db else db)
      && (!m.transactional || !(w.beginFails || w.commitFails) ==>
            x.reply == if o.reply.Done? && m.injectAfterCommit && w.failpointHit
                       then Failed(InjectedAfterCommit) else o.reply)
      && (x.reply.Done? ==> KeepsJob(db, m, w) && x.reply == o.reply)
  {
  }

  /** The job ran without a transaction, or its transaction began, succeeded and committed. */
  predicate KeepsJob<DB, V>(db: DB, m: Message<DB, V>, w: Weather) {
    !m.transactional || (!w.beginFails && !w.commitFails && m.job(db).reply.Done?)
  }

  // ----- The step system -----

  ghost function Init<DB, V>(db: DB, capacity: nat): State<DB, V> {
    State(db, capacity, [], false, map[], [], [])
  }

  /** One step; an action that is not enabled changes nothing. */
  ghost function Step<DB, V>(s: State<DB, V>, a: Action<DB, V>): State<DB, V> {
    match a
    case Call(id, m) =>
      if id in s.callers || m.caller != id then s else s.(callers := s.callers[id := Sending(m)])
    case TrySend(id) =>
      if id !in s.callers || !s.callers[id].Sending? then s
      else if s.stopped then s.(callers := s.callers[id := Rejected])
      else if |s.queue| < s.capacity then
        var m := s.callers[id].message;
        s.(queue := s.queue + [m], accepted := s.accepted + [m], callers := s.callers[id := Waiting])
      else s
    case ExecuteNext(w) =>
      if s.stopped || s.queue == [] then s
      else
        var m := s.queue[0];
        var o := Execute(s.db, m, w);
        s.(db := o.db, queue := s.queue[1..], executed := s.executed + [Executed(m, w, o.reply)],
           callers := Deliver(s.callers, m.caller, o.reply))
    case Stop =>
      if s.stopped then s else s.(stopped := true, callers := DropReplies(s.callers))
    case Abort(id) =>
      if id in s.callers && (s.callers[id].Sending? || s.callers[id].Waiting?)
      then s.(callers := s.callers[id := Aborted]) else s
  }

  /** A reply reaches its caller if it still waits; sending to a dropped receiver is ignored. */
  function Deliver<DB, V>(callers: map<nat, Caller<DB, V>>, id: nat, reply: Reply<V>): map<nat, Caller<DB, V>> {
    if id in callers && callers[id].Waiting? then callers[id := Answered(reply)] else callers
  }

  function DropReplies<DB, V>(callers: map<nat, Caller<DB, V>>): map<nat, Caller<DB, V>> {
    map id | id in callers :: if callers[id].Waiting? then Answered(Failed(ReplyDropped)) else callers[id]
  }

  ghost function Run<DB, V>(s: State<DB, V>, actions: seq<Action<DB, V>>): State<DB, V>
    decreases |actions|
  {
    if actions == [] then s else Run(Step(s, actions[0]), actions[1..])
  }

  // ----- Invariants of every run -----

  ghost function Messages<DB, V>(executed: seq<Executed<DB, V>>): (ms: seq<Message<DB, V>>)
    ensures |ms| == |executed| && forall i :: 0 <= i < |ms| ==> ms[i] == executed[i].message
  {
    seq(|executed|, i requires 0 <= i < |executed| => executed[i].message)
  }

  /** The database after executing the log one message at a time. */
  ghost function Replay<DB, V>(db: DB, log: seq<Executed<DB, V>>): DB {
    if log == [] then db
    else Execute(Replay(db, log[..|log| - 1]), log[|log| - 1].message, log[|log| - 1].weather).db
  }

  /** Each logged reply is what sequential execution gives at that point. */
  ghost predicate RepliesSequential<DB, V>(db: DB, log: seq<Executed<DB, V>>) {
    forall i :: 0 <= i < |log| ==> log[i].reply == Execute(Replay(db, log[..i]), log[i].message, log[i].weather).reply
  }

  ghost predicate Sequential<DB, V>(db: DB, s: State<DB, V>) {
    && s.accepted == Messages(s.executed) + s.queue
    && |s.queue| <= s.capacity
    && s.db == Replay(db, s.executed) && RepliesSequential(db, s.executed)
  }

  ghost predicate DistinctCallers<DB, V>(ms: seq<Message<DB, V>>) {
    forall i, j :: 0 <= i < j < |ms| ==> ms[i].caller != ms[j].caller
  }

  /** What each caller knows agrees with the log, and no caller is accepted twice. */
  ghost predicate Accounted<DB, V>(s: State<DB, V>) {
    && s.accepted == Messages(s.executed) + s.queue
    && DistinctCallers(s.accepted)
    && (forall i :: 0 <= i < |s.accepted| ==> s.accepted[i].caller in s.callers)
    && (forall id :: id in s.callers ==> CallerAccounted(s, id, s.callers[id]))
  }

  ghost predicate IsAccepted<DB, V>(s: State<DB, V>, id: nat) {
    exists i :: 0 <= i < |s.accepted| && s.accepted[i].caller == id
  }

  ghost predicate IsQueued<DB, V>(s: State<DB, V>, id: nat) {
    exists i :: 0 <= i < |s.queue| && s.queue[i].caller == id
  }

  ghost predicate CallerAccounted<DB, V>(s: State<DB, V>, id: nat, c: Caller<DB, V>) {
    match c
    case Sending(m) => m.caller == id && !IsAccepted(s, id)
    case Rejected => !IsAccepted(s, id) && s.stopped
    case Waiting => !s.stopped && IsQueued(s, id)
    case Answered(reply) =>
      || (exists i :: 0 <= i < |s.executed| && s.executed[i].message.caller == id && s.executed[i].reply == reply)
      || (s.stopped && IsQueued(s, id) && reply == Failed(ReplyDropped))
    case Aborted => true
  }

  lemma ReplayAppend<DB, V>(db: DB, log: seq<Executed<DB, V>>, e: Executed<DB, V>)
    requires RepliesSequential(db, log)
    requires e.reply == Execute(Replay(db, log), e.message, e.weather).reply
    ensures Replay(db, log + [e]) == Execute(Replay(db, log), e.message, e.weather).db
    ensures RepliesSequential(db, log + [e])
  {
    var next := log + [e];
    assert next[..|log|] == log;
    forall i | 0 <= i < |next|
      ensures next[i].reply == Execute(Replay(db, next[..i]), next[i].message, next[i].weather).reply
    {
      if i < |log| { assert next[..i] == log[..i]; }
    }
  }

  /** Executing the head of the queue moves it to the end of the log. */
  lemma HeadMoves<DB, V>(log: seq<Executed<DB, V>>, queue: seq<Message<DB, V>>, e: Executed<DB, V>)
    requires queue != [] && e.message == queue[0]
    ensures Messages(log + [e]) + queue[1..] == Messages(log) + queue
  {
    assert Messages(log + [e]) == Messages(log) + [e.message];
    assert [e.message] + queue[1..] == queue;
  }

  lemma SequentialStep<DB, V>(db: DB, s: State<DB, V>, a: Action<DB, V>)
    requires Sequential(db, s)
    ensures Sequential(db, Step(s, a))
  {
    if a.ExecuteNext? && !s.stopped && s.queue != [] {
      var m := s.queue[0];
      var e := Executed(m, a.weather, Execute(s.db, m, a.weather).reply);
      ReplayAppend(db, s.executed, e);
      HeadMoves(s.executed, s.queue, e);
    } else if a.TrySend? && Step(s, a).queue != s.queue {
      var m := s.callers[a.id].message;
      assert s.accepted + [m] == Messages(s.executed) + (s.queue + [m]);
    }
  }

  /** Every run refines a sequential one: the accepted messages are the executed ones followed by the queue, the
      queue stays within its capacity, and database and replies are those of executing the log one by one. */
  lemma {:induction false} RunIsSequential<DB, V>(db: DB, s: State<DB, V>, actions: seq<Action<DB, V>>)
    requires Sequential(db, s)
    ensures Sequential(db, Run(s, actions))
    decreases |actions|
  {
    if actions != [] {
      SequentialStep(db, s, actions[0]);
      RunIsSequential(db, Step(s, actions[0]), actions[1..]);
    }
  }

  predicate RolledBack<DB, V>(e: Executed<DB, V>) {
    e.message.transactional && !e.message.injectAfterCommit && e.reply.Failed?
  }

  /** The log without the transactions that failed. */
  ghost function Lasting<DB, V>(log: seq<Executed<DB, V>>): seq<Executed<DB, V>> {
    if log == [] then []
    else Lasting(log[..|log| - 1]) + (if RolledBack(log[|log| - 1]) then [] else [log[|log| - 1]])
  }

  /** Failed transactions leave no trace: the database is what the other messages alone would have made it. */
  lemma {:induction false} FailedTransactionsLeaveNoTrace<DB, V>(db: DB, log: seq<Executed<DB, V>>)
    requires RepliesSequential(db, log)
    ensures Replay(db, Lasting(log)) == Replay(db, log)
    decreases |log|
  {
    if log != [] {
      var init, e := log[..|log| - 1], log[|log| - 1];
      assert RepliesSequential(db, init) by { assert forall i :: 0 <= i < |init| ==> init[..i] == log[..i]; }
      FailedTransactionsLeaveNoTrace(db, init);
      if RolledBack(e) {
        FailedTransactionalJob(Replay(db, init), e.message, e.weather);
        assert Lasting(init) + [] == Lasting(init);
      } else {
        assert (Lasting(init) + [e])[..|Lasting(init)|] == Lasting(init);
      }
    }
  }

  /** What the jobs of a log make of the database, one after the other. */
  ghost function Fold<DB, V>(db: DB, log: seq<Executed<DB, V>>): DB {
    if log == [] then db
    else
      var before, e := Fold(db, log[..|log| - 1]), log[|log| - 1];
      if KeepsJob(before, e.message, e.weather) then e.message.job(before).db else before
  }

  lemma {:induction false} ReplayIsFold<DB, V>(db: DB, log: seq<Executed<DB, V>>)
    ensures Replay(db, log) == Fold(db, log)
    decreases |log|
  {
    if log != [] {
      var init, e := log[..|log| - 1], log[|log| - 1];
      ReplayIsFold(db, init);
      ExecuteMeaning(Replay(db, init), e.message, e.weather);
    }
  }

  /** The log only grows. */
  lemma {:induction false} ExecutedGrows<DB, V>(s: State<DB, V>, actions: seq<Action<DB, V>>)
    ensures s.executed <= Run(s, actions).executed
    decreases |actions|
  {
    if actions != [] { ExecutedGrows(Step(s, actions[0]), actions[1..]); }
  }

  lemma AcceptedStep<DB, V>(s: State<DB, V>, id: nat)
    requires Accounted(s) && id in s.callers && s.callers[id].Sending? && !s.stopped && |s.queue| < s.capacity
    ensures Accounted(Step(s, TrySend(id)))
  {
    var t := Step(s, TrySend(id));
    var m := s.callers[id].message;
    assert CallerAccounted(s, id, s.callers[id]);
    assert s.accepted + [m] == Messages(s.executed) + (s.queue + [m]);
    assert t.queue[|s.queue|].caller == id;
    forall k | k in t.callers
      ensures CallerAccounted(t, k, t.callers[k])
    {
      if k != id {
        assert CallerAccounted(s, k, s.callers[k]);
        if IsQueued(s, k) {
          var i :| 0 <= i < |s.queue| && s.queue[i].caller == k;
          assert t.queue[i].caller == k;
        }
      }
    }
  }

  lemma QueuedBehindHead<DB, V>(s: State<DB, V>, t: State<DB, V>, k: nat)
    requires s.queue != [] && t.queue == s.queue[1..] && IsQueued(s, k) && k != s.queue[0].caller
    ensures IsQueued(t, k)
  {
    var i :| 0 <= i < |s.queue| && s.queue[i].caller == k;
    assert t.queue[i - 1].caller == k;
  }

  lemma ExecutedStep<DB, V>(s: State<DB, V>, w: Weather)
    requires Accounted(s) && !s.stopped && s.queue != []
    ensures Accounted(Step(s, ExecuteNext(w)))
  {
    var t := Step(s, ExecuteNext(w));
    var m := s.queue[0];
    var e := t.executed[|s.executed|];
    HeadMoves(s.executed, s.queue, e);
    forall k | k in t.callers
      ensures CallerAccounted(t, k, t.callers[k])
    {
      assert CallerAccounted(s, k, s.callers[k]);
      if k == m.caller && s.callers[k].Waiting? {
        assert e.message.caller == k && t.callers[k] == Answered(e.reply);
      } else if s.callers[k].Waiting? {
        QueuedBehindHead(s, t, k);
      } else if s.callers[k].Answered? {
        var i :| 0 <= i < |s.executed| && s.executed[i].message.caller == k
          && s.executed[i].reply == s.callers[k].reply;
        assert t.executed[i] == s.executed[i];
      }
    }
  }

  lemma AccountedStep<DB, V>(s: State<DB, V>, a: Action<DB, V>)
    requires Accounted(s)
    ensures Accounted(Step(s, a))
  {
    var t := Step(s, a);
    if a.TrySend? && t.queue != s.queue {
      AcceptedStep(s, a.id);
    } else if a.ExecuteNext? && !s.stopped && s.queue != [] {
      ExecutedStep(s, a.weather);
    } else {
      forall k | k in t.callers
        ensures CallerAccounted(t, k, t.callers[k])
      {
        if k in s.callers { assert CallerAccounted(s, k, s.callers[k]); }
      }
    }
  }

  lemma {:induction false} RunIsAccounted<DB, V>(s: State<DB, V>, actions: seq<Action<DB, V>>)
    requires Accounted(s)
    ensures Accounted(Run(s, actions))
    decreases |actions|
  {
    if actions != [] {
      AccountedStep(s, actions[0]);
      RunIsAccounted(Step(s, actions[0]), actions[1..]);
    }
  }

  /** The caller of every executed message has its one reply, the logged one, unless it has aborted. */
  ghost predicate EachAnswered<DB, V>(s: State<DB, V>) {
    forall i :: 0 <= i < |s.executed| ==>
      var id := s.executed[i].message.caller;
      id in s.callers && (s.callers[id].Aborted? || s.callers[id] == Answered(s.executed[i].reply))
  }

  lemma AccountedIsAnswered<DB, V>(s: State<DB, V>)
    requires Accounted(s)
    ensures EachAnswered(s)
  {
    forall i | 0 <= i < |s.executed|
      ensures var id := s.executed[i].message.caller;
        id in s.callers && (s.callers[id].Aborted? || s.callers[id] == Answered(s.executed[i].reply))
    {
      var id := s.executed[i].message.caller;
      assert s.accepted[i] == s.executed[i].message;
      assert CallerAccounted(s, id, s.callers[id]);
      assert forall j :: 0 <= j < |s.executed| && s.executed[j].message.caller == id ==> s.accepted[j].caller == id;
      assert forall j :: 0 <= j < |s.queue| ==> s.accepted[|s.executed| + j] == s.queue[j];
    }
  }

  /** From an idle writer, after any actions: the run is sequential, and every caller is accepted at most once,
      answered with exactly the reply logged for its message, and rejected only if it was never accepted. */
  lemma WriterRuns<DB, V>(db: DB, capacity: nat, actions: seq<Action<DB, V>>)
    ensures var s := Run(Init<DB, V>(db, capacity), actions);
      Sequential(db, s) && Accounted(s) && EachAnswered(s) && s.capacity == capacity && s.db == Fold(db, s.executed)
  {
    RunIsSequential(db, Init<DB, V>(db, capacity), actions);
    RunIsAccounted(Init<DB, V>(db, capacity), actions);
    AccountedIsAnswered(Run(Init<DB, V>(db, capacity), actions));
    ReplayIsFold(db, Run(Init<DB, V>(db, capacity), actions).executed);
    RunKeepsCapacity(Init<DB, V>(db, capacity), actions);
  }

  /** A running writer with room takes the message of a caller that is sending. */
  lemma RoomIsTaken<DB, V>(s: State<DB, V>, id: nat)
    requires id in s.callers && s.callers[id].Sending? && !s.stopped && |s.queue| < s.capacity
    ensures var m, t := s.callers[id].message, Step(s, TrySend(id));
      t == s.(queue := s.queue + [m], accepted := s.accepted + [m], callers := s.callers[id := Waiting])
  {
  }

  /** A new caller holds its message, and a caller that aborts while it sends or waits is the only one that changes. */
  lemma CallersComeAndGo<DB, V>(s: State<DB, V>, id: nat, m: Message<DB, V>)
    ensures id !in s.callers && m.caller == id ==> Step(s, Call(id, m)) == s.(callers := s.callers[id := Sending(m)])
    ensures id in s.callers && (s.callers[id].Sending? || s.callers[id].Waiting?) ==>
      Step(s, Abort(id)) == s.(callers := s.callers[id := Aborted])
  {
  }

  /** Stopping drops the reply of every caller that waits, and touches nothing else. */
  lemma StopDropsReplies<DB, V>(s: State<DB, V>)
    requires !s.stopped
    ensures var t := Step(s, Stop);
      && t.stopped && t.db == s.db && t.queue == s.queue && t.accepted == s.accepted && t.executed == s.executed
      && t.callers.Keys == s.callers.Keys
      && forall id :: id in s.callers ==>
           t.callers[id] == if s.callers[id].Waiting? then Answered(Failed(ReplyDropped)) else s.callers[id]
  {
  }

  /** A stopped writer accepts and executes nothing more, and turns away whoever still sends. */
  lemma {:induction false} StoppedForGood<DB, V>(s: State<DB, V>, actions: seq<Action<DB, V>>)
    requires s.stopped
    ensures var t := Run(s, actions);
      t.stopped && t.db == s.db && t.queue == s.queue && t.accepted == s.accepted && t.executed == s.executed
    ensures forall id :: id in s.callers && s.callers[id].Sending? ==>
      Step(s, TrySend(id)) == s.(callers := s.callers[id := Rejected])
    decreases |actions|
  {
    if actions != [] { StoppedForGood(Step(s, actions[0]), actions[1..]); }
  }

  function ExecuteAll<DB(!new), V(!new)>(weathers: seq<Weather>): (actions: seq<Action<DB, V>>)
    ensures |actions| == |weathers|
  {
    if weathers == [] then [] else [ExecuteNext(weathers[0])] + ExecuteAll(weathers[1..])
  }

  /** A running writer empties its queue: as many turns as there are messages execute all that was accepted, and answer
      every caller that waited. */
  lemma {:induction false} QueueDrains<DB(!new), V(!new)>(s: State<DB, V>, weathers: seq<Weather>)
    requires Accounted(s) && !s.stopped && |weathers| == |s.queue|
    ensures var t := Run(s, ExecuteAll<DB, V>(weathers));
      && t.queue == [] && t.accepted == s.accepted == Messages(t.executed)
      && forall id :: id in s.callers && s.callers[id].Waiting? ==> id in t.callers && t.callers[id].Answered?
    decreases |weathers|
  {
    if weathers == [] {
      assert Messages(s.executed) + s.queue == Messages(s.executed);
      forall id | id in s.callers ensures !s.callers[id].Waiting? {
        assert CallerAccounted(s, id, s.callers[id]);
      }
    } else {
      var actions := ExecuteAll<DB, V>(weathers);
      var t := Step(s, actions[0]);
      assert actions[1..] == ExecuteAll<DB, V>(weathers[1..]);
      ExecutedStep(s, weathers[0]);
      QueueDrains(t, weathers[1..]);
      forall id | id in s.callers && s.callers[id].Waiting?
        ensures id in Run(t, actions[1..]).callers && Run(t, actions[1..]).callers[id].Answered?
      {
        if t.callers[id].Answered? { AnsweredStays(t, actions[1..], id); }
      }
    }
  }

  lemma {:induction false} AnsweredStays<DB, V>(s: State<DB, V>, actions: seq<Action<DB, V>>, id: nat)
    requires id in s.callers && s.callers[id].Answered?
    ensures id in Run(s, actions).callers && Run(s, actions).callers[id] == s.callers[id]
    decreases |actions|
  {
    if actions != [] { AnsweredStays(Step(s, actions[0]), actions[1..], id); }
  }

  lemma {:induction false} RunKeepsCapacity<DB, V>(s: State<DB, V>, actions: seq<Action<DB, V>>)
    ensures Run(s, actions).capacity == s.capacity
    decreases |actions|
  {
    if actions != [] { RunKeepsCapacity(Step(s, actions[0]), actions[1..]); }
  }

  lemma {:induction false} RunAppend<DB, V>(s: State<DB, V>, a: seq<Action<DB, V>>, b: seq<Action<DB, V>>)
    ensures Run(s, a + b) == Run(Run(s, a), b)
    decreases |a|
  {
    if a == [] {
      assert a + b == b;
    } else {
      assert (a + b)[1..] == a[1..] + b;
      RunAppend(Step(s, a[0]), a[1..], b);
    }
  }

  /** Whatever holds of every message called in holds of every message accepted. */
  lemma {:induction false} AcceptedWereCalled<DB, V>(
    s: State<DB, V>, actions: seq<Action<DB, V>>, p: Message<DB, V> -> bool)
    requires forall i :: 0 <= i < |actions| && actions[i].Call? ==> p(actions[i].message)
    requires forall id :: id in s.callers && s.callers[id].Sending? ==> p(s.callers[id].message)
    requires forall i :: 0 <= i < |s.accepted| ==> p(s.accepted[i])
    ensures forall i :: 0 <= i < |Run(s, actions).accepted| ==> p(Run(s, actions).accepted[i])
    decreases |actions|
  {
    if actions != [] {
      var a, t := actions[0], Step(s, actions[0]);
      assert a.Call? ==> p(a.message);
      AcceptedWereCalled(t, actions[1..], p);
    }
  }

  // ----- Aborted callers -----

  /** The callers agree but for `id`, which aborted in one and is past sending in the other. */
  ghost predicate SettledButFor<DB, V>(x: map<nat, Caller<DB, V>>, y: map<nat, Caller<DB, V>>, id: nat) {
    id in y && x == y[id := Aborted] && (y[id].Waiting? || y[id].Answered? || y[id].Aborted?)
  }

  /** The states agree on everything but caller `id`, which one of them has seen abort. */
  ghost predicate SameButFor<DB, V>(x: State<DB, V>, y: State<DB, V>, id: nat) {
    x == y.(callers := x.callers) && SettledButFor(x.callers, y.callers, id)
  }

  lemma SameButForStep<DB, V>(x: State<DB, V>, y: State<DB, V>, id: nat, a: Action<DB, V>)
    requires SameButFor(x, y, id)
    ensures SameButFor(Step(x, a), Step(y, a), id)
  {
    assert forall k :: k in x.callers && k != id ==> x.callers[k] == y.callers[k];
    if a.ExecuteNext? && !x.stopped && x.queue != [] {
      DeliverKeeps(x.callers, y.callers, id, x.queue[0].caller, Execute(x.db, x.queue[0], a.weather).reply);
    } else if a.Stop? && !x.stopped {
      DropKeeps(x.callers, y.callers, id);
    } else {
      assert Step(x, a).callers == Step(y, a).callers[id := Aborted];
    }
  }

  lemma DeliverKeeps<DB, V>(x: map<nat, Caller<DB, V>>, y: map<nat, Caller<DB, V>>, id: nat, k: nat, reply: Reply<V>)
    requires SettledButFor(x, y, id)
    ensures SettledButFor(Deliver(x, k, reply), Deliver(y, k, reply), id)
  {
    assert Deliver(x, k, reply) == Deliver(y, k, reply)[id := Aborted];
  }

  lemma DropKeeps<DB, V>(x: map<nat, Caller<DB, V>>, y: map<nat, Caller<DB, V>>, id: nat)
    requires SettledButFor(x, y, id)
    ensures SettledButFor(DropReplies(x), DropReplies(y), id)
  {
    assert DropReplies(x) == DropReplies(y)[id := Aborted];
  }

  /** A caller that aborts after acceptance changes nothing for anyone else: the database, the queue, the log and
      every other caller are as if it had waited. */
  lemma {:induction false} LateAbortChangesNothing<DB, V>(
    x: State<DB, V>, y: State<DB, V>, id: nat, actions: seq<Action<DB, V>>)
    requires SameButFor(x, y, id)
    ensures SameButFor(Run(x, actions), Run(y, actions), id)
    decreases |actions|
  {
    if actions != [] {
      SameButForStep(x, y, id, actions[0]);
      LateAbortChangesNothing(Step(x, actions[0]), Step(y, actions[0]), id, actions[1..]);
    }
  }

  lemma LateAbort<DB, V>(s: State<DB, V>, id: nat, actions: seq<Action<DB, V>>)
    requires id in s.callers && s.callers[id].Waiting?
    ensures SameButFor(Run(Step(s, Abort(id)), actions), Run(s, actions), id)
  {
    LateAbortChangesNothing(Step(s, Abort(id)), s, id, actions);
  }

  /** A caller that aborts or is rejected before acceptance never runs. */
  lemma {:induction false} EarlyAbortNeverRuns<DB, V>(s: State<DB, V>, id: nat, actions: seq<Action<DB, V>>)
    requires Accounted(s) && id in s.callers && (s.callers[id].Aborted? || s.callers[id].Rejected?)
      && !IsAccepted(s, id)
    ensures !IsAccepted(Run(s, actions), id)
    decreases |actions|
  {
    if actions != [] {
      var t := Step(s, actions[0]);
      AccountedStep(s, actions[0]);
      if t.accepted != s.accepted {
        var k := actions[0].id;
        assert CallerAccounted(s, k, s.callers[k]);
      }
      EarlyAbortNeverRuns(t, id, actions[1..]);
    }
  }

  // ----- The actor -----

  datatype SendOutcome = Accepted | Full | Closed

  class WriteActor<DB(!new), V(!new)> {
    const capacity: nat
    var db: DB
    var queue: seq<Message<DB, V>>
    var stopped: bool
    var callers: map<nat, Caller<DB, V>>
    ghost var accepted: seq<Message<DB, V>>
    ghost var executed: seq<Executed<DB, V>>

    ghost function View(): State<DB, V>
      reads this
    {
      State(db, capacity, queue, stopped, callers, accepted, executed)
    }

    constructor (db: DB, capacity: nat)
      ensures View() == Init(db, capacity)
    {
      this.db, this.capacity := db, capacity;
      queue, stopped, callers := [], false, map[];
      accepted, executed := [], [];
    }

    method TrySend(message: Message<DB, V>) returns (outcome: SendOutcome)
      requires message.caller in callers && callers[message.caller] == Sending(message)
      modifies this
      ensures View() == Step(old(View()), Action.TrySend(message.caller))
      ensures outcome == if old(stopped) then Closed else if |old(queue)| < capacity then Accepted else Full
    {
      if stopped {
        callers := callers[message.caller := Rejected];
        return Closed;
      }
      if |queue| >= capacity {
        return Full;
      }
      queue, accepted := queue + [message], accepted + [message];
      callers := callers[message.caller := Waiting];
      return Accepted;
    }

    /** One turn of the writer thread: run the job, then send the reply. */
    method ExecuteNext(w: Weather)
      requires !stopped && |queue| > 0
      modifies this
      ensures View() == Step(old(View()), Action.ExecuteNext(w))
      ensures db == if KeepsJob(old(db), old(queue[0]), w) then old(queue[0]).job(old(db)).db else old(db)
      ensures queue == old(queue[1..]) && |executed| == |old(executed)| + 1
      ensures executed[|old(executed)|].message == old(queue[0])
    {
      var message := queue[0];
      queue := queue[1..];
      var result := message.job(db);
      if message.transactional {
        result := InTransaction(db, result, w);
      }
      db := result.db;
      var reply := AfterCommit(result.reply, message.injectAfterCommit, w.failpointHit);
      executed := executed + [Executed(message, w, reply)];
      callers := Deliver(callers, message.caller, reply);
    }

    method Perform(a: Action<DB, V>)
      modifies this
      ensures View() == Step(old(View()), a)
    {
      match a
      case Call(id, message) =>
        if id !in callers && message.caller == id { callers := callers[id := Sending(message)]; }
      case TrySend(id) =>
        if id in callers && callers[id].Sending? {
          var message := callers[id].message;
          if stopped { callers := callers[id := Rejected]; }
          else if |queue| < capacity {
            queue, accepted := queue + [message], accepted + [message];
            callers := callers[id := Waiting];
          }
        }
      case ExecuteNext(w) =>
        if !stopped && |queue| > 0 { ExecuteNext(w); }
      case Stop =>
        if !stopped { stopped, callers := true, DropReplies(callers); }
      case Abort(id) =>
        if id in callers && (callers[id].Sending? || callers[id].Waiting?) { callers := callers[id := Aborted]; }
    }

    method PerformAll(actions: seq<Action<DB, V>>)
      modifies this
      ensures View() == Run(old(View()), actions)
    {
      ghost var start := View();
      for i := 0 to |actions|
        invariant View() == Run(start, actions[..i])
      {
        assert actions[..i + 1] == actions[..i] + [actions[i]];
        RunAppend(start, actions[..i], [actions[i]]);
        Perform(actions[i]);
      }
      assert actions[..|actions|] == actions;
    }

    /** The synchronous sender: retries until its message is taken or the channel is closed. `others` is what the
        rest of the program does during each sleep; the call is still retrying if that schedule runs out. */
    method SendSync(message: Message<DB, V>, others: seq<seq<Action<DB, V>>>)
        returns (outcome: SendOutcome, ghost log: seq<Action<DB, V>>)
      requires Accounted(View()) && message.caller in callers && callers[message.caller] == Sending(message)
      requires forall k, i :: 0 <= k < |others| && 0 <= i < |others[k]| ==> !Concerns(others[k][i], message.caller)
      modifies this
      ensures View() == Run(old(View()), log) && Accounted(View()) && Retries(log, message.caller)
      ensures outcome == Accepted <==> IsAccepted(View(), message.caller)
      ensures outcome == Full ==>
        message.caller in callers && callers[message.caller] == Sending(message) && |log| >= |others|
    {
      ghost var start := View();
      log, outcome := [], Full;
      for k := 0 to |others|
        invariant View() == Run(start, log) && Accounted(View()) && Retries(log, message.caller)
        invariant message.caller in callers && callers[message.caller] == Sending(message)
        invariant outcome == Full && |log| >= k
      {
        RunAppend(start, log, [Action.TrySend(message.caller)]);
        AccountedStep(View(), Action.TrySend(message.caller));
        outcome := TrySend(message);
        log := log + [Action.TrySend(message.caller)];
        assert CallerAccounted(View(), message.caller, callers[message.caller]);
        if outcome != Full {
          WaitingIsAccepted(View(), message.caller);
          return;
        }
        RunAppend(start, log, others[k]);
        RunIsAccounted(View(), others[k]);
        OthersKeepSending(View(), others[k], message.caller);
        PerformAll(others[k]);
        log := log + others[k];
      }
      assert CallerAccounted(View(), message.caller, callers[message.caller]);
    }
  }

  predicate Concerns<DB, V>(a: Action<DB, V>, id: nat) {
    (a.Call? || a.TrySend? || a.Abort?) && a.id == id
  }

  /** Nothing in the log concerns the caller but its own attempts. */
  ghost predicate Retries<DB, V>(log: seq<Action<DB, V>>, id: nat) {
    forall i :: 0 <= i < |log| ==> Concerns(log[i], id) ==> log[i] == TrySend(id)
  }

  lemma WaitingIsAccepted<DB, V>(s: State<DB, V>, id: nat)
    requires Accounted(s) && id in s.callers
    ensures s.callers[id].Waiting? ==> IsAccepted(s, id)
    ensures s.callers[id].Rejected? ==> !IsAccepted(s, id)
  {
    assert CallerAccounted(s, id, s.callers[id]);
    if s.callers[id].Waiting? {
      var i :| 0 <= i < |s.queue| && s.queue[i].caller == id;
      assert s.accepted[|s.executed| + i] == s.queue[i];
    }
  }

  lemma {:induction false} OthersKeepSending<DB, V>(s: State<DB, V>, actions: seq<Action<DB, V>>, id: nat)
    requires id in s.callers && s.callers[id].Sending?
    requires forall i :: 0 <= i < |actions| ==> !Concerns(actions[i], id)
    ensures id in Run(s, actions).callers && Run(s, actions).callers[id] == s.callers[id]
    decreases |actions|
  {
    if actions != [] {
      assert !Concerns(actions[0], id);
      OthersKeepSending(Step(s, actions[0]), actions[1..], id);
    }
  }
}

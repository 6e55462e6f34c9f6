/** Which budgets the deletion of categories touches, and why the others keep their scope. */
module CategoryDeletion {
  import opened Wrappers
  import opened Ordering
  import opened CategoryImpact

  datatype DeletionImpact = DeletionImpact(idsToDelete: seq<Id>, affected: seq<Id>, blocked: seq<Id>)

  /** The ids a strategy deletes: the requested ones, and for `DeleteChildren` their children. */
  function DeletedSet(categories: Categories, requested: seq<Id>, strategy: ChildrenStrategy): set<Id> {
    Elements(requested) +
    (if strategy == DeleteChildren
     then set c | c in categories && HasParentIn(categories, c, Elements(requested)) else {})
  }

  predicate HasParentIn(categories: Categories, id: Id, ids: set<Id>) {
    ParentOf(categories, id).Some? && ParentOf(categories, id).value in ids
  }

  /** The blocking strategy refuses to delete a category with live children. */
  predicate ChildrenBlock(categories: Categories, requested: seq<Id>, strategy: ChildrenStrategy) {
    strategy == Block && exists c :: c in categories && HasParentIn(categories, c, Elements(requested))
  }

  method IdsToDelete(categories: Categories, requested: seq<Id>, strategy: ChildrenStrategy)
      returns (ids: Result<seq<Id>>)
    ensures ids.Err? <==> ChildrenBlock(categories, requested, strategy)
    ensures ids.Err? ==> ids.error == ChildrenBlockDeletion
    ensures ids.Ok? ==> Sorted(ids.value) && Elements(ids.value) == DeletedSet(categories, requested, strategy)
  {
    var sorted := SortDedup(requested);
    assert Elements(sorted) == Elements(requested);
    var children := set c | c in categories && HasParentIn(categories, c, Elements(sorted));
    if strategy == Block && children != {} {
      assert exists c :: c in children;
      return Err(ChildrenBlockDeletion);
    }
    assert forall c :: c in categories && HasParentIn(categories, c, Elements(sorted)) ==> c in children;
    if strategy == DeleteChildren {
      var all := SortedElements(Elements(sorted) + children);
      return Ok(all);
    }
    return Ok(sorted);
  }

  // ----- Analysis -----

  ghost predicate DeletionTouches(categories: Categories, mode: Mode, scope: seq<Id>, ids: set<Id>) {
    || (exists id :: id in ids && Covered(categories, Elements(scope), id))
    || (scope == [] && mode == SpendingMode
        && exists id :: id in ids && id in categories && categories[id].role == Spending)
  }

  predicate AllReadable(configurations: seq<Configuration>) {
    forall c :: 0 <= c < |configurations| ==> configurations[c].scope.Some?
  }

  predicate Readable(budgets: seq<Budget>) {
    forall b :: 0 <= b < |budgets| ==> AllReadable(budgets[b].configurations)
  }

  ghost predicate BudgetTouched(categories: Categories, budget: Budget, ids: set<Id>) {
    exists c :: 0 <= c < |budget.configurations| && budget.configurations[c].scope.Some?
      && DeletionTouches(categories, budget.mode, budget.configurations[c].scope.value, ids)
  }

  ghost function ReportedForDeletion(categories: Categories, budgets: seq<Budget>, ids: set<Id>): seq<Id> {
    if budgets == [] then []
    else
      var last := budgets[|budgets| - 1];
      ReportedForDeletion(categories, budgets[..|budgets| - 1], ids)
        + (if BudgetTouched(categories, last, ids) then [last.id] else [])
  }

  /** The current configuration `c` of budget `b` selects `id` itself. */
  ghost predicate BlocksAt(budgets: seq<Budget>, b: int, c: int, id: Id) {
    && 0 <= b < |budgets| && 0 <= c < |budgets[b].configurations|
    && budgets[b].configurations[c].periodStart == budgets[b].currentPeriodStart
    && budgets[b].configurations[c].scope.Some? && id in budgets[b].configurations[c].scope.value
  }

  ghost predicate Blocks(budgets: seq<Budget>, id: Id) {
    exists b, c :: BlocksAt(budgets, b, c, id)
  }

  method ConfigurationTouched(categories: Categories, mode: Mode, scope: seq<Id>, ids: set<Id>) returns (touched: bool)
    ensures touched <==> DeletionTouches(categories, mode, scope, ids)
  {
    touched := AnyCovered(Elements(scope), ids, categories);
    var emptyScopeTouched := scope == [] && mode == SpendingMode
      && exists id :: id in ids && id in categories && categories[id].role == Spending;
    touched := touched || emptyScopeTouched;
  }

  /** Whether a budget is touched and which ids its current configurations block, unless a scope does not parse. */
  method BudgetImpact(categories: Categories, budget: Budget, ids: set<Id>)
      returns (readable: bool, affected: bool, blocked: set<Id>)
    ensures readable <==> AllReadable(budget.configurations)
    ensures readable ==> (affected <==> BudgetTouched(categories, budget, ids))
    ensures readable ==> forall id :: id in blocked <==> id in ids && exists c :: BlocksAt([budget], 0, c, id)
  {
    affected, blocked := false, {};
    for c := 0 to |budget.configurations|
      invariant AllReadable(budget.configurations[..c])
      invariant affected <==> BudgetTouched(categories, budget.(configurations := budget.configurations[..c]), ids)
      invariant forall id :: id in blocked <==> id in ids && exists k :: 0 <= k < c && BlocksAt([budget], 0, k, id)
    {
      var configuration := budget.configurations[c];
      if configuration.scope.None? { return false, affected, blocked; }
      var scope := configuration.scope.value;
      ghost var before := blocked;
      if configuration.periodStart == budget.currentPeriodStart {
        blocked := blocked + set id | id in ids && id in scope;
      }
      assert forall id :: id in blocked <==> id in before || (id in ids && BlocksAt([budget], 0, c, id));
      var touched := ConfigurationTouched(categories, budget.mode, scope, ids);
      TouchedPrefix(categories, budget, c, ids);
      affected := affected || touched;
    }
    assert budget.configurations[..|budget.configurations|] == budget.configurations;
    readable := true;
  }

  lemma TouchedPrefix(categories: Categories, budget: Budget, c: nat, ids: set<Id>)
    requires c < |budget.configurations| && budget.configurations[c].scope.Some?
    ensures BudgetTouched(categories, budget.(configurations := budget.configurations[..c + 1]), ids) <==>
      BudgetTouched(categories, budget.(configurations := budget.configurations[..c]), ids)
      || DeletionTouches(categories, budget.mode, budget.configurations[c].scope.value, ids)
  {
    var shorter := budget.(configurations := budget.configurations[..c]);
    var longer := budget.(configurations := budget.configurations[..c + 1]);
    assert longer.configurations[c] == budget.configurations[c];
    assert forall k :: 0 <= k < c ==> longer.configurations[k] == shorter.configurations[k];
  }

  method AnalyzeDeletion(categories: Categories, budgets: seq<Budget>, requested: seq<Id>, strategy: ChildrenStrategy)
    returns (impact: Result<DeletionImpact>)
    ensures impact.Ok? ==>
      && Readable(budgets) && Sorted(impact.value.idsToDelete)
      && Elements(impact.value.idsToDelete) == DeletedSet(categories, requested, strategy)
      && impact.value.affected == ReportedForDeletion(categories, budgets, DeletedSet(categories, requested, strategy))
      && Sorted(impact.value.blocked)
      && forall id :: id in impact.value.blocked <==> id in impact.value.idsToDelete && Blocks(budgets, id)
    ensures impact == Err(ChildrenBlockDeletion) <==> ChildrenBlock(categories, requested, strategy)
    ensures impact == Err(InvalidScope) <==> !ChildrenBlock(categories, requested, strategy) && !Readable(budgets)
  {
    var ids := IdsToDelete(categories, requested, strategy);
    if ids.Err? { return Err(ids.error); }
    var deleted := Elements(ids.value);
    var affected: seq<Id>, blockedSet: set<Id> := [], {};
    for i := 0 to |budgets|
      invariant Readable(budgets[..i])
      invariant affected == ReportedForDeletion(categories, budgets[..i], deleted)
      invariant forall id :: id in blockedSet <==>
        id in deleted && exists b, c :: 0 <= b < i && BlocksAt(budgets, b, c, id)
    {
      assert budgets[..i + 1][..i] == budgets[..i];
      var readable, isAffected, blocked := BudgetImpact(categories, budgets[i], deleted);
      if !readable { return Err(InvalidScope); }
      assert forall c, id :: BlocksAt([budgets[i]], 0, c, id) <==> BlocksAt(budgets, i, c, id);
      blockedSet := blockedSet + blocked;
      if isAffected { affected := affected + [budgets[i].id]; }
    }
    assert budgets[..|budgets|] == budgets;
    var sorted := SortedElements(blockedSet);
    impact := Ok(DeletionImpact(ids.value, affected, sorted));
  }

  // ----- What an unreported deletion leaves alone -----

  /** The categories left by a deletion: a surviving child of a deleted category is promoted to a root, or keeps
      pointing at a category that is no longer there. */
  predicate IsAfterDeletion(before: Categories, after: Categories, ids: set<Id>) {
    && after.Keys == before.Keys - ids
    && (forall c :: c in after ==> after[c].role == before[c].role)
    && (forall c :: c in after ==>
      after[c].parent == before[c].parent || (after[c].parent == None && HasParentIn(before, c, ids)))
  }

  /** The live categories after the deletion: promotion detaches the children of the requested ones first. */
  function Remaining(categories: Categories, requested: seq<Id>, strategy: ChildrenStrategy): Categories {
    map c | c in categories && c !in DeletedSet(categories, requested, strategy) ::
      if strategy == Promote && HasParentIn(categories, c, Elements(requested)) then categories[c].(parent := None)
      else categories[c]
  }

  /** The parent of `c` is one of the requested categories. */
  predicate IsChildOfRequested(categories: Categories, requested: seq<Id>, c: Id) {
    c in categories && exists id :: id in requested && categories[c].parent == Some(id)
  }

  /** Which categories remain, and how. The requested ones go; their children go only under `DeleteChildren`, become
      roots under `Promote`, and all else stays as it was. */
  lemma RemainingMeaning(categories: Categories, requested: seq<Id>, strategy: ChildrenStrategy, c: Id)
    ensures var after := Remaining(categories, requested, strategy);
      var child := IsChildOfRequested(categories, requested, c);
      && (c in after <==> c in categories && c !in requested && !(strategy == DeleteChildren && child))
      && (c in after && strategy == Promote && child ==> after[c] == Category(None, categories[c].role))
      && (c in after && !(strategy == Promote && child) ==> after[c] == categories[c])
  {
    assert IsChildOfRequested(categories, requested, c) <==>
      c in categories && HasParentIn(categories, c, Elements(requested));
  }

  /** Promotion loses no child: every live category that was not requested stays, a child of a requested one as
      a root. */
  lemma PromotionKeepsChildren(categories: Categories, requested: seq<Id>, c: Id)
    requires c in categories && c !in requested
    ensures var after := Remaining(categories, requested, Promote);
      && c in after && after[c].role == categories[c].role
      && after[c].parent == if IsChildOfRequested(categories, requested, c) then None else categories[c].parent
  {
    RemainingMeaning(categories, requested, Promote, c);
  }

  lemma {:induction false} CoverageSurvives(
    before: Categories, after: Categories, ids: set<Id>, selected: set<Id>, c: Id, k: nat)
    requires IsAfterDeletion(before, after, ids) && (forall d :: d in ids ==> !Covered(before, selected, d))
      && c !in ids
    requires CoveredAt(before, selected, c, k)
    ensures Covered(after, selected, c)
    decreases k
  {
    CoveredUnfold(after, selected, c);
    if k > 0 {
      var p := ParentOf(before, c).value;
      assert CoveredAt(before, selected, p, k - 1);
      CoverageSurvives(before, after, ids, selected, p, k - 1);
    }
  }

  lemma {:induction false} NoCoverageAppears(
    before: Categories, after: Categories, ids: set<Id>, selected: set<Id>, c: Id, k: nat)
    requires IsAfterDeletion(before, after, ids) && (forall d :: d in ids ==> !Covered(before, selected, d))
      && c !in ids
    requires CoveredAt(after, selected, c, k)
    ensures Covered(before, selected, c)
    decreases k
  {
    CoveredUnfold(before, selected, c);
    if k > 0 {
      var p := ParentOf(after, c).value;
      assert CoveredAt(after, selected, p, k - 1);
      if p in ids {
        assert ParentOf(after, p) == None;
        CoveredUnfold(before, selected, p);
      } else {
        NoCoverageAppears(before, after, ids, selected, p, k - 1);
      }
    }
  }

  /** At any depth, deleting categories that were not covered changes the coverage of no surviving one. */
  lemma DeletionKeepsCoverage(before: Categories, after: Categories, ids: set<Id>, selected: set<Id>, c: Id)
    requires IsAfterDeletion(before, after, ids) && (forall d :: d in ids ==> !Covered(before, selected, d))
      && c !in ids
    ensures Covered(before, selected, c) <==> Covered(after, selected, c)
  {
    if Covered(before, selected, c) {
      var k: nat :| CoveredAt(before, selected, c, k);
      CoverageSurvives(before, after, ids, selected, c, k);
    }
    if Covered(after, selected, c) {
      var k: nat :| CoveredAt(after, selected, c, k);
      NoCoverageAppears(before, after, ids, selected, c, k);
    }
  }

  /** A budget the analysis does not report loses nothing: no deleted category was in the scope of any of its
      configurations, and every surviving one keeps its coverage. With an empty scope, which means all
      categories, a spending budget loses no spending category. */
  lemma DeletionAnalysisComplete(
    before: Categories, after: Categories, budgets: seq<Budget>, ids: set<Id>, b: nat, i: nat)
    requires IsAfterDeletion(before, after, ids)
    requires b < |budgets| && budgets[b].id !in ReportedForDeletion(before, budgets, ids)
    requires i < |budgets[b].configurations| && budgets[b].configurations[i].scope.Some?
    ensures var scope := budgets[b].configurations[i].scope.value;
      && (forall d :: d in ids ==> !Covered(before, Elements(scope), d))
      && (forall c :: c !in ids ==> (Covered(before, Elements(scope), c) <==> Covered(after, Elements(scope), c)))
      && (scope == [] && budgets[b].mode == SpendingMode ==>
            forall d :: d in ids && d in before ==> before[d].role != Spending)
  {
    var scope := budgets[b].configurations[i].scope.value;
    TouchedIsReported(before, budgets, ids, b);
    assert !DeletionTouches(before, budgets[b].mode, scope, ids);
    forall c | c !in ids ensures Covered(before, Elements(scope), c) <==> Covered(after, Elements(scope), c) {
      DeletionKeepsCoverage(before, after, ids, Elements(scope), c);
    }
  }

  /** The same for the deletion each strategy performs. */
  lemma StrategyIsComplete(
    categories: Categories, budgets: seq<Budget>, requested: seq<Id>, strategy: ChildrenStrategy, b: nat, i: nat)
    requires b < |budgets|
    requires budgets[b].id !in ReportedForDeletion(categories, budgets, DeletedSet(categories, requested, strategy))
    requires i < |budgets[b].configurations| && budgets[b].configurations[i].scope.Some?
    ensures var selected := Elements(budgets[b].configurations[i].scope.value);
      forall c :: c !in DeletedSet(categories, requested, strategy) ==>
        (Covered(categories, selected, c) <==> Covered(Remaining(categories, requested, strategy), selected, c))
  {
    DeletionAnalysisComplete(categories, Remaining(categories, requested, strategy), budgets,
      DeletedSet(categories, requested, strategy), b, i);
  }

  lemma {:induction false} TouchedIsReported(categories: Categories, budgets: seq<Budget>, ids: set<Id>, b: nat)
    requires b < |budgets|
    ensures BudgetTouched(categories, budgets[b], ids) ==>
      budgets[b].id in ReportedForDeletion(categories, budgets, ids)
    decreases |budgets|
  {
    if b < |budgets| - 1 {
      TouchedIsReported(categories, budgets[..|budgets| - 1], ids, b);
    }
  }

  /** Every budget whose current configuration blocks a deletion is also reported. */
  lemma BlockingIsReported(categories: Categories, budgets: seq<Budget>, ids: set<Id>, b: nat, c: nat, id: Id)
    requires id in ids && BlocksAt(budgets, b, c, id)
    ensures budgets[b].id in ReportedForDeletion(categories, budgets, ids)
  {
    var scope := budgets[b].configurations[c].scope.value;
    CoveredUnfold(categories, Elements(scope), id);
    assert DeletionTouches(categories, budgets[b].mode, scope, ids);
    TouchedIsReported(categories, budgets, ids, b);
  }

  /** An id is reported exactly for a budget with a touched configuration. */
  lemma {:induction false} ReportedIff(categories: Categories, budgets: seq<Budget>, ids: set<Id>, id: Id)
    ensures id in ReportedForDeletion(categories, budgets, ids) <==>
      exists b :: 0 <= b < |budgets| && budgets[b].id == id && BudgetTouched(categories, budgets[b], ids)
    decreases |budgets|
  {
    if budgets != [] {
      var init := budgets[..|budgets| - 1];
      ReportedIff(categories, init, ids, id);
      assert forall b :: 0 <= b < |init| ==> init[b] == budgets[b];
      assert budgets[|init|] == budgets[|budgets| - 1];
    }
  }

  /** Budgets are reported in the order they are loaded. */
  lemma {:induction false} ReportedAppend(categories: Categories, a: seq<Budget>, b: seq<Budget>, ids: set<Id>)
    ensures ReportedForDeletion(categories, a + b, ids)
         == ReportedForDeletion(categories, a, ids) + ReportedForDeletion(categories, b, ids)
    decreases |b|
  {
    if b == [] {
      assert a + b == a;
    } else {
      assert (a + b)[..|a + b| - 1] == a + b[..|b| - 1];
      ReportedAppend(categories, a, b[..|b| - 1], ids);
    }
  }
}

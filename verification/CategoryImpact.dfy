/** Which budgets a category update or deletion touches, and what an unreported budget may rely on. */
module CategoryImpact {
  import opened Wrappers

  type Id = string

  datatype Error = InvalidScope | ChildrenBlockDeletion
  datatype Result<+T> = Ok(value: T) | Err(error: Error)

  datatype Role = Spending | Income
  datatype Mode = SpendingMode | NetCashFlowMode
  datatype ChildrenStrategy = Block | Promote | DeleteChildren

  datatype Category = Category(parent: Option<Id>, role: Role)

  /** The live categories. */
  type Categories = map<Id, Category>

  /** A stored period configuration; the scope is `None` when its text does not parse. */
  datatype Configuration = Configuration(periodStart: int, scope: Option<seq<Id>>)
  datatype Budget = Budget(
    id: Id, name: string, mode: Mode, currentPeriodStart: int, configurations: seq<Configuration>)

  // ----- Coverage -----

  function ParentOf(categories: Categories, id: Id): Option<Id> {
    if id in categories then categories[id].parent else None
  }

  /** The `k`-th ancestor, counting the category itself as the 0-th. */
  function Ancestor(categories: Categories, id: Id, k: nat): Option<Id>
    decreases k
  {
    if k == 0 then Some(id)
    else match ParentOf(categories, id)
      case None => None
      case Some(parent) => Ancestor(categories, parent, k - 1)
  }

  ghost predicate CoveredAt(categories: Categories, selected: set<Id>, id: Id, k: nat) {
    var a := Ancestor(categories, id, k);
    a.Some? && a.value in selected
  }

  /** Some ancestor-or-self is selected. */
  ghost predicate Covered(categories: Categories, selected: set<Id>, id: Id) {
    exists k: nat :: CoveredAt(categories, selected, id, k)
  }

  lemma {:induction false} AncestorNext(categories: Categories, id: Id, k: nat)
    ensures var a := Ancestor(categories, id, k);
      Ancestor(categories, id, k + 1) == if a.None? then None else ParentOf(categories, a.value)
    decreases k
  {
    if k > 0 && ParentOf(categories, id).Some? {
      AncestorNext(categories, ParentOf(categories, id).value, k - 1);
    }
  }

  /** On a cycle every ancestor is one of those met before it closed. */
  lemma {:induction false} AncestorOnCycle(categories: Categories, id: Id, i: nat, k: nat, n: nat) returns (j: nat)
    requires i < k && Ancestor(categories, id, i) == Ancestor(categories, id, k)
    ensures j < k && Ancestor(categories, id, n) == Ancestor(categories, id, j)
    decreases n
  {
    if n < k {
      j := n;
    } else {
      j := AncestorOnCycle(categories, id, i, k, n - 1);
      AncestorNext(categories, id, n - 1);
      AncestorNext(categories, id, j);
      j := if j + 1 == k then i else j + 1;
    }
  }

  lemma {:induction false} NoAncestorAfterRoot(categories: Categories, id: Id, k: nat, n: nat)
    requires k <= n && Ancestor(categories, id, k).None?
    ensures Ancestor(categories, id, n).None?
    decreases n
  {
    if k < n {
      NoAncestorAfterRoot(categories, id, k, n - 1);
      AncestorNext(categories, id, n - 1);
    }
  }

  /** Everything the walk can visit. */
  function Reachable(categories: Categories, id: Id): set<Id> {
    {id} + set c | c in categories && categories[c].parent.Some? :: categories[c].parent.value
  }

  /** The walk up the parents with its cycle guard decides coverage for every parent map, cyclic ones and
      dangling parents included; the ids not yet visited are its measure. */
  method SelectedOrCovers(selected: set<Id>, categoryId: Id, categories: Categories) returns (covers: bool)
    ensures covers <==> Covered(categories, selected, categoryId)
  {
    var current := Some(categoryId);
    var visited: set<Id> := {};
    ghost var k: nat := 0;
    while current.Some?
      invariant current == Ancestor(categories, categoryId, k)
      invariant current.Some? ==> current.value in Reachable(categories, categoryId)
      invariant visited <= Reachable(categories, categoryId)
      invariant forall i :: 0 <= i < k ==>
        Ancestor(categories, categoryId, i).Some? && !CoveredAt(categories, selected, categoryId, i)
      invariant forall v :: v in visited ==> exists i :: 0 <= i < k && Ancestor(categories, categoryId, i) == Some(v)
      decreases Reachable(categories, categoryId) - visited, current.Some?
    {
      var id := current.value;
      if id in visited {
        ghost var i :| 0 <= i < k && Ancestor(categories, categoryId, i) == Some(id);
        forall n: nat ensures !CoveredAt(categories, selected, categoryId, n) {
          var j := AncestorOnCycle(categories, categoryId, i, k, n);
          assert !CoveredAt(categories, selected, categoryId, j);
        }
        return false;
      }
      visited := visited + {id};
      if id in selected {
        assert CoveredAt(categories, selected, categoryId, k);
        return true;
      }
      AncestorNext(categories, categoryId, k);
      current := ParentOf(categories, id);
      k := k + 1;
      assert Ancestor(categories, categoryId, k - 1) == Some(id);
    }
    forall n: nat ensures !CoveredAt(categories, selected, categoryId, n) {
      if n >= k { NoAncestorAfterRoot(categories, categoryId, k, n); }
    }
    return false;
  }

  /** A category is covered when it is selected or its parent is covered. */
  lemma CoveredUnfold(categories: Categories, selected: set<Id>, id: Id)
    ensures Covered(categories, selected, id) <==>
      id in selected
      || (ParentOf(categories, id).Some? && Covered(categories, selected, ParentOf(categories, id).value))
  {
    if Covered(categories, selected, id) {
      var k: nat :| CoveredAt(categories, selected, id, k);
      if k > 0 { assert CoveredAt(categories, selected, ParentOf(categories, id).value, k - 1); }
    }
    if id in selected { assert CoveredAt(categories, selected, id, 0); }
    var p := ParentOf(categories, id);
    if p.Some? && Covered(categories, selected, p.value) {
      var k: nat :| CoveredAt(categories, selected, p.value, k);
      assert CoveredAt(categories, selected, id, k + 1);
    }
  }

  method AnyCovered(selected: set<Id>, ids: set<Id>, categories: Categories) returns (any: bool)
    ensures any <==> exists id :: id in ids && Covered(categories, selected, id)
  {
    var rest := ids;
    while rest != {}
      invariant rest <= ids && forall id :: id in ids - rest ==> !Covered(categories, selected, id)
    {
      var id :| id in rest;
      var covers := SelectedOrCovers(selected, id, categories);
      if covers { return true; }
      rest := rest - {id};
    }
    return false;
  }

  function Elements(ids: seq<Id>): set<Id> {
    set id | id in ids
  }

  // ----- Updates -----

  /** The proposed change of one category, with its state before it. */
  datatype Change = Change(category: Id, oldParent: Option<Id>, newParent: Option<Id>, oldRole: Role, newRole: Role)

  function Children(categories: Categories, id: Id): set<Id> {
    set c | c in categories && categories[c].parent == Some(id)
  }

  /** The categories whose role the change sets: a root hands its role to its children. */
  function RoleChangedIds(categories: Categories, change: Change): set<Id> {
    {change.category} +
    (if change.oldRole != change.newRole && change.oldParent.None? && change.newParent.None?
     then Children(categories, change.category) else {})
  }

  predicate MembershipChanged(selected: set<Id>, change: Change) {
    change.oldParent != change.newParent
    && ((change.oldParent.Some? && change.oldParent.value in selected)
        || (change.newParent.Some? && change.newParent.value in selected))
  }

  ghost predicate RoleChanged(categories: Categories, mode: Mode, scope: seq<Id>, change: Change) {
    change.oldRole != change.newRole && mode == SpendingMode
    && (scope == []
        || exists id :: id in RoleChangedIds(categories, change) && Covered(categories, Elements(scope), id))
  }

  ghost predicate UpdateTouches(categories: Categories, mode: Mode, scope: seq<Id>, change: Change) {
    MembershipChanged(Elements(scope), change) || RoleChanged(categories, mode, scope, change)
  }

  /** Whether the configurations, taken in order, reach a touched one before an unreadable one. */
  ghost function UpdateTouchesAny(
    categories: Categories, mode: Mode, configurations: seq<Configuration>, change: Change): Result<bool> {
    if configurations == [] then Ok(false)
    else match configurations[0].scope
      case None => Err(InvalidScope)
      case Some(scope) =>
        if UpdateTouches(categories, mode, scope, change) then Ok(true)
        else UpdateTouchesAny(categories, mode, configurations[1..], change)
  }

  ghost function ReportedForUpdate(categories: Categories, budgets: seq<Budget>, change: Change): Result<seq<Id>> {
    if budgets == [] then Ok([])
    else
      var earlier := ReportedForUpdate(categories, budgets[..|budgets| - 1], change);
      var last := budgets[|budgets| - 1];
      if earlier.Err? then earlier
      else match UpdateTouchesAny(categories, last.mode, last.configurations, change)
        case Err(e) => Err(e)
        case Ok(touched) => Ok(if touched then earlier.value + [last.id] else earlier.value)
  }

  method ConfigurationTouched(categories: Categories, mode: Mode, scope: seq<Id>, change: Change)
      returns (touched: bool)
    ensures touched <==> UpdateTouches(categories, mode, scope, change)
  {
    var roleAffects := false;
    if change.oldRole != change.newRole && mode == SpendingMode {
      roleAffects := scope == [];
      if !roleAffects {
        roleAffects := AnyCovered(Elements(scope), RoleChangedIds(categories, change), categories);
      }
    }
    return MembershipChanged(Elements(scope), change) || roleAffects;
  }

  method AffectedBudgetsForUpdate(categories: Categories, budgets: seq<Budget>, change: Change)
      returns (affected: Result<seq<Id>>)
    ensures affected == ReportedForUpdate(categories, budgets, change)
  {
    var reported: seq<Id> := [];
    for i := 0 to |budgets|
      invariant ReportedForUpdate(categories, budgets[..i], change) == Ok(reported)
    {
      assert budgets[..i + 1][..i] == budgets[..i];
      var budget := budgets[i];
      var isAffected := false;
      var j := 0;
      while j < |budget.configurations| && !isAffected
        invariant 0 <= j <= |budget.configurations|
        invariant isAffected ==> UpdateTouchesAny(categories, budget.mode, budget.configurations, change) == Ok(true)
        invariant isAffected || UpdateTouchesAny(categories, budget.mode, budget.configurations[j..], change)
                                == UpdateTouchesAny(categories, budget.mode, budget.configurations, change)
        decreases |budget.configurations| - j, !isAffected
      {
        assert budget.configurations[j..][1..] == budget.configurations[j + 1..];
        var scope := budget.configurations[j].scope;
        if scope.None? {
          ReportedFails(categories, budgets, change, i + 1);
          return Err(InvalidScope);
        }
        isAffected := ConfigurationTouched(categories, budget.mode, scope.value, change);
        j := j + 1;
      }
      if isAffected { reported := reported + [budget.id]; }
    }
    assert budgets[..|budgets|] == budgets;
    affected := Ok(reported);
  }

  lemma {:induction false} ReportedFails(categories: Categories, budgets: seq<Budget>, change: Change, i: nat)
    requires i <= |budgets| && ReportedForUpdate(categories, budgets[..i], change).Err?
    ensures ReportedForUpdate(categories, budgets, change) == ReportedForUpdate(categories, budgets[..i], change)
    decreases |budgets|
  {
    if i == |budgets| {
      assert budgets[..i] == budgets;
    } else {
      assert budgets[..|budgets| - 1][..i] == budgets[..i];
      ReportedFails(categories, budgets[..|budgets| - 1], change, i);
    }
  }

  // ----- What an unreported update leaves alone -----

  /** The stored update: the category gets its parent and role, and the children of a root get its role. */
  function Updated(categories: Categories, change: Change): Categories {
    map id | id in categories ::
      if id == change.category then Category(change.newParent, change.newRole)
      else if change.newParent.None? && categories[id].parent == Some(change.category)
        then categories[id].(role := change.newRole)
      else categories[id]
  }

  ghost predicate SameCoverage(before: Categories, after: Categories, selected: set<Id>) {
    forall id :: Covered(before, selected, id) <==> Covered(after, selected, id)
  }

  ghost predicate SameParentsBut(a: Categories, b: Categories, id: Id) {
    forall c :: c != id ==> ParentOf(a, c) == ParentOf(b, c)
  }

  /** If only one category's parent differs and its coverage does not, no coverage is lost. */
  lemma {:induction false} CoverageTransfers(a: Categories, b: Categories, x: Id, selected: set<Id>, c: Id, k: nat)
    requires SameParentsBut(a, b, x) && (Covered(a, selected, x) ==> Covered(b, selected, x))
    requires CoveredAt(a, selected, c, k)
    ensures Covered(b, selected, c)
    decreases k
  {
    CoveredUnfold(b, selected, c);
    if c == x {
      assert Covered(a, selected, x);
    } else if k > 0 {
      CoverageTransfers(a, b, x, selected, ParentOf(a, c).value, k - 1);
    }
  }

  lemma CoverageDecidedByOne(a: Categories, b: Categories, x: Id, selected: set<Id>)
    requires SameParentsBut(a, b, x)
    ensures SameCoverage(a, b, selected) <==> (Covered(a, selected, x) <==> Covered(b, selected, x))
  {
    if Covered(a, selected, x) <==> Covered(b, selected, x) {
      forall c ensures Covered(a, selected, c) <==> Covered(b, selected, c) {
        if Covered(a, selected, c) {
          var k: nat :| CoveredAt(a, selected, c, k);
          CoverageTransfers(a, b, x, selected, c, k);
        }
        if Covered(b, selected, c) {
          var k: nat :| CoveredAt(b, selected, c, k);
          CoverageTransfers(b, a, x, selected, c, k);
        }
      }
    }
  }

  ghost predicate ParentCovered(categories: Categories, selected: set<Id>, parent: Option<Id>) {
    parent.Some? && Covered(categories, selected, parent.value)
  }

  /** `id` lies on the way from `from` to its root. */
  ghost predicate IsAncestor(categories: Categories, id: Id, from: Id) {
    exists k: nat :: Ancestor(categories, from, k) == Some(id)
  }

  /** A chain that does not meet the moved category is covered alike before and after. */
  lemma {:induction false} ChainAway(a: Categories, b: Categories, x: Id, selected: set<Id>, c: Id, k: nat)
    requires SameParentsBut(a, b, x) && forall j: nat :: j <= k ==> Ancestor(a, c, j) != Some(x)
    ensures Ancestor(a, c, k) == Ancestor(b, c, k)
    decreases k
  {
    assert Ancestor(a, c, 0) != Some(x);
    if k > 0 && ParentOf(a, c).Some? {
      forall j: nat | j <= k - 1 ensures Ancestor(a, ParentOf(a, c).value, j) != Some(x) {
        assert Ancestor(a, c, j + 1) == Ancestor(a, ParentOf(a, c).value, j);
      }
      ChainAway(a, b, x, selected, ParentOf(a, c).value, k - 1);
    }
  }

  lemma CoveredAway(a: Categories, b: Categories, x: Id, selected: set<Id>, c: Id)
    requires SameParentsBut(a, b, x) && !IsAncestor(a, x, c)
    ensures Covered(a, selected, c) <==> Covered(b, selected, c)
  {
    forall k: nat ensures CoveredAt(a, selected, c, k) <==> CoveredAt(b, selected, c, k) {
      ChainAway(a, b, x, selected, c, k);
    }
  }

  /** At any depth: moving a category below one that is not its own descendant keeps every coverage exactly when
      the category is itself selected or its old and new parents are alike covered. */
  lemma MoveKeepsCoverageIff(categories: Categories, change: Change, selected: set<Id>)
    requires change.category in categories && change.oldParent == categories[change.category].parent
    requires change.newParent.Some? ==> !IsAncestor(categories, change.category, change.newParent.value)
    ensures SameCoverage(categories, Updated(categories, change), selected) <==>
      change.category in selected
      || (ParentCovered(categories, selected, change.oldParent) <==>
        ParentCovered(categories, selected, change.newParent))
  {
    var x, after := change.category, Updated(categories, change);
    assert SameParentsBut(categories, after, x);
    CoverageDecidedByOne(categories, after, x, selected);
    CoveredUnfold(categories, selected, x);
    CoveredUnfold(after, selected, x);
    if change.newParent.Some? {
      CoveredAway(categories, after, x, selected, change.newParent.value);
    }
  }

  /** No category sits deeper than one level below a root. */
  predicate TwoLevels(categories: Categories) {
    forall id :: id in categories && categories[id].parent.Some? ==>
      ParentOf(categories, categories[id].parent.value) == None
  }

  /** Children carry their root's role. */
  predicate RolesInherited(categories: Categories) {
    forall id :: id in categories && categories[id].parent.Some? && categories[id].parent.value in categories ==>
      categories[id].role == categories[categories[id].parent.value].role
  }

  /** What the update checks before it is analysed: a new parent is another live root, its role is taken over, and
      a category with children stays a root. */
  predicate IsValid(categories: Categories, change: Change) {
    && change.category in categories
    && change.oldParent == categories[change.category].parent && change.oldRole == categories[change.category].role
    && (change.newParent.Some? ==>
        && change.newParent.value in categories && change.newParent.value != change.category
        && categories[change.newParent.value].parent == None
        && change.newRole == categories[change.newParent.value].role
        && Children(categories, change.category) == {})
  }

  lemma UpdateKeepsShape(categories: Categories, change: Change)
    requires TwoLevels(categories) && RolesInherited(categories) && IsValid(categories, change)
    ensures TwoLevels(Updated(categories, change)) && RolesInherited(Updated(categories, change))
  {
    var after := Updated(categories, change);
    forall id | id in after && after[id].parent.Some?
      ensures ParentOf(after, after[id].parent.value) == None
      ensures after[id].parent.value in after ==> after[id].role == after[after[id].parent.value].role
    {
      if id != change.category && categories[id].parent == Some(change.category) {
        assert id in Children(categories, change.category);
      }
    }
  }

  lemma RootCovered(categories: Categories, selected: set<Id>, parent: Option<Id>)
    requires parent.Some? ==> ParentOf(categories, parent.value) == None
    ensures ParentCovered(categories, selected, parent) <==> parent.Some? && parent.value in selected
  {
    if parent.Some? { CoveredUnfold(categories, selected, parent.value); }
  }

  lemma UnreportedKeepsCoverage(categories: Categories, scope: seq<Id>, change: Change)
    requires TwoLevels(categories) && IsValid(categories, change) && !MembershipChanged(Elements(scope), change)
    ensures SameCoverage(categories, Updated(categories, change), Elements(scope))
  {
    var selected := Elements(scope);
    RootCovered(categories, selected, change.oldParent);
    RootCovered(categories, selected, change.newParent);
    if change.newParent.Some? {
      forall k: nat ensures Ancestor(categories, change.newParent.value, k) != Some(change.category) {}
    }
    MoveKeepsCoverageIff(categories, change, selected);
  }

  /** Every category in scope, where the empty scope means all of them, keeps its role. */
  ghost predicate KeepsRoles(before: Categories, after: Categories, scope: seq<Id>)
    requires before.Keys == after.Keys
  {
    forall id :: id in before && (scope == [] || Covered(before, Elements(scope), id)) ==>
      after[id].role == before[id].role
  }

  lemma UnreportedKeepsRoles(categories: Categories, scope: seq<Id>, change: Change, id: Id)
    requires TwoLevels(categories) && RolesInherited(categories) && IsValid(categories, change)
    requires !UpdateTouches(categories, SpendingMode, scope, change)
    requires id in categories && (scope == [] || Covered(categories, Elements(scope), id))
    ensures Updated(categories, change)[id].role == categories[id].role
  {
    // Only the category itself and the children of a root can change role, and they would be flagged.
    assert change.oldRole == change.newRole || id in RoleChangedIds(categories, change)
      || Updated(categories, change)[id].role == categories[id].role;
  }

  /** A budget missing from the report is untouched in every configuration. */
  lemma {:induction false} UnreportedIsUntouched(
    categories: Categories, budgets: seq<Budget>, change: Change, reported: seq<Id>, b: nat)
    requires ReportedForUpdate(categories, budgets, change) == Ok(reported)
    requires b < |budgets| && budgets[b].id !in reported
    ensures UpdateTouchesAny(categories, budgets[b].mode, budgets[b].configurations, change) == Ok(false)
    decreases |budgets|
  {
    var init := budgets[..|budgets| - 1];
    if b < |init| {
      UnreportedIsUntouched(categories, init, change, ReportedForUpdate(categories, init, change).value, b);
    }
  }

  /** Budgets are reported in the order they are loaded. */
  lemma {:induction false} ReportedForUpdateAppend(
    categories: Categories, a: seq<Budget>, b: seq<Budget>, change: Change)
    requires ReportedForUpdate(categories, a + b, change).Ok?
    ensures ReportedForUpdate(categories, a, change).Ok? && ReportedForUpdate(categories, b, change).Ok?
    ensures ReportedForUpdate(categories, a + b, change).value
         == ReportedForUpdate(categories, a, change).value + ReportedForUpdate(categories, b, change).value
    decreases |b|
  {
    if b == [] {
      assert a + b == a;
    } else {
      assert (a + b)[..|a + b| - 1] == a + b[..|b| - 1];
      ReportedForUpdateAppend(categories, a, b[..|b| - 1], change);
    }
  }

  /** Some category that counts for the configuration, where the empty scope counts all of them, changes its role. */
  ghost predicate SomeRoleChanges(categories: Categories, scope: seq<Id>, change: Change) {
    exists id :: id in categories && (scope == [] || Covered(categories, Elements(scope), id))
      && Updated(categories, change)[id].role != categories[id].role
  }

  /** The parent changes, and one of the two parents is selected. */
  predicate ParentSelectionChanges(scope: seq<Id>, change: Change) {
    && change.oldParent != change.newParent
    && (exists id :: id in scope && (change.oldParent == Some(id) || change.newParent == Some(id)))
  }

  /** A configuration is touched exactly when the move involves a selected parent or, in spending mode, a category that
      counts changes its role: nothing else is reported. */
  lemma UpdateTouchesIff(categories: Categories, mode: Mode, scope: seq<Id>, change: Change)
    requires TwoLevels(categories) && RolesInherited(categories) && IsValid(categories, change)
    ensures UpdateTouches(categories, mode, scope, change) <==>
      ParentSelectionChanges(scope, change) || (mode == SpendingMode && SomeRoleChanges(categories, scope, change))
  {
    if RoleChanged(categories, mode, scope, change) {
      var id := change.category;
      if scope != [] {
        id :| id in RoleChangedIds(categories, change) && Covered(categories, Elements(scope), id);
      }
      assert id == change.category || id in Children(categories, change.category);
      assert id in categories && Updated(categories, change)[id].role != categories[id].role;
    } else if mode == SpendingMode && SomeRoleChanges(categories, scope, change) {
      assert false;
    }
  }

  /** In hierarchies of two levels the analysis is complete: a budget it does not report keeps the coverage of
      every category under each of its configurations, and in spending mode the role of every covered one. */
  lemma UpdateAnalysisComplete(
    categories: Categories, budgets: seq<Budget>, change: Change, reported: seq<Id>, b: nat, i: nat)
    requires TwoLevels(categories) && RolesInherited(categories) && IsValid(categories, change)
    requires ReportedForUpdate(categories, budgets, change) == Ok(reported)
    requires b < |budgets| && budgets[b].id !in reported && i < |budgets[b].configurations|
    ensures UpdateSpares(categories, change, budgets[b], i)
  {
    var budget := budgets[b];
    UnreportedIsUntouched(categories, budgets, change, reported, b);
    NotTouched(categories, budget.mode, budget.configurations, change, i);
    var scope := budget.configurations[i].scope.value;
    UnreportedKeepsCoverage(categories, scope, change);
    if budget.mode == SpendingMode {
      forall id | id in categories && (scope == [] || Covered(categories, Elements(scope), id))
        ensures Updated(categories, change)[id].role == categories[id].role
      {
        UnreportedKeepsRoles(categories, scope, change, id);
      }
    }
  }

  /** The update keeps every coverage under the configuration and, in spending mode, every covered role. */
  ghost predicate UpdateSpares(categories: Categories, change: Change, budget: Budget, i: nat)
    requires i < |budget.configurations|
  {
    var after, scope := Updated(categories, change), budget.configurations[i].scope;
    && scope.Some?
    && SameCoverage(categories, after, Elements(scope.value))
    && (budget.mode == SpendingMode ==> KeepsRoles(categories, after, scope.value))
  }

  lemma {:induction false} NotTouched(
    categories: Categories, mode: Mode, configurations: seq<Configuration>, change: Change, i: nat)
    requires UpdateTouchesAny(categories, mode, configurations, change) == Ok(false) && i < |configurations|
    ensures configurations[i].scope.Some? && !UpdateTouches(categories, mode, configurations[i].scope.value, change)
    decreases |configurations|
  {
    if i > 0 { NotTouched(categories, mode, configurations[1..], change, i - 1); }
  }

  /** A root above a child, and another root. */
  const TWO_LEVELS: Categories := map[
    "top" := Category(None, Spending), "middle" := Category(Some("top"), Spending), "moved" := Category(None, Spending)]

  /** The depth bound is needed: moving a root below a child brings it under a selected grandparent unreported. */
  lemma ThirdLevelGoesUnreported()
    ensures var change := Change("moved", None, Some("middle"), Spending, Spending);
      && !UpdateTouches(TWO_LEVELS, SpendingMode, ["top"], change)
      && !SameCoverage(TWO_LEVELS, Updated(TWO_LEVELS, change), Elements(["top"]))
  {
    var change := Change("moved", None, Some("middle"), Spending, Spending);
    var after, selected := Updated(TWO_LEVELS, change), Elements(["top"]);
    CoveredUnfold(TWO_LEVELS, selected, "moved");
    assert !Covered(TWO_LEVELS, selected, "moved");
    CoveredUnfold(after, selected, "top");
    CoveredUnfold(after, selected, "middle");
    CoveredUnfold(after, selected, "moved");
    assert Covered(after, selected, "moved");
  }

  /** An id is reported exactly for a budget with a touched configuration, if all scopes parse. */
  lemma {:induction false} ReportedForUpdateIff(categories: Categories, budgets: seq<Budget>, change: Change, id: Id)
    requires forall b, c :: 0 <= b < |budgets| && 0 <= c < |budgets[b].configurations| ==>
      budgets[b].configurations[c].scope.Some?
    ensures ReportedForUpdate(categories, budgets, change).Ok?
    ensures id in ReportedForUpdate(categories, budgets, change).value <==>
      exists b, c :: TouchedAt(categories, budgets, change, b, c) && budgets[b].id == id
    decreases |budgets|
  {
    if budgets != [] {
      var init, last := budgets[..|budgets| - 1], budgets[|budgets| - 1];
      ReportedForUpdateIff(categories, init, change, id);
      TouchesAnyIff(categories, last, change);
      assert forall b, c :: 0 <= b < |init| ==>
        (TouchedAt(categories, init, change, b, c) <==> TouchedAt(categories, budgets, change, b, c));
      assert forall c ::
        TouchedAt(categories, [last], change, 0, c) <==> TouchedAt(categories, budgets, change, |init|, c);
    }
  }

  /** Configuration `c` of budget `b` is touched. */
  ghost predicate TouchedAt(categories: Categories, budgets: seq<Budget>, change: Change, b: int, c: int) {
    && 0 <= b < |budgets| && 0 <= c < |budgets[b].configurations| && budgets[b].configurations[c].scope.Some?
    && UpdateTouches(categories, budgets[b].mode, budgets[b].configurations[c].scope.value, change)
  }

  lemma {:induction false} TouchesAnyIff(categories: Categories, budget: Budget, change: Change)
    requires forall c :: 0 <= c < |budget.configurations| ==> budget.configurations[c].scope.Some?
    ensures UpdateTouchesAny(categories, budget.mode, budget.configurations, change)
         == Ok(exists c :: TouchedAt(categories, [budget], change, 0, c))
    decreases |budget.configurations|
  {
    if budget.configurations != [] {
      var rest := budget.(configurations := budget.configurations[1..]);
      TouchesAnyIff(categories, rest, change);
      assert forall c :: 0 < c < |budget.configurations| ==> budget.configurations[c] == rest.configurations[c - 1];
      assert forall c :: c > 0 && TouchedAt(categories, [budget], change, 0, c) ==>
        TouchedAt(categories, [rest], change, 0, c - 1);
      assert TouchedAt(categories, [budget], change, 0, 0)
        <==> UpdateTouches(categories, budget.mode, budget.configurations[0].scope.value, change);
      if exists c :: TouchedAt(categories, [rest], change, 0, c) {
        var c :| TouchedAt(categories, [rest], change, 0, c);
        assert TouchedAt(categories, [budget], change, 0, c + 1);
      }
    }
  }
}

/** The shape that every sequence of category changes keeps, on which the update analysis relies. */
module CategoryHierarchy {
  import opened Wrappers
  import opened CategoryImpact
  import opened CategoryDeletion

  datatype Step =
    | Create(id: Id, parent: Option<Id>, role: Role)
    | Update(change: Change)
    | Delete(requested: seq<Id>, strategy: ChildrenStrategy)

  /** Every parent is a live category. */
  predicate NoDangling(categories: Categories) {
    forall id :: id in categories && categories[id].parent.Some? ==> categories[id].parent.value in categories
  }

  predicate WellShaped(categories: Categories) {
    TwoLevels(categories) && RolesInherited(categories) && NoDangling(categories)
  }

  /** The step passes its validation. A new category needs a fresh id and, if it has a parent, a live root. */
  predicate Enabled(categories: Categories, step: Step) {
    match step
    case Create(id, parent, _) =>
      id !in categories && (parent.Some? ==> parent.value in categories && categories[parent.value].parent.None?)
    case Update(change) => IsValid(categories, change)
    case Delete(requested, strategy) => !ChildrenBlock(categories, requested, strategy)
  }

  function Apply(categories: Categories, step: Step): Categories
    requires Enabled(categories, step)
  {
    match step
    case Create(id, parent, role) =>
      categories[id := Category(parent, if parent.Some? then categories[parent.value].role else role)]
    case Update(change) => Updated(categories, change)
    case Delete(requested, strategy) => Remaining(categories, requested, strategy)
  }

  /** Every step of the run is enabled when its turn comes. */
  predicate EnabledRun(categories: Categories, steps: seq<Step>)
    decreases |steps|
  {
    steps == [] || (Enabled(categories, steps[0]) && EnabledRun(Apply(categories, steps[0]), steps[1..]))
  }

  function Run(categories: Categories, steps: seq<Step>): Categories
    requires EnabledRun(categories, steps)
    decreases |steps|
  {
    if steps == [] then categories else Run(Apply(categories, steps[0]), steps[1..])
  }

  lemma CreateKeepsShape(categories: Categories, id: Id, parent: Option<Id>, role: Role)
    requires WellShaped(categories) && Enabled(categories, Create(id, parent, role))
    ensures WellShaped(Apply(categories, Create(id, parent, role)))
  {
    var after := Apply(categories, Create(id, parent, role));
    forall c | c in after && after[c].parent.Some?
      ensures after[c].parent.value in after && ParentOf(after, after[c].parent.value) == None
      ensures after[c].role == after[after[c].parent.value].role
    {
      assert after[c].parent.value != id;
    }
  }

  /** A creation adds its category, below the parent asked for and with that parent's role, and touches no other. */
  lemma CreateAdds(categories: Categories, id: Id, parent: Option<Id>, role: Role)
    requires Enabled(categories, Create(id, parent, role))
    ensures var after := Apply(categories, Create(id, parent, role));
      && after.Keys == categories.Keys + {id} && after[id].parent == parent
      && after[id].role == (if parent == None then role else categories[parent.value].role)
      && forall c :: c in categories ==> after[c] == categories[c]
  {
  }

  /** An update sets the parent and role of its category, and hands the role of a root to its children only. */
  lemma UpdateSets(categories: Categories, change: Change, c: Id)
    requires IsValid(categories, change) && c in categories
    ensures var after := Updated(categories, change);
      && after.Keys == categories.Keys
      && (c == change.category ==> after[c] == Category(change.newParent, change.newRole))
      && (c != change.category ==> after[c].parent == categories[c].parent)
      && (c != change.category && !(change.newParent == None && categories[c].parent == Some(change.category)) ==>
            after[c].role == categories[c].role)
  {
  }

  lemma UpdateKeepsParentsLive(categories: Categories, change: Change)
    requires NoDangling(categories) && IsValid(categories, change)
    ensures NoDangling(Updated(categories, change))
  {
  }

  /** Whatever the strategy, no surviving category is left below a deleted one. */
  lemma DeletionKeepsShape(categories: Categories, requested: seq<Id>, strategy: ChildrenStrategy)
    requires WellShaped(categories) && !ChildrenBlock(categories, requested, strategy)
    ensures WellShaped(Remaining(categories, requested, strategy))
  {
    var after, deleted := Remaining(categories, requested, strategy), DeletedSet(categories, requested, strategy);
    forall c | c in after && after[c].parent.Some?
      ensures after[c].parent.value !in deleted
    {
      var p := after[c].parent.value;
      assert after[c].parent == categories[c].parent && p in categories && ParentOf(categories, p) == None;
      assert HasParentIn(categories, c, Elements(requested)) <==> p in Elements(requested);
    }
  }

  lemma StepKeepsShape(categories: Categories, step: Step)
    requires WellShaped(categories) && Enabled(categories, step)
    ensures WellShaped(Apply(categories, step))
  {
    match step
    case Create(id, parent, role) => CreateKeepsShape(categories, id, parent, role);
    case Update(change) =>
      UpdateKeepsShape(categories, change);
      UpdateKeepsParentsLive(categories, change);
    case Delete(requested, strategy) => DeletionKeepsShape(categories, requested, strategy);
  }

  /** Over any run of creations, updates and deletions the hierarchy keeps two levels, children carry the role of
      their root, and no parent is missing. */
  lemma {:induction false} RunKeepsShape(categories: Categories, steps: seq<Step>)
    requires WellShaped(categories) && EnabledRun(categories, steps)
    ensures WellShaped(Run(categories, steps))
    decreases |steps|
  {
    if steps != [] {
      StepKeepsShape(categories, steps[0]);
      RunKeepsShape(Apply(categories, steps[0]), steps[1..]);
    }
  }

  /** So the update analysis is complete in every hierarchy that the application can build. */
  lemma ReachableUpdateAnalysisComplete(
    steps: seq<Step>, budgets: seq<Budget>, change: Change, reported: seq<Id>, b: nat, i: nat)
    requires EnabledRun(map[], steps) && IsValid(Run(map[], steps), change)
    requires ReportedForUpdate(Run(map[], steps), budgets, change) == Ok(reported)
    requires b < |budgets| && budgets[b].id !in reported && i < |budgets[b].configurations|
    ensures UpdateSpares(Run(map[], steps), change, budgets[b], i)
  {
    RunKeepsShape(map[], steps);
    UpdateAnalysisComplete(Run(map[], steps), budgets, change, reported, b, i);
  }
}

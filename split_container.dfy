/** Client-side descriptor of a split that binds a primary and a secondary
    task-fragment container under a split rule, and the finish-on-exit
    obligations it registers on the two containers when it is created. */
module SplitContainers {

  /** Finish behaviours of a split rule. They are plain integers in the
      source, and the predicates below accept any integer. */
  const FINISH_NEVER: int := 0
  const FINISH_ALWAYS: int := 1
  const FINISH_ADJACENT: int := 2

  /** The split rule, closed over the three shapes the source distinguishes
      with instanceof: a pair rule, a placeholder rule, and any other rule. */
  datatype SplitRule =
    | PairRule(finishPrimaryWithSecondary: int, finishSecondaryWithPrimary: int)
    | PlaceholderRule(finishPrimaryWithSecondary: int, sticky: bool)
    | OtherRule

  /** Split attributes are an uninterpreted value at this layer: stored and
      returned, never inspected or validated. */
  datatype SplitAttributes = SplitAttributes(splitType: int, layoutDirection: int)

  /** An activity, known here only through its token. */
  datatype Activity = Activity(token: int)

  /** The part of a task-fragment container this descriptor reads and updates. */
  class TaskFragmentContainer {
    var runningActivityCount: nat
    var activityTokens: set<int>
    var containersToFinishOnExit: seq<TaskFragmentContainer>
    var activitiesToFinishOnExit: seq<Activity>

    constructor (runningActivityCount: nat, activityTokens: set<int>)
      ensures this.runningActivityCount == runningActivityCount
      ensures this.activityTokens == activityTokens
      ensures containersToFinishOnExit == [] && activitiesToFinishOnExit == []
    {
      this.runningActivityCount := runningActivityCount;
      this.activityTokens := activityTokens;
      containersToFinishOnExit := [];
      activitiesToFinishOnExit := [];
    }

    predicate HasActivity(token: int)
      reads this
    {
      token in activityTokens
    }

    /** Records that `container` is to be finished when this one exits. */
    method AddContainerToFinishOnExit(container: TaskFragmentContainer)
      modifies this`containersToFinishOnExit
      ensures containersToFinishOnExit == old(containersToFinishOnExit) + [container]
    {
      containersToFinishOnExit := containersToFinishOnExit + [container];
    }

    /** Records that `activity` is to be finished when this container exits. */
    method AddActivityToFinishOnExit(activity: Activity)
      modifies this`activitiesToFinishOnExit
      ensures activitiesToFinishOnExit == old(activitiesToFinishOnExit) + [activity]
    {
      activitiesToFinishOnExit := activitiesToFinishOnExit + [activity];
    }
  }

  /** Whether the primary side is finished together with the secondary. */
  function ShouldFinishPrimaryWithSecondary(rule: SplitRule): (b: bool)
    ensures rule.PlaceholderRule? ==> b
    ensures rule.PairRule? ==> (b <==> rule.finishPrimaryWithSecondary != FINISH_NEVER)
    ensures rule.OtherRule? ==> !b
  {
    var isPlaceholderContainer := rule.PlaceholderRule?;
    var shouldFinish := rule.PairRule? && rule.finishPrimaryWithSecondary != FINISH_NEVER;
    shouldFinish || isPlaceholderContainer
  }

  /** Whether the secondary side is finished together with the primary. */
  function ShouldFinishSecondaryWithPrimary(rule: SplitRule): (b: bool)
    ensures rule.PlaceholderRule? ==> b
    ensures rule.PairRule? ==> (b <==> rule.finishSecondaryWithPrimary != FINISH_NEVER)
    ensures rule.OtherRule? ==> !b
  {
    var isPlaceholderContainer := rule.PlaceholderRule?;
    var shouldFinish := rule.PairRule? && rule.finishSecondaryWithPrimary != FINISH_NEVER;
    shouldFinish || isPlaceholderContainer
  }

  /** Whether a behaviour finishes the associated container while the two are stacked. */
  predicate ShouldFinishAssociatedContainerWhenStacked(finishBehavior: int): (b: bool)
    ensures b ==> finishBehavior != FINISH_NEVER && finishBehavior != FINISH_ADJACENT
  {
    finishBehavior == FINISH_ALWAYS
  }

  /** Whether a behaviour finishes the associated container while the two are side by side. */
  predicate ShouldFinishAssociatedContainerWhenAdjacent(finishBehavior: int): (b: bool)
    ensures ShouldFinishAssociatedContainerWhenStacked(finishBehavior) ==> b
    ensures b ==> finishBehavior != FINISH_NEVER
  {
    finishBehavior == FINISH_ALWAYS || finishBehavior == FINISH_ADJACENT
  }

  /** Finishing when stacked is the stronger setting: it implies finishing
      when adjacent, and exactly ALWAYS sits in the first set, ALWAYS and
      ADJACENT in the second, and NEVER in neither. */
  lemma StackedImpliesAdjacent(finishBehavior: int)
    ensures ShouldFinishAssociatedContainerWhenStacked(finishBehavior)
            ==> ShouldFinishAssociatedContainerWhenAdjacent(finishBehavior)
    ensures ShouldFinishAssociatedContainerWhenStacked(finishBehavior) <==> finishBehavior == FINISH_ALWAYS
    ensures ShouldFinishAssociatedContainerWhenAdjacent(finishBehavior)
            <==> finishBehavior == FINISH_ALWAYS || finishBehavior == FINISH_ADJACENT
    ensures !ShouldFinishAssociatedContainerWhenStacked(FINISH_NEVER)
    ensures !ShouldFinishAssociatedContainerWhenAdjacent(FINISH_NEVER)
    ensures ShouldFinishAssociatedContainerWhenAdjacent(FINISH_ADJACENT)
    ensures !ShouldFinishAssociatedContainerWhenStacked(FINISH_ADJACENT)
  {
  }

  /** The primary-with-secondary behaviour of a rule. A placeholder rule
      reports its own field here, whatever the boolean predicate says. */
  function GetFinishPrimaryWithSecondaryBehavior(rule: SplitRule): (behavior: int)
    ensures rule.PlaceholderRule? || rule.PairRule? ==> behavior == rule.finishPrimaryWithSecondary
    ensures rule.OtherRule? ==> behavior == FINISH_NEVER
  {
    if rule.PlaceholderRule? then rule.finishPrimaryWithSecondary
    else if rule.PairRule? then rule.finishPrimaryWithSecondary
    else FINISH_NEVER
  }

  /** The secondary-with-primary behaviour of a rule: always ALWAYS for a
      placeholder rule, sticky or not. */
  function GetFinishSecondaryWithPrimaryBehavior(rule: SplitRule): (behavior: int)
    ensures rule.PlaceholderRule? ==> behavior == FINISH_ALWAYS
    ensures rule.PairRule? ==> behavior == rule.finishSecondaryWithPrimary
    ensures rule.OtherRule? ==> behavior == FINISH_NEVER
  {
    if rule.PlaceholderRule? then FINISH_ALWAYS
    else if rule.PairRule? then rule.finishSecondaryWithPrimary
    else FINISH_NEVER
  }

  /** On the secondary side, the boolean predicate and the behaviour
      accessor always agree. */
  lemma SecondaryPredicateMatchesBehavior(rule: SplitRule)
    ensures ShouldFinishSecondaryWithPrimary(rule)
            == (GetFinishSecondaryWithPrimaryBehavior(rule) != FINISH_NEVER)
  {
  }

  /** On the primary side they agree except for exactly one kind of rule: a
      placeholder rule whose own primary-with-secondary field is NEVER. */
  lemma PrimaryPredicateMatchesBehaviorExceptPlaceholder(rule: SplitRule)
    ensures ShouldFinishPrimaryWithSecondary(rule)
            != (GetFinishPrimaryWithSecondaryBehavior(rule) != FINISH_NEVER)
            <==> rule.PlaceholderRule? && rule.finishPrimaryWithSecondary == FINISH_NEVER
  {
  }

  /** A placeholder rule with the sticky flag set. */
  function IsStickyPlaceholderRule(rule: SplitRule): (b: bool)
    ensures b <==> rule.PlaceholderRule? && rule.sticky
    ensures b ==> ShouldFinishPrimaryWithSecondary(rule) && ShouldFinishSecondaryWithPrimary(rule)
  {
    if !rule.PlaceholderRule? then false else rule.sticky
  }

  /** What the split registers on the secondary container for the primary side. */
  datatype PrimaryObligation =
    | NoObligation            // the rule does not finish the primary with the secondary
    | FinishPrimaryContainer  // the whole primary container goes with the secondary
    | FinishPrimaryActivity   // only the triggering activity goes with the secondary

  /** The primary-side decision taken at construction: the whole primary
      container only when it runs exactly one activity and that activity
      is the trigger; otherwise just the triggering activity. */
  function PrimaryObligationFor(rule: SplitRule, runningActivityCount: int, hasTrigger: bool): (o: PrimaryObligation)
    ensures o == NoObligation <==> !ShouldFinishPrimaryWithSecondary(rule)
    ensures o == FinishPrimaryContainer
            <==> ShouldFinishPrimaryWithSecondary(rule) && runningActivityCount == 1 && hasTrigger
    ensures o == FinishPrimaryActivity
            <==> ShouldFinishPrimaryWithSecondary(rule) && !(runningActivityCount == 1 && hasTrigger)
  {
    if !ShouldFinishPrimaryWithSecondary(rule) then NoObligation
    else if runningActivityCount == 1 && hasTrigger then FinishPrimaryContainer
    else FinishPrimaryActivity
  }

  /** A placeholder split always registers something for the primary side,
      and a pair rule with both behaviours NEVER registers nothing on
      either side. */
  lemma ObligationsOfPlaceholderAndNeverRules(rule: SplitRule, runningActivityCount: int, hasTrigger: bool)
    ensures rule.PlaceholderRule? ==> PrimaryObligationFor(rule, runningActivityCount, hasTrigger) != NoObligation
    ensures rule.PlaceholderRule? ==> ShouldFinishSecondaryWithPrimary(rule)
    ensures rule == PairRule(FINISH_NEVER, FINISH_NEVER) ==>
              PrimaryObligationFor(rule, runningActivityCount, hasTrigger) == NoObligation
              && !ShouldFinishSecondaryWithPrimary(rule)
  {
  }

  /** Containers appended to the secondary's container-finish list. */
  function SecondaryContainersAdded(o: PrimaryObligation, primary: TaskFragmentContainer): (added: seq<TaskFragmentContainer>)
    ensures |added| <= 1
    ensures added == [primary] <==> o == FinishPrimaryContainer
    ensures o != FinishPrimaryContainer ==> added == []
  {
    if o == FinishPrimaryContainer then [primary] else []
  }

  /** Activities appended to the secondary's activity-finish list. */
  function SecondaryActivitiesAdded(o: PrimaryObligation, activity: Activity): (added: seq<Activity>)
    ensures |added| <= 1
    ensures added == [activity] <==> o == FinishPrimaryActivity
    ensures o != FinishPrimaryActivity ==> added == []
  {
    if o == FinishPrimaryActivity then [activity] else []
  }

  /** Containers appended to the primary's container-finish list. */
  function PrimaryContainersAdded(rule: SplitRule, secondary: TaskFragmentContainer): (added: seq<TaskFragmentContainer>)
    ensures |added| <= 1
    ensures added == [secondary] <==> ShouldFinishSecondaryWithPrimary(rule)
    ensures !ShouldFinishSecondaryWithPrimary(rule) ==> added == []
  {
    if ShouldFinishSecondaryWithPrimary(rule) then [secondary] else []
  }

  class SplitContainer {
    const primaryContainer: TaskFragmentContainer
    const secondaryContainer: TaskFragmentContainer
    const splitRule: SplitRule
    var splitAttributes: SplitAttributes

    /** Binds the two containers and registers the finish-on-exit
        obligations. Nothing is asserted about the primary container: one
        that does not hold the triggering activity takes the second branch. */
    constructor (primaryContainer: TaskFragmentContainer, primaryActivity: Activity,
                 secondaryContainer: TaskFragmentContainer, splitRule: SplitRule,
                 splitAttributes: SplitAttributes)
      modifies primaryContainer, secondaryContainer
      ensures this.primaryContainer == primaryContainer && this.secondaryContainer == secondaryContainer
      ensures this.splitRule == splitRule && this.splitAttributes == splitAttributes
      // the primary-side decision reads the primary as it was on entry
      ensures var o := PrimaryObligationFor(splitRule, old(primaryContainer.runningActivityCount),
                                            old(primaryContainer.HasActivity(primaryActivity.token)));
              if primaryContainer != secondaryContainer then
                secondaryContainer.containersToFinishOnExit
                  == old(secondaryContainer.containersToFinishOnExit) + SecondaryContainersAdded(o, primaryContainer)
                && secondaryContainer.activitiesToFinishOnExit
                  == old(secondaryContainer.activitiesToFinishOnExit) + SecondaryActivitiesAdded(o, primaryActivity)
                && primaryContainer.containersToFinishOnExit
                  == old(primaryContainer.containersToFinishOnExit) + PrimaryContainersAdded(splitRule, secondaryContainer)
                && primaryContainer.activitiesToFinishOnExit == old(primaryContainer.activitiesToFinishOnExit)
              else
                // one container on both sides: both appends land on it, primary side first
                primaryContainer.containersToFinishOnExit
                  == old(primaryContainer.containersToFinishOnExit) + SecondaryContainersAdded(o, primaryContainer)
                     + PrimaryContainersAdded(splitRule, secondaryContainer)
                && primaryContainer.activitiesToFinishOnExit
                  == old(primaryContainer.activitiesToFinishOnExit) + SecondaryActivitiesAdded(o, primaryActivity)
      ensures primaryContainer.runningActivityCount == old(primaryContainer.runningActivityCount)
      ensures primaryContainer.activityTokens == old(primaryContainer.activityTokens)
      ensures secondaryContainer.runningActivityCount == old(secondaryContainer.runningActivityCount)
      ensures secondaryContainer.activityTokens == old(secondaryContainer.activityTokens)
    {
      this.primaryContainer := primaryContainer;
      this.secondaryContainer := secondaryContainer;
      this.splitRule := splitRule;
      this.splitAttributes := splitAttributes;
      new;
      if ShouldFinishPrimaryWithSecondary(splitRule) {
        if primaryContainer.runningActivityCount == 1
           && primaryContainer.HasActivity(primaryActivity.token) {
          secondaryContainer.AddContainerToFinishOnExit(primaryContainer);
        } else {
          // other, unrelated activities share the primary container
          secondaryContainer.AddActivityToFinishOnExit(primaryActivity);
        }
      }
      if ShouldFinishSecondaryWithPrimary(splitRule) {
        primaryContainer.AddContainerToFinishOnExit(secondaryContainer);
      }
    }

    function GetSplitAttributes(): (a: SplitAttributes)
      reads this
    {
      splitAttributes
    }

    /** Replaces the split attributes wholesale. The new state depends on
        the argument only, so a second call with the same value changes
        nothing. */
    method SetSplitAttributes(splitAttributes: SplitAttributes)
      modifies this`splitAttributes
      ensures GetSplitAttributes() == splitAttributes
    {
      this.splitAttributes := splitAttributes;
    }

    /** Whether the split's rule is a placeholder rule. */
    function IsPlaceholderContainer(): (b: bool)
      ensures b ==> ShouldFinishPrimaryWithSecondary(splitRule) && ShouldFinishSecondaryWithPrimary(splitRule)
      ensures b ==> GetFinishSecondaryWithPrimaryBehavior(splitRule) == FINISH_ALWAYS
      ensures IsStickyPlaceholderRule(splitRule) ==> b
    {
      splitRule.PlaceholderRule?
    }
  }

  /** A placeholder split finishes in both directions, and a sticky
      placeholder rule makes a placeholder split. */
  lemma PlaceholderContainerFinishesBothWays(split: SplitContainer)
    ensures split.IsPlaceholderContainer() <==> split.splitRule.PlaceholderRule?
    ensures split.IsPlaceholderContainer() ==>
              ShouldFinishPrimaryWithSecondary(split.splitRule)
              && ShouldFinishSecondaryWithPrimary(split.splitRule)
              && GetFinishSecondaryWithPrimaryBehavior(split.splitRule) == FINISH_ALWAYS
    ensures IsStickyPlaceholderRule(split.splitRule) ==> split.IsPlaceholderContainer()
  {
  }

  /** Setting the same attributes twice leaves the split as setting them once. */
  method SetSplitAttributesTwice(split: SplitContainer, a: SplitAttributes)
    modifies split
    ensures split.GetSplitAttributes() == a
  {
    split.SetSplitAttributes(a);
    var once := split.GetSplitAttributes();
    split.SetSplitAttributes(a);
    assert split.GetSplitAttributes() == once;
  }

  /** A pair rule that finishes the primary ALWAYS and the secondary NEVER,
      over a primary that runs only the triggering activity: exactly one
      obligation, the whole primary container on the secondary's exit. */
  method PairRuleScenario()
  {
    var primary := new TaskFragmentContainer(1, {7});
    var secondary := new TaskFragmentContainer(1, {8});
    var split := new SplitContainer(primary, Activity(7), secondary,
                                    PairRule(FINISH_ALWAYS, FINISH_NEVER), SplitAttributes(0, 0));
    assert secondary.containersToFinishOnExit == [primary];
    assert secondary.activitiesToFinishOnExit == [];
    assert primary.containersToFinishOnExit == [];
    assert primary.activitiesToFinishOnExit == [];
    split.SetSplitAttributes(SplitAttributes(1, 0));
    assert split.splitRule == PairRule(FINISH_ALWAYS, FINISH_NEVER);
  }

  /** The same rule over a primary that also runs an unrelated activity:
      only the triggering activity is registered. */
  method SharedPrimaryScenario()
  {
    var primary := new TaskFragmentContainer(2, {7, 9});
    var secondary := new TaskFragmentContainer(1, {8});
    var split := new SplitContainer(primary, Activity(7), secondary,
                                    PairRule(FINISH_ALWAYS, FINISH_NEVER), SplitAttributes(0, 0));
    assert secondary.containersToFinishOnExit == [];
    assert secondary.activitiesToFinishOnExit == [Activity(7)];
    assert primary.containersToFinishOnExit == [];
  }
}

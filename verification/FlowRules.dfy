/** The rules of a flow without any search, and the proof that the validator decides exactly them. */
module FlowRules {
  import opened Json
  import opened Wrappers
  import opened FlowModel
  import opened FlowValidator
  import opened Walks
  import opened FlowSearch
  import opened Seqs
  import Guards
  import GuardMeaning
  import Actions

  function AllEdges(g: Flow): Graph {
    Adjacency(Keys(g.states), g.Transitions(), false)
  }

  function AutomaticEdges(g: Flow): Graph {
    Adjacency(Keys(g.states), g.Transitions(), true)
  }

  ghost predicate OnlyInitial(states: seq<State>, i: int) {
    && 0 <= i < |states| && states[i].isInitial
    && forall j :: 0 <= j < |states| && states[j].isInitial ==> j == i
  }

  /** The state is a vote. */
  ghost predicate IsVote(states: seq<State>, key: string) {
    exists s :: s in states && s.key == key && s.kind == Vote
  }

  /** The state is a vote that takes its Gremium from the cost center. */
  ghost predicate IsBudgetVoteState(states: seq<State>, key: string) {
    exists s :: s in states && s.key == key && s.kind == Vote && Get(s.config, "gremiumSource") == Some(Str("budget"))
  }

  ghost predicate SetsCostCenter(action: Json) {
    || Actions.IsOfType(action, "assignBudget") || Actions.IsOfType(action, "assignBudgetFromField")
    || Actions.IsOfType(action, "assignBudgetFromMap") || Actions.IsOfType(action, "assignBudgetFromApplicantGremium")
  }

  ghost predicate NotifiesVote(action: Json) {
    Actions.IsOfType(action, "notify") && exists items: seq<Json>, r: Json ::
      Get(action.entries, "recipients") == Some(Arr(items)) && r in items
      && r.Obj? && Get(r.entries, "kind") == Some(Str("voteGremium"))
  }

  /** The agenda and the vote's Gremium only into a vote; the cost center and a fixed Gremium not into a budget vote. */
  ghost predicate ActionRules(action: Json, intoVote: bool, intoBudgetVote: bool) {
    && Actions.IsAllowed(action)
    && (Actions.IsOfType(action, "addToNextSession") ==>
          intoVote && (intoBudgetVote ==> Get(action.entries, "gremiumId") == None))
    && (intoBudgetVote ==> !SetsCostCenter(action))
    && (NotifiesVote(action) ==> intoVote)
  }

  ghost predicate TransitionRules(t: Transition, states: seq<State>) {
    && t.source in Keys(states) && t.target in Keys(states) && t.source != t.target
    && GuardMeaning.IsGuard(t.guard, !t.automatic)
    && forall a :: a in t.actions ==> ActionRules(a, IsVote(states, t.target), IsBudgetVoteState(states, t.target))
  }

  ghost predicate NamesGremiumOnce(s: State) {
    var id, source := Get(s.config, "gremiumId"), Get(s.config, "gremiumSource");
    || (source == None && exists name :: id == Some(Str(name)) && name != "")
    || (id == None && source == Some(Str("budget")) && !s.isInitial)
  }

  predicate IsExit(t: Transition, key: string, b: Branch) {
    t.source == key && t.branch == Some(b)
  }

  ghost predicate OnlyExit(ts: seq<Transition>, key: string, b: Branch, i: int) {
    && 0 <= i < |ts| && IsExit(ts[i], key, b)
    && forall j :: 0 <= j < |ts| && IsExit(ts[j], key, b) ==> j == i
  }

  ghost predicate UniqueExit(ts: seq<Transition>, key: string, b: Branch) {
    exists i :: OnlyExit(ts, key, b, i)
  }

  ghost predicate KindRules(s: State, ts: seq<Transition>) {
    match s.kind
    case Vote =>
      && NamesGremiumOnce(s) && UniqueExit(ts, s.key, Pass) && UniqueExit(ts, s.key, Fail)
      && forall i :: 0 <= i < |ts| && ts[i].source == s.key && ts[i].automatic ==> ts[i].branch.Some?
    case Normal =>
      forall i :: 0 <= i < |ts| && ts[i].source == s.key ==> ts[i].branch.None?
  }

  ghost predicate AllReachableFrom(g: Flow, initial: string) {
    forall k :: k in Keys(g.states) ==> Reaches(AllEdges(g), initial, k)
  }

  ghost predicate WellFormedFlow(g: Flow) {
    && DistinctKeys(g.states)
    && (exists i :: OnlyInitial(g.states, i) && AllReachableFrom(g, g.states[i].key))
    && (forall i :: 0 <= i < |g.Transitions()| ==> TransitionRules(g.Transitions()[i], g.states))
    && (forall i :: 0 <= i < |g.states| ==> KindRules(g.states[i], g.Transitions()))
    && Acyclic(AutomaticEdges(g))
  }

  // -- each check decides its rule ---------------------------------------------------------------------

  lemma VoteKeysDecided(states: seq<State>, key: string)
    ensures IsVoteKey(states, key) <==> IsVote(states, key)
    ensures IsBudgetVoteKey(states, key) <==> IsBudgetVoteState(states, key)
  {
    assert forall i :: 0 <= i < |states| ==> states[i] in states;
  }

  lemma NotifiesDecided(action: Json)
    ensures Actions.NotifiesVoteGremium(action) <==> NotifiesVote(action)
  {
    if action.Obj? {
      var recipients := GetOrNull(action.entries, "recipients");
      if recipients.Arr? {
        assert Get(action.entries, "recipients") == Some(Arr(recipients.items));
        assert forall i :: 0 <= i < |recipients.items| ==> recipients.items[i] in recipients.items;
      }
    }
  }

  lemma CostCenterDecided(action: Json)
    ensures (exists name :: name in Actions.ASSIGN_BUDGET_TYPES && Actions.HasType(action, name)) <==> SetsCostCenter(action)
  {
    assert "assignBudget" in Actions.ASSIGN_BUDGET_TYPES && "assignBudgetFromField" in Actions.ASSIGN_BUDGET_TYPES;
    assert "assignBudgetFromMap" in Actions.ASSIGN_BUDGET_TYPES;
    assert "assignBudgetFromApplicantGremium" in Actions.ASSIGN_BUDGET_TYPES;
  }

  lemma ActionChecked(action: Json, intoVote: bool, intoBudgetVote: bool)
    ensures CheckAction(action, intoVote, intoBudgetVote).Ok? <==> ActionRules(action, intoVote, intoBudgetVote)
  {
    Actions.ActionDecided(action);
    CostCenterDecided(action);
    NotifiesDecided(action);
  }

  lemma {:induction false} CheckedActions(actions: seq<Json>, intoVote: bool, intoBudgetVote: bool)
    ensures CheckActions(actions, intoVote, intoBudgetVote).Ok? <==>
            forall a :: a in actions ==> ActionRules(a, intoVote, intoBudgetVote)
  {
    if actions != [] {
      ActionChecked(actions[0], intoVote, intoBudgetVote);
      CheckedActions(actions[1..], intoVote, intoBudgetVote);
      assert actions == [actions[0]] + actions[1..];
    }
  }

  lemma TransitionsDecided(ts: seq<Transition>, states: seq<State>)
    ensures CheckTransitions(ts, states).Ok? <==> forall i :: 0 <= i < |ts| ==> TransitionRules(ts[i], states)
  {
    CheckedTransitions(ts, states);
    forall i | 0 <= i < |ts| ensures CheckTransition(ts[i], states).Ok? <==> TransitionRules(ts[i], states) {
      VoteKeysDecided(states, ts[i].target);
      GuardMeaning.GuardDecided(ts[i].guard, !ts[i].automatic);
      CheckedActions(ts[i].actions, IsVoteKey(states, ts[i].target), IsBudgetVoteKey(states, ts[i].target));
    }
  }

  lemma {:induction false} InitialsDecided(states: seq<State>)
    ensures Initials(states) == [] <==> forall i :: 0 <= i < |states| ==> !states[i].isInitial
    ensures |Initials(states)| == 1 <==> exists i :: OnlyInitial(states, i)
    ensures forall i :: OnlyInitial(states, i) ==> Initials(states) == [states[i].key]
  {
    if states != [] {
      var rest := states[1..];
      InitialsDecided(rest);
      assert forall i :: 0 < i < |states| ==> states[i] == rest[i - 1];
      assert forall i :: 0 <= i < |rest| ==> rest[i] == states[i + 1];
      if states[0].isInitial {
        forall i | OnlyInitial(states, i) ensures i == 0 && Initials(rest) == [] {
        }
        if Initials(rest) == [] {
          assert OnlyInitial(states, 0);
        }
      } else {
        forall i | OnlyInitial(states, i) ensures OnlyInitial(rest, i - 1) {
        }
        forall i | OnlyInitial(rest, i) ensures OnlyInitial(states, i + 1) {
        }
      }
    }
  }

  lemma ExitsShift(ts: seq<Transition>, key: string, b: Branch)
    requires ts != []
    ensures !IsExit(ts[0], key, b) ==> (UniqueExit(ts, key, b) <==> UniqueExit(ts[1..], key, b))
    ensures IsExit(ts[0], key, b) ==>
              (UniqueExit(ts, key, b) <==> forall i :: 0 <= i < |ts[1..]| ==> !IsExit(ts[1..][i], key, b))
  {
    var rest := ts[1..];
    assert forall i :: 0 < i < |ts| ==> ts[i] == rest[i - 1];
    assert forall i :: 0 <= i < |rest| ==> rest[i] == ts[i + 1];
    if IsExit(ts[0], key, b) {
      if forall i :: 0 <= i < |rest| ==> !IsExit(rest[i], key, b) {
        assert OnlyExit(ts, key, b, 0);
      }
    } else {
      forall i | OnlyExit(ts, key, b, i) ensures OnlyExit(rest, key, b, i - 1) {
      }
      forall i | OnlyExit(rest, key, b, i) ensures OnlyExit(ts, key, b, i + 1) {
      }
    }
  }

  lemma {:induction false} BranchesCounted(ts: seq<Transition>, key: string, b: Branch)
    ensures forall i :: 0 <= i < |OutgoingBranches(ts, key, b)| ==> OutgoingBranches(ts, key, b)[i] == b
    ensures OutgoingBranches(ts, key, b) == [] <==> forall i :: 0 <= i < |ts| ==> !IsExit(ts[i], key, b)
    ensures |OutgoingBranches(ts, key, b)| == 1 <==> UniqueExit(ts, key, b)
  {
    if ts != [] {
      BranchesCounted(ts[1..], key, b);
      ExitsShift(ts, key, b);
      assert forall i :: 0 < i < |ts| ==> ts[i] == ts[1..][i - 1];
      assert forall i :: 0 <= i < |ts[1..]| ==> ts[1..][i] == ts[i + 1];
    }
  }

  lemma VoteBranchesDecided(ts: seq<Transition>, key: string)
    ensures SortedBranches(ts, key) == [Fail, Pass] <==> UniqueExit(ts, key, Pass) && UniqueExit(ts, key, Fail)
    ensures SortedBranches(ts, key) == [] <==> forall i :: 0 <= i < |ts| && ts[i].source == key ==> ts[i].branch.None?
  {
    BranchesCounted(ts, key, Fail);
    BranchesCounted(ts, key, Pass);
    var fails, passes := OutgoingBranches(ts, key, Fail), OutgoingBranches(ts, key, Pass);
    if fails + passes == [Fail, Pass] {
      assert (fails + passes)[0] == Fail && (fails + passes)[1] == Pass;
      assert |fails| + |passes| == 2;
    }
    if forall i :: 0 <= i < |ts| && ts[i].source == key ==> ts[i].branch.None? {
      assert forall i, b :: 0 <= i < |ts| ==> !IsExit(ts[i], key, b);
    } else {
      var i :| 0 <= i < |ts| && ts[i].source == key && ts[i].branch.Some?;
      match ts[i].branch.value {
        case Fail => assert IsExit(ts[i], key, Fail);
        case Pass => assert IsExit(ts[i], key, Pass);
      }
      assert fails != [] || passes != [];
    }
  }

  lemma KindDecided(s: State, ts: seq<Transition>)
    ensures CheckStateKind(s, ts).Ok? <==> KindRules(s, ts)
  {
    VoteBranchesDecided(ts, s.key);
    assert CheckVoteGremium(s).Ok? <==> NamesGremiumOnce(s);
  }

  lemma {:induction false} KindsDecided(states: seq<State>, ts: seq<Transition>)
    ensures CheckStateKinds(states, ts).Ok? <==> forall i :: 0 <= i < |states| ==> KindRules(states[i], ts)
  {
    if states != [] {
      KindDecided(states[0], ts);
      KindsDecided(states[1..], ts);
      assert forall i :: 0 <= i < |states[1..]| ==> states[1..][i] == states[i + 1];
      assert forall i :: 0 < i < |states| ==> states[i] == states[1..][i - 1];
    }
  }

  lemma InitialDecided(states: seq<State>)
    ensures CheckedInitial(states).Ok? <==> DistinctKeys(states) && exists i :: OnlyInitial(states, i)
    ensures CheckedInitial(states).Ok? ==>
              exists i :: OnlyInitial(states, i) && states[i].key == CheckedInitial(states).value
  {
    InitialsDecided(states);
  }

  lemma ReachableDecided(g: Flow, initial: string)
    requires EndsKnown(g.states, g.Transitions()) && initial in Keys(g.states)
    ensures AssertAllReachable(initial, Keys(g.states), g.Transitions()).Ok? <==> AllReachableFrom(g, initial)
  {
    AdjacencyIsTotal(g.states, g.Transitions(), false);
    ReachableIsReachability(AllEdges(g), initial);
    var missed := Keys(g.states) - Reachable(AllEdges(g), initial);
    if missed == {} {
      forall k | k in Keys(g.states) ensures Reaches(AllEdges(g), initial, k) {
        assert k !in missed;
      }
    }
  }

  lemma CyclesDecided(g: Flow, order: seq<string>)
    requires Elements(order) == Keys(g.states) && EndsKnown(g.states, g.Transitions())
    ensures Total(AutomaticEdges(g))
    ensures AssertNoAutomaticCycle(Keys(g.states), g.Transitions(), order).Ok? <==> Acyclic(AutomaticEdges(g))
  {
    AdjacencyIsTotal(g.states, g.Transitions(), true);
    FirstCycleIsExact(order, AutomaticEdges(g));
  }

  /**
   The validator accepts a flow exactly when it obeys the rules: every state has a walk from the one
   initial state, and no closed walk of automatic transitions exists. The order in which the key set
   is listed does not matter.
   */
  lemma ValidatorIsExact(g: Flow, order: seq<string>)
    requires Elements(order) == Keys(g.states)
    ensures ValidateFlow(g, order).Ok? <==> WellFormedFlow(g)
    ensures WellFormedFlow(g) ==> Total(AutomaticEdges(g))
  {
    var states, ts := g.states, g.Transitions();
    InitialDecided(states);
    TransitionsDecided(ts, states);
    KindsDecided(states, ts);
    if CheckedInitial(states).Ok? && CheckTransitions(ts, states).Ok? {
      var i :| OnlyInitial(states, i) && states[i].key == CheckedInitial(states).value;
      assert forall j :: OnlyInitial(states, j) ==> j == i;
      KeysAreStateKeys(states, i);
      TransitionsCheckedMeansEndsKnown(states, ts);
      ReachableDecided(g, states[i].key);
      CyclesDecided(g, order);
    }
  }

  // -- which error is reported ----------------------------------------------------------------------------

  ghost predicate TwoInitials(states: seq<State>) {
    exists i, j :: 0 <= i < j < |states| && states[i].isInitial && states[j].isInitial
  }

  lemma SeveralInitialsCounted(states: seq<State>)
    ensures |Initials(states)| > 1 <==> TwoInitials(states)
  {
    InitialsDecided(states);
    if TwoInitials(states) {
      var i, j :| 0 <= i < j < |states| && states[i].isInitial && states[j].isInitial;
      forall k ensures !OnlyInitial(states, k) {
      }
    } else if i :| 0 <= i < |states| && states[i].isInitial {
      assert OnlyInitial(states, i);
    }
  }

  /** The first checks report, in this order, no states, a key used twice, no initial state, or several. */
  lemma HeadErrors(states: seq<State>)
    ensures CheckedInitial(states) == Err(NoStates) <==> states == []
    ensures CheckedInitial(states) == Err(DuplicateKeys) <==> !DistinctKeys(states)
    ensures CheckedInitial(states) == Err(NoInitial) <==>
              states != [] && DistinctKeys(states) && forall i :: 0 <= i < |states| ==> !states[i].isInitial
    ensures CheckedInitial(states) == Err(SeveralInitials) <==> DistinctKeys(states) && TwoInitials(states)
  {
    InitialsDecided(states);
    SeveralInitialsCounted(states);
  }

  /** A transition is refused for its source first, then for its target, for a loop, and for its guard. */
  lemma TransitionErrors(t: Transition, states: seq<State>)
    ensures var check := CheckTransition(t, states);
            && (check == Err(UnknownSource) <==> t.source !in Keys(states))
            && (check == Err(UnknownTarget) <==> t.source in Keys(states) && t.target !in Keys(states))
            && (check == Err(SelfLoop) <==> t.source in Keys(states) && t.target == t.source)
            && ((check.Err? && check.error.BadGuard?) <==>
                  t.source in Keys(states) && t.target in Keys(states) && t.source != t.target
                  && !GuardMeaning.IsGuard(t.guard, !t.automatic))
  {
    GuardMeaning.GuardDecided(t.guard, !t.automatic);
    ActionErrorsOnly(t.actions, IsVoteKey(states, t.target), IsBudgetVoteKey(states, t.target));
  }

  predicate IsActionError(e: FlowError) {
    e.BadAction? || e.SessionOutsideVote? || e.LateAssignment? || e.FixedGremium? || e.NotifyOutsideVote?
  }

  lemma {:induction false} ActionErrorsOnly(actions: seq<Json>, intoVote: bool, intoBudgetVote: bool)
    ensures CheckActions(actions, intoVote, intoBudgetVote).Err? ==>
              IsActionError(CheckActions(actions, intoVote, intoBudgetVote).error)
  {
    if actions != [] {
      ActionErrorsOnly(actions[1..], intoVote, intoBudgetVote);
    }
  }

  /** An action is refused for itself first; the other errors each name the rule of the target that it breaks. */
  lemma ActionErrors(action: Json, intoVote: bool, intoBudgetVote: bool)
    ensures var check := CheckAction(action, intoVote, intoBudgetVote);
            && ((check.Err? && check.error.BadAction?) <==> !Actions.IsAllowed(action))
            && (check == Err(SessionOutsideVote) ==> Actions.IsOfType(action, "addToNextSession") && !intoVote)
            && (check == Err(LateAssignment) ==> SetsCostCenter(action) && intoBudgetVote)
            && (check == Err(FixedGremium) ==>
                  Actions.IsOfType(action, "addToNextSession") && intoBudgetVote && Get(action.entries, "gremiumId").Some?)
            && (check == Err(NotifyOutsideVote) ==> NotifiesVote(action) && !intoVote)
  {
    Actions.ActionDecided(action);
    CostCenterDecided(action);
    NotifiesDecided(action);
  }
}

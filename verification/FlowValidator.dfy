/**
 The structural validator of a flow, `validate_flow_graph`, in the order of its checks, and the
 rules it stands for, stated without any order or search.
 */
module FlowValidator {
  import opened Json
  import opened Wrappers
  import opened FlowModel
  import opened Walks
  import opened FlowSearch
  import opened Seqs
  import Guards
  import Actions

  datatype FlowError =
    | NoStates | DuplicateKeys | NoInitial | SeveralInitials
    | UnknownSource | UnknownTarget | SelfLoop
    | BadGuard(fault: Guards.Fault) | BadAction(why: Actions.ActionError)
    | SessionOutsideVote | LateAssignment | FixedGremium | NotifyOutsideVote
    | VoteGremium | VoteBranches | AutomaticVoteExit | StrayBranch
    | Unreachable | AutomaticCycle(cycle: seq<string>)

  type FlowCheck = Result<(), FlowError>

  const GREMIUM_SOURCE := "gremiumSource"
  const GREMIUM_ID := "gremiumId"
  const BUDGET := Str("budget")

  // -- parts ----------------------------------------------------------------------------------------

  function Initials(states: seq<State>): seq<string> {
    if states == [] then []
    else (if states[0].isInitial then [states[0].key] else []) + Initials(states[1..])
  }

  predicate IsVoteKey(states: seq<State>, key: string) {
    exists i :: 0 <= i < |states| && states[i].key == key && states[i].kind.Vote?
  }

  predicate IsBudgetVote(s: State) {
    s.kind.Vote? && GetOrNull(s.config, GREMIUM_SOURCE) == BUDGET
  }

  predicate IsBudgetVoteKey(states: seq<State>, key: string) {
    exists i :: 0 <= i < |states| && states[i].key == key && IsBudgetVote(states[i])
  }

  /** The targets of the transitions out of a state, in order. */
  function Targets(ts: seq<Transition>, key: string, automaticOnly: bool): seq<string> {
    if ts == [] then []
    else
      (if ts[0].source == key && (automaticOnly ==> ts[0].automatic) then [ts[0].target] else [])
      + Targets(ts[1..], key, automaticOnly)
  }

  function Adjacency(keys: set<string>, ts: seq<Transition>, automaticOnly: bool): Graph {
    map k | k in keys :: Targets(ts, k, automaticOnly)
  }

  function OutgoingBranches(ts: seq<Transition>, key: string, b: Branch): seq<Branch> {
    if ts == [] then []
    else (if ts[0].source == key && ts[0].branch == Some(b) then [b] else []) + OutgoingBranches(ts[1..], key, b)
  }

  /** The branches out of a state, sorted by name: every "fail" before every "pass". */
  function SortedBranches(ts: seq<Transition>, key: string): seq<Branch> {
    OutgoingBranches(ts, key, Fail) + OutgoingBranches(ts, key, Pass)
  }

  // -- the checks ---------------------------------------------------------------------------------------

  function CheckAction(action: Json, intoVote: bool, intoBudgetVote: bool): FlowCheck {
    var valid := Actions.ValidateAction(action);
    if valid.Err? then Err(BadAction(valid.error))
    else if Actions.HasType(action, "addToNextSession") && !intoVote then Err(SessionOutsideVote)
    else if (exists name :: name in Actions.ASSIGN_BUDGET_TYPES && Actions.HasType(action, name)) && intoBudgetVote
    then Err(LateAssignment)
    else if Actions.HasType(action, "addToNextSession") && HasKey(action.entries, GREMIUM_ID) && intoBudgetVote
    then Err(FixedGremium)
    else if Actions.NotifiesVoteGremium(action) && !intoVote then Err(NotifyOutsideVote)
    else Ok(())
  }

  function CheckActions(actions: seq<Json>, intoVote: bool, intoBudgetVote: bool): FlowCheck {
    if actions == [] then Ok(()) else
      var _ :- CheckAction(actions[0], intoVote, intoBudgetVote);
      CheckActions(actions[1..], intoVote, intoBudgetVote)
  }

  function CheckTransition(t: Transition, states: seq<State>): FlowCheck {
    if t.source !in Keys(states) then Err(UnknownSource)
    else if t.target !in Keys(states) then Err(UnknownTarget)
    else if t.source == t.target then Err(SelfLoop)
    else
      var guard := Guards.ValidateGuard(t.guard, !t.automatic);
      if guard.Err? then Err(BadGuard(guard.error))
      else CheckActions(t.actions, IsVoteKey(states, t.target), IsBudgetVoteKey(states, t.target))
  }

  function CheckTransitions(ts: seq<Transition>, states: seq<State>): FlowCheck {
    if ts == [] then Ok(()) else
      var _ :- CheckTransition(ts[0], states);
      CheckTransitions(ts[1..], states)
  }

  function CheckVoteGremium(s: State): FlowCheck {
    var id, source := Get(s.config, GREMIUM_ID), Get(s.config, GREMIUM_SOURCE);
    if id.Some? && source.Some? then Err(VoteGremium)
    else if source.Some? then
      if source.value != BUDGET then Err(VoteGremium)
      else if s.isInitial then Err(VoteGremium)
      else Ok(())
    else if id.None? || !NonEmptyString(id.value) then Err(VoteGremium)
    else Ok(())
  }

  predicate HasAutomaticPlainExit(ts: seq<Transition>, key: string) {
    exists i :: 0 <= i < |ts| && ts[i].source == key && ts[i].automatic && ts[i].branch.None?
  }

  function CheckStateKind(s: State, ts: seq<Transition>): FlowCheck {
    var branches := SortedBranches(ts, s.key);
    if s.kind.Vote? then
      var _ :- CheckVoteGremium(s);
      if branches != [Fail, Pass] then Err(VoteBranches)
      else if HasAutomaticPlainExit(ts, s.key) then Err(AutomaticVoteExit)
      else Ok(())
    else if branches != [] then Err(StrayBranch)
    else Ok(())
  }

  function CheckStateKinds(states: seq<State>, ts: seq<Transition>): FlowCheck {
    if states == [] then Ok(()) else
      var _ :- CheckStateKind(states[0], ts);
      CheckStateKinds(states[1..], ts)
  }

  /** Every transition end is a known state. */
  ghost predicate EndsKnown(states: seq<State>, ts: seq<Transition>) {
    forall i :: 0 <= i < |ts| ==> ts[i].source in Keys(states) && ts[i].target in Keys(states)
  }

  lemma {:induction false} AdjacencyEdges(keys: set<string>, ts: seq<Transition>, automaticOnly: bool, a: string, b: string)
    ensures b in Targets(ts, a, automaticOnly) <==>
            exists i :: 0 <= i < |ts| && ts[i].source == a && ts[i].target == b && (automaticOnly ==> ts[i].automatic)
  {
    if ts != [] {
      AdjacencyEdges(keys, ts[1..], automaticOnly, a, b);
      assert forall i :: 0 <= i < |ts[1..]| ==> ts[1..][i] == ts[i + 1];
      if i :| 0 <= i < |ts| && ts[i].source == a && ts[i].target == b && (automaticOnly ==> ts[i].automatic) {
        if i > 0 {
          assert ts[1..][i - 1] == ts[i];
        }
      }
    }
  }

  lemma AdjacencyIsTotal(states: seq<State>, ts: seq<Transition>, automaticOnly: bool)
    requires EndsKnown(states, ts)
    ensures Total(Adjacency(Keys(states), ts, automaticOnly))
  {
    var g := Adjacency(Keys(states), ts, automaticOnly);
    forall a, b | a in g && b in g[a] ensures b in g {
      AdjacencyEdges(Keys(states), ts, automaticOnly, a, b);
    }
  }

  lemma {:induction false} CheckedTransitions(ts: seq<Transition>, states: seq<State>)
    ensures CheckTransitions(ts, states).Ok? <==> forall i :: 0 <= i < |ts| ==> CheckTransition(ts[i], states).Ok?
  {
    if ts != [] {
      CheckedTransitions(ts[1..], states);
      assert forall i :: 0 <= i < |ts[1..]| ==> ts[1..][i] == ts[i + 1];
      assert forall i :: 0 < i < |ts| ==> ts[i] == ts[1..][i - 1];
    }
  }

  lemma TransitionsCheckedMeansEndsKnown(states: seq<State>, ts: seq<Transition>)
    requires CheckTransitions(ts, states).Ok?
    ensures EndsKnown(states, ts)
  {
    CheckedTransitions(ts, states);
  }

  /** The one initial state of a flow with distinct keys. */
  function CheckedInitial(states: seq<State>): Result<string, FlowError> {
    if states == [] then Err(NoStates)
    else if exists i, j :: 0 <= i < j < |states| && states[i].key == states[j].key then Err(DuplicateKeys)
    else
      var initials := Initials(states);
      if |initials| == 0 then Err(NoInitial)
      else if |initials| > 1 then Err(SeveralInitials)
      else Ok(initials[0])
  }

  function AssertAllReachable(initial: string, keys: set<string>, ts: seq<Transition>): FlowCheck {
    if keys - Reachable(Adjacency(keys, ts, false), initial) != {} then Err(Unreachable) else Ok(())
  }

  /** `order` is the order in which Python happens to list the key set. */
  function AssertNoAutomaticCycle(keys: set<string>, ts: seq<Transition>, order: seq<string>): FlowCheck
    requires Elements(order) == keys && Total(Adjacency(keys, ts, true))
  {
    var search := FirstCycle(order, [], {}, Adjacency(keys, ts, true));
    if search.cycle.Some? then Err(AutomaticCycle(search.cycle.value)) else Ok(())
  }

  /** The validator; the verdict does not depend on `order`. */
  function ValidateFlow(g: Flow, order: seq<string>): FlowCheck
    requires Elements(order) == Keys(g.states)
  {
    var states, ts := g.states, g.Transitions();
    var initial :- CheckedInitial(states);
    if CheckTransitions(ts, states).Err? then CheckTransitions(ts, states)
    else
      var _ :- CheckStateKinds(states, ts);
      TransitionsCheckedMeansEndsKnown(states, ts);
      AdjacencyIsTotal(states, ts, true);
      var _ :- AssertAllReachable(initial, Keys(states), ts);
      AssertNoAutomaticCycle(Keys(states), ts, order)
  }
}

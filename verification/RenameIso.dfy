/**
 Renaming a state: the renamed graph is isomorphic to the old one, so the validator gives the same
 verdict, and renaming back restores the graph.
 */
module RenameIso {
  import opened Wrappers
  import opened FlowModel
  import opened FlowValidator
  import opened FlowRules
  import opened GraphOps
  import opened GraphInvariants
  import opened Seqs
  import opened Walks

  // -- walks under a map of the nodes ------------------------------------------------------------------

  function Image(p: seq<string>, key: string, newKey: string): seq<string> {
    Map(k => Renamed(k, key, newKey), p)
  }

  ghost predicate MapsEdges(g: Graph, h: Graph, key: string, newKey: string) {
    forall a, b :: Edge(g, a, b) ==> Edge(h, Renamed(a, key, newKey), Renamed(b, key, newKey))
  }

  lemma ImageIsWalk(g: Graph, h: Graph, key: string, newKey: string, p: seq<string>)
    requires MapsEdges(g, h, key, newKey) && IsWalk(g, p)
    ensures IsWalk(h, Image(p, key, newKey))
  {
    var q := Image(p, key, newKey);
    forall i | 0 <= i < |q| - 1 ensures Edge(h, q[i], q[i + 1]) {
      assert Edge(g, p[i], p[i + 1]);
    }
  }

  lemma ImageReaches(g: Graph, h: Graph, key: string, newKey: string, a: string, b: string)
    requires MapsEdges(g, h, key, newKey) && Reaches(g, a, b)
    ensures Reaches(h, Renamed(a, key, newKey), Renamed(b, key, newKey))
  {
    var p :| WalkBetween(g, p, a, b);
    ImageIsWalk(g, h, key, newKey, p);
    assert WalkBetween(h, Image(p, key, newKey), Renamed(a, key, newKey), Renamed(b, key, newKey));
  }

  /** If the edges of h map into g, an acyclic g makes h acyclic. */
  lemma PreimageIsAcyclic(g: Graph, h: Graph, key: string, newKey: string)
    requires MapsEdges(h, g, key, newKey) && Acyclic(g)
    ensures Acyclic(h)
  {
    forall p | IsWalk(h, p) ensures !IsCycle(h, p) {
      ImageIsWalk(h, g, key, newKey, p);
      assert !IsCycle(g, Image(p, key, newKey));
    }
  }

  // -- the renamed flow --------------------------------------------------------------------------------

  /** `h` is `g` with the state `key` called `newKey`, as far as the validator reads it. */
  ghost predicate RenamedFlow(g: Flow, h: Flow, key: string, newKey: string) {
    && |h.states| == |g.states|
    && (forall i :: 0 <= i < |g.states| ==> h.states[i] == g.states[i].(key := Renamed(g.states[i].key, key, newKey)))
    && |h.Transitions()| == |g.Transitions()|
    && (forall i :: 0 <= i < |g.Transitions()| ==>
          h.Transitions()[i] == RenamedTransition(g.Transitions()[i], key, newKey))
  }

  ghost predicate FreshRename(g: Flow, key: string, newKey: string) {
    && DistinctKeys(g.states) && EndsKnown(g.states, g.Transitions())
    && key in Keys(g.states) && newKey !in Keys(g.states)
  }

  lemma RenamedKeys(g: Flow, h: Flow, key: string, newKey: string)
    requires RenamedFlow(g, h, key, newKey) && FreshRename(g, key, newKey)
    ensures Keys(h.states) == Keys(g.states) - {key} + {newKey}
  {
    forall k | k in Keys(g.states) ensures Renamed(k, key, newKey) in Keys(h.states) {
      var s :| s in g.states && s.key == k;
      var i :| 0 <= i < |g.states| && g.states[i] == s;
      KeysAreStateKeys(h.states, i);
    }
    forall k | k in Keys(h.states) ensures k in Keys(g.states) - {key} + {newKey} {
      var s :| s in h.states && s.key == k;
      var i :| 0 <= i < |h.states| && h.states[i] == s;
      KeysAreStateKeys(g.states, i);
    }
    forall k | k in Keys(g.states) - {key} + {newKey} ensures k in Keys(h.states) {
      assert Renamed(key, key, newKey) == newKey;
      assert k != key ==> Renamed(k, key, newKey) == k;
    }
  }

  lemma {:induction false} RenamedEdges(g: Flow, h: Flow, key: string, newKey: string, automaticOnly: bool)
    requires RenamedFlow(g, h, key, newKey) && FreshRename(g, key, newKey)
    ensures MapsEdges(Adjacency(Keys(g.states), g.Transitions(), automaticOnly),
                      Adjacency(Keys(h.states), h.Transitions(), automaticOnly), key, newKey)
  {
    var ga := Adjacency(Keys(g.states), g.Transitions(), automaticOnly);
    var ha := Adjacency(Keys(h.states), h.Transitions(), automaticOnly);
    RenamedKeys(g, h, key, newKey);
    forall a, b | Edge(ga, a, b) ensures Edge(ha, Renamed(a, key, newKey), Renamed(b, key, newKey)) {
      var ts, us := g.Transitions(), h.Transitions();
      AdjacencyEdges(Keys(g.states), ts, automaticOnly, a, b);
      var i :| 0 <= i < |ts| && ts[i].source == a && ts[i].target == b && (automaticOnly ==> ts[i].automatic);
      assert us[i] == RenamedTransition(ts[i], key, newKey);
      AdjacencyEdges(Keys(h.states), us, automaticOnly, Renamed(a, key, newKey), Renamed(b, key, newKey));
    }
  }

  /** The renaming can be undone on every key of the old flow. */
  lemma RenameBackIsRename(g: Flow, h: Flow, key: string, newKey: string)
    requires RenamedFlow(g, h, key, newKey) && FreshRename(g, key, newKey)
    ensures RenamedFlow(h, g, newKey, key) && FreshRename(h, newKey, key)
  {
    RenamedKeys(g, h, key, newKey);
    forall i | 0 <= i < |g.states| ensures g.states[i] == h.states[i].(key := Renamed(h.states[i].key, newKey, key)) {
      KeysAreStateKeys(g.states, i);
    }
    forall i, j | 0 <= i < j < |h.states| ensures h.states[i].key != h.states[j].key {
      KeysAreStateKeys(g.states, i);
      KeysAreStateKeys(g.states, j);
    }
    forall i | 0 <= i < |h.Transitions()|
      ensures g.Transitions()[i] == RenamedTransition(h.Transitions()[i], newKey, key)
      ensures h.Transitions()[i].source in Keys(h.states) && h.Transitions()[i].target in Keys(h.states)
    {
      assert h.Transitions()[i] == RenamedTransition(g.Transitions()[i], key, newKey);
      assert g.Transitions()[i].source in Keys(g.states) && g.Transitions()[i].target in Keys(g.states);
    }
  }

  // -- every rule survives --------------------------------------------------------------------------------

  lemma RenamedVoteKeys(g: Flow, h: Flow, key: string, newKey: string, k: string)
    requires RenamedFlow(g, h, key, newKey) && FreshRename(g, key, newKey) && k in Keys(g.states)
    ensures IsVote(h.states, Renamed(k, key, newKey)) <==> IsVote(g.states, k)
    ensures IsBudgetVoteState(h.states, Renamed(k, key, newKey)) <==> IsBudgetVoteState(g.states, k)
  {
    VoteKeysDecided(g.states, k);
    VoteKeysDecided(h.states, Renamed(k, key, newKey));
    forall i | 0 <= i < |g.states|
      ensures h.states[i].key == Renamed(k, key, newKey) <==> g.states[i].key == k
      ensures h.states[i].kind == g.states[i].kind && IsBudgetVote(h.states[i]) == IsBudgetVote(g.states[i])
    {
      KeysAreStateKeys(g.states, i);
    }
  }

  lemma RenamedTransitionRules(g: Flow, h: Flow, key: string, newKey: string, i: nat)
    requires RenamedFlow(g, h, key, newKey) && FreshRename(g, key, newKey) && i < |g.Transitions()|
    requires TransitionRules(g.Transitions()[i], g.states)
    ensures TransitionRules(h.Transitions()[i], h.states)
  {
    RenamedKeys(g, h, key, newKey);
    RenamedVoteKeys(g, h, key, newKey, g.Transitions()[i].target);
    assert h.Transitions()[i] == RenamedTransition(g.Transitions()[i], key, newKey);
    SameRules(g.Transitions()[i], h.Transitions()[i], g.states, h.states);
  }

  /** The rules of a transition depend on its ends only by whether they are known and lead into a vote. */
  lemma SameRules(t: Transition, u: Transition, states: seq<State>, renamed: seq<State>)
    requires TransitionRules(t, states)
    requires u.source in Keys(renamed) && u.target in Keys(renamed) && u.source != u.target
    requires u.automatic == t.automatic && u.guard == t.guard && u.actions == t.actions
    requires IsVote(renamed, u.target) <==> IsVote(states, t.target)
    requires IsBudgetVoteState(renamed, u.target) <==> IsBudgetVoteState(states, t.target)
    ensures TransitionRules(u, renamed)
  {
  }

  lemma RenamedExits(g: Flow, h: Flow, key: string, newKey: string, k: string, b: Branch)
    requires RenamedFlow(g, h, key, newKey) && FreshRename(g, key, newKey) && k in Keys(g.states)
    ensures UniqueExit(g.Transitions(), k, b) ==> UniqueExit(h.Transitions(), Renamed(k, key, newKey), b)
  {
    var ts, us := g.Transitions(), h.Transitions();
    forall i | 0 <= i < |ts| ensures IsExit(us[i], Renamed(k, key, newKey), b) <==> IsExit(ts[i], k, b) {
      assert ts[i].source in Keys(g.states);
    }
    forall i | OnlyExit(ts, k, b, i) ensures OnlyExit(us, Renamed(k, key, newKey), b, i) {
    }
  }

  lemma RenamedKindRules(g: Flow, h: Flow, key: string, newKey: string, i: nat)
    requires RenamedFlow(g, h, key, newKey) && FreshRename(g, key, newKey) && i < |g.states|
    requires KindRules(g.states[i], g.Transitions())
    ensures KindRules(h.states[i], h.Transitions())
  {
    var s, ts, us := g.states[i], g.Transitions(), h.Transitions();
    KeysAreStateKeys(g.states, i);
    RenamedExits(g, h, key, newKey, s.key, Pass);
    RenamedExits(g, h, key, newKey, s.key, Fail);
    forall j | 0 <= j < |us| ensures us[j].source == h.states[i].key <==> ts[j].source == s.key {
      assert ts[j].source in Keys(g.states);
    }
  }

  lemma RenamedReachability(g: Flow, h: Flow, key: string, newKey: string, initial: string)
    requires RenamedFlow(g, h, key, newKey) && FreshRename(g, key, newKey)
    requires AllReachableFrom(g, initial)
    ensures AllReachableFrom(h, Renamed(initial, key, newKey))
  {
    RenamedKeys(g, h, key, newKey);
    RenamedEdges(g, h, key, newKey, false);
    forall k | k in Keys(h.states) ensures Reaches(AllEdges(h), Renamed(initial, key, newKey), k) {
      var was := if k == newKey then key else k;
      ImageReaches(AllEdges(g), AllEdges(h), key, newKey, initial, was);
    }
  }

  lemma {:induction false} RenamedStaysWellFormed(g: Flow, h: Flow, key: string, newKey: string)
    requires RenamedFlow(g, h, key, newKey) && FreshRename(g, key, newKey)
    requires WellFormedFlow(g)
    ensures WellFormedFlow(h)
  {
    RenameBackIsRename(g, h, key, newKey);
    var i :| OnlyInitial(g.states, i) && AllReachableFrom(g, g.states[i].key);
    RenamedReachability(g, h, key, newKey, g.states[i].key);
    assert OnlyInitial(h.states, i);
    forall n | 0 <= n < |h.Transitions()| ensures TransitionRules(h.Transitions()[n], h.states) {
      RenamedTransitionRules(g, h, key, newKey, n);
    }
    forall n | 0 <= n < |h.states| ensures KindRules(h.states[n], h.Transitions()) {
      RenamedKindRules(g, h, key, newKey, n);
    }
    RenamedEdges(h, g, newKey, key, true);
    PreimageIsAcyclic(AutomaticEdges(g), AutomaticEdges(h), newKey, key);
  }

  // -- the operation ----------------------------------------------------------------------------------------

  lemma UpdateStateRenames(g: Flow, key: string, newKey: string)
    requires DistinctKeys(g.states) && IsRename(key, KeyPatch(newKey)) && UpdateState(g, key, KeyPatch(newKey)).Ok?
    ensures RenamedFlow(g, UpdateState(g, key, KeyPatch(newKey)).value, key, newKey)
    ensures key in Keys(g.states) && newKey !in Keys(g.states)
  {
    RenameTakesFreshKey(g, key, KeyPatch(newKey));
    var i := StateIndex(g.states, key).value;
    KeysAreStateKeys(g.states, i);
    var h := UpdateState(g, key, KeyPatch(newKey)).value;
    forall j | 0 <= j < |g.states| ensures h.states[j] == g.states[j].(key := Renamed(g.states[j].key, key, newKey)) {
      assert j != i ==> g.states[j].key != g.states[i].key;
      assert g.states[j].extras + map[] == g.states[j].extras;
    }
  }

  /**
   On a graph with distinct keys and known transition ends, a rename through the editor changes the
   verdict of the validator in neither direction, whatever order the key sets come in.
   */
  lemma {:induction false} RenameKeepsVerdict(g: Flow, key: string, newKey: string, order: seq<string>, newOrder: seq<string>)
    requires DistinctKeys(g.states) && Connected(g)
    requires IsRename(key, KeyPatch(newKey)) && UpdateState(g, key, KeyPatch(newKey)).Ok?
    requires Elements(order) == Keys(g.states)
    requires Elements(newOrder) == Keys(UpdateState(g, key, KeyPatch(newKey)).value.states)
    ensures ValidateFlow(UpdateState(g, key, KeyPatch(newKey)).value, newOrder).Ok? <==> ValidateFlow(g, order).Ok?
  {
    var h := UpdateState(g, key, KeyPatch(newKey)).value;
    UpdateStateRenames(g, key, newKey);
    RenameBackIsRename(g, h, key, newKey);
    ValidatorIsExact(g, order);
    ValidatorIsExact(h, newOrder);
    if WellFormedFlow(g) {
      RenamedStaysWellFormed(g, h, key, newKey);
    }
    if WellFormedFlow(h) {
      RenamedStaysWellFormed(h, g, newKey, key);
    }
  }

  // -- back again ----------------------------------------------------------------------------------------------

  function NormalGroup(grp: Group): Group {
    grp.(stateKeys := Some(grp.Members()))
  }

  /** The same graph with its transitions, its layout and the states of its groups written out. */
  function NormalFlow(g: Flow): Flow {
    var layout := g.LayoutOrEmpty();
    Flow(g.states, Some(g.Transitions()),
         Some(layout.(groups := if g.Groups() != [] then Some(Map(grp => NormalGroup(grp), g.Groups())) else layout.groups)))
  }

  lemma GroupsRenameBack(groups: seq<Group>, keys: set<string>, key: string, newKey: string)
    requires MembersResolve(groups, keys) && newKey !in keys
    ensures Map(grp => RenamedGroup(grp, newKey, key), Map(grp => RenamedGroup(grp, key, newKey), groups))
            == Map(grp => NormalGroup(grp), groups)
  {
    var there := Map(grp => RenamedGroup(grp, key, newKey), groups);
    var back := Map(grp => RenamedGroup(grp, newKey, key), there);
    forall i | 0 <= i < |groups| ensures back[i] == NormalGroup(groups[i]) {
      var members := groups[i].Members();
      forall m | 0 <= m < |members| ensures back[i].Members()[m] == members[m] {
        assert groups[i] in groups && members[m] in members;
      }
      assert back[i].Members() == members;
    }
  }

  lemma PositionsRenameBack(layout: Layout, key: string, newKey: string)
    requires newKey !in layout.positions.GetOr(map[])
    ensures RenamedLayout(RenamedLayout(layout, key, newKey), newKey, key).positions == layout.positions
  {
    var positions := layout.positions.GetOr(map[]);
    if key in positions {
      var there := (positions - {key})[newKey := positions[key]];
      assert (there - {newKey})[key := there[newKey]] == positions;
    }
  }

  /**
   Renaming a state to a fresh key and back gives the graph again, with a missing list of
   transitions, layout or group states written out as empty.
   */
  lemma RenameRoundTrip(g: Flow, key: string, newKey: string)
    requires DistinctKeys(g.states) && Connected(g)
    requires g.Positions().Keys <= Keys(g.states) && MembersResolve(g.Groups(), Keys(g.states))
    requires key != "" && IsRename(key, KeyPatch(newKey)) && UpdateState(g, key, KeyPatch(newKey)).Ok?
    ensures UpdateState(UpdateState(g, key, KeyPatch(newKey)).value, newKey, KeyPatch(key)) == Ok(NormalFlow(g))
  {
    var h := UpdateState(g, key, KeyPatch(newKey)).value;
    UpdateStateRenames(g, key, newKey);
    RenameBackIsRename(g, h, key, newKey);
    var i := StateIndex(h.states, newKey);
    assert i.Some? by {
      var s :| s in h.states && s.key == newKey;
    }
    forall j | 0 <= j < |h.states| ensures h.states[j].key != key {
      KeysAreStateKeys(h.states, j);
    }
    var back := UpdateState(h, newKey, KeyPatch(key)).value;
    UpdateStateRenames(h, newKey, key);
    assert back.states == g.states;
    assert back.Transitions() == g.Transitions();
    GroupsRenameBack(g.Groups(), Keys(g.states), key, newKey);
    PositionsRenameBack(g.LayoutOrEmpty(), key, newKey);
  }
}

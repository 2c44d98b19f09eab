/**
 What every edit of a flow graph keeps: references that resolve, and editor groups that form a
 forest in which each state and each group has at most one parent.
 */
module GraphInvariants {
  import opened Json
  import opened Wrappers
  import opened FlowModel
  import opened FlowValidator
  import opened GraphOps
  import opened GroupNesting
  import opened Seqs
  import opened Walks

  /** Two groups with different ids that share no state and no sub-group. */
  ghost predicate Apart(a: Group, b: Group) {
    && a.id != b.id
    && (forall k :: k in a.Members() ==> k !in b.Members())
    && (forall c :: c in a.Children() ==> c !in b.Children())
  }

  ghost predicate Forest(groups: seq<Group>) {
    Pairwise(groups, Apart) && Acyclic(Nesting(groups))
  }

  ghost predicate MembersResolve(groups: seq<Group>, keys: set<string>) {
    forall grp, k :: grp in groups && k in grp.Members() ==> k in keys
  }

  /** Distinct state keys, and positions and groups that name existing states; the groups form a forest. */
  ghost predicate Grouped(g: Flow) {
    && DistinctKeys(g.states)
    && g.Positions().Keys <= Keys(g.states)
    && MembersResolve(g.Groups(), Keys(g.states))
    && Forest(g.Groups())
  }

  ghost predicate Connected(g: Flow) {
    EndsKnown(g.states, g.Transitions())
  }

  // -- groups ----------------------------------------------------------------------------------------

  /** The same group with fewer states and sub-groups. */
  ghost predicate Shrinks(smaller: Group, grp: Group) {
    && smaller.id == grp.id
    && (forall k :: k in smaller.Members() ==> k in grp.Members())
    && (forall c :: c in smaller.Children() ==> c in grp.Children())
  }

  lemma ApartHasDistinctIds(groups: seq<Group>)
    requires Pairwise(groups, Apart)
    ensures forall i, j :: 0 <= i < j < |groups| ==> groups[i].id != groups[j].id
  {
    assert forall i, j :: 0 <= i < j < |groups| ==> Apart(groups[i], groups[j]);
  }

  /** Groups that only lost content, or that were dropped, keep an acyclic nesting. */
  lemma FewerEdgesKeepAcyclic(groups: seq<Group>, fewer: seq<Group>)
    requires Forest(groups)
    requires forall grp :: grp in fewer ==>
               exists i :: 0 <= i < |groups| && groups[i].id == grp.id && forall c :: c in grp.Children() ==> c in groups[i].Children()
    ensures Acyclic(Nesting(fewer))
  {
    assert forall i, j :: 0 <= i < j < |groups| ==> Apart(groups[i], groups[j]);
    forall a, b | Edge(Nesting(fewer), a, b) ensures Edge(Nesting(groups), a, b) {
      NestingEdges(fewer, a, b);
      NestingEdges(groups, a, b);
      var i :| 0 <= i < |fewer| && fewer[i].id == a && b in fewer[i].Children();
      assert fewer[i] in fewer;
    }
    SubgraphIsAcyclic(Nesting(groups), Nesting(fewer));
  }

  lemma ShrinkAndFilterKeepForest(groups: seq<Group>, smaller: seq<Group>, keep: Group -> bool)
    requires Forest(groups)
    requires |smaller| == |groups| && forall i :: 0 <= i < |groups| ==> Shrinks(smaller[i], groups[i])
    ensures Forest(Filter(keep, smaller))
  {
    FilterKeepsPairs(keep, smaller, Apart);
    FewerEdgesKeepAcyclic(groups, Filter(keep, smaller));
  }

  lemma RemoveStateKeepsForest(groups: seq<Group>, key: string)
    requires Forest(groups)
    ensures Forest(Filter(HasContent, Map(grp => WithoutMember(grp, key), groups)))
  {
    ShrinkAndFilterKeepForest(groups, Map(grp => WithoutMember(grp, key), groups), HasContent);
  }

  lemma DeleteGroupKeepsForest(groups: seq<Group>, id: string)
    requires Forest(groups)
    ensures Forest(Map(grp => WithoutChild(grp, id), Filter((grp: Group) => grp.id != id, groups)))
  {
    var keep := (grp: Group) => grp.id != id;
    ShrinkAndFilterKeepForest(groups, groups, keep);
    var others := Filter(keep, groups);
    var remaining := Map(grp => WithoutChild(grp, id), others);
    forall i | 0 <= i < |others| ensures Shrinks(remaining[i], others[i]) {
    }
    ShrinkAndFilterKeepForest(others, remaining, grp => true);
    FilterKeepsAll(grp => true, remaining);
  }

  lemma RenameKeepsForest(groups: seq<Group>, key: string, newKey: string)
    requires Forest(groups)
    requires forall grp :: grp in groups ==> newKey !in grp.Members()
    ensures Forest(Map(grp => RenamedGroup(grp, key, newKey), groups))
  {
    var renamed := Map(grp => RenamedGroup(grp, key, newKey), groups);
    forall i, j | 0 <= i < j < |renamed| ensures Apart(renamed[i], renamed[j]) {
      assert Apart(groups[i], groups[j]);
      assert groups[i] in groups && groups[j] in groups;
      assert renamed[i].Children() == groups[i].Children() && renamed[j].Children() == groups[j].Children();
      forall k | k in renamed[i].Members() ensures k !in renamed[j].Members() {
        var m :| 0 <= m < |groups[i].Members()| && renamed[i].Members()[m] == k;
        assert groups[i].Members()[m] in groups[i].Members();
        forall n | 0 <= n < |groups[j].Members()| ensures renamed[j].Members()[n] != k {
          assert groups[j].Members()[n] in groups[j].Members();
        }
      }
    }
    forall grp | grp in renamed
      ensures exists i :: 0 <= i < |groups| && groups[i].id == grp.id && forall c :: c in grp.Children() ==> c in groups[i].Children()
    {
      var i :| 0 <= i < |renamed| && renamed[i] == grp;
      assert groups[i].id == grp.id;
    }
    FewerEdgesKeepAcyclic(groups, renamed);
  }

  lemma StrippedIsApart(group: Group, groups: seq<Group>)
    requires Pairwise(groups, Apart)
    ensures Pairwise(StrippedFor(group, groups), Apart)
    ensures forall grp :: grp in StrippedFor(group, groups) && grp.id != group.id ==> Apart(grp, group)
  {
    var strip := LeavesOut(group);
    var keep := StaysBeside(group);
    var stripped := Map(strip, groups);
    forall i | 0 <= i < |groups| ensures Shrinks(stripped[i], groups[i]) && (stripped[i].id != group.id ==> Apart(stripped[i], group)) {
    }
    FilterKeepsPairs(keep, stripped, Apart);
    assert StrippedFor(group, groups) == Filter(keep, stripped);
  }

  lemma UpsertKeepsApart(group: Group, groups: seq<Group>)
    requires Pairwise(groups, Apart)
    ensures Pairwise(Upserted(group, groups), Apart)
  {
    StrippedIsApart(group, groups);
    var kept, result := StrippedFor(group, groups), Upserted(group, groups);
    var at := GroupIndex(kept, group.id).GetOr(|kept|);
    forall i | 0 <= i < |kept| && i != at ensures Apart(kept[i], group) {
      assert kept[i] in kept;
      if at < |kept| {
        assert if i < at then Apart(kept[i], kept[at]) else Apart(kept[at], kept[i]);
      }
    }
    forall i, j | 0 <= i < j < |result| ensures Apart(result[i], result[j]) {
    }
  }

  lemma UpsertedMembers(group: Group, groups: seq<Group>, keys: set<string>)
    requires MembersResolve(groups, keys) && forall k :: k in group.Members() ==> k in keys
    ensures MembersResolve(Upserted(group, groups), keys)
  {
    var kept := StrippedFor(group, groups);
    forall grp, k | grp in Upserted(group, groups) && k in grp.Members() ensures k in keys {
      if grp != group {
        assert grp in kept;
        var strip := LeavesOut(group);
        var i :| 0 <= i < |groups| && Map(strip, groups)[i] == grp;
        assert groups[i] in groups && k in groups[i].Members();
      }
    }
  }

  // -- states and transitions --------------------------------------------------------------------------

  lemma KeysOfAdded(states: seq<State>, s: State)
    ensures Keys(states + [s]) == Keys(states) + {s.key}
  {
    assert s in states + [s];
    forall k | k in Keys(states) + {s.key} ensures k in Keys(states + [s]) {
      if k in Keys(states) {
        var t :| t in states && t.key == k;
        assert t in states + [s];
      }
    }
  }

  lemma KeysOfFiltered(states: seq<State>, key: string)
    ensures Keys(Filter((s: State) => s.key != key, states)) == Keys(states) - {key}
  {
    var rest := Filter((s: State) => s.key != key, states);
    forall k | k in Keys(states) - {key} ensures k in Keys(rest) {
      var t :| t in states && t.key == k;
      assert t in rest;
    }
  }

  ghost predicate OtherKey(a: State, b: State) {
    a.key != b.key
  }

  lemma DistinctKeysOfFiltered(states: seq<State>, key: string)
    requires DistinctKeys(states)
    ensures DistinctKeys(Filter((s: State) => s.key != key, states))
  {
    var keep := (s: State) => s.key != key;
    assert Pairwise(states, OtherKey);
    FilterKeepsPairs(keep, states, OtherKey);
    var rest := Filter(keep, states);
    forall i, j | 0 <= i < j < |rest| ensures rest[i].key != rest[j].key {
      assert OtherKey(rest[i], rest[j]);
    }
  }

  /** Replacing the one state of a key replaces that key. */
  lemma KeysOfReplaced(states: seq<State>, i: nat, s: State)
    requires DistinctKeys(states) && i < |states|
    ensures Keys(states[i := s]) == Keys(states) - {states[i].key} + {s.key}
    ensures s.key == states[i].key || s.key !in Keys(states) ==> DistinctKeys(states[i := s])
  {
    var next := states[i := s];
    assert next[i] == s;
    forall k | k in Keys(states) - {states[i].key} ensures k in Keys(next) {
      var t :| t in states && t.key == k;
      var j :| 0 <= j < |states| && states[j] == t;
      assert next[j] == t;
    }
    forall k | k in Keys(next) ensures k in Keys(states) - {states[i].key} + {s.key} {
      var t :| t in next && t.key == k;
      var j :| 0 <= j < |next| && next[j] == t;
      if j != i {
        assert states[j] == t && states[j] in states;
      }
    }
    if s.key !in Keys(states) {
      forall j | 0 <= j < |states| ensures states[j].key != s.key {
        KeysAreStateKeys(states, j);
      }
    }
  }

  lemma MembersOfRemaining(groups: seq<Group>, keys: set<string>, id: string)
    requires MembersResolve(groups, keys)
    ensures MembersResolve(Map(grp => WithoutChild(grp, id), Filter((grp: Group) => grp.id != id, groups)), keys)
  {
    var others := Filter((grp: Group) => grp.id != id, groups);
    var remaining := Map(grp => WithoutChild(grp, id), others);
    forall grp, k | grp in remaining && k in grp.Members() ensures k in keys {
      var i :| 0 <= i < |others| && remaining[i] == grp;
      assert others[i] in others && k in others[i].Members();
    }
  }

  lemma EndsOfKept(states: seq<State>, ts: seq<Transition>, key: string)
    requires EndsKnown(states, ts)
    ensures EndsKnown(Filter((s: State) => s.key != key, states),
                      Filter((t: Transition) => t.source != key && t.target != key, ts))
  {
    KeysOfFiltered(states, key);
    var kept := Filter((t: Transition) => t.source != key && t.target != key, ts);
    forall i | 0 <= i < |kept| ensures kept[i].source in Keys(states) - {key} && kept[i].target in Keys(states) - {key} {
      assert kept[i] in kept;
    }
  }

  lemma AddStateKeepsGrouped(g: Flow, state: State, x: Option<int>, y: Option<int>)
    requires Grouped(g) && AddState(g, state, x, y).Ok?
    ensures Grouped(AddState(g, state, x, y).value)
    ensures Connected(g) ==> Connected(AddState(g, state, x, y).value)
  {
    KeysOfAdded(g.states, state);
  }

  lemma {:induction false} RemoveStateKeepsGrouped(g: Flow, key: string)
    requires Grouped(g) && RemoveState(g, key).Ok?
    ensures Grouped(RemoveState(g, key).value)
    ensures Connected(g) ==> Connected(RemoveState(g, key).value)
  {
    KeysOfFiltered(g.states, key);
    DistinctKeysOfFiltered(g.states, key);
    RemoveStateKeepsForest(g.Groups(), key);
    if Connected(g) {
      EndsOfKept(g.states, g.Transitions(), key);
    }
  }

  lemma MergePositionsKeepsGrouped(g: Flow, positions: map<string, Json>)
    requires Grouped(g) && MergePositions(g, positions).Ok?
    ensures Grouped(MergePositions(g, positions).value)
  {
    var missed := positions.Keys - Keys(g.states);
    forall k | k in positions.Keys ensures k in Keys(g.states) {
      assert k !in missed;
    }
    assert (g.Positions() + positions).Keys == g.Positions().Keys + positions.Keys;
  }

  lemma {:induction false} UpsertGroupKeepsGrouped(g: Flow, group: Group)
    requires Grouped(g) && UpsertGroup(g, group).Ok?
    ensures Grouped(UpsertGroup(g, group).value)
  {
    UpsertKeepsApart(group, g.Groups());
    UpsertedMembers(group, g.Groups(), Keys(g.states));
    AssertAcyclicIsExact(Upserted(group, g.Groups()));
  }

  lemma DeleteGroupKeepsGrouped(g: Flow, id: string)
    requires Grouped(g) && DeleteGroup(g, id).Ok?
    ensures Grouped(DeleteGroup(g, id).value)
  {
    DeleteGroupKeepsForest(g.Groups(), id);
    MembersOfRemaining(g.Groups(), Keys(g.states), id);
  }

  /** A rename that does not raise takes a key no state has. */
  lemma RenameTakesFreshKey(g: Flow, key: string, patch: StatePatch)
    requires UpdateState(g, key, patch).Ok? && IsRename(key, patch)
    ensures patch.key.value !in Keys(g.states)
  {
    var i := StateIndex(g.states, key).value;
    forall j | 0 <= j < |g.states| ensures g.states[j].key != patch.key.value {
      assert j != i ==> g.states[j].key != patch.key.value;
    }
  }

  lemma RenameKeepsGrouped(g: Flow, key: string, patch: StatePatch)
    requires Grouped(g) && UpdateState(g, key, patch).Ok? && IsRename(key, patch)
    ensures Grouped(UpdateState(g, key, patch).value)
    ensures Keys(UpdateState(g, key, patch).value.states) == Keys(g.states) - {key} + {patch.key.value}
    ensures Connected(g) ==> Connected(UpdateState(g, key, patch).value)
  {
    var newKey, i := patch.key.value, StateIndex(g.states, key).value;
    RenameTakesFreshKey(g, key, patch);
    KeysOfReplaced(g.states, i, Patched(g.states[i], patch));
    RenameKeepsForest(g.Groups(), key, newKey);
  }

  /** An update that gives a state the empty key: no rename, so nothing else follows. */
  predicate EmptiesKey(key: string, patch: StatePatch) {
    key != "" && patch.key == Some("")
  }

  lemma UpdateStateKeepsGrouped(g: Flow, key: string, patch: StatePatch)
    requires Grouped(g) && UpdateState(g, key, patch).Ok? && !EmptiesKey(key, patch)
    ensures Grouped(UpdateState(g, key, patch).value)
    ensures Connected(g) ==> Connected(UpdateState(g, key, patch).value)
  {
    if IsRename(key, patch) {
      RenameKeepsGrouped(g, key, patch);
    } else {
      var i := StateIndex(g.states, key).value;
      KeysOfReplaced(g.states, i, Patched(g.states[i], patch));
      KeysAreStateKeys(g.states, i);
      assert Keys(UpdateState(g, key, patch).value.states) == Keys(g.states);
    }
  }

  /** The state key is drawn or grouped in the editor. */
  ghost predicate LaidOut(g: Flow, key: string) {
    key in g.Positions() || exists grp :: grp in g.Groups() && key in grp.Members()
  }

  /** Exactly when an update to the empty key keeps the graph sound: nothing may name the old key. */
  lemma EmptyKeyIsSafeExactlyWhenUnnamed(g: Flow, key: string, patch: StatePatch)
    requires Grouped(g) && UpdateState(g, key, patch).Ok? && EmptiesKey(key, patch)
    ensures Grouped(UpdateState(g, key, patch).value) <==> "" !in Keys(g.states) && !LaidOut(g, key)
  {
    var next := UpdateState(g, key, patch).value;
    var i := StateIndex(g.states, key).value;
    KeysOfReplaced(g.states, i, Patched(g.states[i], patch));
    if "" in Keys(g.states) {
      var t :| t in g.states && t.key == "";
      var j :| 0 <= j < |g.states| && g.states[j] == t;
      assert next.states[i].key == next.states[j].key && i != j;
    }
  }

  /** The new ends of a patched transition are states. */
  predicate PatchResolves(g: Flow, patch: TransitionPatch) {
    && (patch.source.Some? ==> patch.source.value in Keys(g.states))
    && (patch.target.Some? ==> patch.target.value in Keys(g.states))
  }

  lemma PatchIsSafeExactlyWhenItResolves(g: Flow, index: int, patch: TransitionPatch)
    requires Connected(g) && UpdateTransition(g, index, patch).Ok?
    ensures Connected(UpdateTransition(g, index, patch).value) <==> PatchResolves(g, patch)
  {
    var next := UpdateTransition(g, index, patch).value;
    assert next.Transitions()[index] == PatchedTransition(g.Transitions()[index], patch);
  }

  /** The one edit that can break the groups. */
  predicate KeepsKey(e: Edit) {
    e.DoUpdateState? ==> !EmptiesKey(e.key, e.patch)
  }

  lemma EditKeepsGrouped(g: Flow, e: Edit)
    requires Grouped(g) && KeepsKey(e)
    ensures Grouped(AfterEdit(g, e))
    ensures Connected(g) && (e.DoUpdateTransition? ==> PatchResolves(g, e.change)) ==> Connected(AfterEdit(g, e))
  {
    if ApplyEdit(g, e).Ok? {
      match e
      case DoAddState(state, x, y) => AddStateKeepsGrouped(g, state, x, y);
      case DoUpdateState(key, patch) => UpdateStateKeepsGrouped(g, key, patch);
      case DoRemoveState(key) => RemoveStateKeepsGrouped(g, key);
      case DoAddTransition(t) =>
      case DoUpdateTransition(index, change) =>
        if Connected(g) {
          PatchIsSafeExactlyWhenItResolves(g, index, change);
        }
      case DoRemoveTransition(index) =>
      case DoMergePositions(positions) => MergePositionsKeepsGrouped(g, positions);
      case DoUpsertGroup(group) => UpsertGroupKeepsGrouped(g, group);
      case DoDeleteGroup(id) => DeleteGroupKeepsGrouped(g, id);
    }
  }

  /**
   Over every sequence of edits, raising or not, that never empties a state key: the group ids stay
   distinct, a state lies in at most one group, a group has at most one parent, the nesting has no
   cycle, and every member of a group is a state.
   */
  lemma {:induction false} EditsKeepGrouped(g: Flow, edits: seq<Edit>)
    requires Grouped(g) && forall i :: 0 <= i < |edits| ==> KeepsKey(edits[i])
    ensures Grouped(AfterEdits(g, edits))
    decreases |edits|
  {
    if edits != [] {
      EditKeepsGrouped(g, edits[0]);
      EditsKeepGrouped(AfterEdit(g, edits[0]), edits[1..]);
    }
  }

  /** Each edit names only existing ends when it patches a transition. */
  predicate AllResolve(g: Flow, edits: seq<Edit>)
    decreases |edits|
  {
    edits != [] ==>
      && (edits[0].DoUpdateTransition? ==> PatchResolves(g, edits[0].change))
      && AllResolve(AfterEdit(g, edits[0]), edits[1..])
  }

  /** With resolving patches, every transition keeps both its ends over the whole sequence too. */
  lemma {:induction false} EditsKeepConnected(g: Flow, edits: seq<Edit>)
    requires Grouped(g) && Connected(g) && AllResolve(g, edits)
    requires forall i :: 0 <= i < |edits| ==> KeepsKey(edits[i])
    ensures Connected(AfterEdits(g, edits))
    decreases |edits|
  {
    if edits != [] {
      EditKeepsGrouped(g, edits[0]);
      EditsKeepConnected(AfterEdit(g, edits[0]), edits[1..]);
    }
  }

  // -- the empty key at work -----------------------------------------------------------------------------

  function KeyPatch(key: string): StatePatch {
    StatePatch(Some(key), None, None, None, map[])
  }

  function PlainState(key: string): State {
    State(key, false, Normal, [], map[])
  }

  function Box(id: string, member: string): Group {
    Group(id, Some([member]), None, map[])
  }

  /** Two states in two groups. */
  function TwoBoxes(a: string, b: string): Flow {
    Flow([PlainState(a), PlainState(b)], None, Some(Layout(None, Some([Box("g", "a"), Box("h", b)]), map[])))
  }

  lemma TwoBoxesAreGrouped()
    ensures Grouped(TwoBoxes("a", "b"))
  {
    var g := TwoBoxes("a", "b");
    KeysAreStateKeys(g.states, 0);
    KeysAreStateKeys(g.states, 1);
    var nesting := Nesting(g.Groups());
    EmptyIsSettled(nesting);
    SettleNode(nesting, {}, "g");
    SettleNode(nesting, {} + {"g"}, "h");
    SettledNodesHaveNoCycle(nesting, {} + {"g"} + {"h"});
  }

  /** The update to the empty key changes the state and nothing else. */
  lemma EmptyingLeavesTheBox()
    ensures AfterEdit(TwoBoxes("a", "b"), DoUpdateState("a", KeyPatch(""))) == TwoBoxes("", "b")
  {
  }

  /** Behind it the key `a` is free to take, and both boxes then name it. */
  lemma RenameFillsBothBoxes()
    ensures var groups := AfterEdit(TwoBoxes("", "b"), DoUpdateState("b", KeyPatch("a"))).Groups();
            |groups| == 2 && groups[0].Members() == ["a"] && groups[1].Members() == ["a"]
  {
    var groups := AfterEdit(TwoBoxes("", "b"), DoUpdateState("b", KeyPatch("a"))).Groups();
    assert groups[0].Members()[0] == "a" && groups[1].Members()[0] == "a";
  }

  /** Emptying the key of `a` and then renaming `b` to `a` puts the state `a` into both groups. */
  lemma EmptyKeyBreaksForest()
    ensures var edits := [DoUpdateState("a", KeyPatch("")), DoUpdateState("b", KeyPatch("a"))];
            Grouped(TwoBoxes("a", "b")) && !Grouped(AfterEdits(TwoBoxes("a", "b"), edits))
  {
    TwoBoxesAreGrouped();
    EmptyingLeavesTheBox();
    RenameFillsBothBoxes();
    var edits := [DoUpdateState("a", KeyPatch("")), DoUpdateState("b", KeyPatch("a"))];
    var last := AfterEdit(TwoBoxes("", "b"), edits[1]);
    assert edits[1..] == [edits[1]] && [edits[1]][1..] == [];
    assert AfterEdits(TwoBoxes("a", "b"), edits) == last;
    assert "a" in last.Groups()[0].Members() && "a" in last.Groups()[1].Members();
    assert !Apart(last.Groups()[0], last.Groups()[1]);
  }
}

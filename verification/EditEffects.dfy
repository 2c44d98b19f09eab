/** What the edits of states, transitions and positions change, field by field, and what they leave alone. */
module EditEffects {
  import opened Json
  import opened Wrappers
  import opened FlowModel
  import opened GraphOps

  /** The patched fields of a record: those of the patch read as the patch says, the others as before. */
  ghost predicate MergedExtras(now: map<string, Json>, before: map<string, Json>, patch: map<string, Json>) {
    && (forall f :: f in now <==> f in before || f in patch)
    && (forall f :: f in patch ==> now[f] == patch[f])
    && (forall f :: f in before && f !in patch ==> now[f] == before[f])
  }

  ghost predicate Reads<T>(now: T, before: T, patch: Option<T>) {
    match patch
    case Some(v) => now == v
    case None => now == before
  }

  ghost predicate PatchedState(now: State, before: State, patch: StatePatch) {
    && Reads(now.key, before.key, patch.key)
    && Reads(now.isInitial, before.isInitial, patch.isInitial)
    && Reads(now.kind, before.kind, patch.kind)
    && Reads(now.config, before.config, patch.config)
    && MergedExtras(now.extras, before.extras, patch.extras)
  }

  ghost predicate IsFirst(states: seq<State>, key: string, i: int) {
    0 <= i < |states| && states[i].key == key && forall j :: 0 <= j < i ==> states[j].key != key
  }

  /**
   An update patches the first state of the key and no other; without a rename the transitions and the
   layout stay as they are.
   */
  lemma UpdateStateEffect(g: Flow, key: string, patch: StatePatch, i: nat)
    requires IsFirst(g.states, key, i) && UpdateState(g, key, patch).Ok?
    ensures var h := UpdateState(g, key, patch).value;
            && |h.states| == |g.states|
            && PatchedState(h.states[i], g.states[i], patch)
            && (forall j :: 0 <= j < |g.states| && j != i ==> h.states[j] == g.states[j])
            && (patch.key in [None, Some(key), Some("")] ==> h.transitions == g.transitions && h.layout == g.layout)
  {
  }

  /** An update fails exactly on an unknown state or on a new key that another state has. */
  lemma UpdateStateRaisesExactly(g: Flow, key: string, patch: StatePatch)
    ensures UpdateState(g, key, patch) == Err(UnknownState) <==> forall s :: s in g.states ==> s.key != key
    ensures DistinctKeys(g.states) && UpdateState(g, key, patch) != Err(UnknownState) ==>
              (UpdateState(g, key, patch).Err? <==>
                 patch.key.Some? && patch.key.value !in ["", key] && exists s :: s in g.states && s.key == patch.key.value)
  {
    assert forall i :: 0 <= i < |g.states| ==> g.states[i] in g.states;
  }

  /** The patch that writes the old values of the patched fields. */
  function OldValues(s: State, patch: StatePatch): StatePatch {
    StatePatch(
      None,
      if patch.isInitial.Some? then Some(s.isInitial) else None,
      if patch.kind.Some? then Some(s.kind) else None,
      if patch.config.Some? then Some(s.config) else None,
      map f | f in patch.extras && f in s.extras :: s.extras[f])
  }

  /** Patching the old values back gives the graph again, as far as the patch brought no new field. */
  lemma UpdateStateUndone(g: Flow, key: string, patch: StatePatch, i: nat)
    requires IsFirst(g.states, key, i) && patch.key in [None, Some(key)]
    requires patch.extras.Keys <= g.states[i].extras.Keys
    ensures UpdateState(g, key, patch).Ok?
    ensures UpdateState(UpdateState(g, key, patch).value, key, OldValues(g.states[i], patch)) == Ok(g)
  {
    var h := UpdateState(g, key, patch).value;
    var s, t := g.states[i], h.states[i];
    assert StateIndex(g.states, key) == Some(i);
    assert t == Patched(s, patch);
    forall j | 0 <= j < i ensures h.states[j].key != key {
    }
    assert StateIndex(h.states, key) == Some(i);
    assert t.extras + OldValues(s, patch).extras == s.extras;
    assert Patched(t, OldValues(s, patch)) == s;
    assert h.states[i := s] == g.states;
  }

  // -- transitions ------------------------------------------------------------------------------------------

  /** The fields of a transition patch; a null takes a further field away. */
  ghost predicate PatchedOver(now: Transition, before: Transition, patch: TransitionPatch) {
    && Reads(now.source, before.source, patch.source)
    && Reads(now.target, before.target, patch.target)
    && Reads(now.automatic, before.automatic, patch.automatic)
    && Reads(now.branch, before.branch, patch.branch)
    && Reads(now.guard, before.guard, patch.guard)
    && Reads(now.actions, before.actions, patch.actions)
    && (forall f :: f in now.extras <==> if f in patch.extras then patch.extras[f] != Null else f in before.extras)
    && (forall f :: f in now.extras ==> now.extras[f] == if f in patch.extras then patch.extras[f] else before.extras[f])
  }

  lemma UpdateTransitionEffect(g: Flow, index: int, patch: TransitionPatch)
    ensures UpdateTransition(g, index, patch).Ok? <==> 0 <= index < |g.Transitions()|
    ensures UpdateTransition(g, index, patch).Ok? ==>
              var h := UpdateTransition(g, index, patch).value;
              && |h.Transitions()| == |g.Transitions()|
              && PatchedOver(h.Transitions()[index], g.Transitions()[index], patch)
              && (forall j :: 0 <= j < |g.Transitions()| && j != index ==> h.Transitions()[j] == g.Transitions()[j])
              && h.states == g.states && h.layout == g.layout
  {
  }

  // -- places -------------------------------------------------------------------------------------------------

  lemma PlaceReads(x: int, y: int)
    ensures Place(x, y).Obj?
    ensures GetOrNull(Place(x, y).entries, "x") == Number(x as real) && GetOrNull(Place(x, y).entries, "y") == Number(y as real)
  {
    var entries := Place(x, y).entries;
    assert entries[1..][0] == entries[1];
  }

  /** A new state comes last, at its place if both coordinates are given; the rest stays. */
  lemma AddStateEffect(g: Flow, state: State, x: Option<int>, y: Option<int>)
    ensures AddState(g, state, x, y).Ok? <==> forall s :: s in g.states ==> s.key != state.key
    ensures AddState(g, state, x, y).Ok? ==>
              var h := AddState(g, state, x, y).value;
              && h.states == g.states + [state] && h.transitions == g.transitions && h.Groups() == g.Groups()
              && (x.None? || y.None? ==> h.layout == g.layout)
              && (x.Some? && y.Some? ==>
                    && h.Positions().Keys == g.Positions().Keys + {state.key}
                    && h.Positions()[state.key].Obj?
                    && GetOrNull(h.Positions()[state.key].entries, "x") == Number(x.value as real)
                    && GetOrNull(h.Positions()[state.key].entries, "y") == Number(y.value as real)
                    && forall k :: k in g.Positions() && k != state.key ==> h.Positions()[k] == g.Positions()[k])
  {
    assert forall i :: 0 <= i < |g.states| ==> g.states[i] in g.states;
    if x.Some? && y.Some? {
      PlaceReads(x.value, y.value);
    }
  }

  /** The given places replace the old ones, and only places of known states are taken. */
  lemma MergePositionsEffect(g: Flow, positions: map<string, Json>)
    ensures MergePositions(g, positions).Ok? <==> forall k :: k in positions ==> exists s :: s in g.states && s.key == k
    ensures MergePositions(g, positions).Ok? ==>
              var h := MergePositions(g, positions).value;
              && h.states == g.states && h.transitions == g.transitions && h.Groups() == g.Groups()
              && MergedExtras(h.Positions(), g.Positions(), positions)
  {
    forall k | k in positions ensures k in Keys(g.states) <==> exists s :: s in g.states && s.key == k {
    }
    var unknown := positions.Keys - Keys(g.states);
    assert unknown == {} <==> forall k :: k in positions ==> k !in unknown;
  }

  // -- when an edit raises ------------------------------------------------------------------------------------

  /** Removing needs the thing to be there, and a transition needs both its ends. */
  lemma RemovalsRaiseExactly(g: Flow, key: string, id: string, index: int, t: Transition)
    ensures RemoveState(g, key).Ok? <==> exists s :: s in g.states && s.key == key
    ensures DeleteGroup(g, id).Ok? <==> exists grp :: grp in g.Groups() && grp.id == id
    ensures RemoveTransition(g, index).Ok? <==> 0 <= index < |g.Transitions()|
    ensures AddTransition(g, t).Ok? <==>
              (exists s :: s in g.states && s.key == t.source) && exists s :: s in g.states && s.key == t.target
  {
    assert forall i :: 0 <= i < |g.states| ==> g.states[i] in g.states;
    assert forall i :: 0 <= i < |g.Groups()| ==> g.Groups()[i] in g.Groups();
  }
}

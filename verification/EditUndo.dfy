/** Edits that take each other back, and the upsert that changes nothing when it is repeated. */
module EditUndo {
  import opened Wrappers
  import opened FlowModel
  import opened FlowValidator
  import opened GraphOps
  import opened GraphInvariants
  import opened GroupEffects
  import opened RenameIso
  import opened Seqs

  /**
   Removing the state that was added gives back the states, the transitions, the positions and the
   groups, except that a removal drops groups without content.
   */
  lemma {:induction false} RemoveUndoesAddState(g: Flow, state: State, x: Option<int>, y: Option<int>)
    requires Grouped(g) && Connected(g) && AddState(g, state, x, y).Ok?
    ensures RemoveState(AddState(g, state, x, y).value, state.key).Ok?
    ensures var h := RemoveState(AddState(g, state, x, y).value, state.key).value;
            && h.states == g.states && h.Transitions() == g.Transitions() && h.Positions() == g.Positions()
            && h.Groups() == Filter(HasContent, Map(grp => NormalGroup(grp), g.Groups()))
  {
    var added := AddState(g, state, x, y).value;
    AddedParts(g, state, x, y);
    assert added.states[|g.states|].key == state.key;
    RemovedParts(added, state.key);
    var others := (s: State) => s.key != state.key;
    FilterJoins(others, g.states, [state]);
    FilterKeepsAll(others, g.states);
    FilterKeepsNone(others, [state]);
    RemovedTransitions(g.states, g.Transitions(), state.key);
    NothingToRemove(g.Groups(), Keys(g.states), state.key);
  }

  lemma AddedParts(g: Flow, state: State, x: Option<int>, y: Option<int>)
    requires AddState(g, state, x, y).Ok? && g.Positions().Keys <= Keys(g.states)
    ensures var h := AddState(g, state, x, y).value;
            && h.states == g.states + [state] && h.Transitions() == g.Transitions() && h.Groups() == g.Groups()
            && h.Positions() - {state.key} == g.Positions()
    ensures forall i :: 0 <= i < |g.states| ==> g.states[i].key != state.key
  {
    assert state.key !in g.Positions();
  }

  lemma RemovedParts(g: Flow, key: string)
    requires exists i :: 0 <= i < |g.states| && g.states[i].key == key
    ensures RemoveState(g, key).Ok?
    ensures var h := RemoveState(g, key).value;
            && h.states == Filter((s: State) => s.key != key, g.states)
            && h.Transitions() == Filter((t: Transition) => t.source != key && t.target != key, g.Transitions())
            && h.Groups() == Filter(HasContent, Map(grp => WithoutMember(grp, key), g.Groups()))
            && h.Positions() == g.Positions() - {key}
  {
  }

  lemma RemovedTransitions(states: seq<State>, ts: seq<Transition>, key: string)
    requires EndsKnown(states, ts) && key !in Keys(states)
    ensures Filter((t: Transition) => t.source != key && t.target != key, ts) == ts
  {
    FilterKeepsAll((t: Transition) => t.source != key && t.target != key, ts);
  }

  lemma {:induction false} FilterJoins<A(!new)>(keep: A -> bool, s: seq<A>, t: seq<A>)
    ensures Filter(keep, s + t) == Filter(keep, s) + Filter(keep, t)
  {
    if s == [] {
      assert s + t == t;
    } else {
      assert (s + t)[0] == s[0] && (s + t)[1..] == s[1..] + t;
      FilterJoins(keep, s[1..], t);
    }
  }

  /** No group names a key that no state has. */
  lemma NothingToRemove(groups: seq<Group>, keys: set<string>, key: string)
    requires MembersResolve(groups, keys) && key !in keys
    ensures Map(grp => WithoutMember(grp, key), groups) == Map(grp => NormalGroup(grp), groups)
  {
    forall i | 0 <= i < |groups| ensures WithoutMember(groups[i], key) == NormalGroup(groups[i]) {
      assert groups[i] in groups;
      FilterKeepsAll(k => k != key, groups[i].Members());
    }
  }

  /** Removing the transition that was added gives the graph back, with its list written out. */
  lemma RemoveUndoesAddTransition(g: Flow, t: Transition)
    requires AddTransition(g, t).Ok?
    ensures RemoveTransition(AddTransition(g, t).value, |g.Transitions()|) == Ok(g.(transitions := Some(g.Transitions())))
  {
    var ts := g.Transitions() + [t];
    assert ts[..|g.Transitions()|] + ts[|g.Transitions()| + 1..] == g.Transitions();
  }

  /** What joined the group is left out already, so leaving it out again changes nothing. */
  lemma LeftOutTwice(grp: Group, members: seq<string>, children: seq<string>)
    ensures LeftOut(LeftOut(grp, members, children), members, children) == LeftOut(grp, members, children)
  {
    FilterKeepsAll(k => k !in members, Filter(k => k !in members, grp.Members()));
    FilterKeepsAll(c => c !in children, Filter(c => c !in children, grp.Children()));
  }

  lemma {:induction false} StrippedTwice(group: Group, groups: seq<Group>)
    requires Pairwise(groups, Apart)
    ensures StrippedFor(group, Upserted(group, groups)) == Upserted(group, groups)
  {
    var strip := LeavesOut(group);
    var keep := StaysBeside(group);
    var result := Upserted(group, groups);
    forall grp | grp in result ensures strip(grp) == grp && keep(grp) {
      if grp.id != group.id {
        assert grp in StrippedFor(group, groups);
        var i :| 0 <= i < |groups| && Map(strip, groups)[i] == grp;
        LeftOutTwice(groups[i], group.Members(), group.Children());
      }
    }
    assert Map(strip, result) == result;
    FilterKeepsAll(keep, result);
  }

  /** Where ids are distinct, putting a member in its own place changes nothing. */
  lemma InItsPlace(groups: seq<Group>, group: Group)
    requires Pairwise(groups, Apart) && group in groups
    ensures var at := GroupIndex(groups, group.id); at.Some? && groups[at.value := group] == groups
  {
    ApartHasDistinctIds(groups);
    var i :| 0 <= i < |groups| && groups[i] == group;
  }

  lemma {:induction false} UpsertedTwice(group: Group, groups: seq<Group>)
    requires Pairwise(groups, Apart)
    ensures Upserted(group, Upserted(group, groups)) == Upserted(group, groups)
  {
    UpsertKeepsApart(group, groups);
    UpsertedRelations(group, groups, group.id, "");
    StrippedTwice(group, groups);
    InItsPlace(Upserted(group, groups), group);
  }

  /** The group called `c` has a state or a sub-group that does not move into `group`. */
  ghost predicate KeepsContent(groups: seq<Group>, group: Group, c: string) {
    exists i :: 0 <= i < |groups| && groups[i].id == c
                && HasContent(LeftOut(groups[i], group.Members(), group.Children()))
  }

  /** Which other groups are left while the content moves. */
  lemma StrippedGroups(group: Group, groups: seq<Group>, c: string)
    requires c != group.id
    ensures HasGroup(StrippedFor(group, groups), c) <==> KeepsContent(groups, group, c)
  {
    var strip := LeavesOut(group);
    var keep := StaysBeside(group);
    var stripped := Map(strip, groups);
    var kept := Filter(keep, stripped);
    if j :| 0 <= j < |kept| && kept[j].id == c {
      var i := FilterOrigin(keep, stripped, j);
      assert groups[i].id == c;
    }
    if i :| 0 <= i < |groups| && groups[i].id == c && HasContent(LeftOut(groups[i], group.Members(), group.Children())) {
      var k := FilterIndex(keep, stripped, i);
    }
  }

  lemma UpsertedGroups(group: Group, groups: seq<Group>, c: string)
    requires c != group.id
    ensures HasGroup(Upserted(group, groups), c) <==> HasGroup(StrippedFor(group, groups), c)
  {
    var kept, result := StrippedFor(group, groups), Upserted(group, groups);
    assert forall i :: 0 <= i < |kept| && kept[i].id == c ==> result[i] == kept[i];
    assert forall i :: 0 <= i < |result| && result[i].id == c ==> i < |kept| && result[i] == kept[i];
  }

  /** An upsert into groups that hold the group already gives them back, if it knows the sub-groups. */
  lemma UpsertOnSettled(h: Flow, group: Group)
    requires h.layout.Some? && h.layout.value.groups == Some(Upserted(group, h.Groups()))
    requires forall k :: k in group.Members() ==> k in Keys(h.states)
    requires group.id !in group.Children() && HasContent(group) && group.stateKeys.Some?
    requires AssertAcyclic(h.Groups())
    ensures UpsertGroup(h, group)
            == if forall c :: c in group.Children() ==> c in Ids(h.Groups()) then Ok(h) else Err(UnknownSubgroups)
  {
  }

  /**
   Saving a group again changes nothing, unless the first time emptied and dropped one of its own
   sub-groups; then the second time refuses the dangling name.
   */
  lemma {:induction false} UpsertAgain(g: Flow, group: Group)
    requires Pairwise(g.Groups(), Apart) && UpsertGroup(g, group).Ok?
    ensures UpsertGroup(UpsertGroup(g, group).value, group)
            == if forall c :: c in group.Children() ==> KeepsContent(g.Groups(), group, c)
               then UpsertGroup(g, group) else Err(UnknownSubgroups)
  {
    var h := UpsertGroup(g, group).value;
    UpsertedTwice(group, g.Groups());
    forall c | c in group.Children()
      ensures c in Ids(h.Groups()) <==> KeepsContent(g.Groups(), group, c)
    {
      StrippedGroups(group, g.Groups(), c);
      UpsertedGroups(group, g.Groups(), c);
      HasGroupMeansListed(h.Groups(), c);
    }
    UpsertOnSettled(h, group);
  }
}

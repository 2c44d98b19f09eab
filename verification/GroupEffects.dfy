/** What the group edits do to the relation between groups, states and sub-groups, and nothing else. */
module GroupEffects {
  import opened FlowModel
  import opened GraphOps
  import opened GraphInvariants
  import opened Seqs

  /** The state `k` is in the group called `id`. */
  ghost predicate MemberOf(groups: seq<Group>, id: string, k: string) {
    exists i :: 0 <= i < |groups| && groups[i].id == id && k in groups[i].Members()
  }

  /** The group `c` is directly inside the group called `id`. */
  ghost predicate ChildOf(groups: seq<Group>, id: string, c: string) {
    exists i :: 0 <= i < |groups| && groups[i].id == id && c in groups[i].Children()
  }

  ghost predicate HasGroup(groups: seq<Group>, c: string) {
    exists i :: 0 <= i < |groups| && groups[i].id == c
  }

  lemma HasGroupMeansListed(groups: seq<Group>, c: string)
    ensures HasGroup(groups, c) <==> c in Ids(groups)
  {
    if i :| 0 <= i < |groups| && groups[i].id == c {
      assert Ids(groups)[i] == c;
    }
    if c in Ids(groups) {
      var i :| 0 <= i < |groups| && Ids(groups)[i] == c;
      assert groups[i].id == c;
    }
  }

  /** The group edits leave the states, the transitions and the positions alone. */
  ghost predicate SameButGroups(g: Flow, h: Flow) {
    && h.states == g.states && h.transitions == g.transitions
    && h.LayoutOrEmpty().positions == g.LayoutOrEmpty().positions
    && h.LayoutOrEmpty().extras == g.LayoutOrEmpty().extras
  }

  lemma FilterIndex(keep: Group -> bool, groups: seq<Group>, i: nat) returns (j: nat)
    requires i < |groups| && keep(groups[i])
    ensures j < |Filter(keep, groups)| && Filter(keep, groups)[j] == groups[i]
  {
    assert groups[i] in Filter(keep, groups);
    j :| j < |Filter(keep, groups)| && Filter(keep, groups)[j] == groups[i];
  }

  lemma FilterOrigin(keep: Group -> bool, groups: seq<Group>, j: nat) returns (i: nat)
    requires j < |Filter(keep, groups)|
    ensures i < |groups| && keep(groups[i]) && groups[i] == Filter(keep, groups)[j]
  {
    assert Filter(keep, groups)[j] in Filter(keep, groups);
    i :| i < |groups| && groups[i] == Filter(keep, groups)[j];
  }

  /** Dropping groups without content loses no membership. */
  lemma FilterKeepsRelations(keep: Group -> bool, groups: seq<Group>, id: string, x: string)
    requires forall grp :: grp in groups && HasContent(grp) ==> keep(grp)
    ensures MemberOf(Filter(keep, groups), id, x) <==> MemberOf(groups, id, x)
    ensures ChildOf(Filter(keep, groups), id, x) <==> ChildOf(groups, id, x)
  {
    var kept := Filter(keep, groups);
    forall i | 0 <= i < |groups| && groups[i].id == id
      ensures x in groups[i].Members() ==> MemberOf(kept, id, x)
      ensures x in groups[i].Children() ==> ChildOf(kept, id, x)
    {
      if HasContent(groups[i]) {
        var j := FilterIndex(keep, groups, i);
      }
    }
    forall j | 0 <= j < |kept| && kept[j].id == id
      ensures x in kept[j].Members() ==> MemberOf(groups, id, x)
      ensures x in kept[j].Children() ==> ChildOf(groups, id, x)
    {
      var i := FilterOrigin(keep, groups, j);
    }
  }

  lemma StrippedRelations(group: Group, groups: seq<Group>, id: string, x: string)
    ensures id != group.id ==>
              && (MemberOf(StrippedFor(group, groups), id, x) <==> MemberOf(groups, id, x) && x !in group.Members())
              && (ChildOf(StrippedFor(group, groups), id, x) <==> ChildOf(groups, id, x) && x !in group.Children())
  {
    var strip := LeavesOut(group);
    var keep := StaysBeside(group);
    var stripped := Map(strip, groups);
    FilterKeepsRelations(keep, stripped, id, x);
    assert StrippedFor(group, groups) == Filter(keep, stripped);
    forall i | 0 <= i < |groups| && id != group.id && groups[i].id == id
      ensures stripped[i].id == id
      ensures x in stripped[i].Members() <==> x in groups[i].Members() && x !in group.Members()
      ensures x in stripped[i].Children() <==> x in groups[i].Children() && x !in group.Children()
    {
      assert stripped[i] == LeftOut(groups[i], group.Members(), group.Children());
    }
    assert forall i :: 0 <= i < |groups| ==> stripped[i].id == groups[i].id;
  }

  lemma UpsertedRelations(group: Group, groups: seq<Group>, id: string, x: string)
    requires Pairwise(groups, Apart)
    ensures group in Upserted(group, groups)
    ensures MemberOf(Upserted(group, groups), id, x) <==>
              if id == group.id then x in group.Members() else MemberOf(groups, id, x) && x !in group.Members()
    ensures ChildOf(Upserted(group, groups), id, x) <==>
              if id == group.id then x in group.Children() else ChildOf(groups, id, x) && x !in group.Children()
  {
    var kept, result := StrippedFor(group, groups), Upserted(group, groups);
    UpsertKeepsApart(group, groups);
    StrippedRelations(group, groups, id, x);
    var at := GroupIndex(kept, group.id).GetOr(|kept|);
    assert result[at] == group;
    forall i | 0 <= i < |result| && i != at ensures i < |kept| && result[i] == kept[i] && kept[i].id != group.id {
      assert if i < at then Apart(result[i], result[at]) else Apart(result[at], result[i]);
    }
    if id != group.id {
      forall i | 0 <= i < |kept| && kept[i].id == id ensures i != at && result[i] == kept[i] {
      }
    }
  }

  /**
   After an upsert the group has exactly its own content, every other group has what it had minus
   what joined the group, and the rest of the graph is unchanged.
   */
  lemma {:induction false} UpsertGroupEffect(g: Flow, group: Group, id: string, x: string)
    requires Pairwise(g.Groups(), Apart) && UpsertGroup(g, group).Ok?
    ensures var h := UpsertGroup(g, group).value;
            && SameButGroups(g, h)
            && group in h.Groups()
            && (MemberOf(h.Groups(), id, x) <==>
                  if id == group.id then x in group.Members() else MemberOf(g.Groups(), id, x) && x !in group.Members())
            && (ChildOf(h.Groups(), id, x) <==>
                  if id == group.id then x in group.Children() else ChildOf(g.Groups(), id, x) && x !in group.Children())
  {
    UpsertedRelations(group, g.Groups(), id, x);
  }

  /** Removing a state takes it out of its group and leaves every other membership. */
  lemma RemoveStateEffect(g: Flow, key: string, id: string, x: string)
    requires RemoveState(g, key).Ok?
    ensures var h := RemoveState(g, key).value;
            && (MemberOf(h.Groups(), id, x) <==> MemberOf(g.Groups(), id, x) && x != key)
            && (ChildOf(h.Groups(), id, x) <==> ChildOf(g.Groups(), id, x))
            && h.Positions() == g.Positions() - {key}
            && (forall s :: s in h.states <==> s in g.states && s.key != key)
            && (forall t :: t in h.Transitions() <==> t in g.Transitions() && t.source != key && t.target != key)
  {
    var groups := g.Groups();
    var stripped := Map(grp => WithoutMember(grp, key), groups);
    FilterKeepsRelations(HasContent, stripped, id, x);
    forall i | 0 <= i < |groups|
      ensures stripped[i].id == groups[i].id && stripped[i].Children() == groups[i].Children()
      ensures x in stripped[i].Members() <==> x in groups[i].Members() && x != key
    {
      assert stripped[i] == WithoutMember(groups[i], key);
    }
    var h := RemoveState(g, key).value;
    assert h.Groups() == Filter(HasContent, stripped);
    assert h.Positions() == g.Positions() - {key};
  }

  /** Deleting a group frees its content and drops the references to it; states stay untouched. */
  lemma DeleteGroupEffect(g: Flow, gid: string, id: string, x: string)
    requires DeleteGroup(g, gid).Ok?
    ensures var h := DeleteGroup(g, gid).value;
            && SameButGroups(g, h)
            && (MemberOf(h.Groups(), id, x) <==> MemberOf(g.Groups(), id, x) && id != gid)
            && (ChildOf(h.Groups(), id, x) <==> ChildOf(g.Groups(), id, x) && id != gid && x != gid)
  {
    var groups := g.Groups();
    var keep := (grp: Group) => grp.id != gid;
    var others := Filter(keep, groups);
    var remaining := Map(grp => WithoutChild(grp, gid), others);
    forall i | 0 <= i < |others|
      ensures remaining[i].id == others[i].id && remaining[i].Members() == others[i].Members()
      ensures x in remaining[i].Children() <==> x in others[i].Children() && x != gid
    {
      assert remaining[i] == WithoutChild(others[i], gid);
    }
    forall i | 0 <= i < |groups| && groups[i].id == id && id != gid
      ensures exists j :: 0 <= j < |others| && others[j] == groups[i]
    {
      var j := FilterIndex(keep, groups, i);
    }
    forall j | 0 <= j < |others|
      ensures others[j].id != gid && exists i :: 0 <= i < |groups| && groups[i] == others[j]
    {
      var i := FilterOrigin(keep, groups, j);
    }
    assert DeleteGroup(g, gid).value.Groups() == remaining;
  }
}

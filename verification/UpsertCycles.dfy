/** When an upsert is refused for its nesting: exactly when the group would join one of its own descendants. */
module UpsertCycles {
  import opened Wrappers
  import opened FlowModel
  import opened GraphOps
  import opened GraphInvariants
  import opened GroupEffects
  import opened GroupNesting
  import opened Seqs
  import opened Walks

  /** `h` is `g` after `id` took `children` from wherever they were. */
  ghost predicate Regrouped(g: Graph, h: Graph, id: string, children: seq<string>) {
    forall a, b :: Edge(h, a, b) <==> if a == id then b in children else Edge(g, a, b) && b !in children
  }

  // -- walks ---------------------------------------------------------------------------------------------

  /** A walk cut where it first meets its end. */
  lemma {:induction false} CutAtFirst(g: Graph, p: seq<string>, target: string) returns (q: seq<string>)
    requires IsWalk(g, p) && p[|p| - 1] == target
    ensures WalkBetween(g, q, p[0], target)
    ensures forall i :: 0 <= i < |q| - 1 ==> q[i] != target
    decreases |p|
  {
    if p[0] == target {
      q := [target];
    } else {
      assert p[1..][|p| - 2] == target;
      SubwalkIsWalk(g, p, 1, |p|);
      var rest := CutAtFirst(g, p[1..], target);
      q := [p[0]] + rest;
      assert Edge(g, p[0], p[1]) && q[1] == p[1];
    }
  }

  /** The part of a walk from its last node in `nodes` on; what its inner nodes avoid, it avoids. */
  lemma {:induction false} CutAtLast(g: Graph, p: seq<string>, nodes: seq<string>, target: string) returns (q: seq<string>)
    requires IsWalk(g, p) && p[0] in nodes && p[|p| - 1] == target
    requires forall i :: 0 <= i < |p| - 1 ==> p[i] != target
    ensures IsWalk(g, q) && q[0] in nodes && q[|q| - 1] == target
    ensures forall i :: 0 <= i < |q| - 1 ==> q[i] != target
    ensures forall i :: 0 < i < |q| ==> q[i] !in nodes
    decreases |p|
  {
    if i: nat :| 0 < i < |p| && p[i] in nodes {
      SubwalkIsWalk(g, p, i, |p|);
      q := CutAtLast(g, p[i..], nodes, target);
    } else {
      q := p;
    }
  }

  /** A closed walk can start at any of its nodes. */
  lemma CycleFrom(g: Graph, p: seq<string>, k: nat) returns (q: seq<string>)
    requires IsCycle(g, p) && k < |p|
    ensures IsCycle(g, q) && q[0] == p[k]
  {
    if k == 0 {
      q := p;
    } else {
      SubwalkIsWalk(g, p, k, |p|);
      SubwalkIsWalk(g, p, 0, k + 1);
      q := p[k..] + p[1..k + 1];
      forall i | 0 <= i < |q| - 1 ensures Edge(g, q[i], q[i + 1]) {
        if i < |p| - k - 1 {
          assert q[i] == p[k + i] && q[i + 1] == p[k + i + 1];
        } else {
          var j := i - (|p| - k - 1);
          assert q[i] == p[j] && q[i + 1] == p[j + 1];
        }
      }
    }
  }

  // -- the new cycle ------------------------------------------------------------------------------------

  /** A cycle of the new nesting passes the group or was there before. */
  lemma CyclePassesGroup(g: Graph, h: Graph, id: string, children: seq<string>, p: seq<string>)
    requires Regrouped(g, h, id, children) && IsCycle(h, p)
    ensures id in p || IsCycle(g, p)
  {
    if id !in p {
      forall i | 0 <= i < |p| - 1 ensures Edge(g, p[i], p[i + 1]) {
        assert Edge(h, p[i], p[i + 1]);
      }
    }
  }

  /** Behind the group a new cycle leads from a child back to the group. */
  lemma CycleMeansDescendant(g: Graph, h: Graph, id: string, children: seq<string>, p: seq<string>)
    requires Regrouped(g, h, id, children) && Acyclic(g) && IsCycle(h, p)
    ensures exists c :: c in children && Reaches(g, c, id)
  {
    CyclePassesGroup(g, h, id, children, p);
    var k :| 0 <= k < |p| && p[k] == id;
    var q := CycleFrom(h, p, k);
    assert Edge(h, q[0], q[1]);
    SubwalkIsWalk(h, q, 1, |q|);
    var r := CutAtFirst(h, q[1..], id);
    forall i | 0 <= i < |r| - 1 ensures Edge(g, r[i], r[i + 1]) {
      assert Edge(h, r[i], r[i + 1]);
    }
    assert WalkBetween(g, r, q[1], id);
  }

  /** A child above the group closes a cycle with it, behind the last child on the way. */
  lemma DescendantMeansCycle(g: Graph, h: Graph, id: string, children: seq<string>, c: string)
    requires Regrouped(g, h, id, children) && id !in children
    requires c in children && Reaches(g, c, id)
    ensures !Acyclic(h)
  {
    var p :| WalkBetween(g, p, c, id);
    var q := CutAtFirst(g, p, id);
    var r := CutAtLast(g, q, children, id);
    forall i | 0 <= i < |r| - 1 ensures Edge(h, r[i], r[i + 1]) {
      assert Edge(g, r[i], r[i + 1]);
    }
    assert Edge(h, id, r[0]);
    var closed := [id] + r;
    assert forall i :: 0 < i < |closed| - 1 ==> closed[i] == r[i - 1] && closed[i + 1] == r[i];
    assert IsCycle(h, closed);
  }

  lemma RegroupedIsAcyclicExactly(g: Graph, h: Graph, id: string, children: seq<string>)
    requires Regrouped(g, h, id, children) && Acyclic(g) && id !in children
    ensures Acyclic(h) <==> forall c :: c in children ==> !Reaches(g, c, id)
  {
    if p :| IsCycle(h, p) {
      CycleMeansDescendant(g, h, id, children, p);
    }
    if c :| c in children && Reaches(g, c, id) {
      DescendantMeansCycle(g, h, id, children, c);
    }
  }

  // -- the upsert -----------------------------------------------------------------------------------------

  /** The nesting before and after an upsert. */
  lemma UpsertRegroups(group: Group, groups: seq<Group>)
    requires Pairwise(groups, Apart)
    ensures Regrouped(Nesting(groups), Nesting(Upserted(group, groups)), group.id, group.Children())
  {
    var result := Upserted(group, groups);
    UpsertKeepsApart(group, groups);
    ApartHasDistinctIds(groups);
    ApartHasDistinctIds(result);
    forall a, b
      ensures Edge(Nesting(result), a, b) <==>
              if a == group.id then b in group.Children() else Edge(Nesting(groups), a, b) && b !in group.Children()
    {
      UpsertedRelations(group, groups, a, b);
      NestingEdges(groups, a, b);
      NestingEdges(result, a, b);
      assert Edge(Nesting(groups), a, b) <==> ChildOf(groups, a, b);
      assert Edge(Nesting(result), a, b) <==> ChildOf(result, a, b);
    }
  }

  /** What an upsert demands besides the nesting: known content, some content, and not itself. */
  ghost predicate Admissible(g: Flow, group: Group) {
    && (forall k :: k in group.Members() ==> k in Keys(g.states))
    && (forall c :: c in group.Children() ==> c != group.id && HasGroup(g.Groups(), c))
    && (group.Members() != [] || group.Children() != [])
    && group.stateKeys.Some?
  }

  /** A sub-group of the new content lies above the group. */
  ghost predicate JoinsDescendant(g: Flow, group: Group) {
    exists c :: c in group.Children() && Reaches(Nesting(g.Groups()), c, group.id)
  }

  lemma UpsertOutcome(g: Flow, group: Group)
    ensures UpsertGroup(g, group).Ok? <==> Admissible(g, group) && AssertAcyclic(Upserted(group, g.Groups()))
    ensures UpsertGroup(g, group) == Err(NestingCycle) <==>
              Admissible(g, group) && !AssertAcyclic(Upserted(group, g.Groups()))
  {
    forall c ensures HasGroup(g.Groups(), c) <==> c in Ids(g.Groups()) {
      HasGroupMeansListed(g.Groups(), c);
    }
  }

  lemma AcyclicUnlessDescendant(g: Flow, group: Group)
    requires Forest(g.Groups()) && group.id !in group.Children()
    ensures AssertAcyclic(Upserted(group, g.Groups())) <==> !JoinsDescendant(g, group)
  {
    var groups := g.Groups();
    AssertAcyclicIsExact(Upserted(group, groups));
    UpsertRegroups(group, groups);
    RegroupedIsAcyclicExactly(Nesting(groups), Nesting(Upserted(group, groups)), group.id, group.Children());
  }

  /**
   On a forest of groups an upsert succeeds exactly when its content is admissible and no sub-group
   that joins already holds the group, at whatever depth; only the latter is reported as a cycle.
   */
  lemma {:induction false} UpsertRaisesExactly(g: Flow, group: Group)
    requires Forest(g.Groups())
    ensures UpsertGroup(g, group).Ok? <==> Admissible(g, group) && !JoinsDescendant(g, group)
    ensures UpsertGroup(g, group) == Err(NestingCycle) <==> Admissible(g, group) && JoinsDescendant(g, group)
  {
    UpsertOutcome(g, group);
    if group.id !in group.Children() {
      AcyclicUnlessDescendant(g, group);
    }
  }

  /** The other refusals, each with its own error, in the order in which they are looked for. */
  lemma UpsertErrors(g: Flow, group: Group)
    ensures var known := forall k :: k in group.Members() ==> k in Keys(g.states);
            var subgroups := forall c :: c in group.Children() ==> HasGroup(g.Groups(), c);
            && (UpsertGroup(g, group) == Err(UnknownMembers) <==> !known)
            && (UpsertGroup(g, group) == Err(ContainsItself) <==> known && group.id in group.Children())
            && (UpsertGroup(g, group) == Err(UnknownSubgroups) <==> known && group.id !in group.Children() && !subgroups)
            && (UpsertGroup(g, group) == Err(EmptyGroup) <==> group.Members() == [] && group.Children() == [])
  {
    forall c ensures HasGroup(g.Groups(), c) <==> c in Ids(g.Groups()) {
      HasGroupMeansListed(g.Groups(), c);
    }
  }
}

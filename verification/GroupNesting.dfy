/** The nesting of the editor groups: the depth-first check decides exactly whether it has a cycle. */
module GroupNesting {
  import opened FlowModel
  import opened GraphOps
  import opened Walks

  /** A walk over at least one edge. */
  ghost predicate LiesBelow(g: Graph, a: string, b: string) {
    exists p :: WalkBetween(g, p, a, b) && |p| >= 2
  }

  ghost predicate PathLeadsTo(g: Graph, path: set<string>, gid: string) {
    forall a :: a in path ==> LiesBelow(g, a, gid)
  }

  lemma PathExtends(g: Graph, path: set<string>, gid: string, child: string)
    requires PathLeadsTo(g, path, gid) && Edge(g, gid, child)
    ensures PathLeadsTo(g, path + {gid}, child)
  {
    assert WalkBetween(g, [gid, child], gid, child);
    forall a | a in path ensures LiesBelow(g, a, child) {
      var p :| WalkBetween(g, p, a, gid) && |p| >= 2;
      assert WalkBetween(g, p + [child], a, child);
    }
  }

  lemma {:induction false} VisitIsExact(gid: string, g: Graph, path: set<string>, done: set<string>)
    requires Settled(g, done) && done !! path && PathLeadsTo(g, path, gid)
    ensures match Visit(gid, g, path, done)
            case Ok(d) => Settled(g, d) && done + {gid} <= d && d !! path
            case Err(_) => !Acyclic(g)
    decreases g.Keys - path, 1
  {
    if gid in path {
      var p :| WalkBetween(g, p, gid, gid) && |p| >= 2;
      assert IsCycle(g, p);
    } else if gid !in done {
      assert gid in g ==> gid in g.Keys - path && gid !in g.Keys - (path + {gid});
      assert gid !in g ==> g.Keys - (path + {gid}) == g.Keys - path;
      forall c | c in Successors(g, gid) ensures PathLeadsTo(g, path + {gid}, c) {
        PathExtends(g, path, gid, c);
      }
      VisitAllIsExact(Successors(g, gid), g, path + {gid}, done);
      var below := VisitAll(Successors(g, gid), g, path + {gid}, done);
      if below.Ok? {
        assert gid in path + {gid};
        SettleNode(g, below.value, gid);
      }
    }
  }

  lemma {:induction false} VisitAllIsExact(gids: seq<string>, g: Graph, path: set<string>, done: set<string>)
    requires Settled(g, done) && done !! path
    requires forall gid :: gid in gids ==> PathLeadsTo(g, path, gid)
    ensures match VisitAll(gids, g, path, done)
            case Ok(d) => Settled(g, d) && done <= d && (forall gid :: gid in gids ==> gid in d) && d !! path
            case Err(_) => !Acyclic(g)
    decreases g.Keys - path, 2 * |gids|
  {
    if gids != [] {
      VisitIsExact(gids[0], g, path, done);
      var next := Visit(gids[0], g, path, done);
      if next.Ok? {
        VisitAllIsExact(gids[1..], g, path, next.value);
        assert gids == [gids[0]] + gids[1..];
      }
    }
  }

  lemma {:induction false} NestingKeysAreIds(groups: seq<Group>)
    ensures forall k :: k in Nesting(groups) <==> k in Ids(groups)
  {
    if groups != [] {
      NestingKeysAreIds(groups[1..]);
      assert Ids(groups) == [groups[0].id] + Ids(groups[1..]);
    }
  }

  /** The check raises exactly when the sub-group relation has a cycle. */
  lemma AssertAcyclicIsExact(groups: seq<Group>)
    ensures AssertAcyclic(groups) <==> Acyclic(Nesting(groups))
  {
    var g := Nesting(groups);
    EmptyIsSettled(g);
    VisitAllIsExact(Ids(groups), g, {}, {});
    NestingKeysAreIds(groups);
    var r := VisitAll(Ids(groups), g, {}, {});
    if r.Ok? {
      SettledNodesHaveNoCycle(g, r.value);
    }
  }

  /** What the nesting holds for an id is what some group of that id states. */
  lemma {:induction false} NestedIsListed(groups: seq<Group>, a: string) returns (i: nat)
    requires a in Nesting(groups)
    ensures i < |groups| && groups[i].id == a && groups[i].Children() == Nesting(groups)[a]
  {
    if a in Nesting(groups[1..]) {
      i := NestedIsListed(groups[1..], a);
      i := i + 1;
    } else {
      i := 0;
    }
  }

  /** The last group of an id is the one that counts. */
  lemma {:induction false} ListedIsNested(groups: seq<Group>, i: nat)
    requires i < |groups| && forall j :: i < j < |groups| ==> groups[j].id != groups[i].id
    ensures groups[i].id in Nesting(groups) && Nesting(groups)[groups[i].id] == groups[i].Children()
  {
    var rest := groups[1..];
    if i > 0 {
      ListedIsNested(rest, i - 1);
    } else if groups[0].id in Nesting(rest) {
      var j := NestedIsListed(rest, groups[0].id);
      assert false;
    }
  }

  /** An edge of the nesting comes from a group, and with distinct ids every group gives its edges. */
  lemma {:induction false} NestingEdges(groups: seq<Group>, a: string, b: string)
    ensures Edge(Nesting(groups), a, b) ==>
              exists i :: 0 <= i < |groups| && groups[i].id == a && b in groups[i].Children()
    ensures (forall i, j :: 0 <= i < j < |groups| ==> groups[i].id != groups[j].id) ==>
              forall i :: 0 <= i < |groups| && groups[i].id == a && b in groups[i].Children() ==> Edge(Nesting(groups), a, b)
  {
    if Edge(Nesting(groups), a, b) {
      var i := NestedIsListed(groups, a);
      assert b in groups[i].Children();
    }
    if forall i, j :: 0 <= i < j < |groups| ==> groups[i].id != groups[j].id {
      forall i | 0 <= i < |groups| && groups[i].id == a && b in groups[i].Children() ensures Edge(Nesting(groups), a, b) {
        ListedIsNested(groups, i);
      }
    }
  }

  lemma SubgraphIsAcyclic(g: Graph, h: Graph)
    requires Acyclic(g) && forall a, b :: Edge(h, a, b) ==> Edge(g, a, b)
    ensures Acyclic(h)
  {
    forall p | IsWalk(h, p) ensures !IsCycle(h, p) {
      forall i | 0 <= i < |p| - 1 ensures Edge(g, p[i], p[i + 1]) {
        assert Edge(h, p[i], p[i + 1]);
      }
      assert IsWalk(g, p) && !IsCycle(g, p);
    }
  }
}

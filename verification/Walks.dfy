/**
 Directed graphs given by adjacency lists, and walks in them. The cycle search over automatic
 transitions, the breadth-first search and the nesting check of the editor groups are all judged
 against these definitions.
 */
module Walks {

  type Graph = map<string, seq<string>>

  /** A node without an entry has no successor. */
  function Successors(g: Graph, a: string): seq<string> {
    if a in g then g[a] else []
  }

  predicate Edge(g: Graph, a: string, b: string) {
    b in Successors(g, a)
  }

  /** Every successor is a node with an entry of its own. */
  predicate Total(g: Graph) {
    forall a, b :: a in g && b in g[a] ==> b in g
  }

  predicate IsWalk(g: Graph, p: seq<string>) {
    && |p| > 0
    && forall i :: 0 <= i < |p| - 1 ==> Edge(g, p[i], p[i + 1])
  }

  predicate WalkBetween(g: Graph, p: seq<string>, a: string, b: string) {
    IsWalk(g, p) && p[0] == a && p[|p| - 1] == b
  }

  ghost predicate Reaches(g: Graph, a: string, b: string) {
    exists p :: WalkBetween(g, p, a, b)
  }

  /** A closed walk over at least one edge. */
  predicate IsCycle(g: Graph, p: seq<string>) {
    IsWalk(g, p) && |p| >= 2 && p[0] == p[|p| - 1]
  }

  ghost predicate Acyclic(g: Graph) {
    forall p :: !IsCycle(g, p)
  }

  predicate ClosedUnder(g: Graph, s: set<string>) {
    forall a, b :: a in s && b in Successors(g, a) ==> b in s
  }

  lemma ReachesSelf(g: Graph, a: string)
    ensures Reaches(g, a, a)
  {
    assert WalkBetween(g, [a], a, a);
  }

  lemma ReachesStep(g: Graph, a: string, b: string, c: string)
    requires Reaches(g, a, b) && Edge(g, b, c)
    ensures Reaches(g, a, c)
  {
    var p :| WalkBetween(g, p, a, b);
    assert WalkBetween(g, p + [c], a, c);
  }

  /** A walk that starts in a closed set never leaves it. */
  lemma {:induction false} WalkStaysClosed(g: Graph, s: set<string>, p: seq<string>, i: nat)
    requires ClosedUnder(g, s) && IsWalk(g, p) && p[0] in s && i < |p|
    ensures p[i] in s
  {
    if i > 0 {
      WalkStaysClosed(g, s, p, i - 1);
      assert Edge(g, p[i - 1], p[i]);
    }
  }

  lemma ReachesStaysClosed(g: Graph, s: set<string>, a: string, b: string)
    requires ClosedUnder(g, s) && a in s && Reaches(g, a, b)
    ensures b in s
  {
    var p :| WalkBetween(g, p, a, b);
    WalkStaysClosed(g, s, p, |p| - 1);
  }

  lemma SubwalkIsWalk(g: Graph, p: seq<string>, i: nat, j: nat)
    requires IsWalk(g, p) && i < j <= |p|
    ensures IsWalk(g, p[i..j])
  {
    var q := p[i..j];
    forall k | 0 <= k < |q| - 1 ensures Edge(g, q[k], q[k + 1]) {
      assert q[k] == p[i + k] && q[k + 1] == p[i + k + 1];
    }
  }

  /** Without a cycle no walk visits a node twice. */
  lemma AcyclicWalkIsSimple(g: Graph, p: seq<string>)
    requires Acyclic(g) && IsWalk(g, p)
    ensures forall i, j :: 0 <= i < j < |p| ==> p[i] != p[j]
  {
    forall i, j | 0 <= i < j < |p| ensures p[i] != p[j] {
      if p[i] == p[j] {
        SubwalkIsWalk(g, p, i, j + 1);
        assert IsCycle(g, p[i..j + 1]);
      }
    }
  }

  /** The pigeonhole principle for sequences without repetition. */
  lemma {:induction false} DistinctFits(p: seq<string>, s: set<string>)
    requires forall i, j :: 0 <= i < j < |p| ==> p[i] != p[j]
    requires forall i :: 0 <= i < |p| ==> p[i] in s
    ensures |p| <= |s|
  {
    if p != [] {
      var rest := p[1..];
      forall i | 0 <= i < |rest| ensures rest[i] in s - {p[0]} {
        assert rest[i] == p[i + 1];
      }
      DistinctFits(rest, s - {p[0]});
    }
  }

  lemma AcyclicWalkIsShort(g: Graph, p: seq<string>)
    requires Total(g) && Acyclic(g) && IsWalk(g, p) && p[0] in g
    ensures |p| <= |g|
  {
    AcyclicWalkIsSimple(g, p);
    forall i | 0 <= i < |p| ensures p[i] in g.Keys {
      WalkStaysClosed(g, g.Keys, p, i);
    }
    DistinctFits(p, g.Keys);
  }

  /** A closed walk can be walked again and again. */
  lemma {:induction false} CyclePumps(g: Graph, c: seq<string>, times: nat) returns (p: seq<string>)
    requires IsCycle(g, c)
    ensures IsWalk(g, p) && |p| > times && p[0] == c[0] && p[|p| - 1] == c[0]
  {
    if times == 0 {
      p := c;
    } else {
      var shorter := CyclePumps(g, c, times - 1);
      p := shorter + c[1..];
    }
  }

  /** Walks are bounded by the number of nodes exactly when no cycle exists. */
  lemma AcyclicMeansBoundedWalks(g: Graph)
    requires Total(g)
    ensures Acyclic(g) <==> forall p :: IsWalk(g, p) && p[0] in g ==> |p| <= |g|
  {
    if Acyclic(g) {
      forall p | IsWalk(g, p) && p[0] in g ensures |p| <= |g| {
        AcyclicWalkIsShort(g, p);
      }
    } else {
      var c :| IsCycle(g, c);
      assert Edge(g, c[0], c[1]);
      var p := CyclePumps(g, c, |g|);
    }
  }

  // -- the finished nodes of a depth-first search ------------------------------------------

  /** The set is closed, and no cycle starts in it. */
  ghost predicate Settled(g: Graph, done: set<string>) {
    && ClosedUnder(g, done)
    && forall p :: IsWalk(g, p) && p[0] in done ==> !IsCycle(g, p)
  }

  lemma EmptyIsSettled(g: Graph)
    ensures Settled(g, {})
  {
  }

  /** A node joins the finished nodes once all its successors are finished. */
  lemma SettleNode(g: Graph, done: set<string>, n: string)
    requires Settled(g, done) && n !in done
    requires forall m :: m in Successors(g, n) ==> m in done
    ensures Settled(g, done + {n})
  {
    forall p | IsWalk(g, p) && p[0] in done + {n} ensures !IsCycle(g, p) {
      if p[0] == n && |p| >= 2 {
        assert Edge(g, p[0], p[1]);
        SubwalkIsWalk(g, p, 1, |p|);
        WalkStaysClosed(g, done, p[1..], |p| - 2);
        assert p[1..][|p| - 2] == p[|p| - 1];
      }
    }
  }

  lemma SettledNodesHaveNoCycle(g: Graph, done: set<string>)
    requires Settled(g, done) && g.Keys <= done
    ensures Acyclic(g)
  {
    forall p | IsWalk(g, p) && |p| >= 2 ensures p[0] in done {
      assert Edge(g, p[0], p[1]);
    }
  }
}

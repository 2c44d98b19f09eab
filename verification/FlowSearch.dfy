/**
 The two graph searches of the flow validator: the layered breadth-first search of
 `_reachable` and the depth-first cycle search of `_first_cycle`.
 */
module FlowSearch {
  import opened Seqs
  import opened Walks
  import opened Wrappers

  // -- breadth-first search ------------------------------------------------------------------

  /** One layer: the frontier and the states seen before it. */
  datatype Layer = Layer(frontier: set<string>, seen: set<string>)

  function Step(g: Graph, layer: Layer): Layer {
    var visited := layer.seen + layer.frontier;
    var following := (set a, b | a in layer.frontier && b in Successors(g, a) :: b) - visited;
    if layer.frontier != {} then Layer(following, visited) else layer
  }

  /** The fold of `Step` over the keys; only their number matters. */
  function Layers(g: Graph, steps: nat, layer: Layer): Layer {
    if steps == 0 then layer else Layers(g, steps - 1, Step(g, layer))
  }

  function Reachable(g: Graph, initial: string): set<string> {
    var layer := Layers(g, |g|, Layer({initial}, {}));
    layer.seen + layer.frontier
  }

  /** What every layer of the search from `initial` satisfies. */
  ghost predicate LayerOk(g: Graph, initial: string, layer: Layer) {
    && layer.frontier !! layer.seen
    && layer.seen + layer.frontier <= g.Keys
    && initial in layer.seen + layer.frontier
    && (forall a, b :: a in layer.seen && b in Successors(g, a) ==> b in layer.seen + layer.frontier)
    && (forall a :: a in layer.seen + layer.frontier ==> Reaches(g, initial, a))
  }

  lemma {:induction false} StepKeepsLayerOk(g: Graph, initial: string, layer: Layer)
    requires Total(g) && LayerOk(g, initial, layer)
    ensures LayerOk(g, initial, Step(g, layer))
    ensures layer.frontier != {} ==> |Step(g, layer).seen| > |layer.seen|
  {
    var next := Step(g, layer);
    forall b | b in next.frontier && layer.frontier != {} ensures Reaches(g, initial, b) && b in g {
      var a :| a in layer.frontier && b in Successors(g, a);
      ReachesStep(g, initial, a, b);
    }
    if layer.frontier != {} {
      var x :| x in layer.frontier;
      SubsetIsSmaller(layer.seen + {x}, next.seen);
    }
  }

  /** Each step with a frontier sees a new state, so the keys outnumber the layers. */
  lemma {:induction false} LayersExhaust(g: Graph, initial: string, steps: nat, layer: Layer)
    requires Total(g) && LayerOk(g, initial, layer)
    requires layer.frontier == {} || steps + |layer.seen| >= |g|
    ensures LayerOk(g, initial, Layers(g, steps, layer))
    ensures Layers(g, steps, layer).frontier == {}
  {
    if steps == 0 {
      if layer.frontier != {} {
        var x :| x in layer.frontier;
        SubsetIsSmaller(layer.seen + {x}, g.Keys);
      }
    } else {
      StepKeepsLayerOk(g, initial, layer);
      LayersExhaust(g, initial, steps - 1, Step(g, layer));
    }
  }

  /** After exactly one step per state the search has found what a walk from `initial` reaches. */
  lemma ReachableIsReachability(g: Graph, initial: string)
    requires Total(g) && initial in g
    ensures forall a :: a in Reachable(g, initial) <==> Reaches(g, initial, a)
  {
    var start := Layer({initial}, {});
    ReachesSelf(g, initial);
    LayersExhaust(g, initial, |g|, start);
    forall a | Reaches(g, initial, a) ensures a in Reachable(g, initial) {
      ReachesStaysClosed(g, Reachable(g, initial), initial, a);
    }
  }

  /** The same set is the least one that holds `initial` and is closed under transitions. */
  lemma ReachableIsLeastClosed(g: Graph, initial: string, closed: set<string>)
    requires Total(g) && initial in g
    ensures initial in Reachable(g, initial) && ClosedUnder(g, Reachable(g, initial))
    ensures initial in closed && ClosedUnder(g, closed) ==> Reachable(g, initial) <= closed
  {
    ReachableIsReachability(g, initial);
    ReachesSelf(g, initial);
    forall a, b | a in Reachable(g, initial) && b in Successors(g, a) ensures b in Reachable(g, initial) {
      ReachesStep(g, initial, a, b);
    }
    if initial in closed && ClosedUnder(g, closed) {
      forall a | a in Reachable(g, initial) ensures a in closed {
        ReachesStaysClosed(g, closed, initial, a);
      }
    }
  }

  // -- depth-first cycle search -----------------------------------------------------------------

  /** The first cycle found, if any, and the finished nodes. */
  datatype CycleSearch = CycleSearch(cycle: Option<seq<string>>, done: set<string>)

  function IndexOf(s: seq<string>, x: string): (i: nat)
    requires x in s
    ensures i < |s| && s[i] == x
  {
    if s[0] == x then 0 else 1 + IndexOf(s[1..], x)
  }

  /** Search `nodes` in order; `found` holds what the nodes before them gave. */
  function SearchFrom(nodes: seq<string>, trail: seq<string>, found: CycleSearch, g: Graph): CycleSearch
    requires Total(g) && Elements(nodes) <= g.Keys
    decreases g.Keys - Elements(trail), |nodes|
  {
    if nodes == [] then found else
      var node := nodes[0];
      var next :=
        if found.cycle.None? && node in trail then
          CycleSearch(Some(trail[IndexOf(trail, node)..] + [node]), found.done)
        else if found.cycle.None? && node !in found.done then
          assert node in g.Keys - Elements(trail) && node !in g.Keys - Elements(trail + [node]);
          var inner := SearchFrom(g[node], trail + [node], CycleSearch(None, found.done), g);
          CycleSearch(inner.cycle, inner.done + {node})
        else
          found;
      SearchFrom(nodes[1..], trail, next, g)
  }

  function FirstCycle(nodes: seq<string>, trail: seq<string>, done: set<string>, g: Graph): CycleSearch
    requires Total(g) && Elements(nodes) <= g.Keys
  {
    SearchFrom(nodes, trail, CycleSearch(None, done), g)
  }

  /** A closed walk that repeats no node but the first. */
  ghost predicate IsSimpleCycle(g: Graph, p: seq<string>) {
    && IsCycle(g, p)
    && forall i, j :: 0 <= i < j < |p| - 1 ==> p[i] != p[j]
  }

  /** The trail is a walk without repetition that leads to every node of the current list. */
  ghost predicate TrailOk(g: Graph, trail: seq<string>, nodes: seq<string>) {
    && (forall i, j :: 0 <= i < j < |trail| ==> trail[i] != trail[j])
    && (trail != [] ==> IsWalk(g, trail) && forall n :: n in nodes ==> Edge(g, trail[|trail| - 1], n))
  }

  ghost predicate FoundOk(g: Graph, trail: seq<string>, found: CycleSearch) {
    match found.cycle
    case Some(c) => IsSimpleCycle(g, c)
    case None => Settled(g, found.done) && found.done !! Elements(trail)
  }

  lemma BackEdgeClosesCycle(g: Graph, trail: seq<string>, nodes: seq<string>, node: string)
    requires TrailOk(g, trail, nodes) && node in nodes && node in trail
    ensures IsSimpleCycle(g, trail[IndexOf(trail, node)..] + [node])
  {
    var i := IndexOf(trail, node);
    SubwalkIsWalk(g, trail, i, |trail|);
    var c := trail[i..] + [node];
    forall k | 0 <= k < |c| - 1 ensures Edge(g, c[k], c[k + 1]) {
      if k == |c| - 2 {
        assert c[k] == trail[|trail| - 1];
      }
    }
  }

  /** Going down to a node that is neither on the trail nor finished. */
  lemma TrailGoesDown(g: Graph, trail: seq<string>, nodes: seq<string>, done: set<string>)
    requires Total(g) && nodes != [] && nodes[0] in g
    requires TrailOk(g, trail, nodes) && nodes[0] !in trail
    requires done !! Elements(trail) && nodes[0] !in done
    ensures TrailOk(g, trail + [nodes[0]], g[nodes[0]]) && done !! Elements(trail + [nodes[0]])
    ensures g.Keys - Elements(trail + [nodes[0]]) < g.Keys - Elements(trail)
    ensures Elements(g[nodes[0]]) <= g.Keys
    ensures Elements(trail + [nodes[0]]) == Elements(trail) + {nodes[0]}
  {
    var node := nodes[0];
    assert forall x :: x in trail + [node] <==> x in trail || x == node;
    assert Elements(trail + [node]) == Elements(trail) + {node};
    assert node in g.Keys - Elements(trail);
    forall i | 0 <= i < |trail| ensures Edge(g, (trail + [node])[i], (trail + [node])[i + 1]) {
      assert (trail + [node])[i] == trail[i];
      if i + 1 < |trail| {
        assert (trail + [node])[i + 1] == trail[i + 1] && Edge(g, trail[i], trail[i + 1]);
      } else {
        assert node in nodes && Edge(g, trail[|trail| - 1], node);
      }
    }
  }

  lemma TrailForRest(g: Graph, trail: seq<string>, nodes: seq<string>)
    requires nodes != [] && TrailOk(g, trail, nodes) && Elements(nodes) <= g.Keys
    ensures TrailOk(g, trail, nodes[1..]) && Elements(nodes[1..]) <= g.Keys
    ensures Elements(nodes) == {nodes[0]} + Elements(nodes[1..])
  {
    assert forall n :: n in nodes[1..] ==> n in nodes;
    assert nodes == [nodes[0]] + nodes[1..];
  }

  /** The invariant of the search, for every node list, trail and starting result. */
  lemma {:induction false} SearchFromInvariant(nodes: seq<string>, trail: seq<string>, found: CycleSearch, g: Graph)
    requires Total(g) && Elements(nodes) <= g.Keys
    requires TrailOk(g, trail, nodes) && FoundOk(g, trail, found)
    ensures var r := SearchFrom(nodes, trail, found, g);
            && FoundOk(g, trail, r)
            && (r.cycle.None? ==> found.cycle.None? && found.done + Elements(nodes) <= r.done)
    decreases g.Keys - Elements(trail), |nodes|
  {
    if nodes != [] {
      var node := nodes[0];
      TrailForRest(g, trail, nodes);
      if found.cycle.None? && node in trail {
        BackEdgeClosesCycle(g, trail, nodes, node);
        SearchFromInvariant(nodes[1..], trail,
                            CycleSearch(Some(trail[IndexOf(trail, node)..] + [node]), found.done), g);
      } else if found.cycle.None? && node !in found.done {
        TrailGoesDown(g, trail, nodes, found.done);
        var start := CycleSearch(None, found.done);
        SearchFromInvariant(g[node], trail + [node], start, g);
        var inner := SearchFrom(g[node], trail + [node], start, g);
        if inner.cycle.None? {
          SettleNode(g, inner.done, node);
        }
        SearchFromInvariant(nodes[1..], trail, CycleSearch(inner.cycle, inner.done + {node}), g);
      } else {
        SearchFromInvariant(nodes[1..], trail, found, g);
      }
    }
  }

  /**
   The search over all nodes, in whatever order they come, reports a cycle exactly when there is
   one, and what it reports is a closed walk that passes no node twice.
   */
  lemma FirstCycleIsExact(order: seq<string>, g: Graph)
    requires Total(g) && Elements(order) == g.Keys
    ensures var r := FirstCycle(order, [], {}, g);
            && (r.cycle.None? <==> Acyclic(g))
            && (r.cycle.Some? ==> IsSimpleCycle(g, r.cycle.value))
  {
    EmptyIsSettled(g);
    SearchFromInvariant(order, [], CycleSearch(None, {}), g);
    var r := FirstCycle(order, [], {}, g);
    if r.cycle.None? {
      SettledNodesHaveNoCycle(g, r.done);
    }
  }
}

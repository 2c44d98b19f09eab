/**
 The style check over class hierarchies: `_is_pydantic` and `_is_frozen` search the base classes and
 avoid the classes they came through; and the baseline that `--write` stores.
 */
module BaseClasses {
  import opened Wrappers
  import opened Seqs
  import opened Walks

  datatype ClassInfo = ClassInfo(bases: seq<string>, frozen: bool)

  /** Every definition found for a name. */
  type Classes = map<string, seq<ClassInfo>>

  const PYDANTIC_ROOTS: set<string> := {"BaseModel", "BaseSettings", "RootModel"}

  function BasesOf(infos: seq<ClassInfo>): seq<string> {
    if infos == [] then [] else infos[0].bases + BasesOf(infos[1..])
  }

  /** The bases are those of every definition, not of the first alone. */
  lemma {:induction false} BasesOfAll(infos: seq<ClassInfo>, b: string)
    ensures b in BasesOf(infos) <==> exists i :: 0 <= i < |infos| && b in infos[i].bases
  {
    if infos != [] {
      BasesOfAll(infos[1..], b);
      assert forall i :: 0 < i < |infos| ==> infos[i] == infos[1..][i - 1];
      assert forall i :: 0 <= i < |infos[1..]| ==> infos[1..][i] == infos[i + 1];
    }
  }

  /** The graph from each class to the bases of all its definitions. */
  function BaseGraph(classes: Classes): Graph {
    map name | name in classes :: BasesOf(classes[name])
  }

  predicate IsPydantic(name: string, classes: Classes, seen: set<string>)
    decreases classes.Keys - seen
  {
    || name in PYDANTIC_ROOTS
    || (name !in seen && name in classes &&
        exists b :: b in BasesOf(classes[name]) && IsPydantic(b, classes, seen + {name}))
  }

  predicate HasFrozen(name: string, classes: Classes) {
    name in classes && exists i :: 0 <= i < |classes[name]| && classes[name][i].frozen
  }

  predicate IsFrozen(name: string, classes: Classes, seen: set<string>)
    decreases classes.Keys - seen
  {
    && name !in seen && name in classes
    && (HasFrozen(name, classes) || exists b :: b in BasesOf(classes[name]) && IsFrozen(b, classes, seen + {name}))
  }

  // -- avoiding the path loses nothing ------------------------------------------------------------------

  /** A walk to a goal that passes no class of `seen`. */
  ghost predicate Avoids(p: seq<string>, seen: set<string>) {
    forall i :: 0 <= i < |p| ==> p[i] !in seen
  }

  /** The last stay at the first class: behind it the walk never comes back. */
  lemma {:induction false} LastVisit(p: seq<string>, name: string, n: nat) returns (last: nat)
    requires 0 < n <= |p| && p[0] == name
    requires forall k :: n <= k < |p| ==> p[k] != name
    ensures last < |p| && p[last] == name && forall k :: last < k < |p| ==> p[k] != name
    decreases n
  {
    if p[n - 1] == name {
      last := n - 1;
    } else {
      last := LastVisit(p, name, n - 1);
    }
  }

  lemma {:induction false} WalkMeansPydantic(p: seq<string>, classes: Classes, seen: set<string>)
    requires IsWalk(BaseGraph(classes), p) && Avoids(p, seen) && p[|p| - 1] in PYDANTIC_ROOTS
    ensures IsPydantic(p[0], classes, seen)
    decreases |p|
  {
    var last := LastVisit(p, p[0], |p|);
    if last < |p| - 1 {
      var rest := p[last + 1..];
      assert Edge(BaseGraph(classes), p[last], p[last + 1]);
      SubwalkIsWalk(BaseGraph(classes), p, last + 1, |p|);
      WalkMeansPydantic(rest, classes, seen + {p[0]});
      assert rest[0] in BasesOf(classes[p[0]]);
    }
  }

  lemma {:induction false} WalkMeansFrozen(p: seq<string>, classes: Classes, seen: set<string>)
    requires IsWalk(BaseGraph(classes), p) && Avoids(p, seen) && HasFrozen(p[|p| - 1], classes)
    ensures IsFrozen(p[0], classes, seen)
    decreases |p|
  {
    var last := LastVisit(p, p[0], |p|);
    if last < |p| - 1 {
      var rest := p[last + 1..];
      assert Edge(BaseGraph(classes), p[last], p[last + 1]);
      SubwalkIsWalk(BaseGraph(classes), p, last + 1, |p|);
      WalkMeansFrozen(rest, classes, seen + {p[0]});
      assert rest[0] in BasesOf(classes[p[0]]);
    }
  }

  lemma ReachesThrough(g: Graph, a: string, b: string, c: string)
    requires Edge(g, a, b) && Reaches(g, b, c)
    ensures Reaches(g, a, c)
  {
    var p :| WalkBetween(g, p, b, c);
    assert WalkBetween(g, [a] + p, a, c);
  }

  lemma {:induction false} PydanticMeansWalk(name: string, classes: Classes, seen: set<string>)
    requires IsPydantic(name, classes, seen)
    ensures exists root :: root in PYDANTIC_ROOTS && Reaches(BaseGraph(classes), name, root)
    decreases classes.Keys - seen
  {
    if name in PYDANTIC_ROOTS {
      ReachesSelf(BaseGraph(classes), name);
    } else {
      var b :| b in BasesOf(classes[name]) && IsPydantic(b, classes, seen + {name});
      PydanticMeansWalk(b, classes, seen + {name});
      var root :| root in PYDANTIC_ROOTS && Reaches(BaseGraph(classes), b, root);
      ReachesThrough(BaseGraph(classes), name, b, root);
    }
  }

  lemma {:induction false} FrozenMeansWalk(name: string, classes: Classes, seen: set<string>)
    requires IsFrozen(name, classes, seen)
    ensures exists c :: HasFrozen(c, classes) && Reaches(BaseGraph(classes), name, c)
    decreases classes.Keys - seen
  {
    if HasFrozen(name, classes) {
      ReachesSelf(BaseGraph(classes), name);
    } else {
      var b :| b in BasesOf(classes[name]) && IsFrozen(b, classes, seen + {name});
      FrozenMeansWalk(b, classes, seen + {name});
      var c :| HasFrozen(c, classes) && Reaches(BaseGraph(classes), b, c);
      ReachesThrough(BaseGraph(classes), name, b, c);
    }
  }

  /** A class counts as a model exactly when some chain of bases, cyclic or not, leads to a root. */
  lemma PydanticIsReachability(name: string, classes: Classes)
    ensures IsPydantic(name, classes, {}) <==>
            exists root :: root in PYDANTIC_ROOTS && Reaches(BaseGraph(classes), name, root)
  {
    if IsPydantic(name, classes, {}) {
      PydanticMeansWalk(name, classes, {});
    }
    forall root | root in PYDANTIC_ROOTS && Reaches(BaseGraph(classes), name, root)
      ensures IsPydantic(name, classes, {})
    {
      var p :| WalkBetween(BaseGraph(classes), p, name, root);
      WalkMeansPydantic(p, classes, {});
    }
  }

  /** A class counts as frozen exactly when it or some class above it has a frozen definition. */
  lemma FrozenIsReachability(name: string, classes: Classes)
    ensures IsFrozen(name, classes, {}) <==>
            exists c :: HasFrozen(c, classes) && Reaches(BaseGraph(classes), name, c)
  {
    if IsFrozen(name, classes, {}) {
      FrozenMeansWalk(name, classes, {});
    }
    forall c | HasFrozen(c, classes) && Reaches(BaseGraph(classes), name, c)
      ensures IsFrozen(name, classes, {})
    {
      var p :| WalkBetween(BaseGraph(classes), p, name, c);
      WalkMeansFrozen(p, classes, {});
    }
  }

  // -- the baseline ----------------------------------------------------------------------------------------

  type Counts = map<string, nat>

  /** One baseline file per area. */
  type Baseline = map<string, Counts>

  predicate IsFrontend(area: string) {
    "frontend" <= area
  }

  function Areas(counts: Counts, areaOf: string -> string): set<string> {
    set p | p in counts :: areaOf(p)
  }

  function Grouped(counts: Counts, areaOf: string -> string): Baseline {
    map a | a in Areas(counts, areaOf) :: map p | p in counts && areaOf(p) == a :: counts[p]
  }

  /** Replace the files of the one kind; the files of the other kind stay. */
  function WriteBaseline(files: Baseline, counts: Counts, areaOf: string -> string, frontend: bool): Baseline {
    (map a | a in files && IsFrontend(a) != frontend :: files[a]) + Grouped(counts, areaOf)
  }

  function LoadBaseline(files: Baseline, frontend: bool): Baseline {
    map a | a in files && IsFrontend(a) == frontend :: files[a]
  }

  function CountOf(counts: Counts, path: string): nat {
    if path in counts then counts[path] else 0
  }

  /** The files read one after the other; a later one wins. */
  function Stored(baseline: Baseline, order: seq<string>): Counts {
    if order == [] then map[]
    else
      var n := |order| - 1;
      Stored(baseline, order[..n]) + if order[n] in baseline then baseline[order[n]] else map[]
  }

  /** One message: a path, its count now and in the baseline. */
  datatype Message = Message(path: string, count: nat, stored: nat)

  /** The path belongs to the one area that is looked at, or all are. */
  predicate Looked(only: Option<string>, areaOf: string -> string, path: string) {
    only.None? || areaOf(path) == only.value
  }

  /** A message for each file whose count differs from its baseline, in one area or in all. */
  function Compare(counts: Counts, baseline: Baseline, order: seq<string>, only: Option<string>, areaOf: string -> string): set<Message> {
    var stored := Stored(baseline, order);
    set p | p in counts.Keys + stored.Keys
            && Looked(only, areaOf, p)
            && CountOf(counts, p) != CountOf(stored, p)
      :: Message(p, CountOf(counts, p), CountOf(stored, p))
  }

  /** What the files written for the counts read back as, in whatever order. */
  lemma {:induction false} StoredOfWritten(counts: Counts, areaOf: string -> string, baseline: Baseline, order: seq<string>)
    requires forall a :: a in baseline ==> a in Grouped(counts, areaOf) && baseline[a] == Grouped(counts, areaOf)[a]
    ensures forall p :: p in Stored(baseline, order) <==> p in counts && areaOf(p) in baseline && areaOf(p) in order
    ensures forall p :: p in Stored(baseline, order) ==> Stored(baseline, order)[p] == counts[p]
    decreases |order|
  {
    if order != [] {
      var n := |order| - 1;
      StoredOfWritten(counts, areaOf, baseline, order[..n]);
      assert order == order[..n] + [order[n]];
    }
  }

  lemma ComparesEmpty(counts: Counts, baseline: Baseline, order: seq<string>, only: Option<string>, areaOf: string -> string)
    ensures Compare(counts, baseline, order, only, areaOf) == {} <==>
              forall p :: p in counts.Keys + Stored(baseline, order).Keys && Looked(only, areaOf, p) ==>
                            CountOf(counts, p) == CountOf(Stored(baseline, order), p)
  {
    var stored, messages := Stored(baseline, order), Compare(counts, baseline, order, only, areaOf);
    if p :| p in counts.Keys + stored.Keys && Looked(only, areaOf, p) && CountOf(counts, p) != CountOf(stored, p) {
      assert Message(p, CountOf(counts, p), CountOf(stored, p)) in messages;
    }
  }

  /**
   Writing the baseline makes the comparison empty, for one area or for all, if and only if every
   counted path that it looks at belongs to an area of the kind that was written.
   */
  lemma WrittenBaselineComparesEqual(files: Baseline, counts: Counts, areaOf: string -> string, frontend: bool,
                                     order: seq<string>, only: Option<string>)
    requires forall p :: p in counts ==> counts[p] > 0
    requires Elements(order) == LoadBaseline(WriteBaseline(files, counts, areaOf, frontend), frontend).Keys
    ensures Compare(counts, LoadBaseline(WriteBaseline(files, counts, areaOf, frontend), frontend), order, only, areaOf) == {} <==>
            forall p :: p in counts && Looked(only, areaOf, p) ==> IsFrontend(areaOf(p)) == frontend
  {
    var loaded := LoadBaseline(WriteBaseline(files, counts, areaOf, frontend), frontend);
    StoredOfWritten(counts, areaOf, loaded, order);
    ComparesEmpty(counts, loaded, order, only, areaOf);
    forall p | p in counts ensures p in Stored(loaded, order) <==> IsFrontend(areaOf(p)) == frontend {
      assert areaOf(p) in Grouped(counts, areaOf);
      assert areaOf(p) in order <==> areaOf(p) in Elements(order);
    }
  }
}

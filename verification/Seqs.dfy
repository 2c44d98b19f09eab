/** Comprehensions over sequences: mapping, filtering and the set of the elements. */
module Seqs {

  function Map<A, B>(f: A -> B, s: seq<A>): (r: seq<B>)
    ensures |r| == |s|
    ensures forall i :: 0 <= i < |s| ==> r[i] == f(s[i])
  {
    seq(|s|, i requires 0 <= i < |s| => f(s[i]))
  }

  function Filter<A(!new)>(keep: A -> bool, s: seq<A>): (r: seq<A>)
    ensures forall x :: x in r <==> x in s && keep(x)
    ensures |r| <= |s|
  {
    if s == [] then []
    else
      assert s == [s[0]] + s[1..];
      (if keep(s[0]) then [s[0]] else []) + Filter(keep, s[1..])
  }

  function Elements<A>(s: seq<A>): set<A> {
    set x | x in s
  }

  lemma {:induction false} SubsetIsSmaller<A>(a: set<A>, b: set<A>)
    requires a <= b
    ensures |a| <= |b|
    ensures |a| == |b| ==> a == b
  {
    if a != {} {
      var x :| x in a;
      SubsetIsSmaller(a - {x}, b - {x});
    }
  }

  /** The relation holds between every two elements in order. */
  ghost predicate Pairwise<A>(s: seq<A>, related: (A, A) -> bool) {
    forall i, j :: 0 <= i < j < |s| ==> related(s[i], s[j])
  }

  lemma {:induction false} FilterKeepsPairs<A(!new)>(keep: A -> bool, s: seq<A>, related: (A, A) -> bool)
    requires Pairwise(s, related)
    ensures Pairwise(Filter(keep, s), related)
  {
    if s != [] {
      assert forall i :: 0 <= i < |s[1..]| ==> s[1..][i] == s[i + 1];
      FilterKeepsPairs(keep, s[1..], related);
      var rest := Filter(keep, s[1..]);
      forall x | x in rest ensures related(s[0], x) {
        var k :| 0 <= k < |s[1..]| && s[1..][k] == x;
      }
      var r := Filter(keep, s);
      forall i, j | 0 <= i < j < |r| ensures related(r[i], r[j]) {
        if keep(s[0]) {
          assert r[j] == rest[j - 1] && rest[j - 1] in rest;
        } else {
          assert r == rest;
        }
      }
    }
  }

  /** A filter that rejects nothing changes nothing. */
  lemma {:induction false} FilterKeepsAll<A(!new)>(keep: A -> bool, s: seq<A>)
    requires forall x :: x in s ==> keep(x)
    ensures Filter(keep, s) == s
  {
    if s != [] {
      FilterKeepsAll(keep, s[1..]);
    }
  }

  lemma FilterKeepsNone<A(!new)>(keep: A -> bool, s: seq<A>)
    requires forall x :: x in s ==> !keep(x)
    ensures Filter(keep, s) == []
  {
    var r := Filter(keep, s);
    assert forall i :: 0 <= i < |r| ==> r[i] in r;
  }
}

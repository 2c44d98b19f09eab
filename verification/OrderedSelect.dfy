/** `SELECT ... ORDER BY at LIMIT n` over a set of rows. */
module OrderedSelect {
  import opened Seqs

  lemma {:induction false} EarliestExists(ids: set<string>, at: string -> int)
    requires ids != {}
    ensures exists x :: x in ids && forall y :: y in ids ==> at(x) <= at(y)
  {
    var x :| x in ids;
    if ids != {x} {
      var rest := ids - {x};
      EarliestExists(rest, at);
      var y :| y in rest && forall z :: z in rest ==> at(y) <= at(z);
      assert ids == rest + {x};
      var least := if at(x) <= at(y) then x else y;
      assert forall z :: z in ids ==> at(least) <= at(z);
    }
  }

  /** The result in order: no row twice, none later than a row left out, and as many as fit. */
  ghost predicate IsSelection(ids: set<string>, limit: nat, at: string -> int, r: seq<string>) {
    && Elements(r) <= ids
    && (forall i, j :: 0 <= i < j < |r| ==> r[i] != r[j] && at(r[i]) <= at(r[j]))
    && (forall x, y :: x in r && y in ids && y !in r ==> at(x) <= at(y))
    && |r| <= limit
    && (|r| == limit || Elements(r) == ids)
  }

  method SelectEarliest(ids: set<string>, limit: nat, at: string -> int) returns (r: seq<string>)
    ensures IsSelection(ids, limit, at, r)
  {
    r := [];
    var left := ids;
    while |r| < limit && left != {}
      invariant left == ids - Elements(r) && Elements(r) <= ids && |r| <= limit
      invariant forall i, j :: 0 <= i < j < |r| ==> r[i] != r[j] && at(r[i]) <= at(r[j])
      invariant forall i, y :: 0 <= i < |r| && y in left ==> at(r[i]) <= at(y)
      decreases limit - |r|
    {
      EarliestExists(left, at);
      var x :| x in left && forall y :: y in left ==> at(x) <= at(y);
      assert Elements(r + [x]) == Elements(r) + {x};
      r, left := r + [x], left - {x};
    }
    if left == {} {
      forall y | y in ids ensures y in Elements(r) {
        assert y !in left;
      }
    }
  }

  lemma {:induction false} DistinctCount(r: seq<string>)
    requires forall i, j :: 0 <= i < j < |r| ==> r[i] != r[j]
    ensures |Elements(r)| == |r|
  {
    if r != [] {
      var n := |r| - 1;
      DistinctCount(r[..n]);
      assert r == r[..n] + [r[n]];
      assert Elements(r) == Elements(r[..n]) + {r[n]};
    }
  }
}

/**
 Inline formulas of the protocol converter. A formula may span several inline nodes, so the source of
 the nodes is rebuilt, the formulas are found in it, and each node is converted piece by piece.
 */
module FormulaSpans {
  import opened Seqs

  /** An inline node: one with plain source text, or one with a structure of its own. */
  datatype Child = Plain(text: string) | Structured

  /** A formula in the rebuilt source, from its opening to behind its closing dollar sign. */
  datatype Formula = Formula(first: int, last: int, tex: string)

  /** What the conversion emits: a slice of the source as prose, a formula, or a whole child. */
  datatype Piece = Prose(lo: int, hi: int) | Math(formula: Formula) | Whole(child: nat)

  // -- the rebuilt source -----------------------------------------------------------------------------

  function PlainText(child: Child): string {
    match child
    case Plain(text) => text
    case Structured => "\n"
  }

  /** Where the source of a child starts: the running sum of the lengths before it. */
  function Start(kids: seq<Child>, i: nat): nat
    requires i <= |kids|
  {
    if i == 0 then 0 else Start(kids, i - 1) + |PlainText(kids[i - 1])|
  }

  /** The joined text of the children before `i`. */
  function SourceUpTo(kids: seq<Child>, i: nat): (text: string)
    requires i <= |kids|
    ensures |text| == Start(kids, i)
  {
    if i == 0 then "" else SourceUpTo(kids, i - 1) + PlainText(kids[i - 1])
  }

  function Source(kids: seq<Child>): (text: string)
    ensures |text| == Start(kids, |kids|)
  {
    SourceUpTo(kids, |kids|)
  }

  lemma {:induction false} SourcePrefix(kids: seq<Child>, i: nat, j: nat)
    requires i <= j <= |kids|
    ensures SourceUpTo(kids, i) <= SourceUpTo(kids, j)
    decreases j - i
  {
    if i < j {
      SourcePrefix(kids, i, j - 1);
    }
  }

  /** The source at a child is the text of the child. */
  lemma ChildText(kids: seq<Child>, i: nat)
    requires i < |kids|
    ensures Start(kids, i + 1) <= |Source(kids)|
    ensures Source(kids)[Start(kids, i)..Start(kids, i + 1)] == PlainText(kids[i])
  {
    SourcePrefix(kids, i + 1, |kids|);
    assert Source(kids)[..Start(kids, i + 1)] == SourceUpTo(kids, i + 1);
  }

  // -- the conversion -----------------------------------------------------------------------------------

  predicate Touches(f: Formula, start: int, end: int) {
    f.last > start && f.first < end
  }

  /** The formulas that overlap the child. */
  function Touching(formulas: seq<Formula>, start: int, end: int): seq<Formula> {
    if formulas == [] then []
    else (if Touches(formulas[0], start, end) then [formulas[0]] else []) + Touching(formulas[1..], start, end)
  }

  /** For each touching formula: the prose since the last one, then the formula if it starts here. */
  function HitPieces(hits: seq<Formula>, cursor: int, start: int): seq<Piece> {
    if hits == [] then []
    else
      [Prose(cursor, hits[0].first)]
      + (if hits[0].first >= start then [Math(hits[0])] else [])
      + HitPieces(hits[1..], hits[0].last, start)
  }

  function LastCursor(hits: seq<Formula>, start: int): int {
    if hits == [] then start else hits[|hits| - 1].last
  }

  /** What a plain child emits behind its last formula. */
  function TailPieces(i: nat, start: int, end: int, cursor: int): seq<Piece> {
    if cursor >= end then [] else if cursor == start then [Whole(i)] else [Prose(cursor, end)]
  }

  function SpanPieces(kids: seq<Child>, i: nat, formulas: seq<Formula>): seq<Piece>
    requires i < |kids|
  {
    if kids[i].Structured? then [Whole(i)]
    else
      var start, end := Start(kids, i), Start(kids, i + 1);
      var hits := Touching(formulas, start, end);
      var cursor := LastCursor(hits, start);
      HitPieces(hits, start, start) + TailPieces(i, start, end, cursor)
  }

  /** Without any formula every child converts the ordinary way. */
  function ChildPieces(kids: seq<Child>, i: nat, formulas: seq<Formula>): seq<Piece>
    requires i < |kids|
  {
    if formulas == [] then [Whole(i)] else SpanPieces(kids, i, formulas)
  }

  /** The pieces of each child. */
  function Chunks(kids: seq<Child>, formulas: seq<Formula>): (chunks: seq<seq<Piece>>)
    ensures |chunks| == |kids|
    ensures forall i :: 0 <= i < |kids| ==> chunks[i] == ChildPieces(kids, i, formulas)
  {
    seq(|kids|, i requires 0 <= i < |kids| => ChildPieces(kids, i, formulas))
  }

  function Flatten<T>(chunks: seq<seq<T>>): seq<T> {
    if chunks == [] then [] else chunks[0] + Flatten(chunks[1..])
  }

  function InlinePieces(kids: seq<Child>, formulas: seq<Formula>): seq<Piece> {
    Flatten(Chunks(kids, formulas))
  }

  // -- the promise -----------------------------------------------------------------------------------------

  /** Formulas in order, apart, and within a text of the length. */
  ghost predicate Ordered(formulas: seq<Formula>, length: nat) {
    && (forall i :: 0 <= i < |formulas| ==> 0 <= formulas[i].first < formulas[i].last <= length)
    && Pairwise(formulas, Before)
  }

  /** No formula holds a line end. */
  ghost predicate Unbroken(source: string, formulas: seq<Formula>)
    requires Ordered(formulas, |source|)
  {
    forall i, k :: 0 <= i < |formulas| && formulas[i].first <= k < formulas[i].last ==> source[k] != '\n'
  }

  /** The formulas that one scan of the source finds. */
  ghost predicate ScanOf(source: string, formulas: seq<Formula>) {
    Ordered(formulas, |source|) && Unbroken(source, formulas)
  }

  ghost predicate Before(a: Formula, b: Formula) {
    a.last <= b.first
  }

  function Lo(kids: seq<Child>, p: Piece): int {
    match p
    case Prose(lo, hi) => lo
    case Math(f) => f.first
    case Whole(i) => if i < |kids| then Start(kids, i) else 0
  }

  function Hi(kids: seq<Child>, p: Piece): int {
    match p
    case Prose(lo, hi) => hi
    case Math(f) => f.last
    case Whole(i) => if i < |kids| then Start(kids, i + 1) else 0
  }

  /** The pieces that are not empty cover the source from `a` to `b` one after the other. */
  ghost predicate Tile(kids: seq<Child>, pieces: seq<Piece>, a: int, b: int)
    decreases |pieces|
  {
    if pieces == [] then a == b
    else if Lo(kids, pieces[0]) >= Hi(kids, pieces[0]) then Tile(kids, pieces[1..], a, b)
    else Lo(kids, pieces[0]) == a && Tile(kids, pieces[1..], Hi(kids, pieces[0]), b)
  }

  lemma {:induction false} TilesJoin(kids: seq<Child>, p: seq<Piece>, q: seq<Piece>, a: int, b: int, c: int)
    requires Tile(kids, p, a, b) && Tile(kids, q, b, c)
    ensures Tile(kids, p + q, a, c)
    decreases |p|
  {
    if p == [] {
      assert p + q == q;
    } else {
      assert (p + q)[0] == p[0] && (p + q)[1..] == p[1..] + q;
      TilesJoin(kids, p[1..], q, if Lo(kids, p[0]) >= Hi(kids, p[0]) then a else Hi(kids, p[0]), b, c);
    }
  }

  /** A piece that is not empty tiles its own range, and an empty one tiles nothing. */
  lemma OneTile(kids: seq<Child>, p: Piece, a: int, b: int)
    requires if Lo(kids, p) < Hi(kids, p) then a == Lo(kids, p) && b == Hi(kids, p) else a == b
    ensures Tile(kids, [p], a, b)
  {
    assert [p][1..] == [];
  }

  lemma FormulaWithProseTiles(kids: seq<Child>, f: Formula, cursor: int)
    requires cursor <= f.first < f.last
    ensures Tile(kids, [Prose(cursor, f.first)] + [Math(f)], cursor, f.last)
  {
    OneTile(kids, Prose(cursor, f.first), cursor, f.first);
    OneTile(kids, Math(f), f.first, f.last);
    TilesJoin(kids, [Prose(cursor, f.first)], [Math(f)], cursor, f.first, f.last);
  }

  lemma RestIsOrdered(hits: seq<Formula>)
    requires hits != [] && Pairwise(hits, Before)
    ensures Pairwise(hits[1..], Before)
    ensures forall i :: 0 <= i < |hits[1..]| ==> hits[0].last <= hits[1..][i].first
  {
    assert forall i :: 0 <= i < |hits[1..]| ==> hits[1..][i] == hits[i + 1] && Before(hits[0], hits[i + 1]);
  }

  /** Formulas that all start at or behind the cursor tile up to the end of the last one. */
  lemma {:induction false} HitPiecesTile(kids: seq<Child>, hits: seq<Formula>, cursor: int, start: int)
    requires Pairwise(hits, Before) && start <= cursor
    requires forall i :: 0 <= i < |hits| ==> cursor <= hits[i].first < hits[i].last
    ensures Tile(kids, HitPieces(hits, cursor, start), cursor, LastCursor(hits, cursor))
    decreases |hits|
  {
    if hits != [] {
      var f, rest := hits[0], hits[1..];
      RestIsOrdered(hits);
      HitPiecesTile(kids, rest, f.last, start);
      FormulaWithProseTiles(kids, f, cursor);
      TilesJoin(kids, [Prose(cursor, f.first)] + [Math(f)], HitPieces(rest, f.last, start),
                cursor, f.last, LastCursor(rest, f.last));
    }
  }

  /** A formula that starts before a place and ends behind it. */
  predicate Straddles(f: Formula, place: int) {
    f.first < place < f.last
  }

  /** How far the output reaches once the children before `place` are converted. */
  ghost predicate ReachesTo(formulas: seq<Formula>, place: int, cursor: int) {
    || (cursor == place && forall f :: f in formulas ==> !Straddles(f, place))
    || (exists f :: f in formulas && Straddles(f, place) && cursor == f.last)
  }

  /** A structured child is a line end in the source, so no formula reaches into it. */
  lemma StructuredIsUntouched(kids: seq<Child>, i: nat, formulas: seq<Formula>)
    requires ScanOf(Source(kids), formulas) && i < |kids| && kids[i].Structured?
    ensures Start(kids, i + 1) == Start(kids, i) + 1
    ensures forall f :: f in formulas ==> !Touches(f, Start(kids, i), Start(kids, i + 1))
  {
    ChildText(kids, i);
    assert Source(kids)[Start(kids, i)..Start(kids, i + 1)][0] == '\n';
    forall f | f in formulas ensures !Touches(f, Start(kids, i), Start(kids, i + 1)) {
      var k :| 0 <= k < |formulas| && formulas[k] == f;
      assert Source(kids)[Start(kids, i)] == '\n';
    }
  }

  lemma {:induction false} TouchingMembers(formulas: seq<Formula>, start: int, end: int)
    ensures forall f :: f in Touching(formulas, start, end) <==> f in formulas && Touches(f, start, end)
  {
    if formulas != [] {
      TouchingMembers(formulas[1..], start, end);
      assert formulas == [formulas[0]] + formulas[1..];
    }
  }

  lemma {:induction false} TouchingIsOrdered(formulas: seq<Formula>, start: int, end: int)
    requires Pairwise(formulas, Before)
    ensures Pairwise(Touching(formulas, start, end), Before)
  {
    if formulas != [] {
      var rest, hits := Touching(formulas[1..], start, end), Touching(formulas, start, end);
      RestIsOrdered(formulas);
      TouchingIsOrdered(formulas[1..], start, end);
      TouchingMembers(formulas[1..], start, end);
      if Touches(formulas[0], start, end) {
        forall j | 0 <= j < |rest| ensures Before(formulas[0], rest[j]) {
          assert rest[j] in formulas[1..];
        }
        PrependBefore(formulas[0], rest);
      } else {
        assert hits == rest;
      }
    }
  }

  lemma PrependBefore(f: Formula, rest: seq<Formula>)
    requires Pairwise(rest, Before) && forall j :: 0 <= j < |rest| ==> Before(f, rest[j])
    ensures Pairwise([f] + rest, Before)
  {
  }

  /** The touching formulas are some of all, in the same order. */
  lemma HitsOf(length: nat, formulas: seq<Formula>, start: int, end: int)
    requires Ordered(formulas, length)
    ensures var hits := Touching(formulas, start, end);
            && Pairwise(hits, Before)
            && forall i :: 0 <= i < |hits| ==> hits[i].first < hits[i].last && Touches(hits[i], start, end)
    ensures forall f :: f in formulas && Touches(f, start, end) ==> f in Touching(formulas, start, end)
    ensures forall f :: f in Touching(formulas, start, end) ==> f in formulas
  {
    var hits := Touching(formulas, start, end);
    TouchingIsOrdered(formulas, start, end);
    TouchingMembers(formulas, start, end);
    forall i | 0 <= i < |hits| ensures hits[i].first < hits[i].last && Touches(hits[i], start, end) {
      assert hits[i] in hits;
      var k :| 0 <= k < |formulas| && formulas[k] == hits[i];
    }
  }

  /** The formulas of a plain child tile from where the output stood to behind the last of them. */
  lemma ChildHitsTile(kids: seq<Child>, hits: seq<Formula>, start: int, from: int)
    requires Pairwise(hits, Before) && start <= from
    requires forall i :: 0 <= i < |hits| ==> hits[i].first < hits[i].last && start < hits[i].last
    requires if hits != [] && hits[0].first < start then from == hits[0].last else from == start
    ensures Tile(kids, HitPieces(hits, start, start), from, LastCursor(hits, start))
  {
    if hits == [] {
    } else if hits[0].first < start {
      var rest := hits[1..];
      RestIsOrdered(hits);
      HitPiecesTile(kids, rest, from, start);
      OneTile(kids, Prose(start, hits[0].first), from, from);
      TilesJoin(kids, [Prose(start, hits[0].first)], HitPieces(rest, from, start), from, from, LastCursor(rest, from));
      assert [Prose(start, hits[0].first)] + [] == [Prose(start, hits[0].first)];
    } else {
      RestIsOrdered(hits);
      forall i | 0 <= i < |hits| ensures start <= hits[i].first {
        assert i > 0 ==> hits[i] == hits[1..][i - 1];
      }
      HitPiecesTile(kids, hits, start, start);
    }
  }

  lemma TailReaches(length: nat, formulas: seq<Formula>, start: int, end: int)
    requires Ordered(formulas, length) && start <= end
    ensures var hits := Touching(formulas, start, end);
            var cursor := LastCursor(hits, start);
            ReachesTo(formulas, end, if cursor >= end then cursor else end)
  {
    var hits := Touching(formulas, start, end);
    HitsOf(length, formulas, start, end);
    var cursor := LastCursor(hits, start);
    forall f | f in formulas && Straddles(f, end) ensures cursor == f.last {
      assert f in hits;
      var k :| 0 <= k < |hits| && hits[k] == f;
    }
    if cursor > end {
      assert hits != [] && Straddles(hits[|hits| - 1], end);
    }
  }

  lemma TailTiles(kids: seq<Child>, i: nat, cursor: int)
    requires i < |kids|
    ensures var start, end := Start(kids, i), Start(kids, i + 1);
            Tile(kids, TailPieces(i, start, end, cursor), cursor, if cursor >= end then cursor else end)
  {
    var start, end := Start(kids, i), Start(kids, i + 1);
    if cursor < end {
      if cursor == start {
        OneTile(kids, Whole(i), cursor, end);
      } else {
        OneTile(kids, Prose(cursor, end), cursor, end);
      }
    }
  }

  lemma PlainChildTiles(kids: seq<Child>, i: nat, formulas: seq<Formula>, from: int) returns (to: int)
    requires Ordered(formulas, |Source(kids)|) && i < |kids| && kids[i].Plain?
    requires ReachesTo(formulas, Start(kids, i), from)
    ensures ReachesTo(formulas, Start(kids, i + 1), to)
    ensures Tile(kids, SpanPieces(kids, i, formulas), from, to)
  {
    var start, end := Start(kids, i), Start(kids, i + 1);
    var hits := Touching(formulas, start, end);
    var cursor := LastCursor(hits, start);
    HitsOf(|Source(kids)|, formulas, start, end);
    FirstHitStraddles(|Source(kids)|, formulas, start, end, from);
    ChildHitsTile(kids, hits, start, from);
    TailReaches(|Source(kids)|, formulas, start, end);
    TailTiles(kids, i, cursor);
    to := if cursor >= end then cursor else end;
    TilesJoin(kids, HitPieces(hits, start, start), TailPieces(i, start, end, cursor), from, cursor, to);
  }

  lemma StructuredChildTiles(kids: seq<Child>, i: nat, formulas: seq<Formula>, from: int)
    requires ScanOf(Source(kids), formulas) && i < |kids| && kids[i].Structured?
    requires ReachesTo(formulas, Start(kids, i), from)
    ensures ReachesTo(formulas, Start(kids, i + 1), Start(kids, i + 1))
    ensures Tile(kids, SpanPieces(kids, i, formulas), from, Start(kids, i + 1))
  {
    StructuredIsUntouched(kids, i, formulas);
    var start, end := Start(kids, i), Start(kids, i + 1);
    assert forall f :: Straddles(f, start) ==> Touches(f, start, end);
    assert forall f :: Straddles(f, end) ==> Touches(f, start, end);
    OneTile(kids, Whole(i), from, Start(kids, i + 1));
  }

  /** The pieces of one child continue the tiling from its start to its end. */
  lemma ChildTiles(kids: seq<Child>, i: nat, formulas: seq<Formula>, from: int) returns (to: int)
    requires ScanOf(Source(kids), formulas) && i < |kids|
    requires ReachesTo(formulas, Start(kids, i), from)
    ensures ReachesTo(formulas, Start(kids, i + 1), to)
    ensures Tile(kids, SpanPieces(kids, i, formulas), from, to)
  {
    if kids[i].Structured? {
      StructuredChildTiles(kids, i, formulas, from);
      to := Start(kids, i + 1);
    } else {
      to := PlainChildTiles(kids, i, formulas, from);
    }
  }

  lemma LaterStartBehind(hits: seq<Formula>)
    requires Pairwise(hits, Before)
    ensures forall k :: 0 < k < |hits| ==> hits[0].last <= hits[k].first
  {
    assert forall k :: 0 < k < |hits| ==> Before(hits[0], hits[k]);
  }

  /** The formula that reaches into a child is the first one the child finds. */
  lemma FirstHitStraddles(length: nat, formulas: seq<Formula>, start: int, end: int, from: int)
    requires Ordered(formulas, length) && ReachesTo(formulas, start, from) && start <= end
    ensures var hits := Touching(formulas, start, end);
            if hits != [] && hits[0].first < start then from == hits[0].last else from == start
  {
    var hits := Touching(formulas, start, end);
    HitsOf(length, formulas, start, end);
    LaterStartBehind(hits);
    forall f | f in formulas && Straddles(f, start) ensures hits != [] && hits[0] == f {
      assert f in hits;
      var k :| 0 <= k < |hits| && hits[k] == f;
    }
  }

  lemma WholeChildTiles(kids: seq<Child>, i: nat)
    requires i < |kids|
    ensures Tile(kids, [Whole(i)], Start(kids, i), Start(kids, i + 1))
  {
    OneTile(kids, Whole(i), Start(kids, i), Start(kids, i + 1));
  }

  /** The places where the output of one child ends and the next begins. */
  lemma {:induction false} CutsOf(kids: seq<Child>, n: nat, formulas: seq<Formula>) returns (cuts: seq<int>)
    requires ScanOf(Source(kids), formulas) && n <= |kids|
    ensures |cuts| == n + 1 && cuts[0] == 0 && ReachesTo(formulas, Start(kids, n), cuts[n])
    ensures forall i :: 0 <= i < n ==> Tile(kids, ChildPieces(kids, i, formulas), cuts[i], cuts[i + 1])
  {
    if n == 0 {
      cuts := [0];
      forall f | f in formulas ensures !Straddles(f, 0) {
        var k :| 0 <= k < |formulas| && formulas[k] == f;
      }
    } else {
      var before := CutsOf(kids, n - 1, formulas);
      var to;
      if formulas == [] {
        WholeChildTiles(kids, n - 1);
        to := Start(kids, n);
      } else {
        to := ChildTiles(kids, n - 1, formulas, before[n - 1]);
      }
      cuts := before + [to];
      forall i | 0 <= i < n ensures Tile(kids, ChildPieces(kids, i, formulas), cuts[i], cuts[i + 1]) {
        assert i < n - 1 ==> cuts[i] == before[i] && cuts[i + 1] == before[i + 1];
      }
    }
  }

  lemma {:induction false} FlattenTiles(kids: seq<Child>, chunks: seq<seq<Piece>>, cuts: seq<int>)
    requires |cuts| == |chunks| + 1
    requires forall i :: 0 <= i < |chunks| ==> Tile(kids, chunks[i], cuts[i], cuts[i + 1])
    ensures Tile(kids, Flatten(chunks), cuts[0], cuts[|chunks|])
    decreases |chunks|
  {
    if chunks != [] {
      FlattenTiles(kids, chunks[1..], cuts[1..]);
      TilesJoin(kids, chunks[0], Flatten(chunks[1..]), cuts[0], cuts[1], cuts[|chunks|]);
    }
  }

  /** The conversion tiles the source: every place once, in order, as prose, in a formula or in a child. */
  lemma {:induction false} PiecesTileSource(kids: seq<Child>, formulas: seq<Formula>)
    requires ScanOf(Source(kids), formulas)
    ensures Tile(kids, InlinePieces(kids, formulas), 0, |Source(kids)|)
  {
    var cuts := CutsOf(kids, |kids|, formulas);
    FlattenTiles(kids, Chunks(kids, formulas), cuts);
    forall f | f in formulas ensures !Straddles(f, |Source(kids)|) {
      var k :| 0 <= k < |formulas| && formulas[k] == f;
    }
  }

  function Covers(kids: seq<Child>, p: Piece, at: int): bool {
    Lo(kids, p) <= at < Hi(kids, p)
  }

  /** How many pieces cover a place. */
  function Count(kids: seq<Child>, pieces: seq<Piece>, at: int): nat {
    if pieces == [] then 0 else (if Covers(kids, pieces[0], at) then 1 else 0) + Count(kids, pieces[1..], at)
  }

  lemma {:induction false} TilesCoverOnce(kids: seq<Child>, pieces: seq<Piece>, a: int, b: int, at: int)
    requires Tile(kids, pieces, a, b)
    ensures a <= b && Count(kids, pieces, at) == if a <= at < b then 1 else 0
    decreases |pieces|
  {
    if pieces != [] {
      TilesCoverOnce(kids, pieces[1..], if Lo(kids, pieces[0]) >= Hi(kids, pieces[0]) then a else Hi(kids, pieces[0]), b, at);
    }
  }

  /** Every index of the source is covered by exactly one piece. */
  lemma EveryPlaceIsConvertedOnce(kids: seq<Child>, formulas: seq<Formula>, at: nat)
    requires ScanOf(Source(kids), formulas) && at < |Source(kids)|
    ensures Count(kids, InlinePieces(kids, formulas), at) == 1
  {
    PiecesTileSource(kids, formulas);
    TilesCoverOnce(kids, InlinePieces(kids, formulas), 0, |Source(kids)|, at);
  }

  // -- every formula once --------------------------------------------------------------------------------------

  /** The formulas among the pieces, in order. */
  function Maths(pieces: seq<Piece>): seq<Formula> {
    if pieces == [] then [] else (if pieces[0].Math? then [pieces[0].formula] else []) + Maths(pieces[1..])
  }

  lemma {:induction false} MathsJoin(p: seq<Piece>, q: seq<Piece>)
    ensures Maths(p + q) == Maths(p) + Maths(q)
  {
    if p == [] {
      assert p + q == q;
    } else {
      assert (p + q)[0] == p[0] && (p + q)[1..] == p[1..] + q;
      MathsJoin(p[1..], q);
    }
  }

  /** The formulas that start in `start..end`. */
  function StartingIn(formulas: seq<Formula>, start: int, end: int): seq<Formula> {
    if formulas == [] then []
    else (if start <= formulas[0].first < end then [formulas[0]] else []) + StartingIn(formulas[1..], start, end)
  }

  /** The formulas of the list that start at or behind a place. */
  function StartingFrom(formulas: seq<Formula>, start: int): seq<Formula> {
    if formulas == [] then []
    else (if formulas[0].first >= start then [formulas[0]] else []) + StartingFrom(formulas[1..], start)
  }

  lemma {:induction false} MathsOfHits(hits: seq<Formula>, cursor: int, start: int)
    ensures Maths(HitPieces(hits, cursor, start)) == StartingFrom(hits, start)
    decreases |hits|
  {
    if hits != [] {
      MathsOfHits(hits[1..], hits[0].last, start);
      var math := if hits[0].first >= start then [Math(hits[0])] else [];
      var head := [Prose(cursor, hits[0].first)] + math;
      MathsJoin([Prose(cursor, hits[0].first)], math);
      assert math != [] ==> math[1..] == [];
      assert [Prose(cursor, hits[0].first)][1..] == [];
      MathsJoin(head, HitPieces(hits[1..], hits[0].last, start));
      assert HitPieces(hits, cursor, start) == head + HitPieces(hits[1..], hits[0].last, start);
    }
  }

  lemma {:induction false} HitsThatStart(formulas: seq<Formula>, start: int, end: int)
    requires forall i :: 0 <= i < |formulas| ==> formulas[i].first < formulas[i].last
    ensures StartingFrom(Touching(formulas, start, end), start) == StartingIn(formulas, start, end)
  {
    if formulas != [] {
      HitsThatStart(formulas[1..], start, end);
      var touching := Touching(formulas[1..], start, end);
      if Touches(formulas[0], start, end) {
        assert ([formulas[0]] + touching)[1..] == touching;
      } else {
        assert [] + touching == touching;
      }
    }
  }

  lemma {:induction false} NothingStartsIn(formulas: seq<Formula>, start: int, end: int)
    requires forall i :: 0 <= i < |formulas| ==> !(start <= formulas[i].first < end)
    ensures StartingIn(formulas, start, end) == []
  {
    if formulas != [] {
      NothingStartsIn(formulas[1..], start, end);
    }
  }

  lemma {:induction false} EverythingStartsIn(formulas: seq<Formula>, start: int, end: int)
    requires forall i :: 0 <= i < |formulas| ==> start <= formulas[i].first < end
    ensures StartingIn(formulas, start, end) == formulas
  {
    if formulas != [] {
      EverythingStartsIn(formulas[1..], start, end);
    }
  }

  lemma {:induction false} StartingInSplits(formulas: seq<Formula>, a: int, b: int, c: int)
    requires a <= b <= c && Pairwise(formulas, Before)
    requires forall i :: 0 <= i < |formulas| ==> formulas[i].first < formulas[i].last
    ensures StartingIn(formulas, a, b) + StartingIn(formulas, b, c) == StartingIn(formulas, a, c)
  {
    if formulas != [] {
      RestIsOrdered(formulas);
      StartingInSplits(formulas[1..], a, b, c);
      if formulas[0].first >= b {
        NothingStartsIn(formulas[1..], a, b);
      }
    }
  }

  lemma StructuredEmitsNothing(kids: seq<Child>, i: nat, formulas: seq<Formula>)
    requires ScanOf(Source(kids), formulas) && i < |kids| && kids[i].Structured?
    ensures StartingIn(formulas, Start(kids, i), Start(kids, i + 1)) == []
  {
    StructuredIsUntouched(kids, i, formulas);
    UntouchedMeansNoneStarts(formulas, |Source(kids)|, Start(kids, i), Start(kids, i + 1));
  }

  lemma UntouchedMeansNoneStarts(formulas: seq<Formula>, length: nat, start: int, end: int)
    requires Ordered(formulas, length) && forall f :: f in formulas ==> !Touches(f, start, end)
    ensures StartingIn(formulas, start, end) == []
  {
    forall i | 0 <= i < |formulas| ensures !(start <= formulas[i].first < end) {
      assert formulas[i] in formulas;
    }
    NothingStartsIn(formulas, start, end);
  }

  lemma TailEmitsNothing(hits: seq<Formula>, start: int, tail: seq<Piece>)
    requires |tail| <= 1 && (tail != [] ==> !tail[0].Math?)
    ensures Maths(HitPieces(hits, start, start) + tail) == Maths(HitPieces(hits, start, start))
  {
    assert tail != [] ==> tail[1..] == [];
    MathsJoin(HitPieces(hits, start, start), tail);
  }

  /** Each child emits exactly the formulas that start in it. */
  lemma ChildEmitsItsFormulas(kids: seq<Child>, i: nat, formulas: seq<Formula>)
    requires ScanOf(Source(kids), formulas) && i < |kids|
    ensures Maths(SpanPieces(kids, i, formulas)) == StartingIn(formulas, Start(kids, i), Start(kids, i + 1))
  {
    if kids[i].Structured? {
      StructuredEmitsNothing(kids, i, formulas);
      assert [Whole(i)][1..] == [];
    } else {
      var start, end := Start(kids, i), Start(kids, i + 1);
      var hits := Touching(formulas, start, end);
      var cursor := LastCursor(hits, start);
      var tail := TailPieces(i, start, end, cursor);
      MathsOfHits(hits, start, start);
      HitsThatStart(formulas, start, end);
      TailEmitsNothing(hits, start, tail);
    }
  }

  lemma NoFormulaIsEmitted(kids: seq<Child>, i: nat)
    requires i < |kids|
    ensures Maths(ChildPieces(kids, i, [])) == []
  {
    assert [Whole(i)][1..] == [];
  }

  /** The formulas of each chunk. */
  function MathsOfEach(chunks: seq<seq<Piece>>): (r: seq<seq<Formula>>)
    ensures |r| == |chunks| && forall i :: 0 <= i < |chunks| ==> r[i] == Maths(chunks[i])
  {
    seq(|chunks|, i requires 0 <= i < |chunks| => Maths(chunks[i]))
  }

  lemma {:induction false} MathsOfFlatten(chunks: seq<seq<Piece>>)
    ensures Maths(Flatten(chunks)) == Flatten(MathsOfEach(chunks))
  {
    if chunks != [] {
      MathsOfFlatten(chunks[1..]);
      MathsJoin(chunks[0], Flatten(chunks[1..]));
      assert MathsOfEach(chunks)[1..] == MathsOfEach(chunks[1..]);
    }
  }

  /** What stretch after stretch of the source starts, the whole source starts. */
  lemma {:induction false} StretchesJoin(formulas: seq<Formula>, length: nat, stretches: seq<seq<Formula>>, cuts: seq<int>)
    requires Ordered(formulas, length) && |cuts| == |stretches| + 1
    requires forall i :: 0 <= i < |stretches| ==>
               cuts[i] <= cuts[i + 1] && stretches[i] == StartingIn(formulas, cuts[i], cuts[i + 1])
    ensures cuts[0] <= cuts[|stretches|] && Flatten(stretches) == StartingIn(formulas, cuts[0], cuts[|stretches|])
    decreases |stretches|
  {
    if stretches == [] {
      NothingStartsIn(formulas, cuts[0], cuts[0]);
    } else {
      StretchesJoin(formulas, length, stretches[1..], cuts[1..]);
      StartingInSplits(formulas, cuts[0], cuts[1], cuts[|stretches|]);
    }
  }

  function Starts(kids: seq<Child>): (r: seq<int>)
    ensures |r| == |kids| + 1 && forall i :: 0 <= i <= |kids| ==> r[i] == Start(kids, i)
  {
    seq(|kids| + 1, i requires 0 <= i <= |kids| => Start(kids, i))
  }

  /** The conversion emits every formula of the scan exactly once and in order. */
  lemma EveryFormulaIsEmittedOnce(kids: seq<Child>, formulas: seq<Formula>)
    requires ScanOf(Source(kids), formulas)
    ensures Maths(InlinePieces(kids, formulas)) == formulas
  {
    var chunks := Chunks(kids, formulas);
    MathsOfFlatten(chunks);
    forall i | 0 <= i < |kids|
      ensures MathsOfEach(chunks)[i] == StartingIn(formulas, Starts(kids)[i], Starts(kids)[i + 1])
    {
      if formulas == [] {
        NoFormulaIsEmitted(kids, i);
      } else {
        ChildEmitsItsFormulas(kids, i, formulas);
      }
    }
    StretchesJoin(formulas, |Source(kids)|, MathsOfEach(chunks), Starts(kids));
    EverythingStartsIn(formulas, 0, |Source(kids)|);
  }

  // -- which kind of piece a child gives ---------------------------------------------------------------

  /** A child with structure comes out as itself, whatever the formulas. */
  lemma StructuredComesOutWhole(kids: seq<Child>, i: nat, formulas: seq<Formula>)
    requires i < |kids| && kids[i] == Structured
    ensures Chunks(kids, formulas)[i] == [Whole(i)]
  {
  }

  lemma {:induction false} NoWholeInHits(hits: seq<Formula>, cursor: int, start: int)
    ensures forall p :: p in HitPieces(hits, cursor, start) ==> !p.Whole?
    decreases |hits|
  {
    if hits != [] {
      NoWholeInHits(hits[1..], hits[0].last, start);
    }
  }

  /**
   A plain child comes out whole exactly when the text has no formula at all, or when the child is not
   empty and no formula touches it; then it gives nothing else. No other child stands in its place.
   */
  lemma PlainComesOutWholeExactly(kids: seq<Child>, i: nat, formulas: seq<Formula>)
    requires ScanOf(Source(kids), formulas) && i < |kids| && kids[i].Plain?
    ensures var whole := formulas == [] || (kids[i].text != "" && forall f :: f in formulas ==> !Touches(f, Start(kids, i), Start(kids, i + 1)));
            && (whole ==> Chunks(kids, formulas)[i] == [Whole(i)])
            && (!whole ==> forall p :: p in Chunks(kids, formulas)[i] ==> !p.Whole?)
  {
    var start, end := Start(kids, i), Start(kids, i + 1);
    var hits := Touching(formulas, start, end);
    TouchingMembers(formulas, start, end);
    HitsOf(|Source(kids)|, formulas, start, end);
    NoWholeInHits(hits, start, start);
    if hits != [] {
      assert Touches(hits[|hits| - 1], start, end);
      assert hits[0] in hits;
    } else {
      assert forall f :: f in formulas && Touches(f, start, end) ==> f in hits;
    }
  }

  lemma {:induction false} HitProseInChild(hits: seq<Formula>, cursor: int, start: int, end: int)
    requires start <= cursor && forall i :: 0 <= i < |hits| ==> hits[i].first < end && start < hits[i].last
    ensures forall p :: p in HitPieces(hits, cursor, start) && p.Prose? ==> start <= p.lo && p.hi <= end
    decreases |hits|
  {
    if hits != [] {
      HitProseInChild(hits[1..], hits[0].last, start, end);
    }
  }

  /** Prose is a slice of a plain child and of no other. */
  lemma ProseStaysInPlainChild(kids: seq<Child>, i: nat, formulas: seq<Formula>, p: Piece)
    requires ScanOf(Source(kids), formulas) && i < |kids| && p in Chunks(kids, formulas)[i] && p.Prose?
    ensures kids[i].Plain? && Start(kids, i) <= p.lo && p.hi <= Start(kids, i + 1)
  {
    var start, end := Start(kids, i), Start(kids, i + 1);
    HitsOf(|Source(kids)|, formulas, start, end);
    HitProseInChild(Touching(formulas, start, end), start, start, end);
    if Touching(formulas, start, end) != [] {
      var hits := Touching(formulas, start, end);
      assert Touches(hits[|hits| - 1], start, end);
    }
  }

  lemma {:induction false} StartsGrow(kids: seq<Child>, i: nat, j: nat)
    requires i <= j <= |kids|
    ensures Start(kids, i) <= Start(kids, j)
    decreases j - i
  {
    if i < j {
      StartsGrow(kids, i, j - 1);
    }
  }

  /** No place lies in two children. */
  lemma ChildrenApart(kids: seq<Child>, i: nat, j: nat, at: int)
    requires i < |kids| && j < |kids| && i != j && Start(kids, i) <= at < Start(kids, i + 1)
    ensures !(Start(kids, j) <= at < Start(kids, j + 1))
  {
    if i < j {
      StartsGrow(kids, i + 1, j);
    } else {
      StartsGrow(kids, j + 1, i);
    }
  }

  /** No place of a child with structure ever comes out as prose. */
  lemma NoProseInStructured(kids: seq<Child>, i: nat, j: nat, formulas: seq<Formula>, p: Piece, at: int)
    requires ScanOf(Source(kids), formulas) && i < |kids| && j < |kids|
    requires p in Chunks(kids, formulas)[i] && p.Prose? && p.lo <= at < p.hi
    requires kids[j] == Structured
    ensures !(Start(kids, j) <= at < Start(kids, j + 1))
  {
    ProseStaysInPlainChild(kids, i, formulas, p);
    ChildrenApart(kids, i, j, at);
  }
}

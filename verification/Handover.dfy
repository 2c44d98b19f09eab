/** The handover lines of the protocol keepers, put below the agenda items where a later period starts. */
module Handover {
  import opened Wrappers

  datatype Block = AgendaItem(title: string) | Other(content: string)

  /**
   The text for the agenda number of a period: no digits, a number, or digit characters such as a
   superscript, which `isdigit` takes and `int` refuses.
   */
  datatype TopText = NoDigits | Numeral(n: nat) | Unreadable

  datatype Keeper = Keeper(name: string, top: TopText)
  {
    /** The agenda number a period starts at, when the record names a number. */
    function FromTop(): Option<nat> {
      if top.Numeral? then Some(top.n) else None
    }
  }

  datatype HandoverError = NotANumeral

  datatype Out = Kept(block: Block) | Line(keeper: Keeper)

  /** The lines of the keepers that start at an agenda number, in order. */
  function LinesAt(keepers: seq<Keeper>, top: nat): seq<Out> {
    if keepers == [] then []
    else (if keepers[0].FromTop() == Some(top) then [Line(keepers[0])] else []) + LinesAt(keepers[1..], top)
  }

  /** `top` counts the agenda items before the blocks. */
  function Placed(blocks: seq<Block>, keepers: seq<Keeper>, top: nat): seq<Out>
    decreases |blocks|
  {
    if blocks == [] then []
    else if blocks[0].AgendaItem? then
      [Kept(blocks[0])] + LinesAt(keepers, top + 1) + Placed(blocks[1..], keepers, top + 1)
    else [Kept(blocks[0])] + Placed(blocks[1..], keepers, top)
  }

  /** The first keeper starts with the meeting and gets no line. */
  function Later(keepers: seq<Keeper>): seq<Keeper> {
    if keepers == [] then [] else keepers[1..]
  }

  function HandoverLines(blocks: seq<Block>, keepers: seq<Keeper>): Result<seq<Out>, HandoverError> {
    if exists k :: k in Later(keepers) && k.top.Unreadable? then Err(NotANumeral)
    else Ok(Placed(blocks, Later(keepers), 0))
  }

  function Originals(outs: seq<Out>): seq<Block> {
    if outs == [] then [] else (if outs[0].Kept? then [outs[0].block] else []) + Originals(outs[1..])
  }

  function Items(blocks: seq<Block>): nat {
    if blocks == [] then 0 else (if blocks[0].AgendaItem? then 1 else 0) + Items(blocks[1..])
  }

  /** The lines with the number of the agenda item that each follows. */
  function NumberedLines(outs: seq<Out>, top: nat): seq<(nat, Keeper)>
    decreases |outs|
  {
    if outs == [] then []
    else match outs[0]
      case Kept(b) => NumberedLines(outs[1..], if b.AgendaItem? then top + 1 else top)
      case Line(k) => [(top, k)] + NumberedLines(outs[1..], top)
  }

  lemma {:induction false} OriginalsJoin(p: seq<Out>, q: seq<Out>)
    ensures Originals(p + q) == Originals(p) + Originals(q)
  {
    if p == [] {
      assert p + q == q;
    } else {
      assert (p + q)[0] == p[0] && (p + q)[1..] == p[1..] + q;
      OriginalsJoin(p[1..], q);
    }
  }

  lemma {:induction false} LinesAreNoOriginals(keepers: seq<Keeper>, top: nat)
    ensures Originals(LinesAt(keepers, top)) == []
  {
    if keepers != [] {
      LinesAreNoOriginals(keepers[1..], top);
      var head := if keepers[0].FromTop() == Some(top) then [Line(keepers[0])] else [];
      OriginalsJoin(head, LinesAt(keepers[1..], top));
    }
  }

  /** Without the inserted lines the blocks come back, each once and in order. */
  lemma {:induction false} BlocksComeBack(blocks: seq<Block>, keepers: seq<Keeper>, top: nat)
    ensures Originals(Placed(blocks, keepers, top)) == blocks
    decreases |blocks|
  {
    if blocks != [] {
      var here := if blocks[0].AgendaItem? then LinesAt(keepers, top + 1) else [];
      var next := if blocks[0].AgendaItem? then top + 1 else top;
      var rest := Placed(blocks[1..], keepers, next);
      BlocksComeBack(blocks[1..], keepers, next);
      LinesAreNoOriginals(keepers, top + 1);
      OriginalsJoin([Kept(blocks[0])] + here, rest);
      OriginalsJoin([Kept(blocks[0])], here);
      assert [Kept(blocks[0])][1..] == [];
      assert Placed(blocks, keepers, top) == [Kept(blocks[0])] + here + rest;
    }
  }

  /** The keepers of one agenda number, each with that number. */
  function Starting(keepers: seq<Keeper>, top: nat): seq<(nat, Keeper)> {
    if keepers == [] then []
    else (if keepers[0].FromTop() == Some(top) then [(top, keepers[0])] else []) + Starting(keepers[1..], top)
  }

  /** The keepers of the agenda numbers `from..until`, number by number. */
  function StartingBetween(keepers: seq<Keeper>, from: nat, until: nat): seq<(nat, Keeper)>
    decreases until - from
  {
    if from >= until then [] else Starting(keepers, from) + StartingBetween(keepers, from + 1, until)
  }

  lemma LineFirst(k: Keeper, top: nat, tail: seq<Out>)
    ensures NumberedLines([Line(k)] + tail, top) == [(top, k)] + NumberedLines(tail, top)
  {
    assert ([Line(k)] + tail)[1..] == tail;
  }

  /** One more line in front of what is numbered already. */
  lemma LineInFront(k: Keeper, top: nat, lines: seq<Out>, rest: seq<Out>, starting: seq<(nat, Keeper)>)
    requires NumberedLines(lines + rest, top) == starting + NumberedLines(rest, top)
    ensures NumberedLines([Line(k)] + lines + rest, top) == [(top, k)] + starting + NumberedLines(rest, top)
  {
    assert [Line(k)] + lines + rest == [Line(k)] + (lines + rest);
    LineFirst(k, top, lines + rest);
    assert [(top, k)] + (starting + NumberedLines(rest, top)) == [(top, k)] + starting + NumberedLines(rest, top);
  }

  lemma {:induction false} LinesThen(keepers: seq<Keeper>, top: nat, rest: seq<Out>)
    ensures NumberedLines(LinesAt(keepers, top) + rest, top) == Starting(keepers, top) + NumberedLines(rest, top)
  {
    if keepers == [] {
      assert [] + rest == rest;
    } else {
      var lines, starting := LinesAt(keepers[1..], top), Starting(keepers[1..], top);
      LinesThen(keepers[1..], top, rest);
      if keepers[0].FromTop() == Some(top) {
        LineInFront(keepers[0], top, lines, rest, starting);
      } else {
        assert LinesAt(keepers, top) == lines && Starting(keepers, top) == starting;
      }
    }
  }

  /**
   The lines are exactly those of the later keepers whose number the body has, each once, directly in
   the stretch of its agenda item.
   */
  lemma {:induction false} LinesStandAtTheirItem(blocks: seq<Block>, keepers: seq<Keeper>, top: nat)
    ensures NumberedLines(Placed(blocks, keepers, top), top) == StartingBetween(keepers, top + 1, top + 1 + Items(blocks))
    decreases |blocks|
  {
    if blocks != [] {
      var next := if blocks[0].AgendaItem? then top + 1 else top;
      var rest := Placed(blocks[1..], keepers, next);
      LinesStandAtTheirItem(blocks[1..], keepers, next);
      if blocks[0].AgendaItem? {
        LinesThen(keepers, top + 1, rest);
        var behind := LinesAt(keepers, top + 1) + rest;
        assert Placed(blocks, keepers, top) == [Kept(blocks[0])] + behind;
        assert ([Kept(blocks[0])] + behind)[1..] == behind;
      } else {
        assert ([Kept(blocks[0])] + rest)[1..] == rest;
      }
    }
  }

  /** A keeper with an agenda number gets one line if the body has that number, and none otherwise. */
  function CountOf(lines: seq<(nat, Keeper)>, k: Keeper): nat {
    if lines == [] then 0 else (if lines[0].1 == k then 1 else 0) + CountOf(lines[1..], k)
  }

  function Times(keepers: seq<Keeper>, k: Keeper): nat {
    if keepers == [] then 0 else (if keepers[0] == k then 1 else 0) + Times(keepers[1..], k)
  }

  lemma {:induction false} CountJoins(p: seq<(nat, Keeper)>, q: seq<(nat, Keeper)>, k: Keeper)
    ensures CountOf(p + q, k) == CountOf(p, k) + CountOf(q, k)
  {
    if p == [] {
      assert p + q == q;
    } else {
      assert (p + q)[0] == p[0] && (p + q)[1..] == p[1..] + q;
      CountJoins(p[1..], q, k);
    }
  }

  lemma {:induction false} CountStarting(keepers: seq<Keeper>, top: nat, k: Keeper)
    ensures CountOf(Starting(keepers, top), k) == if k.FromTop() == Some(top) then Times(keepers, k) else 0
  {
    if keepers != [] {
      CountStarting(keepers[1..], top, k);
      var head := if keepers[0].FromTop() == Some(top) then [(top, keepers[0])] else [];
      CountJoins(head, Starting(keepers[1..], top), k);
      assert head != [] ==> head[1..] == [];
    }
  }

  lemma {:induction false} CountBetween(keepers: seq<Keeper>, from: nat, until: nat, k: Keeper)
    ensures CountOf(StartingBetween(keepers, from, until), k)
            == if k.FromTop().Some? && from <= k.FromTop().value < until then Times(keepers, k) else 0
    decreases until - from
  {
    if from < until {
      CountStarting(keepers, from, k);
      CountBetween(keepers, from + 1, until, k);
      CountJoins(Starting(keepers, from), StartingBetween(keepers, from + 1, until), k);
    }
  }

  /**
   The placement fails exactly on a later keeper with unreadable digits. Otherwise the blocks come back
   without the lines, and each later keeper has its line once if the body has its number, else never.
   */
  lemma EachLaterKeeperGetsItsLine(blocks: seq<Block>, keepers: seq<Keeper>, k: Keeper)
    ensures HandoverLines(blocks, keepers).Err? <==> exists i :: 1 <= i < |keepers| && keepers[i].top.Unreadable?
    ensures HandoverLines(blocks, keepers).Ok? ==>
              var outs := HandoverLines(blocks, keepers).value;
              && Originals(outs) == blocks
              && CountOf(NumberedLines(outs, 0), k)
                 == if k.FromTop().Some? && 1 <= k.FromTop().value <= Items(blocks) then Times(Later(keepers), k) else 0
  {
    var later := Later(keepers);
    if i :| 1 <= i < |keepers| && keepers[i].top.Unreadable? {
      assert later[i - 1] == keepers[i];
    }
    if x :| x in later && x.top.Unreadable? {
      var i :| 0 <= i < |later| && later[i] == x;
      assert keepers[i + 1] == x;
    }
    BlocksComeBack(blocks, later, 0);
    LinesStandAtTheirItem(blocks, later, 0);
    CountBetween(later, 1, 1 + Items(blocks), k);
  }
}

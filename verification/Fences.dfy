/**
 The editor fences around an application reference, `:::antrag{...}` and its closing `:::`, which
 `strip_antrag_fences` removes outside code.
 */
module Fences {

  /** Character classes of the regular expressions, and lower-casing for the case-insensitive one. */
  datatype Chars = Chars(space: char -> bool, word: char -> bool, lower: char -> char)

  predicate AllSpace(cs: Chars, text: string) {
    forall i :: 0 <= i < |text| ==> cs.space(text[i])
  }

  /** White space, and then `mark`, at a place in the line. */
  predicate MarkAt(cs: Chars, line: string, i: int, mark: string) {
    0 <= i <= |line| && AllSpace(cs, line[..i]) && mark <= line[i..]
  }

  predicate IsCodeFence(cs: Chars, line: string) {
    exists i :: 0 <= i <= |line| && (MarkAt(cs, line, i, "```") || MarkAt(cs, line, i, "~~~"))
  }

  predicate IsFenceClose(cs: Chars, line: string) {
    exists i :: 0 <= i <= |line| && MarkAt(cs, line, i, ":::") && AllSpace(cs, line[i + 3..])
  }

  predicate WordAt(cs: Chars, line: string, j: int, word: string) {
    && 0 <= j <= |line| - |word|
    && (forall k :: 0 <= k < |word| ==> cs.lower(line[j + k]) == word[k])
    && (j + |word| == |line| || !cs.word(line[j + |word|]))
  }

  predicate IsAntragOpen(cs: Chars, line: string) {
    exists i, j :: 0 <= i <= |line| && i + 3 <= j <= |line| && MarkAt(cs, line, i, ":::")
      && AllSpace(cs, line[i + 3..j]) && WordAt(cs, line, j, "antrag")
  }

  // -- the scan ---------------------------------------------------------------------------------------

  datatype Scan = Scan(inCode: bool, open: nat, keep: bool)

  const START := Scan(false, 0, true)

  function FenceLine(cs: Chars, scan: Scan, line: string): Scan {
    if IsCodeFence(cs, line) then scan.(inCode := !scan.inCode, keep := true)
    else if !scan.inCode && IsAntragOpen(cs, line) then scan.(open := scan.open + 1, keep := false)
    else if !scan.inCode && scan.open > 0 && IsFenceClose(cs, line) then scan.(open := scan.open - 1, keep := false)
    else scan.(keep := true)
  }

  /** The state after the first `n` lines. */
  function ScanAt(cs: Chars, lines: seq<string>, n: nat): Scan
    requires n <= |lines|
  {
    if n == 0 then START else FenceLine(cs, ScanAt(cs, lines, n - 1), lines[n - 1])
  }

  function KeptFrom(cs: Chars, lines: seq<string>, scan: Scan): seq<string> {
    if lines == [] then []
    else
      var next := FenceLine(cs, scan, lines[0]);
      (if next.keep then [lines[0]] else []) + KeptFrom(cs, lines[1..], next)
  }

  function SplitLines(text: string): (lines: seq<string>)
    ensures |lines| > 0
    ensures forall i :: 0 <= i < |lines| ==> '\n' !in lines[i]
  {
    if text == "" then [""]
    else
      var rest := SplitLines(text[1..]);
      if text[0] == '\n' then [""] + rest else [[text[0]] + rest[0]] + rest[1..]
  }

  function JoinLines(lines: seq<string>): string {
    if lines == [] then ""
    else if |lines| == 1 then lines[0]
    else lines[0] + "\n" + JoinLines(lines[1..])
  }

  function StripAntragFences(cs: Chars, markdown: string): string {
    JoinLines(KeptFrom(cs, SplitLines(markdown), START))
  }

  // -- lines and text ------------------------------------------------------------------------------------

  lemma {:induction false} SplitPrefix(line: string, rest: string)
    requires '\n' !in line
    ensures SplitLines(line + "\n" + rest) == [line] + SplitLines(rest)
    ensures SplitLines(line) == [line]
  {
    var text := line + "\n" + rest;
    if line == "" {
      assert text[1..] == rest;
    } else {
      assert text[1..] == line[1..] + "\n" + rest;
      assert '\n' !in line[1..] && line[0] != '\n';
      SplitPrefix(line[1..], rest);
      assert line == [line[0]] + line[1..];
    }
  }

  lemma {:induction false} SplitUndoesJoin(lines: seq<string>)
    requires lines != [] && forall i :: 0 <= i < |lines| ==> '\n' !in lines[i]
    ensures SplitLines(JoinLines(lines)) == lines
  {
    if |lines| == 1 {
      SplitPrefix(lines[0], "");
    } else {
      SplitUndoesJoin(lines[1..]);
      SplitPrefix(lines[0], JoinLines(lines[1..]));
    }
  }

  lemma {:induction false} KeptHaveNoLineEnd(cs: Chars, lines: seq<string>, scan: Scan)
    requires forall i :: 0 <= i < |lines| ==> '\n' !in lines[i]
    ensures forall i :: 0 <= i < |KeptFrom(cs, lines, scan)| ==> '\n' !in KeptFrom(cs, lines, scan)[i]
  {
    if lines != [] {
      KeptHaveNoLineEnd(cs, lines[1..], FenceLine(cs, scan, lines[0]));
    }
  }

  // -- idempotence ------------------------------------------------------------------------------------------

  /** What one pass keeps the next pass keeps: no fence is left to open, so none closes. */
  lemma {:induction false} SecondPassKeepsAll(cs: Chars, lines: seq<string>, scan: Scan, again: Scan)
    requires again.inCode == scan.inCode && again.open == 0
    ensures KeptFrom(cs, KeptFrom(cs, lines, scan), again) == KeptFrom(cs, lines, scan)
  {
    if lines != [] {
      var next := FenceLine(cs, scan, lines[0]);
      var rest := KeptFrom(cs, lines[1..], next);
      if next.keep {
        SecondPassKeepsAll(cs, lines[1..], next, FenceLine(cs, again, lines[0]));
        assert ([lines[0]] + rest)[1..] == rest;
      } else {
        SecondPassKeepsAll(cs, lines[1..], next, again);
        assert [] + rest == rest;
      }
    }
  }

  lemma StripIsIdempotent(cs: Chars, markdown: string)
    ensures StripAntragFences(cs, StripAntragFences(cs, markdown)) == StripAntragFences(cs, markdown)
  {
    var lines := SplitLines(markdown);
    var kept := KeptFrom(cs, lines, START);
    KeptHaveNoLineEnd(cs, lines, START);
    SecondPassKeepsAll(cs, lines, START, START);
    if kept == [] {
      assert [""][1..] == [];
      assert KeptFrom(cs, [""], START) == [""];
    } else {
      SplitUndoesJoin(kept);
    }
  }

  // -- which lines go ------------------------------------------------------------------------------------------

  datatype Event = Opens | Closes | Other

  function CodeFences(cs: Chars, lines: seq<string>, n: nat): nat
    requires n <= |lines|
  {
    if n == 0 then 0 else CodeFences(cs, lines, n - 1) + if IsCodeFence(cs, lines[n - 1]) then 1 else 0
  }

  /** The line stands between the two fences of a code block, or opens or ends one. */
  predicate InCode(cs: Chars, lines: seq<string>, i: nat)
    requires i < |lines|
  {
    CodeFences(cs, lines, i) % 2 == 1 || IsCodeFence(cs, lines[i])
  }

  /** What a line does outside code. */
  function EventAt(cs: Chars, lines: seq<string>, i: nat): Event
    requires i < |lines|
  {
    if InCode(cs, lines, i) then Other
    else if IsAntragOpen(cs, lines[i]) then Opens
    else if IsFenceClose(cs, lines[i]) then Closes
    else Other
  }

  function Weight(e: Event): int {
    match e
    case Opens => 1
    case Closes => -1
    case Other => 0
  }

  /** Fences opened less fences closed on the lines strictly between `j` and `to`. */
  function Balance(cs: Chars, lines: seq<string>, j: nat, to: nat): int
    requires j < to <= |lines|
  {
    if to == j + 1 then 0 else Balance(cs, lines, j, to - 1) + Weight(EventAt(cs, lines, to - 1))
  }

  /** The fence that opens at `j` is still open at `i`, and everything opened since is closed. */
  ghost predicate Matches(cs: Chars, lines: seq<string>, j: int, i: int) {
    && 0 <= j < i <= |lines|
    && EventAt(cs, lines, j) == Opens
    && Balance(cs, lines, j, i) == 0
    && forall k :: j < k <= i ==> Balance(cs, lines, j, k) >= 0
  }

  lemma {:induction false} ScanKnowsCode(cs: Chars, lines: seq<string>, n: nat)
    requires n <= |lines|
    ensures ScanAt(cs, lines, n).inCode <==> CodeFences(cs, lines, n) % 2 == 1
  {
    if n > 0 {
      ScanKnowsCode(cs, lines, n - 1);
    }
  }

  lemma OpenStep(cs: Chars, lines: seq<string>, i: nat)
    requires i < |lines|
    ensures var before, next := ScanAt(cs, lines, i), ScanAt(cs, lines, i + 1);
            match EventAt(cs, lines, i)
            case Opens => next.open == before.open + 1 && !next.keep
            case Closes => if before.open > 0 then next.open == before.open - 1 && !next.keep else next.open == 0 && next.keep
            case Other => next.open == before.open && next.keep
  {
    ScanKnowsCode(cs, lines, i);
  }

  lemma {:induction false} BalanceSplits(cs: Chars, lines: seq<string>, a: nat, b: nat, c: nat)
    requires a < b < c <= |lines|
    ensures Balance(cs, lines, a, c) == Balance(cs, lines, a, b) + Weight(EventAt(cs, lines, b)) + Balance(cs, lines, b, c)
  {
    if b + 1 < c {
      BalanceSplits(cs, lines, a, b, c - 1);
    }
  }

  /** From an open fence on, the count follows the balance as long as that stays non-negative. */
  lemma {:induction false} OpenFollowsBalance(cs: Chars, lines: seq<string>, j: nat, i: nat)
    requires j < i <= |lines| && EventAt(cs, lines, j) == Opens
    requires forall k :: j < k <= i ==> Balance(cs, lines, j, k) >= 0
    ensures ScanAt(cs, lines, i).open == ScanAt(cs, lines, j).open + 1 + Balance(cs, lines, j, i)
  {
    OpenStep(cs, lines, i - 1);
    if i > j + 1 {
      OpenFollowsBalance(cs, lines, j, i - 1);
      assert Balance(cs, lines, j, i) >= 0;
    }
  }

  /** Every open fence has the line that opened it. */
  lemma {:induction false} FindOpening(cs: Chars, lines: seq<string>, i: nat) returns (j: nat)
    requires i <= |lines| && ScanAt(cs, lines, i).open > 0
    ensures Matches(cs, lines, j, i) && ScanAt(cs, lines, j).open == ScanAt(cs, lines, i).open - 1
    decreases i
  {
    OpenStep(cs, lines, i - 1);
    match EventAt(cs, lines, i - 1)
    case Opens =>
      j := i - 1;
    case Other =>
      j := FindOpening(cs, lines, i - 1);
    case Closes =>
      var inner := FindOpening(cs, lines, i - 1);
      j := FindOpening(cs, lines, inner);
      JoinMatches(cs, lines, j, inner, i);
  }

  /** A closed pair behind an open fence leaves that fence the open one. */
  lemma JoinMatches(cs: Chars, lines: seq<string>, j: nat, inner: nat, i: nat)
    requires 0 < i <= |lines| && Matches(cs, lines, j, inner) && Matches(cs, lines, inner, i - 1)
    requires EventAt(cs, lines, i - 1) == Closes
    ensures Matches(cs, lines, j, i)
  {
    forall k | j < k <= i
      ensures Balance(cs, lines, j, k) >= 0 && (k == i ==> Balance(cs, lines, j, k) == 0)
    {
      if k > inner {
        BalanceSplits(cs, lines, j, inner, k);
        assert k < i ==> Balance(cs, lines, inner, k) >= 0;
      }
    }
  }

  /**
   A line goes exactly when it stands outside code and opens an application fence, or closes one
   that an earlier line opened. Every other line stays, in code and out.
   */
  lemma DroppedExactly(cs: Chars, lines: seq<string>, i: nat)
    requires i < |lines|
    ensures !ScanAt(cs, lines, i + 1).keep <==>
            || EventAt(cs, lines, i) == Opens
            || (EventAt(cs, lines, i) == Closes && exists j :: Matches(cs, lines, j, i))
    ensures InCode(cs, lines, i) ==> ScanAt(cs, lines, i + 1).keep
  {
    OpenStep(cs, lines, i);
    if ScanAt(cs, lines, i).open > 0 {
      var j := FindOpening(cs, lines, i);
    }
    forall j | Matches(cs, lines, j, i) ensures ScanAt(cs, lines, i).open > 0 {
      OpenFollowsBalance(cs, lines, j, i);
    }
  }

  /** The text that stays is the text of the kept lines, in order. */
  function KeptLines(cs: Chars, lines: seq<string>, n: nat): seq<string>
    requires n <= |lines|
  {
    if n == 0 then [] else
      KeptLines(cs, lines, n - 1) + if ScanAt(cs, lines, n).keep then [lines[n - 1]] else []
  }

  /** Line `n` goes first into what the lines from it on leave. */
  lemma KeptFromUnfolds(cs: Chars, lines: seq<string>, n: nat)
    requires 0 < n <= |lines|
    ensures KeptFrom(cs, lines[n - 1..], ScanAt(cs, lines, n - 1))
            == (if ScanAt(cs, lines, n).keep then [lines[n - 1]] else []) + KeptFrom(cs, lines[n..], ScanAt(cs, lines, n))
  {
    assert lines[n - 1..][0] == lines[n - 1] && lines[n - 1..][1..] == lines[n..];
  }

  lemma {:induction false} KeptFromIsKeptLines(cs: Chars, lines: seq<string>, n: nat)
    requires n <= |lines|
    ensures KeptLines(cs, lines, n) + KeptFrom(cs, lines[n..], ScanAt(cs, lines, n)) == KeptFrom(cs, lines, START)
    decreases n
  {
    if n == 0 {
      assert lines[0..] == lines;
    } else {
      KeptFromIsKeptLines(cs, lines, n - 1);
      KeptFromUnfolds(cs, lines, n);
      var kept, rest := if ScanAt(cs, lines, n).keep then [lines[n - 1]] else [], KeptFrom(cs, lines[n..], ScanAt(cs, lines, n));
      assert KeptLines(cs, lines, n - 1) + kept + rest == KeptLines(cs, lines, n - 1) + (kept + rest);
    }
  }

  lemma StripKeepsKeptLines(cs: Chars, markdown: string)
    ensures var lines := SplitLines(markdown);
            StripAntragFences(cs, markdown) == JoinLines(KeptLines(cs, lines, |lines|))
  {
    var lines := SplitLines(markdown);
    KeptFromIsKeptLines(cs, lines, |lines|);
    assert lines[|lines|..] == [];
    assert KeptLines(cs, lines, |lines|) + [] == KeptLines(cs, lines, |lines|);
  }
}

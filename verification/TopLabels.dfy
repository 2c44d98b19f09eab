/**
 The winners of a poll, read back from one line of text: `_top_labels` splits a list joined with
 ", " into known labels, although a label may hold ", " itself.
 */
module TopLabels {
  import opened Wrappers

  const SEPARATOR := ", "

  function Join(labels: seq<string>): string {
    if labels == [] then ""
    else if |labels| == 1 then labels[0]
    else labels[0] + SEPARATOR + Join(labels[1..])
  }

  /** A list of known labels that reads as the text. */
  ghost predicate Reads(d: seq<string>, known: seq<string>, text: string) {
    d != [] && (forall x :: x in d ==> x in known) && Join(d) == text
  }

  function Attempt(name: string, known: seq<string>, rest: string): Option<seq<string>>
    decreases |rest|, 0
  {
    if rest == name then Some([name])
    else if name + SEPARATOR <= rest then
      match Split(known, rest[|name| + 2..])
      case Some(tail) => Some([name] + tail)
      case None => None
    else None
  }

  /** The first candidate that leads to a complete split. */
  function FirstSplit(candidates: seq<string>, known: seq<string>, rest: string): Option<seq<string>>
    decreases |rest|, 1, |candidates|
  {
    if candidates == [] then None
    else
      var found := Attempt(candidates[0], known, rest);
      if found.Some? then found else FirstSplit(candidates[1..], known, rest)
  }

  function Split(known: seq<string>, rest: string): Option<seq<string>>
    decreases |rest|, 2
  {
    FirstSplit(known, known, rest)
  }

  /** `ordered` is the set of the labels, the longer ones first. */
  ghost predicate LongerFirst(ordered: seq<string>) {
    forall i, j :: 0 <= i < j < |ordered| ==> |ordered[i]| >= |ordered[j]|
  }

  function TopLabels(top: string, ordered: seq<string>): set<string> {
    if top == "" then {} else set x | x in Split(ordered, top).GetOr([])
  }

  // -- soundness and completeness ------------------------------------------------------------------

  lemma {:induction false} AttemptIsSound(name: string, known: seq<string>, rest: string)
    requires name in known && Attempt(name, known, rest).Some?
    ensures Reads(Attempt(name, known, rest).value, known, rest)
    ensures Attempt(name, known, rest).value[0] == name
    decreases |rest|, 0
  {
    if rest != name {
      SplitIsSound(known, rest[|name| + 2..]);
      var tail := Split(known, rest[|name| + 2..]).value;
      assert rest == name + SEPARATOR + rest[|name| + 2..];
    }
  }

  lemma {:induction false} FirstSplitIsSound(candidates: seq<string>, known: seq<string>, rest: string)
    requires forall x :: x in candidates ==> x in known
    ensures FirstSplit(candidates, known, rest).Some? ==> Reads(FirstSplit(candidates, known, rest).value, known, rest)
    decreases |rest|, 1, |candidates|
  {
    if candidates != [] {
      if Attempt(candidates[0], known, rest).Some? {
        AttemptIsSound(candidates[0], known, rest);
      } else {
        FirstSplitIsSound(candidates[1..], known, rest);
      }
    }
  }

  lemma {:induction false} SplitIsSound(known: seq<string>, rest: string)
    ensures Split(known, rest).Some? ==> Reads(Split(known, rest).value, known, rest)
    decreases |rest|, 2
  {
    FirstSplitIsSound(known, known, rest);
  }

  lemma {:induction false} SomeCandidateSucceeds(candidates: seq<string>, known: seq<string>, rest: string, name: string)
    requires name in candidates && Attempt(name, known, rest).Some?
    ensures FirstSplit(candidates, known, rest).Some?
    decreases |candidates|
  {
    if Attempt(candidates[0], known, rest).None? {
      SomeCandidateSucceeds(candidates[1..], known, rest, name);
    }
  }

  lemma {:induction false} AttemptIsComplete(known: seq<string>, rest: string, d: seq<string>)
    requires Reads(d, known, rest)
    ensures Attempt(d[0], known, rest).Some? && Split(known, rest).Some?
    ensures |d| > 1 ==> d[0] + SEPARATOR <= rest && rest != d[0] && Reads(d[1..], known, rest[|d[0]| + 2..])
    decreases |rest|
  {
    if |d| > 1 {
      assert rest == d[0] + SEPARATOR + Join(d[1..]);
      assert rest[|d[0]| + 2..] == Join(d[1..]);
      assert d[0] + SEPARATOR <= rest;
      AttemptIsComplete(known, rest[|d[0]| + 2..], d[1..]);
    }
    SomeCandidateSucceeds(known, known, rest, d[0]);
  }

  /** The search succeeds exactly when the text is some list of known labels, and then returns one. */
  lemma SplitIsExact(known: seq<string>, text: string)
    ensures Split(known, text).Some? <==> exists d :: Reads(d, known, text)
    ensures Split(known, text).Some? ==> Reads(Split(known, text).value, known, text)
  {
    SplitIsSound(known, text);
    forall d | Reads(d, known, text) ensures Split(known, text).Some? {
      AttemptIsComplete(known, text, d);
    }
  }

  // -- which list it is ------------------------------------------------------------------------------

  /** The two lists agree up to a place where the first one has the longer label. */
  ghost predicate Prefers(r: seq<string>, d: seq<string>)
    decreases |r|
  {
    r == d || (r != [] && d != [] && (|r[0]| > |d[0]| || (r[0] == d[0] && Prefers(r[1..], d[1..]))))
  }

  /** The chosen first label stands before every other one that would work. */
  lemma {:induction false} FirstSplitTakesEarliest(candidates: seq<string>, known: seq<string>, rest: string, name: string)
    requires forall x :: x in candidates ==> x in known
    requires LongerFirst(candidates) && name in candidates && Attempt(name, known, rest).Some?
    ensures FirstSplit(candidates, known, rest).Some?
    ensures var r := FirstSplit(candidates, known, rest).value;
            && r != [] && r[0] in known && |r[0]| >= |name|
            && FirstSplit(candidates, known, rest) == Attempt(r[0], known, rest)
    decreases |candidates|
  {
    if Attempt(candidates[0], known, rest).Some? {
      AttemptIsSound(candidates[0], known, rest);
      var k :| 0 <= k < |candidates| && candidates[k] == name;
    } else {
      FirstSplitTakesEarliest(candidates[1..], known, rest, name);
    }
  }

  /** At the first place where another reading differs, the result has the longer label. */
  lemma {:induction false} SplitPrefersLonger(known: seq<string>, rest: string, d: seq<string>)
    requires LongerFirst(known) && Reads(d, known, rest)
    ensures Split(known, rest).Some? && Prefers(Split(known, rest).value, d)
    decreases |rest|
  {
    AttemptIsComplete(known, rest, d);
    FirstSplitTakesEarliest(known, known, rest, d[0]);
    SplitIsSound(known, rest);
    var r := Split(known, rest).value;
    if |r[0]| == |d[0]| {
      assert r[0] == rest[..|r[0]|] == d[0];
      if |d| > 1 {
        SplitPrefersLonger(known, rest[|d[0]| + 2..], d[1..]);
        var tail := Split(known, rest[|d[0]| + 2..]).value;
        assert r == [r[0]] + tail && r[1..] == tail;
      } else {
        assert r == d;
      }
    }
  }

  lemma {:induction false} PreferenceIsOneWay(r: seq<string>, d: seq<string>)
    requires Prefers(r, d) && Prefers(d, r)
    ensures r == d
    decreases |r|
  {
    if r != [] && d != [] && r[0] == d[0] {
      PreferenceIsOneWay(r[1..], d[1..]);
      assert r == [r[0]] + r[1..] && d == [d[0]] + d[1..];
    }
  }

  /** How labels of equal length are ordered makes no difference. */
  lemma OrderOfEqualLengthsIsIrrelevant(a: seq<string>, b: seq<string>, text: string)
    requires LongerFirst(a) && LongerFirst(b) && forall x :: x in a <==> x in b
    ensures Split(a, text) == Split(b, text)
  {
    SplitIsExact(a, text);
    SplitIsExact(b, text);
    if Split(a, text).Some? {
      var r := Split(a, text).value;
      assert Reads(r, b, text);
      var s := Split(b, text).value;
      assert Reads(s, a, text);
      SplitPrefersLonger(a, text, s);
      SplitPrefersLonger(b, text, r);
      PreferenceIsOneWay(r, s);
    } else if Split(b, text).Some? {
      assert Reads(Split(b, text).value, a, text);
    }
  }

  /** A line that only the printed winners can read as names exactly them. */
  lemma UniqueReadingGivesWinners(winners: seq<string>, ordered: seq<string>)
    requires Reads(winners, ordered, Join(winners)) && Join(winners) != ""
    requires forall d :: Reads(d, ordered, Join(winners)) ==> d == winners
    ensures TopLabels(Join(winners), ordered) == set x | x in winners
  {
    SplitIsExact(ordered, Join(winners));
  }

  /** An empty line names nobody, even if some label is empty. */
  lemma EmptyLineNamesNobody(ordered: seq<string>)
    ensures TopLabels("", ordered) == {}
  {
  }

  /** Labels without the separator read in one way only, so they always come back. */
  lemma PlainLabelsComeBack(winners: seq<string>, ordered: seq<string>)
    requires winners != [] && Join(winners) != "" && forall x :: x in winners ==> x in ordered
    requires forall x, k :: x in ordered && 0 <= k < |x| ==> x[k] != ','
    ensures TopLabels(Join(winners), ordered) == set x | x in winners
  {
    forall d | Reads(d, ordered, Join(winners)) ensures d == winners {
      PlainReadingIsUnique(d, winners, ordered);
    }
    UniqueReadingGivesWinners(winners, ordered);
  }

  lemma {:induction false} PlainReadingIsUnique(d: seq<string>, e: seq<string>, known: seq<string>)
    requires d != [] && e != [] && Join(d) == Join(e)
    requires forall x :: x in d || x in e ==> x in known
    requires forall x, k :: x in known && 0 <= k < |x| ==> x[k] != ','
    ensures d == e
    decreases |d|
  {
    var text := Join(d);
    assert d[0] in known && e[0] in known;
    assert d[0] <= text && e[0] <= text;
    assert |d| > 1 ==> text[|d[0]|] == ',';
    assert |e| > 1 ==> text[|e[0]|] == ',';
    assert |d| == 1 ==> text == d[0];
    assert |e| == 1 ==> text == e[0];
    assert forall k :: 0 <= k < |d[0]| ==> text[k] == d[0][k] != ',';
    assert forall k :: 0 <= k < |e[0]| ==> text[k] == e[0][k] != ',';
    assert |d[0]| == |e[0]|;
    assert d[0] == text[..|d[0]|] == e[0];
    assert |d| == 1 <==> |e| == 1;
    if |d| > 1 {
      assert Join(d[1..]) == text[|d[0]| + 2..] == Join(e[1..]);
      PlainReadingIsUnique(d[1..], e[1..], known);
      assert d == [d[0]] + d[1..] && e == [e[0]] + e[1..];
    }
  }
}

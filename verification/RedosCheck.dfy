/** The check for catastrophic patterns, `_redos_prone`, on a parsed pattern. */
module RedosCheck {

  /**
   One parsed element. `Hidden` has parts that the check does not enter: a lookaround, an atomic group,
   a conditional, or a possessive repeat, which can itself be unbounded. An atom has no parts.
   */
  datatype Tok =
    | Repeat(unbounded: bool, body: seq<Tok>)
    | Group(body: seq<Tok>)
    | Branch(arms: seq<Arm>)
    | Hidden(unbounded: bool, parts: seq<Arm>)
    | Atom

  datatype Arm = Arm(toks: seq<Tok>)

  predicate HasUnbounded(toks: seq<Tok>)
    decreases toks, 1
  {
    toks != [] && (HasUnboundedTok(toks[0]) || HasUnbounded(toks[1..]))
  }

  predicate HasUnboundedTok(t: Tok)
    decreases t, 0
  {
    match t
    case Repeat(unbounded, body) => unbounded || HasUnbounded(body)
    case Group(body) => HasUnbounded(body)
    case Branch(arms) => HasUnboundedArm(arms)
    case Hidden(_, _) => false
    case Atom => false
  }

  predicate HasUnboundedArm(arms: seq<Arm>)
    decreases arms, 1
  {
    arms != [] && (HasUnbounded(arms[0].toks) || HasUnboundedArm(arms[1..]))
  }

  predicate IsProne(toks: seq<Tok>)
    decreases toks, 1
  {
    toks != [] && (IsProneTok(toks[0]) || IsProne(toks[1..]))
  }

  predicate IsProneTok(t: Tok)
    decreases t, 0
  {
    match t
    case Repeat(unbounded, body) => (unbounded && HasUnbounded(body)) || IsProne(body)
    case Group(body) => IsProne(body)
    case Branch(arms) => IsProneArm(arms)
    case Hidden(_, _) => false
    case Atom => false
  }

  predicate IsProneArm(arms: seq<Arm>)
    decreases arms, 1
  {
    arms != [] && (IsProne(arms[0].toks) || IsProneArm(arms[1..]))
  }

  // -- where the repeats are -----------------------------------------------------------------------------

  /** `n` is the number of unbounded repeats on some way down from the top of `toks`, through every part. */
  ghost predicate Stacks(toks: seq<Tok>, n: nat)
    decreases toks, 1
  {
    n == 0 || (toks != [] && (StacksTok(toks[0], n) || Stacks(toks[1..], n)))
  }

  ghost predicate StacksTok(t: Tok, n: nat)
    decreases t, 0
  {
    match t
    case Repeat(unbounded, body) => if unbounded && n > 0 then Stacks(body, n - 1) else Stacks(body, n)
    case Group(body) => Stacks(body, n)
    case Branch(arms) => StacksArm(arms, n)
    case Hidden(unbounded, parts) => if unbounded && n > 0 then StacksArm(parts, n - 1) else StacksArm(parts, n)
    case Atom => n == 0
  }

  ghost predicate StacksArm(arms: seq<Arm>, n: nat)
    decreases arms, 1
  {
    n == 0 || (arms != [] && (Stacks(arms[0].toks, n) || StacksArm(arms[1..], n)))
  }

  /** The same on a way that enters no hidden element. */
  ghost predicate StacksOpenly(toks: seq<Tok>, n: nat)
    decreases toks, 1
  {
    n == 0 || (toks != [] && (StacksOpenlyTok(toks[0], n) || StacksOpenly(toks[1..], n)))
  }

  ghost predicate StacksOpenlyTok(t: Tok, n: nat)
    decreases t, 0
  {
    match t
    case Repeat(unbounded, body) => if unbounded && n > 0 then StacksOpenly(body, n - 1) else StacksOpenly(body, n)
    case Group(body) => StacksOpenly(body, n)
    case Branch(arms) => StacksOpenlyArm(arms, n)
    case Hidden(_, _) => n == 0
    case Atom => n == 0
  }

  ghost predicate StacksOpenlyArm(arms: seq<Arm>, n: nat)
    decreases arms, 1
  {
    n == 0 || (arms != [] && (StacksOpenly(arms[0].toks, n) || StacksOpenlyArm(arms[1..], n)))
  }

  /** The same on a way that passes a hidden element. */
  ghost predicate StacksHidden(toks: seq<Tok>, n: nat)
    decreases toks, 1
  {
    toks != [] && (StacksHiddenTok(toks[0], n) || StacksHidden(toks[1..], n))
  }

  ghost predicate StacksHiddenTok(t: Tok, n: nat)
    decreases t, 0
  {
    match t
    case Repeat(unbounded, body) => if unbounded && n > 0 then StacksHidden(body, n - 1) else StacksHidden(body, n)
    case Group(body) => StacksHidden(body, n)
    case Branch(arms) => StacksHiddenArm(arms, n)
    case Hidden(_, _) => StacksTok(t, n)
    case Atom => false
  }

  ghost predicate StacksHiddenArm(arms: seq<Arm>, n: nat)
    decreases arms, 1
  {
    arms != [] && (StacksHidden(arms[0].toks, n) || StacksHiddenArm(arms[1..], n))
  }

  /** Every way enters a hidden element or none. */
  lemma {:induction false} WaysSplit(toks: seq<Tok>, n: nat)
    ensures Stacks(toks, n) <==> StacksOpenly(toks, n) || StacksHidden(toks, n)
    decreases toks, 1
  {
    if toks != [] {
      WaysSplitTok(toks[0], n);
      WaysSplit(toks[1..], n);
    }
  }

  lemma {:induction false} WaysSplitTok(t: Tok, n: nat)
    ensures StacksTok(t, n) <==> StacksOpenlyTok(t, n) || StacksHiddenTok(t, n)
    decreases t, 0
  {
    match t
    case Repeat(unbounded, body) => WaysSplit(body, if unbounded && n > 0 then n - 1 else n);
    case Group(body) => WaysSplit(body, n);
    case Branch(arms) => WaysSplitArm(arms, n);
    case Hidden(_, _) =>
    case Atom =>
  }

  lemma {:induction false} WaysSplitArm(arms: seq<Arm>, n: nat)
    ensures StacksArm(arms, n) <==> StacksOpenlyArm(arms, n) || StacksHiddenArm(arms, n)
    decreases arms, 1
  {
    if arms != [] {
      WaysSplit(arms[0].toks, n);
      WaysSplitArm(arms[1..], n);
    }
  }

  // -- what the check sees ---------------------------------------------------------------------------------

  lemma {:induction false} OneUnbounded(toks: seq<Tok>)
    ensures HasUnbounded(toks) <==> StacksOpenly(toks, 1)
    decreases toks, 1
  {
    if toks != [] {
      OneUnboundedTok(toks[0]);
      OneUnbounded(toks[1..]);
    }
  }

  lemma {:induction false} OneUnboundedTok(t: Tok)
    ensures HasUnboundedTok(t) <==> StacksOpenlyTok(t, 1)
    decreases t, 0
  {
    match t
    case Repeat(_, body) => OneUnbounded(body);
    case Group(body) => OneUnbounded(body);
    case Branch(arms) => OneUnboundedArm(arms);
    case Hidden(_, _) =>
    case Atom =>
  }

  lemma {:induction false} OneUnboundedArm(arms: seq<Arm>)
    ensures HasUnboundedArm(arms) <==> StacksOpenlyArm(arms, 1)
    decreases arms, 1
  {
    if arms != [] {
      OneUnbounded(arms[0].toks);
      OneUnboundedArm(arms[1..]);
    }
  }

  /** Two on a way contain one. */
  lemma {:induction false} TwoOpenlyMeanOne(toks: seq<Tok>)
    requires StacksOpenly(toks, 2)
    ensures StacksOpenly(toks, 1)
    decreases toks, 1
  {
    if StacksOpenlyTok(toks[0], 2) {
      TwoOpenlyMeanOneTok(toks[0]);
    } else {
      TwoOpenlyMeanOne(toks[1..]);
    }
  }

  lemma {:induction false} TwoOpenlyMeanOneTok(t: Tok)
    requires StacksOpenlyTok(t, 2)
    ensures StacksOpenlyTok(t, 1)
    decreases t, 0
  {
    match t
    case Repeat(unbounded, body) =>
      if !unbounded {
        TwoOpenlyMeanOne(body);
      }
    case Group(body) => TwoOpenlyMeanOne(body);
    case Branch(arms) => TwoOpenlyMeanOneArm(arms);
  }

  lemma {:induction false} TwoOpenlyMeanOneArm(arms: seq<Arm>)
    requires StacksOpenlyArm(arms, 2)
    ensures StacksOpenlyArm(arms, 1)
    decreases arms, 1
  {
    if StacksOpenly(arms[0].toks, 2) {
      TwoOpenlyMeanOne(arms[0].toks);
    } else {
      TwoOpenlyMeanOneArm(arms[1..]);
    }
  }

  /** The check says yes exactly when one unbounded repeat lies strictly below another, on an open way. */
  lemma {:induction false} ProneSeesOpenNesting(toks: seq<Tok>)
    ensures IsProne(toks) <==> StacksOpenly(toks, 2)
    decreases toks, 1
  {
    if toks != [] {
      ProneTokSeesOpenNesting(toks[0]);
      ProneSeesOpenNesting(toks[1..]);
    }
  }

  lemma {:induction false} ProneTokSeesOpenNesting(t: Tok)
    ensures IsProneTok(t) <==> StacksOpenlyTok(t, 2)
    decreases t, 0
  {
    match t
    case Repeat(unbounded, body) =>
      OneUnbounded(body);
      ProneSeesOpenNesting(body);
      if StacksOpenly(body, 2) {
        TwoOpenlyMeanOne(body);
      }
    case Group(body) => ProneSeesOpenNesting(body);
    case Branch(arms) => ProneArmSeesOpenNesting(arms);
    case Hidden(_, _) =>
    case Atom =>
  }

  lemma {:induction false} ProneArmSeesOpenNesting(arms: seq<Arm>)
    ensures IsProneArm(arms) <==> StacksOpenlyArm(arms, 2)
    decreases arms, 1
  {
    if arms != [] {
      ProneSeesOpenNesting(arms[0].toks);
      ProneArmSeesOpenNesting(arms[1..]);
    }
  }

  /**
   The check decides the nesting exactly on the patterns where it shows: two unbounded repeats stack on
   an open way, or no way through a hidden element stacks two. It never refuses a pattern without nesting.
   */
  lemma ProneIsExact(toks: seq<Tok>)
    ensures (IsProne(toks) <==> Stacks(toks, 2)) <==> StacksOpenly(toks, 2) || !StacksHidden(toks, 2)
    ensures IsProne(toks) ==> Stacks(toks, 2)
  {
    ProneSeesOpenNesting(toks);
    WaysSplit(toks, 2);
  }

  predicate HasHidden(toks: seq<Tok>)
    decreases toks, 1
  {
    toks != [] && (HasHiddenTok(toks[0]) || HasHidden(toks[1..]))
  }

  predicate HasHiddenTok(t: Tok)
    decreases t, 0
  {
    match t
    case Repeat(_, body) => HasHidden(body)
    case Group(body) => HasHidden(body)
    case Branch(arms) => HasHiddenArm(arms)
    case Hidden(_, _) => true
    case Atom => false
  }

  predicate HasHiddenArm(arms: seq<Arm>)
    decreases arms, 1
  {
    arms != [] && (HasHidden(arms[0].toks) || HasHiddenArm(arms[1..]))
  }

  lemma {:induction false} NoHiddenNoWay(toks: seq<Tok>, n: nat)
    requires !HasHidden(toks)
    ensures !StacksHidden(toks, n)
    decreases toks, 1
  {
    if toks != [] {
      NoHiddenNoWayTok(toks[0], n);
      NoHiddenNoWay(toks[1..], n);
    }
  }

  lemma {:induction false} NoHiddenNoWayTok(t: Tok, n: nat)
    requires !HasHiddenTok(t)
    ensures !StacksHiddenTok(t, n)
    decreases t, 0
  {
    match t
    case Repeat(unbounded, body) => NoHiddenNoWay(body, if unbounded && n > 0 then n - 1 else n);
    case Group(body) => NoHiddenNoWay(body, n);
    case Branch(arms) => NoHiddenNoWayArm(arms, n);
    case Atom =>
  }

  lemma {:induction false} NoHiddenNoWayArm(arms: seq<Arm>, n: nat)
    requires !HasHiddenArm(arms)
    ensures !StacksHiddenArm(arms, n)
    decreases arms, 1
  {
    if arms != [] {
      NoHiddenNoWay(arms[0].toks, n);
      NoHiddenNoWayArm(arms[1..], n);
    }
  }

  /** Without lookarounds, atomic groups, conditionals and possessive repeats the check is exact. */
  lemma ProneIsExactWithoutHidden(toks: seq<Tok>)
    requires !HasHidden(toks)
    ensures IsProne(toks) <==> Stacks(toks, 2)
  {
    NoHiddenNoWay(toks, 2);
    ProneIsExact(toks);
  }

  /** The parsed form of `(?=(a+)+$)b`: a nested repeat inside a lookahead. */
  function NestedInLookahead(): seq<Tok> {
    [Hidden(false, [Arm([Repeat(true, [Group([Repeat(true, [Atom])])]), Atom])]), Atom]
  }

  /** The check does not see it. */
  lemma NestingInLookaheadIsMissed()
    ensures Stacks(NestedInLookahead(), 2) && !IsProne(NestedInLookahead())
  {
    var inner := Repeat(true, [Atom]);
    var outer := Repeat(true, [Group([inner])]);
    var look := Hidden(false, [Arm([outer, Atom])]);
    assert StacksTok(inner, 1);
    assert Stacks([inner], 1);
    assert StacksTok(Group([inner]), 1);
    assert Stacks([Group([inner])], 1);
    assert StacksTok(outer, 2);
    assert Stacks([outer, Atom], 2);
    assert StacksArm([Arm([outer, Atom])], 2);
    assert StacksTok(look, 2);
    assert !IsProneTok(look) && !IsProneTok(Atom);
    assert [look, Atom][1..] == [Atom] && [Atom][1..] == [];
  }
}

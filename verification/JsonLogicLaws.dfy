/**
 The values of the rule language: laws of arithmetic, order and logic over arbitrary operand expressions,
 and what a variable looks up.
 */
module JsonLogicLaws {
  import opened Json
  import opened Wrappers
  import opened Seqs
  import opened JsonLogic

  /** An operation with its list of operands. */
  function Op(op: string, args: seq<Json>): Json {
    Obj([Entry(op, Arr(args))])
  }

  // -- evaluating an operation --------------------------------------------------------------------------

  lemma {:induction false} EvalOp(h: Host, op: string, args: seq<Json>, ctx: Json, depth: nat)
    requires depth < MAX_DEPTH && op in OPERATORS && op != "var"
    ensures Eval(h, Op(op, args), ctx, depth) ==
            match EvalAll(h, args, ctx, depth + 1)
            case Ok(values) => Apply(h, op, values)
            case Err(e) => Err(e)
  {
  }

  lemma {:induction false} EvalOne(h: Host, a: Json, ctx: Json, depth: nat, x: Json)
    requires Eval(h, a, ctx, depth) == Ok(x)
    ensures EvalAll(h, [a], ctx, depth) == Ok([x])
  {
    assert [a][1..] == [] && EvalAll(h, [], ctx, depth) == Ok([]);
    assert [x] + [] == [x];
  }

  lemma {:induction false} EvalTwo(h: Host, a: Json, b: Json, ctx: Json, depth: nat, x: Json, y: Json)
    requires Eval(h, a, ctx, depth) == Ok(x) && Eval(h, b, ctx, depth) == Ok(y)
    ensures EvalAll(h, [a, b], ctx, depth) == Ok([x, y])
  {
    EvalOne(h, b, ctx, depth, y);
    assert [a, b][1..] == [b];
    assert [x] + [y] == [x, y];
  }

  lemma {:induction false} EvalUnary(h: Host, op: string, a: Json, ctx: Json, depth: nat, x: Json)
    requires depth < MAX_DEPTH && op in OPERATORS && op != "var" && Eval(h, a, ctx, depth + 1) == Ok(x)
    ensures Eval(h, Op(op, [a]), ctx, depth) == Apply(h, op, [x])
  {
    EvalOp(h, op, [a], ctx, depth);
    EvalOne(h, a, ctx, depth + 1, x);
  }

  lemma {:induction false} EvalBinary(h: Host, op: string, a: Json, b: Json, ctx: Json, depth: nat, x: Json, y: Json)
    requires depth < MAX_DEPTH && op in OPERATORS && op != "var"
    requires Eval(h, a, ctx, depth + 1) == Ok(x) && Eval(h, b, ctx, depth + 1) == Ok(y)
    ensures Eval(h, Op(op, [a, b]), ctx, depth) == Apply(h, op, [x, y])
  {
    EvalOp(h, op, [a, b], ctx, depth);
    EvalTwo(h, a, b, ctx, depth + 1, x, y);
  }

  /** Operands that give values give them one by one, in order. */
  lemma {:induction false} EvalAppends(h: Host, args: seq<Json>, more: seq<Json>, ctx: Json, depth: nat)
    requires EvalAll(h, args, ctx, depth).Ok? && EvalAll(h, more, ctx, depth).Ok?
    ensures EvalAll(h, args + more, ctx, depth) == Ok(EvalAll(h, args, ctx, depth).value + EvalAll(h, more, ctx, depth).value)
  {
    if args == [] {
      assert args + more == more;
      assert EvalAll(h, args, ctx, depth).value + EvalAll(h, more, ctx, depth).value == EvalAll(h, more, ctx, depth).value;
    } else {
      EvalAppends(h, args[1..], more, ctx, depth);
      assert (args + more)[0] == args[0] && (args + more)[1..] == args[1..] + more;
      var first, rest, last := Eval(h, args[0], ctx, depth).value, EvalAll(h, args[1..], ctx, depth).value, EvalAll(h, more, ctx, depth).value;
      assert [first] + (rest + last) == [first] + rest + last;
    }
  }

  /** How an operation other than a variable evaluates: its operands first, then the operator. */
  function Applied(h: Host, op: string, args: Result<seq<Json>, Fault>): Outcome {
    match args
    case Ok(values) => Apply(h, op, values)
    case Err(e) => Err(e)
  }

  lemma {:induction false} EvalUnfolds(h: Host, e: Json, ctx: Json, depth: nat)
    requires e.Obj? && |e.entries| == 1 && e.entries[0].key != "var" && e.entries[0].key in OPERATORS && depth < MAX_DEPTH
    ensures Eval(h, e, ctx, depth) == Applied(h, e.entries[0].key, EvalAll(h, Operands(e.entries[0].value), ctx, depth + 1))
  {
  }

  /** A value found at some depth is the value at every smaller one. */
  lemma {:induction false} DepthOnlyLimits(h: Host, e: Json, ctx: Json, deep: nat, depth: nat)
    requires depth <= deep && Eval(h, e, ctx, deep).Ok?
    ensures Eval(h, e, ctx, depth) == Eval(h, e, ctx, deep)
    decreases Size(e), 0
  {
    if e.Obj? && |e.entries| == 1 && e.entries[0].key != "var" && e.entries[0].key in OPERATORS {
      EvalUnfolds(h, e, ctx, deep);
      EvalUnfolds(h, e, ctx, depth);
      DepthOnlyLimitsAll(h, Operands(e.entries[0].value), ctx, deep + 1, depth + 1);
    }
  }

  lemma {:induction false} DepthOnlyLimitsAll(h: Host, es: seq<Json>, ctx: Json, deep: nat, depth: nat)
    requires depth <= deep && EvalAll(h, es, ctx, deep).Ok?
    ensures EvalAll(h, es, ctx, depth) == EvalAll(h, es, ctx, deep)
    decreases SizeOfAll(es), 1
  {
    if es != [] {
      DepthOnlyLimits(h, es[0], ctx, deep, depth);
      DepthOnlyLimitsAll(h, es[1..], ctx, deep, depth);
    }
  }

  // -- arithmetic -----------------------------------------------------------------------------------------

  /** The expression gives this number. */
  predicate Gives(h: Host, e: Json, ctx: Json, depth: nat, x: real) {
    Eval(h, e, ctx, depth) == Ok(Number(x))
  }

  lemma {:induction false} ApplySum(h: Host, x: real, y: real)
    ensures Apply(h, "+", [Number(x), Number(y)]) == Ok(Number(x + y))
    ensures Apply(h, "+", [Number(x)]) == Ok(Number(x))
  {
    assert Sum([]) == Ok(0.0);
    assert [Number(y)][1..] == [] && Sum([Number(y)]) == Ok(y);
    assert [Number(x)][1..] == [] && Sum([Number(x)]) == Ok(x);
    assert [Number(x), Number(y)][1..] == [Number(y)];
  }

  lemma {:induction false} ApplyProduct(h: Host, x: real, y: real)
    ensures Apply(h, "*", [Number(x), Number(y)]) == Ok(Number(Times(x, y)))
    ensures Apply(h, "*", [Number(x)]) == Ok(Number(x))
  {
    assert Product([]) == Ok(1.0);
    assert [Number(y)][1..] == [] && Product([Number(y)]) == Ok(Times(y, 1.0));
    assert [Number(x)][1..] == [] && Product([Number(x)]) == Ok(Times(x, 1.0));
    assert Times(y, 1.0) == y && Times(x, 1.0) == x;
    assert [Number(x), Number(y)][1..] == [Number(y)];
    assert Product([Number(x), Number(y)]) == Ok(Times(x, y));
  }

  lemma {:induction false} ApplyDifference(h: Host, x: real, y: real)
    ensures Apply(h, "-", [Number(x), Number(y)]) == Ok(Number(x - y))
    ensures Apply(h, "-", [Number(x)]) == Ok(Number(-x))
  {
  }

  lemma {:induction false} ApplyQuotient(h: Host, x: real, y: real)
    requires y != 0.0
    ensures Apply(h, "/", [Number(x), Number(y)]) == Ok(Number(x / y))
  {
  }

  lemma {:induction false} SumGives(h: Host, a: Json, b: Json, ctx: Json, depth: nat, x: real, y: real)
    requires depth < MAX_DEPTH && Gives(h, a, ctx, depth + 1, x) && Gives(h, b, ctx, depth + 1, y)
    ensures Gives(h, Op("+", [a, b]), ctx, depth, x + y)
  {
    EvalBinary(h, "+", a, b, ctx, depth, Number(x), Number(y));
    ApplySum(h, x, y);
  }

  lemma {:induction false} ProductGives(h: Host, a: Json, b: Json, ctx: Json, depth: nat, x: real, y: real)
    requires depth < MAX_DEPTH && Gives(h, a, ctx, depth + 1, x) && Gives(h, b, ctx, depth + 1, y)
    ensures Gives(h, Op("*", [a, b]), ctx, depth, Times(x, y))
  {
    EvalBinary(h, "*", a, b, ctx, depth, Number(x), Number(y));
    ApplyProduct(h, x, y);
  }

  lemma {:induction false} DifferenceGives(h: Host, a: Json, b: Json, ctx: Json, depth: nat, x: real, y: real)
    requires depth < MAX_DEPTH && Gives(h, a, ctx, depth + 1, x) && Gives(h, b, ctx, depth + 1, y)
    ensures Gives(h, Op("-", [a, b]), ctx, depth, x - y)
  {
    EvalBinary(h, "-", a, b, ctx, depth, Number(x), Number(y));
    ApplyDifference(h, x, y);
  }

  lemma {:induction false} QuotientGives(h: Host, a: Json, b: Json, ctx: Json, depth: nat, x: real, y: real)
    requires depth < MAX_DEPTH && Gives(h, a, ctx, depth + 1, x) && Gives(h, b, ctx, depth + 1, y) && y != 0.0
    ensures Gives(h, Op("/", [a, b]), ctx, depth, x / y)
  {
    EvalBinary(h, "/", a, b, ctx, depth, Number(x), Number(y));
    ApplyQuotient(h, x, y);
  }

  /** Taking away what was added gives the first number back. */
  lemma {:induction false} SubtractionUndoesAddition(h: Host, a: Json, b: Json, ctx: Json, depth: nat, x: real, y: real)
    requires depth + 1 < MAX_DEPTH && Gives(h, a, ctx, depth + 2, x) && Gives(h, b, ctx, depth + 2, y)
    ensures Gives(h, Op("-", [Op("+", [a, b]), b]), ctx, depth, x)
  {
    DepthOnlyLimits(h, b, ctx, depth + 2, depth + 1);
    SumGives(h, a, b, ctx, depth + 1, x, y);
    DifferenceGives(h, Op("+", [a, b]), b, ctx, depth, x + y, y);
  }

  /** Adding what was taken away does too. */
  lemma {:induction false} AdditionUndoesSubtraction(h: Host, a: Json, b: Json, ctx: Json, depth: nat, x: real, y: real)
    requires depth + 1 < MAX_DEPTH && Gives(h, a, ctx, depth + 2, x) && Gives(h, b, ctx, depth + 2, y)
    ensures Gives(h, Op("+", [Op("-", [a, b]), b]), ctx, depth, x)
  {
    DepthOnlyLimits(h, b, ctx, depth + 2, depth + 1);
    DifferenceGives(h, a, b, ctx, depth + 1, x, y);
    SumGives(h, Op("-", [a, b]), b, ctx, depth, x - y, y);
  }

  /** Dividing by what was multiplied gives the first number back. */
  lemma {:induction false} DivisionUndoesMultiplication(h: Host, a: Json, b: Json, ctx: Json, depth: nat, x: real, y: real)
    requires depth + 1 < MAX_DEPTH && Gives(h, a, ctx, depth + 2, x) && Gives(h, b, ctx, depth + 2, y) && y != 0.0
    ensures Gives(h, Op("/", [Op("*", [a, b]), b]), ctx, depth, x)
  {
    DepthOnlyLimits(h, b, ctx, depth + 2, depth + 1);
    ProductGives(h, a, b, ctx, depth + 1, x, y);
    QuotientGives(h, Op("*", [a, b]), b, ctx, depth, Times(x, y), y);
    TimesOver(x, y);
  }

  /** A number and its negation add up to zero. */
  lemma {:induction false} NegationLaw(h: Host, a: Json, ctx: Json, depth: nat, x: real)
    requires depth + 1 < MAX_DEPTH && Gives(h, a, ctx, depth + 2, x)
    ensures Gives(h, Op("+", [Op("-", [a]), a]), ctx, depth, 0.0)
  {
    DepthOnlyLimits(h, a, ctx, depth + 2, depth + 1);
    EvalUnary(h, "-", a, ctx, depth + 1, Number(x));
    ApplyDifference(h, x, 0.0);
    SumGives(h, Op("-", [a]), a, ctx, depth, -x, x);
  }

  lemma {:induction false} TimesOver(x: real, y: real)
    requires y != 0.0
    ensures Times(x, y) / y == x
  {
  }

  lemma {:induction false} TimesTimes(x: real, y: real, z: real)
    ensures Times(x, Times(y, z)) == Times(Times(x, y), z)
  {
  }

  lemma {:induction false} SumAppends(values: seq<Json>, x: real)
    requires Sum(values).Ok?
    ensures Sum(values + [Number(x)]) == Ok(Sum(values).value + x)
  {
    if values == [] {
      assert [] + [Number(x)] == [Number(x)] && [Number(x)][1..] == [];
    } else {
      SumAppends(values[1..], x);
      assert (values + [Number(x)])[1..] == values[1..] + [Number(x)];
    }
  }

  lemma {:induction false} ProductAppends(values: seq<Json>, x: real)
    requires Product(values).Ok?
    ensures Product(values + [Number(x)]) == Ok(Times(Product(values).value, x))
  {
    if values == [] {
      assert [] + [Number(x)] == [Number(x)] && [Number(x)][1..] == [];
    } else {
      ProductAppends(values[1..], x);
      assert (values + [Number(x)])[1..] == values[1..] + [Number(x)];
      assert (values + [Number(x)])[0] == values[0];
      TimesTimes(values[0].n, Product(values[1..]).value, x);
    }
  }

  /** One operand alone is itself. */
  lemma {:induction false} OneOperand(h: Host, a: Json, ctx: Json, depth: nat, x: real)
    requires depth < MAX_DEPTH && Gives(h, a, ctx, depth + 1, x)
    ensures Gives(h, Op("+", [a]), ctx, depth, x) && Gives(h, Op("*", [a]), ctx, depth, x)
  {
    EvalUnary(h, "+", a, ctx, depth, Number(x));
    EvalUnary(h, "*", a, ctx, depth, Number(x));
    ApplySum(h, x, x);
    ApplyProduct(h, x, x);
  }

  /** What an operation over many operands gives with one operand more. */
  lemma {:induction false} EvalMore(h: Host, op: string, args: seq<Json>, a: Json, ctx: Json, depth: nat, x: Json)
    requires depth < MAX_DEPTH && op in OPERATORS && op != "var"
    requires EvalAll(h, args, ctx, depth + 1).Ok? && Eval(h, a, ctx, depth + 1) == Ok(x)
    ensures Eval(h, Op(op, args), ctx, depth) == Apply(h, op, EvalAll(h, args, ctx, depth + 1).value)
    ensures Eval(h, Op(op, args + [a]), ctx, depth) == Apply(h, op, EvalAll(h, args, ctx, depth + 1).value + [x])
  {
    EvalOne(h, a, ctx, depth + 1, x);
    EvalAppends(h, args, [a], ctx, depth + 1);
    EvalOp(h, op, args, ctx, depth);
    EvalOp(h, op, args + [a], ctx, depth);
  }

  /** One more operand adds its number to a sum. */
  lemma {:induction false} OneMoreSummand(h: Host, args: seq<Json>, a: Json, ctx: Json, depth: nat, s: real, x: real)
    requires depth < MAX_DEPTH && Gives(h, a, ctx, depth + 1, x) && Gives(h, Op("+", args), ctx, depth, s)
    ensures Gives(h, Op("+", args + [a]), ctx, depth, s + x)
  {
    EvalOp(h, "+", args, ctx, depth);
    EvalMore(h, "+", args, a, ctx, depth, Number(x));
    SumAppends(EvalAll(h, args, ctx, depth + 1).value, x);
  }

  /** One more operand multiplies a product by its number. */
  lemma {:induction false} OneMoreFactor(h: Host, args: seq<Json>, a: Json, ctx: Json, depth: nat, s: real, x: real)
    requires depth < MAX_DEPTH && Gives(h, a, ctx, depth + 1, x) && Gives(h, Op("*", args), ctx, depth, s)
    ensures Gives(h, Op("*", args + [a]), ctx, depth, Times(s, x))
  {
    EvalOp(h, "*", args, ctx, depth);
    EvalMore(h, "*", args, a, ctx, depth, Number(x));
    ProductAppends(EvalAll(h, args, ctx, depth + 1).value, x);
  }

  // -- order and equality -----------------------------------------------------------------------------------

  /** The operation on the two expressions gives true. */
  predicate IsTrue(h: Host, op: string, a: Json, b: Json, ctx: Json, depth: nat) {
    Eval(h, Op(op, [a, b]), ctx, depth) == Ok(Bool(true))
  }

  predicate IsFalse(h: Host, op: string, a: Json, b: Json, ctx: Json, depth: nat) {
    Eval(h, Op(op, [a, b]), ctx, depth) == Ok(Bool(false))
  }

  /** The comparisons of two numbers are those of the numbers, and each gives true or false. */
  lemma {:induction false} OrderLaws(h: Host, a: Json, b: Json, ctx: Json, depth: nat, x: real, y: real)
    requires depth < MAX_DEPTH && Gives(h, a, ctx, depth + 1, x) && Gives(h, b, ctx, depth + 1, y)
    ensures if x < y then IsTrue(h, "<", a, b, ctx, depth) else IsFalse(h, "<", a, b, ctx, depth)
    ensures if x > y then IsTrue(h, ">", a, b, ctx, depth) else IsFalse(h, ">", a, b, ctx, depth)
    ensures if x < y then IsFalse(h, ">=", a, b, ctx, depth) else IsTrue(h, ">=", a, b, ctx, depth)
    ensures if x > y then IsFalse(h, "<=", a, b, ctx, depth) else IsTrue(h, "<=", a, b, ctx, depth)
  {
    EvalBinary(h, "<", a, b, ctx, depth, Number(x), Number(y));
    EvalBinary(h, ">", a, b, ctx, depth, Number(x), Number(y));
    EvalBinary(h, ">=", a, b, ctx, depth, Number(x), Number(y));
    EvalBinary(h, "<=", a, b, ctx, depth, Number(x), Number(y));
  }

  /** "==" is the equality of the values and "!=" its negation, for values of every kind. */
  lemma {:induction false} EqualityLaws(h: Host, a: Json, b: Json, ctx: Json, depth: nat, x: Json, y: Json)
    requires depth < MAX_DEPTH && Eval(h, a, ctx, depth + 1) == Ok(x) && Eval(h, b, ctx, depth + 1) == Ok(y)
    ensures if h.equal(x, y) then IsTrue(h, "==", a, b, ctx, depth) else IsFalse(h, "==", a, b, ctx, depth)
    ensures IsTrue(h, "!=", a, b, ctx, depth) <==> IsFalse(h, "==", a, b, ctx, depth)
    ensures IsFalse(h, "!=", a, b, ctx, depth) <==> IsTrue(h, "==", a, b, ctx, depth)
  {
    EvalBinary(h, "==", a, b, ctx, depth, x, y);
    EvalBinary(h, "!=", a, b, ctx, depth, x, y);
  }

  lemma {:induction false} SubstringMeans(needle: string, text: string)
    ensures Substring(needle, text) <==> exists before, behind :: text == before + needle + behind
  {
    if Substring(needle, text) {
      var i :| 0 <= i <= |text| && needle <= text[i..];
      assert text == text[..i] + needle + text[i..][|needle|..];
    }
    if before, behind :| text == before + needle + behind {
      assert text[|before|..] == needle + behind;
      assert needle <= text[|before|..];
    }
  }

  /** "in" looks for an equal element of a list, or for a part of a text. */
  lemma {:induction false} ContainsLaws(h: Host, a: Json, b: Json, ctx: Json, depth: nat, x: Json, y: Json)
    requires depth < MAX_DEPTH && Eval(h, a, ctx, depth + 1) == Ok(x) && Eval(h, b, ctx, depth + 1) == Ok(y)
    ensures y.Arr? ==> (IsTrue(h, "in", a, b, ctx, depth) <==> exists v :: v in y.items && h.equal(x, v))
    ensures x.Str? && y.Str? ==>
              (IsTrue(h, "in", a, b, ctx, depth) <==> exists before, behind :: y.s == before + x.s + behind)
  {
    EvalBinary(h, "in", a, b, ctx, depth, x, y);
    if y.Arr? {
      assert forall i :: 0 <= i < |y.items| ==> y.items[i] in y.items;
    } else if x.Str? && y.Str? {
      SubstringMeans(x.s, y.s);
    }
  }

  // -- logic -------------------------------------------------------------------------------------------------

  /** The yes of a value: not null, false, zero or empty. */
  predicate IsYes(v: Json) {
    v !in [Null, Bool(false), Number(0.0), Str(""), Arr([]), Obj([])]
  }

  predicate AllYes(values: seq<Json>) {
    forall v :: v in values ==> IsYes(v)
  }

  predicate SomeYes(values: seq<Json>) {
    exists v :: v in values && IsYes(v)
  }

  /** "and" asks for every value and "or" for some; all operands are evaluated first. */
  lemma {:induction false} LogicLaws(h: Host, args: seq<Json>, ctx: Json, depth: nat)
    requires depth < MAX_DEPTH && EvalAll(h, args, ctx, depth + 1).Ok?
    ensures Eval(h, Op("and", args), ctx, depth) == Ok(Bool(AllYes(EvalAll(h, args, ctx, depth + 1).value)))
    ensures Eval(h, Op("or", args), ctx, depth) == Ok(Bool(SomeYes(EvalAll(h, args, ctx, depth + 1).value)))
  {
    EvalOp(h, "and", args, ctx, depth);
    EvalOp(h, "or", args, ctx, depth);
    var values := EvalAll(h, args, ctx, depth + 1).value;
    assert forall i :: 0 <= i < |values| ==> values[i] in values;
  }

  /** "not" asks for its value not to be a yes. */
  lemma {:induction false} NotLaw(h: Host, a: Json, ctx: Json, depth: nat, x: Json)
    requires depth < MAX_DEPTH && Eval(h, a, ctx, depth + 1) == Ok(x)
    ensures Eval(h, Op("not", [a]), ctx, depth) == Ok(Bool(!IsYes(x)))
  {
    EvalUnary(h, "not", a, ctx, depth, x);
  }

  function Negated(args: seq<Json>): (r: seq<Json>)
    ensures |r| == |args| && forall i :: 0 <= i < |args| ==> r[i] == Op("not", [args[i]])
  {
    seq(|args|, i requires 0 <= i < |args| => Op("not", [args[i]]))
  }

  lemma {:induction false} NegatedGive(h: Host, args: seq<Json>, ctx: Json, depth: nat)
    requires depth < MAX_DEPTH && EvalAll(h, args, ctx, depth + 1).Ok?
    ensures EvalAll(h, Negated(args), ctx, depth).Ok?
    ensures var values, negated := EvalAll(h, args, ctx, depth + 1).value, EvalAll(h, Negated(args), ctx, depth).value;
            |values| == |negated| && forall i :: 0 <= i < |values| ==> negated[i] == Bool(!IsYes(values[i]))
  {
    if args != [] {
      NegatedGive(h, args[1..], ctx, depth);
      assert Negated(args)[1..] == Negated(args[1..]);
      NotLaw(h, args[0], ctx, depth, Eval(h, args[0], ctx, depth + 1).value);
    }
  }

  lemma {:induction false} NegatedConjunctionGives(h: Host, args: seq<Json>, ctx: Json, depth: nat)
    requires depth + 1 < MAX_DEPTH && EvalAll(h, args, ctx, depth + 2).Ok?
    ensures Eval(h, Op("not", [Op("and", args)]), ctx, depth) == Ok(Bool(!AllYes(EvalAll(h, args, ctx, depth + 2).value)))
  {
    LogicLaws(h, args, ctx, depth + 1);
    NotLaw(h, Op("and", args), ctx, depth, Bool(AllYes(EvalAll(h, args, ctx, depth + 2).value)));
  }

  /** The negation of a conjunction is the disjunction of the negations. */
  lemma {:induction false} DeMorgan(h: Host, args: seq<Json>, ctx: Json, depth: nat)
    requires depth + 1 < MAX_DEPTH && EvalAll(h, args, ctx, depth + 2).Ok?
    ensures exists b :: Eval(h, Op("not", [Op("and", args)]), ctx, depth) == Ok(Bool(b))
                        && Eval(h, Op("or", Negated(args)), ctx, depth) == Ok(Bool(b))
  {
    NegatedConjunctionGives(h, args, ctx, depth);
    NegatedGive(h, args, ctx, depth + 1);
    LogicLaws(h, Negated(args), ctx, depth);
    NegatedYes(EvalAll(h, args, ctx, depth + 2).value, EvalAll(h, Negated(args), ctx, depth + 1).value);
  }

  lemma {:induction false} NegatedYes(values: seq<Json>, negated: seq<Json>)
    requires |values| == |negated| && forall i :: 0 <= i < |values| ==> negated[i] == Bool(!IsYes(values[i]))
    ensures SomeYes(negated) <==> !AllYes(values)
  {
    assert forall i :: 0 <= i < |values| ==> negated[i] in negated && values[i] in values;
    assert forall i :: 0 <= i < |values| ==> (IsYes(negated[i]) <==> !IsYes(values[i]));
  }

  // -- variables -----------------------------------------------------------------------------------------------

  /** The value lies at the end of the keys: a key of an object, or the index of a list in digits. */
  ghost predicate LiesAt(h: Host, from: Json, keys: seq<string>, v: Json)
    decreases |keys|
  {
    if keys == [] then v == from
    else exists next :: StepsTo(h, from, keys[0], next) && LiesAt(h, next, keys[1..], v)
  }

  ghost predicate StepsTo(h: Host, from: Json, key: string, next: Json) {
    || (from.Obj? && Get(from.entries, key) == Some(next))
    || (from.Arr? && h.isDigits(key) && exists i: nat :: h.toIndex(key) == Some(i) && i < |from.items| && from.items[i] == next)
  }

  lemma {:induction false} StepDecided(h: Host, from: Json, key: string)
    ensures Step(h, Some(from), key).Ok? ==>
              match Step(h, Some(from), key).value
              case Some(v) => forall next :: StepsTo(h, from, key, next) <==> next == v
              case None => forall next :: !StepsTo(h, from, key, next)
  {
  }

  lemma {:induction false} NothingFollows(h: Host, keys: seq<string>)
    ensures Walk(h, None, keys) == Ok(None)
  {
    if keys != [] {
      NothingFollows(h, keys[1..]);
    }
  }

  lemma {:induction false} WalkDecided(h: Host, from: Json, keys: seq<string>)
    ensures Walk(h, Some(from), keys).Ok? ==>
              match Walk(h, Some(from), keys).value
              case Some(v) => forall w :: LiesAt(h, from, keys, w) <==> w == v
              case None => forall w :: !LiesAt(h, from, keys, w)
    decreases |keys|
  {
    if keys != [] && Step(h, Some(from), keys[0]).Ok? {
      StepDecided(h, from, keys[0]);
      match Step(h, Some(from), keys[0]).value
      case Some(next) =>
        WalkDecided(h, next, keys[1..]);
        forall w ensures LiesAt(h, from, keys, w) <==> LiesAt(h, next, keys[1..], w) {
          assert StepsTo(h, from, keys[0], next);
        }
      case None => NothingFollows(h, keys[1..]);
    }
  }

  /** The keys with dots between them. */
  function Dotted(keys: seq<string>): string
    requires keys != []
  {
    if |keys| == 1 then keys[0] else keys[0] + "." + Dotted(keys[1..])
  }

  lemma {:induction false} SplitPlain(key: string, rest: string)
    requires '.' !in key
    ensures SplitDots(key) == [key]
    ensures SplitDots(key + "." + rest) == [key] + SplitDots(rest)
  {
    if key == "" {
      assert (key + "." + rest)[1..] == rest && (key + "." + rest)[0] == '.';
    } else {
      SplitPlain(key[1..], rest);
      assert key == [key[0]] + key[1..];
      assert (key + "." + rest)[0] == key[0] && (key + "." + rest)[1..] == key[1..] + "." + rest;
    }
  }

  lemma {:induction false} SplitUndoesDots(keys: seq<string>)
    requires keys != [] && forall k :: k in keys ==> '.' !in k
    ensures SplitDots(Dotted(keys)) == keys
  {
    if |keys| == 1 {
      SplitPlain(keys[0], "");
    } else {
      SplitUndoesDots(keys[1..]);
      SplitPlain(keys[0], Dotted(keys[1..]));
      assert keys == [keys[0]] + keys[1..];
    }
  }

  /** A variable gives the value that lies at the end of its keys, and the fallback if none does. */
  lemma {:induction false} VariableLaw(h: Host, keys: seq<string>, fallback: Json, ctx: Json, depth: nat)
    requires depth < MAX_DEPTH && keys != [] && (forall k :: k in keys ==> '.' !in k) && Dotted(keys) != ""
    ensures var e := Obj([Entry("var", Arr([Str(Dotted(keys)), fallback]))]);
            Eval(h, e, ctx, depth).Ok? ==>
              || LiesAt(h, ctx, keys, Eval(h, e, ctx, depth).value)
              || (Eval(h, e, ctx, depth).value == fallback && forall v :: !LiesAt(h, ctx, keys, v))
  {
    SplitUndoesDots(keys);
    WalkDecided(h, ctx, keys);
  }

  /** A variable without a fallback gives null where nothing lies, and the empty path gives the whole context. */
  lemma {:induction false} PlainVariableLaw(h: Host, keys: seq<string>, ctx: Json, depth: nat)
    requires depth < MAX_DEPTH && keys != [] && (forall k :: k in keys ==> '.' !in k) && Dotted(keys) != ""
    ensures var e := Obj([Entry("var", Str(Dotted(keys)))]);
            Eval(h, e, ctx, depth).Ok? ==>
              || LiesAt(h, ctx, keys, Eval(h, e, ctx, depth).value)
              || (Eval(h, e, ctx, depth).value == Null && forall v :: !LiesAt(h, ctx, keys, v))
    ensures Eval(h, Obj([Entry("var", Str(""))]), ctx, depth) == Ok(ctx)
  {
    SplitUndoesDots(keys);
    WalkDecided(h, ctx, keys);
  }

  /** Only one value can lie there. */
  lemma {:induction false} LiesAtOne(h: Host, from: Json, keys: seq<string>, v: Json, w: Json)
    requires LiesAt(h, from, keys, v) && LiesAt(h, from, keys, w)
    ensures v == w
    decreases |keys|
  {
    if keys != [] {
      var a :| StepsTo(h, from, keys[0], a) && LiesAt(h, a, keys[1..], v);
      var b :| StepsTo(h, from, keys[0], b) && LiesAt(h, b, keys[1..], w);
      LiesAtOne(h, a, keys[1..], v, w);
    }
  }
}

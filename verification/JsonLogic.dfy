/**
 The rule language behind `visibleIf` and `compute`: the evaluator `eval_jsonlogic` and the
 save-time gate `validate_jsonlogic`.
 */
module JsonLogic {
  import opened Json
  import opened Wrappers

  const MAX_DEPTH := 64

  datatype Fault =
    | TooDeep
    | NotOneOperator
    | UnknownOperator(op: string)
    | WrongOperandCount
    | NotANumber
    | DivisionByZero
    | BadHaystack
    | BadNeedle
    | BadPath
    | BadIndex

  /** The faults that the gate looks for. */
  predicate Structural(f: Fault) {
    f.TooDeep? || f.NotOneOperator? || f.UnknownOperator?
  }

  /** The other faults that come from the expression alone; the gate lets them pass. */
  predicate Ungated(f: Fault) {
    f.WrongOperandCount? || f.BadPath?
  }

  type Outcome = Result<Json, Fault>

  /** Python's equality of JSON values, and its two views on the digits of a text. */
  datatype Host = Host(
    equal: (Json, Json) -> bool,
    isDigits: string -> bool,
    toIndex: string -> Option<nat>)

  const OPERATORS: set<string> := {
    "==", "!=", ">", ">=", "<", "<=", "and", "or", "not", "+", "-", "*", "/", "in", "var"}

  // -- the var operator -----------------------------------------------------------------------------

  function SplitDots(path: string): (parts: seq<string>)
    ensures |parts| > 0
  {
    if path == "" then [""]
    else
      var rest := SplitDots(path[1..]);
      if path[0] == '.' then [""] + rest else [[path[0]] + rest[0]] + rest[1..]
  }

  /** One path segment; None when it does not resolve. */
  function Step(h: Host, current: Option<Json>, part: string): Result<Option<Json>, Fault> {
    match current
    case Some(Obj(entries)) => Ok(Get(entries, part))
    case Some(Arr(items)) =>
      if !h.isDigits(part) then Ok(None)
      else (match h.toIndex(part)
            case Some(i) => if i < |items| then Ok(Some(items[i])) else Ok(None)
            case None => Err(BadIndex))
    case _ => Ok(None)
  }

  function Walk(h: Host, current: Option<Json>, parts: seq<string>): Result<Option<Json>, Fault>
    decreases |parts|
  {
    if parts == [] then Ok(current) else
      var next :- Step(h, current, parts[0]);
      Walk(h, next, parts[1..])
  }

  function ResolveVar(h: Host, path: Json, ctx: Json): Outcome {
    var target := if path.Arr? then (if path.items != [] then path.items[0] else Str("")) else path;
    var fallback := if path.Arr? && |path.items| > 1 then path.items[1] else Null;
    if target == Str("") || target == Null then Ok(ctx)
    else if !target.Str? then Err(BadPath)
    else
      var resolved :- Walk(h, Some(ctx), SplitDots(target.s));
      Ok(resolved.GetOr(fallback))
  }

  // -- the operators over evaluated arguments ---------------------------------------------------------

  function Num(v: Json): Result<real, Fault> {
    if v.Number? then Ok(v.n) else Err(NotANumber)
  }

  function Sum(args: seq<Json>): Result<real, Fault> {
    if args == [] then Ok(0.0) else
      var n :- Num(args[0]);
      var rest :- Sum(args[1..]);
      Ok(n + rest)
  }

  function Product(args: seq<Json>): Result<real, Fault> {
    if args == [] then Ok(1.0) else
      var n :- Num(args[0]);
      var rest :- Product(args[1..]);
      Ok(Times(n, rest))
  }

  function Times(a: real, b: real): real {
    a * b
  }

  predicate Ordered(op: string, a: real, b: real) {
    match op
    case ">" => a > b
    case ">=" => a >= b
    case "<" => a < b
    case _ => a <= b
  }

  predicate Substring(needle: string, text: string) {
    exists i :: 0 <= i <= |text| && needle <= text[i..]
  }

  function Contains(h: Host, needle: Json, haystack: Json): Outcome {
    match haystack
    case Arr(items) => Ok(Bool(exists i :: 0 <= i < |items| && h.equal(needle, items[i])))
    case Str(text) => if needle.Str? then Ok(Bool(Substring(needle.s, text))) else Err(BadNeedle)
    case _ => Err(BadHaystack)
  }

  function Apply(h: Host, op: string, args: seq<Json>): Outcome {
    match op
    case "==" => if |args| != 2 then Err(WrongOperandCount) else Ok(Bool(h.equal(args[0], args[1])))
    case "!=" => if |args| != 2 then Err(WrongOperandCount) else Ok(Bool(!h.equal(args[0], args[1])))
    case "and" => Ok(Bool(forall i :: 0 <= i < |args| ==> Truthy(args[i])))
    case "or" => Ok(Bool(exists i :: 0 <= i < |args| && Truthy(args[i])))
    case "not" => if |args| != 1 then Err(WrongOperandCount) else Ok(Bool(!Truthy(args[0])))
    case "+" =>
      if args == [] then Err(WrongOperandCount) else
        var n :- Sum(args);
        Ok(Number(n))
    case "*" =>
      if args == [] then Err(WrongOperandCount) else
        var n :- Product(args);
        Ok(Number(n))
    case "-" =>
      if |args| == 1 then
        var n :- Num(args[0]);
        Ok(Number(-n))
      else if |args| == 2 then
        var a :- Num(args[0]);
        var b :- Num(args[1]);
        Ok(Number(a - b))
      else Err(WrongOperandCount)
    case "/" =>
      if |args| != 2 then Err(WrongOperandCount) else
        var b :- Num(args[1]);
        if b == 0.0 then Err(DivisionByZero) else
          var a :- Num(args[0]);
          Ok(Number(a / b))
    case "in" => if |args| != 2 then Err(WrongOperandCount) else Contains(h, args[0], args[1])
    case _ =>
      if |args| != 2 then Err(WrongOperandCount) else
        var a :- Num(args[0]);
        var b :- Num(args[1]);
        Ok(Bool(Ordered(op, a, b)))
  }

  // -- evaluator and gate -------------------------------------------------------------------------------

  function Eval(h: Host, expr: Json, ctx: Json, depth: nat): Outcome
    decreases Size(expr), 0
  {
    if !expr.Obj? then Ok(expr)
    else if depth >= MAX_DEPTH then Err(TooDeep)
    else if |expr.entries| != 1 then Err(NotOneOperator)
    else
      var op, raw := expr.entries[0].key, expr.entries[0].value;
      if op == "var" then ResolveVar(h, raw, ctx)
      else if op !in OPERATORS then Err(UnknownOperator(op))
      else
        var args :- EvalAll(h, Operands(raw), ctx, depth + 1);
        Apply(h, op, args)
  }

  /** Every operand is evaluated, in order; no operator stops early. */
  function EvalAll(h: Host, exprs: seq<Json>, ctx: Json, depth: nat): Result<seq<Json>, Fault>
    decreases SizeOfAll(exprs), 1
  {
    if exprs == [] then Ok([]) else
      var first :- Eval(h, exprs[0], ctx, depth);
      var rest :- EvalAll(h, exprs[1..], ctx, depth);
      Ok([first] + rest)
  }

  function Validate(expr: Json, depth: nat): Result<(), Fault>
    decreases Size(expr), 0
  {
    if !expr.Obj? then Ok(())
    else if depth >= MAX_DEPTH then Err(TooDeep)
    else if |expr.entries| != 1 then Err(NotOneOperator)
    else
      var op, raw := expr.entries[0].key, expr.entries[0].value;
      if op !in OPERATORS then Err(UnknownOperator(op))
      else if op == "var" then Ok(())
      else ValidateAll(Operands(raw), depth + 1)
  }

  function ValidateAll(exprs: seq<Json>, depth: nat): Result<(), Fault>
    decreases SizeOfAll(exprs), 1
  {
    if exprs == [] then Ok(()) else
      var _ :- Validate(exprs[0], depth);
      ValidateAll(exprs[1..], depth)
  }

  // -- what the gate guarantees -----------------------------------------------------------------------------

  lemma {:induction false} NumbersNeverFailOnStructure(args: seq<Json>)
    ensures Sum(args).Err? ==> !Structural(Sum(args).error)
    ensures Product(args).Err? ==> !Structural(Product(args).error)
  {
    if args != [] {
      NumbersNeverFailOnStructure(args[1..]);
    }
  }

  lemma {:induction false} WalkNeverFailsOnStructure(h: Host, current: Option<Json>, parts: seq<string>)
    ensures Walk(h, current, parts).Err? ==> !Structural(Walk(h, current, parts).error)
    decreases |parts|
  {
    if parts != [] && Step(h, current, parts[0]).Ok? {
      WalkNeverFailsOnStructure(h, Step(h, current, parts[0]).value, parts[1..]);
    }
  }

  lemma ResolveVarNeverFailsOnStructure(h: Host, path: Json, ctx: Json)
    ensures ResolveVar(h, path, ctx).Err? ==> !Structural(ResolveVar(h, path, ctx).error)
  {
    var target := if path.Arr? then (if path.items != [] then path.items[0] else Str("")) else path;
    if target.Str? {
      WalkNeverFailsOnStructure(h, Some(ctx), SplitDots(target.s));
    }
  }

  lemma ApplyNeverFailsOnStructure(h: Host, op: string, args: seq<Json>)
    ensures Apply(h, op, args).Err? ==> !Structural(Apply(h, op, args).error)
  {
    NumbersNeverFailOnStructure(args);
  }

  /**
   The evaluator and the gate agree on the structure: a value means the gate accepts, and a
   structural fault at runtime is the very fault the gate reports. So an accepted expression never
   fails on its structure, and a refused one never gives a value.
   */
  lemma {:induction false} GateDecidesStructure(h: Host, expr: Json, ctx: Json, depth: nat)
    ensures Eval(h, expr, ctx, depth).Ok? ==> Validate(expr, depth).Ok?
    ensures Eval(h, expr, ctx, depth).Err? && Structural(Eval(h, expr, ctx, depth).error) ==>
              Validate(expr, depth) == Err(Eval(h, expr, ctx, depth).error)
    decreases Size(expr), 0
  {
    if expr.Obj? && depth < MAX_DEPTH && |expr.entries| == 1 {
      var op, raw := expr.entries[0].key, expr.entries[0].value;
      if op == "var" {
        ResolveVarNeverFailsOnStructure(h, raw, ctx);
      } else if op in OPERATORS {
        GateDecidesStructures(h, Operands(raw), ctx, depth + 1);
        var args := EvalAll(h, Operands(raw), ctx, depth + 1);
        if args.Ok? {
          ApplyNeverFailsOnStructure(h, op, args.value);
        }
      }
    }
  }

  lemma {:induction false} GateDecidesStructures(h: Host, exprs: seq<Json>, ctx: Json, depth: nat)
    ensures EvalAll(h, exprs, ctx, depth).Ok? ==> ValidateAll(exprs, depth).Ok?
    ensures EvalAll(h, exprs, ctx, depth).Err? && Structural(EvalAll(h, exprs, ctx, depth).error) ==>
              ValidateAll(exprs, depth) == Err(EvalAll(h, exprs, ctx, depth).error)
    decreases SizeOfAll(exprs), 1
  {
    if exprs != [] {
      GateDecidesStructure(h, exprs[0], ctx, depth);
      GateDecidesStructures(h, exprs[1..], ctx, depth);
    }
  }

  // -- what the gate does not look at ---------------------------------------------------------------------

  /** The operand counts that an operator takes. */
  predicate TakesCount(op: string, n: nat) {
    match op
    case "and" => true
    case "or" => true
    case "not" => n == 1
    case "+" => n >= 1
    case "*" => n >= 1
    case "-" => n == 1 || n == 2
    case _ => n == 2
  }

  /** A path is a text or nothing; a list gives the path in its first place. */
  predicate IsPath(path: Json) {
    if path.Arr? then path.items == [] || path.items[0].Str? || path.items[0].Null? else path.Str? || path.Null?
  }

  /** Every operator has a count of operands it takes, and every variable a path. */
  predicate OperandsFit(expr: Json)
    decreases Size(expr), 0
  {
    expr.Obj? && |expr.entries| == 1 && expr.entries[0].key in OPERATORS ==>
      var op, raw := expr.entries[0].key, expr.entries[0].value;
      if op == "var" then IsPath(raw) else TakesCount(op, |Operands(raw)|) && AllOperandsFit(Operands(raw))
  }

  predicate AllOperandsFit(exprs: seq<Json>)
    decreases SizeOfAll(exprs), 1
  {
    exprs == [] || (OperandsFit(exprs[0]) && AllOperandsFit(exprs[1..]))
  }

  lemma {:induction false} NumbersNeedNoCount(args: seq<Json>)
    ensures Sum(args).Err? ==> Sum(args).error == NotANumber
    ensures Product(args).Err? ==> Product(args).error == NotANumber
  {
    if args != [] {
      NumbersNeedNoCount(args[1..]);
    }
  }

  /** An operator refuses its operands for their count exactly when it does not take that count. */
  lemma ApplyChecksCount(h: Host, op: string, args: seq<Json>)
    ensures Apply(h, op, args) == Err(WrongOperandCount) <==> !TakesCount(op, |args|)
    ensures Apply(h, op, args) != Err(BadPath)
  {
    NumbersNeedNoCount(args);
  }

  lemma {:induction false} WalkNeedsNoPath(h: Host, current: Option<Json>, parts: seq<string>)
    ensures Walk(h, current, parts).Err? ==> Walk(h, current, parts).error == BadIndex
    decreases |parts|
  {
    if parts != [] && Step(h, current, parts[0]).Ok? {
      WalkNeedsNoPath(h, Step(h, current, parts[0]).value, parts[1..]);
    }
  }

  /** A variable refuses its path exactly when it is none, whatever the context holds. */
  lemma ResolveVarChecksPath(h: Host, path: Json, ctx: Json)
    ensures ResolveVar(h, path, ctx) == Err(BadPath) <==> !IsPath(path)
    ensures ResolveVar(h, path, ctx) != Err(WrongOperandCount)
  {
    var target := if path.Arr? then (if path.items != [] then path.items[0] else Str("")) else path;
    if target.Str? {
      WalkNeedsNoPath(h, Some(ctx), SplitDots(target.s));
    }
  }

  /**
   The operands decide the faults that the gate lets pass: an expression that gives a value in some
   context has fitting operands, and one with fitting operands meets none of these faults in any.
   */
  lemma {:induction false} OperandsDecideUngated(h: Host, expr: Json, ctx: Json, depth: nat)
    ensures Eval(h, expr, ctx, depth).Ok? ==> OperandsFit(expr)
    ensures OperandsFit(expr) && Eval(h, expr, ctx, depth).Err? ==> !Ungated(Eval(h, expr, ctx, depth).error)
    decreases Size(expr), 0
  {
    if expr.Obj? && depth < MAX_DEPTH && |expr.entries| == 1 {
      var op, raw := expr.entries[0].key, expr.entries[0].value;
      if op == "var" {
        ResolveVarChecksPath(h, raw, ctx);
      } else if op in OPERATORS {
        AllOperandsDecideUngated(h, Operands(raw), ctx, depth + 1);
        var args := EvalAll(h, Operands(raw), ctx, depth + 1);
        if args.Ok? {
          ApplyChecksCount(h, op, args.value);
        }
      }
    }
  }

  lemma {:induction false} AllOperandsDecideUngated(h: Host, exprs: seq<Json>, ctx: Json, depth: nat)
    ensures EvalAll(h, exprs, ctx, depth).Ok? ==> AllOperandsFit(exprs) && |EvalAll(h, exprs, ctx, depth).value| == |exprs|
    ensures AllOperandsFit(exprs) && EvalAll(h, exprs, ctx, depth).Err? ==>
              !Ungated(EvalAll(h, exprs, ctx, depth).error)
    decreases SizeOfAll(exprs), 1
  {
    if exprs != [] {
      OperandsDecideUngated(h, exprs[0], ctx, depth);
      AllOperandsDecideUngated(h, exprs[1..], ctx, depth);
    }
  }

  /**
   An accepted expression fails on the values it meets only, in every context, if its operands fit;
   if they do not fit, it gives a value in none.
   */
  lemma AcceptedFailsOnValuesOnlyWhenOperandsFit(h: Host, expr: Json, ctx: Json)
    requires Validate(expr, 0).Ok?
    ensures OperandsFit(expr) && Eval(h, expr, ctx, 0).Err? ==>
              !Structural(Eval(h, expr, ctx, 0).error) && !Ungated(Eval(h, expr, ctx, 0).error)
    ensures !OperandsFit(expr) ==> Eval(h, expr, ctx, 0).Err?
  {
    GateDecidesStructure(h, expr, ctx, 0);
    OperandsDecideUngated(h, expr, ctx, 0);
  }

  /** `{"==": [1]}` and `{"var": 1}`. */
  function OneSidedEquality(): Json {
    Obj([Entry("==", Arr([Number(1.0)]))])
  }

  function NumberedVariable(): Json {
    Obj([Entry("var", Number(1.0))])
  }

  /** The gate lets both pass, and they fail in every context. */
  lemma AcceptedCanAlwaysFail(h: Host, ctx: Json)
    ensures Validate(OneSidedEquality(), 0).Ok? && Eval(h, OneSidedEquality(), ctx, 0) == Err(WrongOperandCount)
    ensures Validate(NumberedVariable(), 0).Ok? && Eval(h, NumberedVariable(), ctx, 0) == Err(BadPath)
  {
    var args := [Number(1.0)];
    assert args[1..] == [];
    assert ValidateAll(args, 1).Ok?;
    assert EvalAll(h, [], ctx, 1) == Ok([]);
    assert [Number(1.0)] + [] == args;
    assert EvalAll(h, args, ctx, 1) == Ok(args);
  }

  // -- depth ---------------------------------------------------------------------------------------------------

  /** The number of nested operations the evaluator enters; a variable reads no argument. */
  function Nesting(expr: Json): nat
    decreases Size(expr), 0
  {
    if !expr.Obj? then 0
    else if |expr.entries| != 1 || expr.entries[0].key == "var" then 1
    else 1 + NestingOfAll(Operands(expr.entries[0].value))
  }

  function NestingOfAll(exprs: seq<Json>): nat
    decreases SizeOfAll(exprs), 1
  {
    if exprs == [] then 0 else
      var first, rest := Nesting(exprs[0]), NestingOfAll(exprs[1..]);
      if first > rest then first else rest
  }

  predicate WellFormed(expr: Json)
    decreases Size(expr), 0
  {
    expr.Obj? ==>
      && |expr.entries| == 1 && expr.entries[0].key in OPERATORS
      && (expr.entries[0].key != "var" ==> AllWellFormed(Operands(expr.entries[0].value)))
  }

  predicate AllWellFormed(exprs: seq<Json>)
    decreases SizeOfAll(exprs), 1
  {
    exprs == [] || (WellFormed(exprs[0]) && AllWellFormed(exprs[1..]))
  }

  /** The gate accepts exactly the well-formed expressions whose operations fit under the depth limit. */
  lemma {:induction false} GateIsExact(expr: Json, depth: nat)
    requires depth <= MAX_DEPTH
    ensures Validate(expr, depth).Ok? <==> WellFormed(expr) && depth + Nesting(expr) <= MAX_DEPTH
    decreases Size(expr), 0
  {
    if expr.Obj? && depth < MAX_DEPTH && |expr.entries| == 1 && expr.entries[0].key != "var" {
      GatesAreExact(Operands(expr.entries[0].value), depth + 1);
    }
  }

  lemma {:induction false} GatesAreExact(exprs: seq<Json>, depth: nat)
    requires depth <= MAX_DEPTH
    ensures ValidateAll(exprs, depth).Ok? <==> AllWellFormed(exprs) && depth + NestingOfAll(exprs) <= MAX_DEPTH
    decreases SizeOfAll(exprs), 1
  {
    if exprs != [] {
      GateIsExact(exprs[0], depth);
      GatesAreExact(exprs[1..], depth);
    }
  }
}

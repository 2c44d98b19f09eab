/**
 What a guard means: the grammar of the guards that may be saved, and the value each of them has on a
 context, both stated without the gate and without the evaluator.
 */
module GuardMeaning {
  import opened Json
  import opened Wrappers
  import opened Guards

  // -- the guards that may be saved -------------------------------------------------------------------

  ghost predicate IsText(v: Json) {
    exists s :: v == Str(s) && s != ""
  }

  /** A comparison names a field and an operator; "in" needs a list to look in. */
  ghost predicate IsComparison(spec: Json) {
    spec.Obj? && exists field: string, op: string ::
      && Get(spec.entries, "field") == Some(Str(field)) && field != ""
      && Get(spec.entries, "op") == Some(Str(op)) && op in {"==", "!=", "<", "<=", ">", ">=", "in"}
      && (op == "in" ==> exists items :: Get(spec.entries, "value") == Some(Arr(items)))
  }

  /** The leaves and their values; those that read the actor are for manual transitions only. */
  ghost predicate IsLeaf(op: string, value: Json, manual: bool) {
    || (manual && op in {"roleIs", "isInCommittee"} && IsText(value))
    || (manual && op in {"actorIsApplicant", "isInVoteGremium"} && value.Bool?)
    || (op in {"applicantRoleIs", "applicantCommitteeIs", "applicationTypeIs", "budgetIs", "hasField"} && IsText(value))
    || (op in {"budgetFitsApplication", "attachmentPresent", "budgetHasDecisionGremium"} && value.Bool?)
    || (op == "compare" && IsComparison(value))
  }

  /** No guard, a leaf, or a combinator over guards: "and" and "or" over some, "not" over one. */
  ghost predicate IsGuard(guard: Json, manual: bool)
    decreases Size(guard)
  {
    || guard == Null
    || guard == Obj([])
    || (guard.Obj? && |guard.entries| == 1 &&
        var op, value := guard.entries[0].key, guard.entries[0].value;
        if op in {"and", "or", "not"} then
          && (if op == "not" then |Operands(value)| == 1 else |Operands(value)| >= 1)
          && forall i :: 0 <= i < |Operands(value)| ==> Operands(value)[i].Obj? && IsGuard(Operands(value)[i], manual)
        else IsLeaf(op, value, manual))
  }

  lemma OperatorsListed(op: string)
    ensures op in ORDERED_OPS + TEXT_OPS <==> op in {"==", "!=", "<", "<=", ">", ">=", "in"}
  {
  }

  lemma ComparisonDecided(spec: Json)
    ensures ValidateCompare(spec).Ok? <==> IsComparison(spec)
  {
    if spec.Obj? {
      var field, op, value := Get(spec.entries, "field"), Get(spec.entries, "op"), Get(spec.entries, "value");
      if value.Some? && value.value.Arr? {
        assert Get(spec.entries, "value") == Some(Arr(value.value.items));
      }
      if field.Some? && field.value.Str? && op.Some? && op.value.Str? {
        OperatorsListed(op.value.s);
        assert Get(spec.entries, "field") == Some(Str(field.value.s)) && Get(spec.entries, "op") == Some(Str(op.value.s));
      }
    }
  }

  lemma TextDecided(v: Json)
    ensures NonEmptyString(v) <==> IsText(v)
  {
    if v.Str? {
      assert v == Str(v.s);
    }
  }

  lemma LeafDecided(op: string, value: Json, manual: bool)
    ensures op !in COMBINATORS && ValidateLeaf(op, value, manual).Ok? <==> IsLeaf(op, value, manual)
  {
    TextDecided(value);
    ComparisonDecided(value);
  }

  /** The gate lets a guard pass exactly when it is in the grammar. */
  lemma {:induction false} GuardDecided(guard: Json, manual: bool)
    ensures ValidateGuard(guard, manual).Ok? <==> IsGuard(guard, manual)
    decreases Size(guard), 0
  {
    if !IsEmptyGuard(guard) && guard.Obj? && |guard.entries| == 1 {
      var op, value := guard.entries[0].key, guard.entries[0].value;
      if op in COMBINATORS {
        GuardsDecided(Operands(value), manual);
      } else {
        LeafDecided(op, value, manual);
      }
    }
  }

  lemma {:induction false} GuardsDecided(guards: seq<Json>, manual: bool)
    ensures ValidateAll(guards, manual).Ok? <==> forall i :: 0 <= i < |guards| ==> IsGuard(guards[i], manual)
    decreases SizeOfAll(guards), 1
  {
    if guards != [] {
      GuardDecided(guards[0], manual);
      GuardsDecided(guards[1..], manual);
      assert forall i :: 0 < i < |guards| ==> guards[i] == guards[1..][i - 1];
      assert forall i :: 0 <= i < |guards[1..]| ==> guards[1..][i] == guards[i + 1];
    }
  }

  // -- the value of a comparison --------------------------------------------------------------------------

  /** The order of decimals that are numbers or infinities. */
  predicate Below(l: Decimal, r: Decimal) {
    || (l.Finite? && r.Finite? && l.value < r.value)
    || (l == Infinite(false) && (r.Finite? || r == Infinite(true)))
    || (l.Finite? && r == Infinite(true))
  }

  /** A quiet NaN equals nothing, itself included, and has no order. */
  predicate DecimalsHold(op: string, l: Decimal, r: Decimal) {
    var ordered := !IsNaN(l) && !IsNaN(r);
    || (op == "==" && ordered && l == r)
    || (op == "!=" && !(ordered && l == r))
    || (op == "<" && ordered && Below(l, r))
    || (op == "<=" && ordered && !Below(r, l))
    || (op == ">" && ordered && Below(r, l))
    || (op == ">=" && ordered && !Below(l, r))
  }

  predicate DaysHold(op: string, l: int, r: int) {
    || (op == "==" && l == r)
    || (op == "!=" && l != r)
    || (op == "<" && l < r)
    || (op == "<=" && l <= r)
    || (op == ">" && l > r)
    || (op == ">=" && l >= r)
  }

  predicate TextsHold(h: Host, op: string, text: string, operand: Json) {
    || (op == "==" && text == h.textOf(operand))
    || (op == "!=" && text != h.textOf(operand))
    || (op == "in" && operand.Arr? && exists x :: x in operand.items && h.textOf(x) == text)
  }

  /** The yes of a value: true, a text that says yes, or anything else that is not empty or zero. */
  predicate SaysYes(h: Host, v: Json) {
    match v
    case Str(s) => h.yesText(s)
    case _ => v !in [Null, Bool(false), Number(0.0), Arr([]), Obj([])]
  }

  /** The number a value stands for: itself, or what its text reads as. */
  ghost predicate ReadsNumber(h: Host, v: Json, d: Decimal) {
    || (exists n :: v == Number(n) && d == Finite(n))
    || (exists s :: v == Str(s) && h.decimalOf(s) == Some(d))
  }

  ghost predicate ReadsDay(h: Host, v: Json, day: int) {
    exists s :: v == Str(s) && h.dateOf(s) == Some(day)
  }

  /** The field has a value that is not blank, and it stands to the operand as the operator says. */
  ghost predicate ComparisonHolds(h: Host, spec: Json, ctx: Context) {
    spec.Obj? && exists field: string, op: string ::
      && Get(spec.entries, "field") == Some(Str(field)) && Get(spec.entries, "op") == Some(Str(op))
      && field in ctx.fieldValues && ctx.fieldValues[field] != Null && ctx.fieldValues[field] != Str("")
      && FieldHolds(h, op, ctx.fieldValues[field], Get(spec.entries, "value").GetOr(Null), if field in ctx.fieldTypes then ctx.fieldTypes[field] else "text")
  }

  /** By the type of the field: as numbers, as days, as a yes or no, or as texts. */
  ghost predicate FieldHolds(h: Host, op: string, value: Json, operand: Json, fieldType: string) {
    if fieldType == "number" || fieldType == "currency" then
      exists l, r :: ReadsNumber(h, value, l) && ReadsNumber(h, operand, r) && DecimalsHold(op, l, r)
    else if fieldType == "date" then
      exists l, r :: ReadsDay(h, value, l) && ReadsDay(h, operand, r) && DaysHold(op, l, r)
    else if fieldType == "bool" then op == "==" && (SaysYes(h, value) <==> SaysYes(h, operand))
    else TextsHold(h, op, h.textOf(value), operand)
  }

  lemma NumberDecided(h: Host, v: Json, d: Decimal)
    ensures ToDecimal(h, v) == Some(d) <==> ReadsNumber(h, v, d)
  {
    match v
    case Number(n) => assert v == Number(n);
    case Str(s) => assert v == Str(s);
    case _ =>
  }

  lemma DayDecided(h: Host, v: Json, day: int)
    ensures ToDate(h, v) == Some(day) <==> ReadsDay(h, v, day)
  {
    if v.Str? {
      assert v == Str(v.s);
    }
  }

  lemma DecimalsDecided(op: string, l: Decimal, r: Decimal)
    ensures CompareDecimals(op, Some(l), Some(r)).Ok? ==>
              (CompareDecimals(op, Some(l), Some(r)).value <==> DecimalsHold(op, l, r))
  {
  }

  lemma DaysDecided(op: string, l: int, r: int)
    ensures CompareDates(op, Some(l), Some(r)) <==> DaysHold(op, l, r)
  {
  }

  lemma TextsDecided(h: Host, op: string, text: string, operand: Json)
    ensures CompareText(h, op, text, operand) <==> TextsHold(h, op, text, operand)
  {
    if operand.Arr? {
      var items := operand.items;
      assert forall i :: 0 <= i < |items| ==> items[i] in items;
      assert (exists i :: 0 <= i < |items| && h.textOf(items[i]) == text) <==> exists x :: x in items && h.textOf(x) == text;
    }
  }

  lemma NumbersCompared(h: Host, op: string, value: Json, operand: Json)
    ensures var r := CompareDecimals(op, ToDecimal(h, value), ToDecimal(h, operand));
            r.Ok? ==> (r.value <==> exists a, b :: ReadsNumber(h, value, a) && ReadsNumber(h, operand, b) && DecimalsHold(op, a, b))
  {
    forall d ensures ToDecimal(h, value) == Some(d) <==> ReadsNumber(h, value, d) {
      NumberDecided(h, value, d);
    }
    forall d ensures ToDecimal(h, operand) == Some(d) <==> ReadsNumber(h, operand, d) {
      NumberDecided(h, operand, d);
    }
    var l, r := ToDecimal(h, value), ToDecimal(h, operand);
    if l.Some? && r.Some? {
      DecimalsDecided(op, l.value, r.value);
    }
  }

  lemma DaysCompared(h: Host, op: string, value: Json, operand: Json)
    ensures CompareDates(op, ToDate(h, value), ToDate(h, operand)) <==>
              exists a, b :: ReadsDay(h, value, a) && ReadsDay(h, operand, b) && DaysHold(op, a, b)
  {
    forall d ensures ToDate(h, value) == Some(d) <==> ReadsDay(h, value, d) {
      DayDecided(h, value, d);
    }
    forall d ensures ToDate(h, operand) == Some(d) <==> ReadsDay(h, operand, d) {
      DayDecided(h, operand, d);
    }
    var l, r := ToDate(h, value), ToDate(h, operand);
    if l.Some? && r.Some? {
      DaysDecided(op, l.value, r.value);
    }
  }

  lemma YesDecided(h: Host, v: Json)
    ensures ToBool(h, v) <==> SaysYes(h, v)
  {
  }

  lemma ComparisonValue(h: Host, spec: Json, ctx: Context)
    ensures EvalCompare(h, spec, ctx).Ok? ==> (EvalCompare(h, spec, ctx).value <==> ComparisonHolds(h, spec, ctx))
  {
    if EvalCompare(h, spec, ctx).Ok? {
      var field, op := GetOrNull(spec.entries, "field").s, GetOrNull(spec.entries, "op").s;
      var operand := GetOrNull(spec.entries, "value");
      assert Get(spec.entries, "field") == Some(Str(field)) && Get(spec.entries, "op") == Some(Str(op));
      if field in ctx.fieldValues {
        if op in OpsForType(FieldType(ctx, field)) {
          FieldValue(h, op, ctx.fieldValues[field], operand, FieldType(ctx, field));
        } else {
          OtherOpsFail(h, op, ctx.fieldValues[field], operand, FieldType(ctx, field));
        }
      }
    }
  }

  lemma OtherOpsFail(h: Host, op: string, left: Json, operand: Json, valueType: string)
    requires op !in OpsForType(valueType)
    ensures !FieldHolds(h, op, left, operand, valueType)
  {
  }

  lemma FieldValue(h: Host, op: string, left: Json, operand: Json, valueType: string)
    requires op in OpsForType(valueType)
    ensures CompareValues(h, op, left, operand, valueType).Ok? ==>
              (CompareValues(h, op, left, operand, valueType).value <==> FieldHolds(h, op, left, operand, valueType))
  {
    if IsNumeric(valueType) {
      NumbersCompared(h, op, left, operand);
    } else if valueType == "date" {
      DaysCompared(h, op, left, operand);
    } else if valueType == "bool" {
      YesDecided(h, left);
      YesDecided(h, operand);
    } else {
      TextsDecided(h, op, h.textOf(left), operand);
    }
  }

  // -- the value of a guard -----------------------------------------------------------------------------------

  /** The yes of a literal in a guard. */
  predicate IsYes(v: Json) {
    v !in [Null, Bool(false), Number(0.0), Str(""), Arr([]), Obj([])]
  }

  ghost predicate ActorLeafHolds(h: Host, op: string, value: Json, ctx: Context) {
    || (op == "roleIs" && exists role :: role in ctx.roles && value == Str(role))
    || (op == "isInCommittee" && h.textOf(value) in ctx.actorCommittees)
    || (op == "actorIsApplicant" && (IsYes(value) <==> ctx.actorIsApplicant))
    || (op == "isInVoteGremium" &&
        (IsYes(value) <==> exists gremium :: ctx.voteGremiumId == Some(gremium) && gremium in ctx.actorCommittees))
  }

  ghost predicate ConditionLeafHolds(h: Host, op: string, value: Json, ctx: Context) {
    || (op == "applicantRoleIs" && exists role :: role in ctx.applicantRoles && value == Str(role))
    || (op == "applicantCommitteeIs" && h.textOf(value) in ctx.applicantCommittees)
    || (op == "applicationTypeIs" && ctx.applicationTypeKey == Some(h.textOf(value)))
    || (op == "budgetIs" && ctx.budgetId == Some(h.textOf(value)))
    || (op == "budgetFitsApplication" && (IsYes(value) <==> ctx.budgetFits))
    || (op == "attachmentPresent" && (IsYes(value) <==> ctx.hasAttachment))
    || (op == "budgetHasDecisionGremium" && (IsYes(value) <==> ctx.budgetHasDecisionGremium))
    || (op == "hasField" && h.textOf(value) in ctx.fieldValues
        && ctx.fieldValues[h.textOf(value)] !in [Null, Str(""), Arr([])])
  }

  ghost predicate LeafHolds(h: Host, op: string, value: Json, ctx: Context) {
    if op in {"roleIs", "isInCommittee", "actorIsApplicant", "isInVoteGremium"} then ActorLeafHolds(h, op, value, ctx)
    else if op == "compare" then ComparisonHolds(h, value, ctx)
    else ConditionLeafHolds(h, op, value, ctx)
  }

  /** "and" holds if all its children hold, "or" if one does, "not" if its child does not. */
  ghost predicate Holds(h: Host, guard: Json, ctx: Context)
    decreases Size(guard)
  {
    guard.Obj? && |guard.entries| == 1 ==>
      var op, value := guard.entries[0].key, guard.entries[0].value;
      if op == "and" then forall i :: 0 <= i < |Operands(value)| ==> Holds(h, Operands(value)[i], ctx)
      else if op == "or" then exists i :: 0 <= i < |Operands(value)| && Holds(h, Operands(value)[i], ctx)
      else if op == "not" then Operands(value) != [] ==> !Holds(h, Operands(value)[0], ctx)
      else LeafHolds(h, op, value, ctx)
  }

  lemma ActorLeafValue(h: Host, op: string, value: Json, ctx: Context)
    ensures EvalActorLeaf(h, op, value, ctx).Ok? ==>
              (EvalActorLeaf(h, op, value, ctx).value <==> ActorLeafHolds(h, op, value, ctx))
  {
    if value.Str? {
      assert value == Str(value.s);
    }
  }

  lemma ConditionLeafValue(h: Host, op: string, value: Json, ctx: Context)
    ensures EvalConditionLeaf(h, op, value, ctx).Ok? ==>
              (EvalConditionLeaf(h, op, value, ctx).value <==> ConditionLeafHolds(h, op, value, ctx))
  {
    match op
    case "applicantRoleIs" =>
      if value.Str? {
        assert value == Str(value.s);
      }
    case "applicantCommitteeIs" =>
    case "applicationTypeIs" =>
    case "budgetIs" =>
    case "budgetFitsApplication" =>
    case "attachmentPresent" =>
    case "budgetHasDecisionGremium" =>
    case "hasField" =>
    case _ =>
  }

  lemma LeafValue(h: Host, op: string, value: Json, ctx: Context)
    ensures EvalLeaf(h, op, value, ctx).Ok? ==> (EvalLeaf(h, op, value, ctx).value <==> LeafHolds(h, op, value, ctx))
  {
    ActorLeafValue(h, op, value, ctx);
    ConditionLeafValue(h, op, value, ctx);
    ComparisonValue(h, value, ctx);
  }

  /** Whatever the evaluator answers is what the guard means on the context. */
  lemma {:induction false} EvalMeansHolds(h: Host, guard: Json, ctx: Context)
    ensures EvalGuard(h, guard, ctx).Ok? ==> (EvalGuard(h, guard, ctx).value <==> Holds(h, guard, ctx))
    decreases Size(guard), 0
  {
    if guard.Obj? && |guard.entries| == 1 {
      var op, value := guard.entries[0].key, guard.entries[0].value;
      if op in COMBINATORS {
        EvalsMeanHolds(h, Operands(value), ctx);
      } else {
        LeafValue(h, op, value, ctx);
      }
    }
  }

  lemma {:induction false} EvalsMeanHolds(h: Host, guards: seq<Json>, ctx: Context)
    ensures EvalAll(h, guards, ctx).Ok? ==>
              (EvalAll(h, guards, ctx).value <==> forall i :: 0 <= i < |guards| ==> Holds(h, guards[i], ctx))
    ensures EvalAny(h, guards, ctx).Ok? ==>
              (EvalAny(h, guards, ctx).value <==> exists i :: 0 <= i < |guards| && Holds(h, guards[i], ctx))
    ensures guards != [] && EvalGuard(h, guards[0], ctx).Ok? ==>
              (EvalGuard(h, guards[0], ctx).value <==> Holds(h, guards[0], ctx))
    decreases SizeOfAll(guards), 1
  {
    if guards != [] {
      EvalMeansHolds(h, guards[0], ctx);
      EvalsMeanHolds(h, guards[1..], ctx);
      assert forall i :: 0 < i < |guards| ==> guards[i] == guards[1..][i - 1];
      assert forall i :: 0 <= i < |guards[1..]| ==> guards[1..][i] == guards[i + 1];
    }
  }

  /** With finite field values and safe literals the evaluator decides the meaning of every saved guard. */
  lemma SavedGuardIsDecided(h: Host, guard: Json, manual: bool, ctx: Context)
    requires IsGuard(guard, manual) && FieldsFinite(h, ctx) && OperandsSafe(h, guard)
    ensures EvalGuard(h, guard, ctx) == Ok(Holds(h, guard, ctx))
  {
    GuardDecided(guard, manual);
    AcceptedGuardRaisesOnlyOnNaN(h, guard, manual, ctx);
    EvalMeansHolds(h, guard, ctx);
  }

  /** A role gate that was never saved fails on a value that cannot be looked up, and on no other. */
  lemma RoleGateRaisesExactly(h: Host, value: Json, ctx: Context)
    ensures EvalGuard(h, Obj([Entry("roleIs", value)]), ctx) == Err(TypeFault) <==> value.Arr? || value.Obj?
    ensures EvalGuard(h, Obj([Entry("applicantRoleIs", value)]), ctx) == Err(TypeFault) <==> value.Arr? || value.Obj?
  {
    assert "roleIs" in ACTOR_OPERATORS && "roleIs" !in COMBINATORS;
    assert "applicantRoleIs" in CONDITION_OPERATORS && "applicantRoleIs" !in COMBINATORS && "applicantRoleIs" !in ACTOR_OPERATORS;
  }

  // -- the applicant ------------------------------------------------------------------------------------------

  /** The applicant is asked for, alone or anywhere below combinators. */
  ghost predicate AsksForApplicant(guard: Json)
    decreases Size(guard)
  {
    guard.Obj? && |guard.entries| == 1 &&
    var op, value := guard.entries[0].key, guard.entries[0].value;
    || op == "actorIsApplicant"
    || (op in {"and", "or", "not"} && exists i :: 0 <= i < |Operands(value)| && AsksForApplicant(Operands(value)[i]))
  }

  lemma {:induction false} RequiresApplicantExactly(guard: Json)
    ensures RequiresApplicant(guard) <==> AsksForApplicant(guard)
    decreases Size(guard), 0
  {
    if guard.Obj? && |guard.entries| == 1 && guard.entries[0].key in COMBINATORS {
      AnyRequiresApplicantExactly(Operands(guard.entries[0].value));
    }
  }

  lemma {:induction false} AnyRequiresApplicantExactly(guards: seq<Json>)
    ensures AnyRequiresApplicant(guards) <==> exists i :: 0 <= i < |guards| && AsksForApplicant(guards[i])
    decreases SizeOfAll(guards), 1
  {
    if guards != [] {
      RequiresApplicantExactly(guards[0]);
      AnyRequiresApplicantExactly(guards[1..]);
      assert forall i :: 0 < i < |guards| ==> guards[i] == guards[1..][i - 1];
      assert forall i :: 0 <= i < |guards[1..]| ==> guards[1..][i] == guards[i + 1];
    }
  }

  // -- laws of the order ----------------------------------------------------------------------------------------

  /** The value of a comparison of two decimals; the finite ones compare as numbers do. */
  lemma DecimalOrderLaws(l: Decimal, r: Decimal)
    requires !IsNaN(l) && !IsNaN(r)
    ensures var holds := (op: string) => CompareDecimals(op, Some(l), Some(r)) == Ok(true);
            var swapped := (op: string) => CompareDecimals(op, Some(r), Some(l)) == Ok(true);
            && (holds("<") || holds("==") || holds(">"))
            && !(holds("<") && holds("==")) && !(holds("<") && holds(">")) && !(holds("==") && holds(">"))
            && (holds(">") <==> swapped("<")) && (holds("==") <==> swapped("=="))
            && (holds("<=") <==> !holds(">")) && (holds(">=") <==> !holds("<")) && (holds("!=") <==> !holds("=="))
    ensures l.Finite? && r.Finite? ==>
              && (CompareDecimals("<", Some(l), Some(r)) == Ok(true) <==> l.value < r.value)
              && (CompareDecimals("==", Some(l), Some(r)) == Ok(true) <==> l.value == r.value)
  {
  }

  lemma DayOrderLaws(l: int, r: int)
    ensures var holds := (op: string) => CompareDates(op, Some(l), Some(r));
            var swapped := (op: string) => CompareDates(op, Some(r), Some(l));
            && (holds("<") || holds("==") || holds(">"))
            && !(holds("<") && holds("==")) && !(holds("<") && holds(">")) && !(holds("==") && holds(">"))
            && (holds(">") <==> swapped("<")) && (holds("==") <==> swapped("=="))
            && (holds("<=") <==> !holds(">")) && (holds(">=") <==> !holds("<")) && (holds("!=") <==> !holds("=="))
            && (holds("<") <==> l < r)
  {
  }

  /** To stand in a list is to equal some element of it, and "!=" is the negation of "==". */
  lemma TextLaws(h: Host, text: string, operand: Json)
    ensures CompareText(h, "in", text, operand) <==>
              operand.Arr? && exists x :: x in operand.items && CompareText(h, "==", text, x)
    ensures CompareText(h, "!=", text, operand) <==> !CompareText(h, "==", text, operand)
  {
    TextsDecided(h, "in", text, operand);
  }
}

/**
 The guards of the flow engine: the save-time gate `validate_guard`, the runtime evaluator
 `eval_guard` and the applicant check `guard_requires_applicant`.
 */
module Guards {
  import opened Json
  import opened Wrappers

  const CONDITION_OPERATORS: set<string> := {
    "applicantRoleIs", "applicantCommitteeIs", "applicationTypeIs", "attachmentPresent", "budgetIs",
    "budgetFitsApplication", "hasField", "compare", "budgetHasDecisionGremium"}
  const ACTOR_OPERATORS: set<string> := {"roleIs", "isInCommittee", "actorIsApplicant", "isInVoteGremium"}
  const COMBINATORS: set<string> := {"and", "or", "not"}
  const STRING_VALUE_OPERATORS: set<string> := {
    "roleIs", "isInCommittee", "applicantRoleIs", "applicantCommitteeIs", "applicationTypeIs", "budgetIs", "hasField"}
  const BOOL_VALUE_OPERATORS: set<string> := {
    "budgetFitsApplication", "actorIsApplicant", "attachmentPresent", "isInVoteGremium", "budgetHasDecisionGremium"}
  const ORDERED_OPS: set<string> := {"==", "!=", "<", "<=", ">", ">="}
  const TEXT_OPS: set<string> := {"==", "!=", "in"}

  /** What Python raises: the module's own error, an unhashable key, or a decimal that has no order. */
  datatype Fault = GuardFault | TypeFault | DecimalFault

  /** A decimal of Python: a number, an infinity, or one of the two values that are no number. */
  datatype Decimal = Finite(value: real) | Infinite(positive: bool) | QuietNaN | SignalingNaN

  /** The library calls of the evaluator that are not part of this model. */
  datatype Host = Host(
    decimalOf: string -> Option<Decimal>,
    dateOf: string -> Option<int>,
    textOf: Json -> string,
    yesText: string -> bool)

  datatype Context = Context(
    actorIsApplicant: bool,
    roles: set<string>,
    actorCommittees: set<string>,
    applicantRoles: set<string>,
    applicantCommittees: set<string>,
    budgetId: Option<string>,
    budgetFits: bool,
    applicationTypeKey: Option<string>,
    hasAttachment: bool,
    fieldValues: map<string, Json>,
    fieldTypes: map<string, string>,
    voteGremiumId: Option<string>,
    budgetHasDecisionGremium: bool)

  type Verdict = Result<bool, Fault>

  // -- comparison ---------------------------------------------------------------------------------

  function ToDecimal(h: Host, v: Json): Option<Decimal> {
    match v
    case Number(n) => Some(Finite(n))
    case Str(s) => h.decimalOf(s)
    case _ => None
  }

  function ToDate(h: Host, v: Json): Option<int> {
    if v.Str? then h.dateOf(v.s) else None
  }

  function ToBool(h: Host, v: Json): bool {
    match v
    case Bool(b) => b
    case Str(s) => h.yesText(s)
    case _ => Truthy(v)
  }

  predicate IsNaN(d: Decimal) {
    d.QuietNaN? || d.SignalingNaN?
  }

  /** Python compares a signaling NaN never, and a quiet NaN only for equality. */
  predicate Comparable(op: string, l: Decimal, r: Decimal) {
    && !l.SignalingNaN? && !r.SignalingNaN?
    && (op in {"==", "!="} || (!IsNaN(l) && !IsNaN(r)))
  }

  predicate DecimalLess(l: Decimal, r: Decimal)
    requires !IsNaN(l) && !IsNaN(r)
  {
    match (l, r)
    case (Finite(a), Finite(b)) => a < b
    case (Finite(_), Infinite(p)) => p
    case (Infinite(p), Finite(_)) => !p
    case (Infinite(p), Infinite(q)) => !p && q
    case _ => false
  }

  predicate OrderedHolds(op: string, less: bool, equal: bool) {
    match op
    case "==" => equal
    case "!=" => !equal
    case "<" => less
    case "<=" => less || equal
    case ">" => !less && !equal
    case ">=" => !less
    case _ => false
  }

  function CompareDecimals(op: string, l: Option<Decimal>, r: Option<Decimal>): Verdict {
    if l.None? || r.None? then Ok(false)
    else if op !in ORDERED_OPS then Ok(false)
    else if !Comparable(op, l.value, r.value) then Err(DecimalFault)
    else if IsNaN(l.value) || IsNaN(r.value) then Ok(op == "!=")
    else Ok(OrderedHolds(op, DecimalLess(l.value, r.value), l.value == r.value))
  }

  function CompareDates(op: string, l: Option<int>, r: Option<int>): bool {
    l.Some? && r.Some? && OrderedHolds(op, l.value < r.value, l.value == r.value)
  }

  function CompareText(h: Host, op: string, left: string, operand: Json): bool {
    match op
    case "==" => left == h.textOf(operand)
    case "!=" => left != h.textOf(operand)
    case "in" => operand.Arr? && exists i :: 0 <= i < |operand.items| && h.textOf(operand.items[i]) == left
    case _ => false
  }

  predicate IsNumeric(valueType: string) {
    valueType in {"number", "currency"}
  }

  function OpsForType(valueType: string): set<string> {
    if IsNumeric(valueType) || valueType == "date" then ORDERED_OPS
    else if valueType == "bool" then {"=="}
    else TEXT_OPS
  }

  function FieldType(ctx: Context, field: string): string {
    if field in ctx.fieldTypes then ctx.fieldTypes[field] else "text"
  }

  predicate Blank(v: Json) {
    v == Null || v == Str("")
  }

  /** The comparison of two values by the type of the field. */
  function CompareValues(h: Host, op: string, left: Json, operand: Json, valueType: string): Verdict {
    if IsNumeric(valueType) then CompareDecimals(op, ToDecimal(h, left), ToDecimal(h, operand))
    else if valueType == "date" then Ok(CompareDates(op, ToDate(h, left), ToDate(h, operand)))
    else if valueType == "bool" then Ok(ToBool(h, left) == ToBool(h, operand))
    else Ok(CompareText(h, op, h.textOf(left), operand))
  }

  function EvalCompare(h: Host, spec: Json, ctx: Context): Verdict {
    if !spec.Obj? then Err(GuardFault) else
      var field := GetOrNull(spec.entries, "field");
      var op := GetOrNull(spec.entries, "op");
      var operand := GetOrNull(spec.entries, "value");
      if !NonEmptyString(field) then Err(GuardFault)
      else if !op.Str? then Err(GuardFault)
      else
        var valueType := FieldType(ctx, field.s);
        if op.s !in OpsForType(valueType) then Ok(false)
        else if field.s !in ctx.fieldValues then Ok(false)
        else
          var left := ctx.fieldValues[field.s];
          if Blank(left) then Ok(false) else CompareValues(h, op.s, left, operand, valueType)
  }

  // -- evaluation -----------------------------------------------------------------------------------

  /** `value in roles`: the one membership test that does not turn the value into text first. */
  function InSet(value: Json, names: set<string>): Verdict {
    if Unhashable(value) then Err(TypeFault) else Ok(value.Str? && value.s in names)
  }

  /** The leaves that read the acting person or the vote. */
  function EvalActorLeaf(h: Host, op: string, value: Json, ctx: Context): Verdict {
    match op
    case "roleIs" => InSet(value, ctx.roles)
    case "isInCommittee" => Ok(h.textOf(value) in ctx.actorCommittees)
    case "actorIsApplicant" => Ok(ctx.actorIsApplicant == Truthy(value))
    case "isInVoteGremium" =>
      Ok((ctx.voteGremiumId.Some? && ctx.voteGremiumId.value in ctx.actorCommittees) == Truthy(value))
    case _ => Err(GuardFault)
  }

  function EvalConditionLeaf(h: Host, op: string, value: Json, ctx: Context): Verdict {
    match op
    case "applicantRoleIs" => InSet(value, ctx.applicantRoles)
    case "applicantCommitteeIs" => Ok(h.textOf(value) in ctx.applicantCommittees)
    case "applicationTypeIs" => Ok(ctx.applicationTypeKey == Some(h.textOf(value)))
    case "budgetIs" => Ok(ctx.budgetId == Some(h.textOf(value)))
    case "budgetFitsApplication" => Ok(ctx.budgetFits == Truthy(value))
    case "attachmentPresent" => Ok(ctx.hasAttachment == Truthy(value))
    case "budgetHasDecisionGremium" => Ok(ctx.budgetHasDecisionGremium == Truthy(value))
    case "hasField" =>
      var name := h.textOf(value);
      Ok(name in ctx.fieldValues && !Blank(ctx.fieldValues[name]) && ctx.fieldValues[name] != Arr([]))
    case _ => Err(GuardFault)
  }

  function EvalLeaf(h: Host, op: string, value: Json, ctx: Context): Verdict {
    if op in ACTOR_OPERATORS then EvalActorLeaf(h, op, value, ctx)
    else if op == "compare" then EvalCompare(h, value, ctx)
    else EvalConditionLeaf(h, op, value, ctx)
  }

  predicate IsLeafOperator(op: string) {
    op in CONDITION_OPERATORS || op in ACTOR_OPERATORS
  }

  predicate AllObjects(guards: seq<Json>) {
    forall i :: 0 <= i < |guards| ==> guards[i].Obj?
  }

  /** A guard with no operator, which adds no gate. */
  predicate IsEmptyGuard(guard: Json) {
    guard == Null || guard == Obj([])
  }

  function EvalGuard(h: Host, guard: Json, ctx: Context): Verdict
    decreases Size(guard), 0
  {
    if IsEmptyGuard(guard) then Ok(true)
    else if !guard.Obj? || |guard.entries| != 1 then Err(GuardFault)
    else
      var op, value := guard.entries[0].key, guard.entries[0].value;
      if op in COMBINATORS then
        var children := Operands(value);
        if !AllObjects(children) then Err(GuardFault)
        else if op == "and" then EvalAll(h, children, ctx)
        else if op == "or" then EvalAny(h, children, ctx)
        else if |children| != 1 then Err(GuardFault)
        else
          var inner :- EvalGuard(h, children[0], ctx);
          Ok(!inner)
      else if IsLeafOperator(op) then EvalLeaf(h, op, value, ctx)
      else Err(GuardFault)
  }

  /** `all(...)` over a generator: it stops at the first guard that does not hold. */
  function EvalAll(h: Host, guards: seq<Json>, ctx: Context): Verdict
    decreases SizeOfAll(guards), 1
  {
    if guards == [] then Ok(true) else
      var first :- EvalGuard(h, guards[0], ctx);
      if !first then Ok(false) else EvalAll(h, guards[1..], ctx)
  }

  function EvalAny(h: Host, guards: seq<Json>, ctx: Context): Verdict
    decreases SizeOfAll(guards), 1
  {
    if guards == [] then Ok(false) else
      var first :- EvalGuard(h, guards[0], ctx);
      if first then Ok(true) else EvalAny(h, guards[1..], ctx)
  }

  // -- the save gate ----------------------------------------------------------------------------------

  type Check = Result<(), Fault>

  function ValidateCompare(spec: Json): Check {
    if !spec.Obj? then Err(GuardFault) else
      var op := GetOrNull(spec.entries, "op");
      if !NonEmptyString(GetOrNull(spec.entries, "field")) then Err(GuardFault)
      else if Unhashable(op) then Err(TypeFault)
      else if !op.Str? || op.s !in ORDERED_OPS + TEXT_OPS then Err(GuardFault)
      else if op.s == "in" && !GetOrNull(spec.entries, "value").Arr? then Err(GuardFault)
      else Ok(())
  }

  function ValidateLeaf(op: string, value: Json, allowActorOps: bool): Check {
    if !IsLeafOperator(op) then Err(GuardFault)
    else if op in ACTOR_OPERATORS && !allowActorOps then Err(GuardFault)
    else if op in STRING_VALUE_OPERATORS && !NonEmptyString(value) then Err(GuardFault)
    else if op in BOOL_VALUE_OPERATORS && !value.Bool? then Err(GuardFault)
    else if op == "compare" then ValidateCompare(value)
    else Ok(())
  }

  function ValidateGuard(guard: Json, allowActorOps: bool): Check
    decreases Size(guard), 0
  {
    if IsEmptyGuard(guard) then Ok(())
    else if !guard.Obj? || |guard.entries| != 1 then Err(GuardFault)
    else
      var op, value := guard.entries[0].key, guard.entries[0].value;
      if op in COMBINATORS then
        var children := Operands(value);
        if !AllObjects(children) then Err(GuardFault)
        else if op == "not" && |children| != 1 then Err(GuardFault)
        else if op != "not" && |children| == 0 then Err(GuardFault)
        else ValidateAll(children, allowActorOps)
      else ValidateLeaf(op, value, allowActorOps)
  }

  function ValidateAll(guards: seq<Json>, allowActorOps: bool): Check
    decreases SizeOfAll(guards), 1
  {
    if guards == [] then Ok(()) else
      var _ :- ValidateGuard(guards[0], allowActorOps);
      ValidateAll(guards[1..], allowActorOps)
  }

  // -- the applicant check --------------------------------------------------------------------------

  predicate RequiresApplicant(guard: Json)
    decreases Size(guard), 0
  {
    if !guard.Obj? || |guard.entries| != 1 then false else
      var op, value := guard.entries[0].key, guard.entries[0].value;
      if op == "actorIsApplicant" then true
      else if op in COMBINATORS then AnyRequiresApplicant(Operands(value))
      else false
  }

  predicate AnyRequiresApplicant(guards: seq<Json>)
    decreases SizeOfAll(guards), 1
  {
    guards != [] && (RequiresApplicant(guards[0]) || AnyRequiresApplicant(guards[1..]))
  }

  // -- what the gate guarantees ------------------------------------------------------------------------

  /** No numeric reading of a field value is a NaN. */
  ghost predicate FieldsFinite(h: Host, ctx: Context) {
    forall name :: name in ctx.fieldValues ==>
      match ToDecimal(h, ctx.fieldValues[name])
      case Some(d) => !IsNaN(d)
      case None => true
  }

  /** The literal of a comparison can stand beside every finite number under its operator. */
  predicate OperandSafe(h: Host, spec: Json) {
    spec.Obj? ==>
      var op := GetOrNull(spec.entries, "op");
      match ToDecimal(h, GetOrNull(spec.entries, "value"))
      case Some(d) => op.Str? && op.s in ORDERED_OPS ==> Comparable(op.s, Finite(0.0), d)
      case None => true
  }

  predicate OperandsSafe(h: Host, guard: Json)
    decreases Size(guard), 0
  {
    if !guard.Obj? || |guard.entries| != 1 then true else
      var op, value := guard.entries[0].key, guard.entries[0].value;
      if op in COMBINATORS then AllOperandsSafe(h, Operands(value))
      else op == "compare" ==> OperandSafe(h, value)
  }

  predicate AllOperandsSafe(h: Host, guards: seq<Json>)
    decreases SizeOfAll(guards), 1
  {
    guards == [] || (OperandsSafe(h, guards[0]) && AllOperandsSafe(h, guards[1..]))
  }

  lemma AcceptedLeafRaisesOnlyOnNaN(h: Host, op: string, value: Json, allowActorOps: bool, ctx: Context)
    requires ValidateLeaf(op, value, allowActorOps).Ok?
    ensures EvalLeaf(h, op, value, ctx).Ok? || EvalLeaf(h, op, value, ctx) == Err(DecimalFault)
    ensures FieldsFinite(h, ctx) && (op == "compare" ==> OperandSafe(h, value)) ==> EvalLeaf(h, op, value, ctx).Ok?
  {
  }

  /**
   An accepted guard never fails with the module's error or on an unhashable value; the one fault
   left is a decimal without an order, and only when a field value or a literal is a NaN.
   */
  lemma {:induction false} AcceptedGuardRaisesOnlyOnNaN(h: Host, guard: Json, allowActorOps: bool, ctx: Context)
    requires ValidateGuard(guard, allowActorOps).Ok?
    ensures EvalGuard(h, guard, ctx).Ok? || EvalGuard(h, guard, ctx) == Err(DecimalFault)
    ensures FieldsFinite(h, ctx) && OperandsSafe(h, guard) ==> EvalGuard(h, guard, ctx).Ok?
    decreases Size(guard), 0
  {
    if !IsEmptyGuard(guard) {
      var op, value := guard.entries[0].key, guard.entries[0].value;
      if op in COMBINATORS {
        AcceptedGuardsRaiseOnlyOnNaN(h, Operands(value), allowActorOps, ctx);
      } else {
        AcceptedLeafRaisesOnlyOnNaN(h, op, value, allowActorOps, ctx);
      }
    }
  }

  lemma {:induction false} AcceptedGuardsRaiseOnlyOnNaN(h: Host, guards: seq<Json>, allowActorOps: bool, ctx: Context)
    requires ValidateAll(guards, allowActorOps).Ok?
    ensures EvalAll(h, guards, ctx).Ok? || EvalAll(h, guards, ctx) == Err(DecimalFault)
    ensures EvalAny(h, guards, ctx).Ok? || EvalAny(h, guards, ctx) == Err(DecimalFault)
    ensures |guards| == 1 ==> EvalGuard(h, guards[0], ctx).Ok? || EvalGuard(h, guards[0], ctx) == Err(DecimalFault)
    ensures FieldsFinite(h, ctx) && AllOperandsSafe(h, guards) ==>
              && EvalAll(h, guards, ctx).Ok? && EvalAny(h, guards, ctx).Ok?
              && (|guards| == 1 ==> EvalGuard(h, guards[0], ctx).Ok?)
    decreases SizeOfAll(guards), 1
  {
    if guards != [] {
      AcceptedGuardRaisesOnlyOnNaN(h, guards[0], allowActorOps, ctx);
      AcceptedGuardsRaiseOnlyOnNaN(h, guards[1..], allowActorOps, ctx);
    }
  }

  /** An unsafe literal fails beside the number zero. */
  lemma UnsafeComparisonFails(h: Host, spec: Json)
    requires ValidateCompare(spec).Ok? && !OperandSafe(h, spec)
    ensures EvalCompare(h, spec, NumberContext(GetOrNull(spec.entries, "field").s)) == Err(DecimalFault)
  {
    var field := GetOrNull(spec.entries, "field").s;
    assert FieldType(NumberContext(field), field) == "number";
    assert ToDecimal(h, Number(0.0)) == Some(Finite(0.0));
  }

  /** A safe literal never fails beside a number. */
  lemma SafeComparisonHolds(h: Host, spec: Json, ctx: Context)
    requires ValidateCompare(spec).Ok? && OperandSafe(h, spec) && FieldsFinite(h, ctx)
    ensures EvalCompare(h, spec, ctx).Ok?
  {
  }

  /**
   The condition on the literal is exact: an accepted comparison evaluates over every context with
   finite field values if and only if its literal is safe.
   */
  lemma CompareIsTotalExactlyOnSafeOperands(h: Host, spec: Json)
    requires ValidateCompare(spec).Ok?
    ensures (forall ctx :: FieldsFinite(h, ctx) ==> EvalCompare(h, spec, ctx).Ok?) <==> OperandSafe(h, spec)
  {
    if OperandSafe(h, spec) {
      forall ctx | FieldsFinite(h, ctx) ensures EvalCompare(h, spec, ctx).Ok? {
        SafeComparisonHolds(h, spec, ctx);
      }
    } else {
      UnsafeComparisonFails(h, spec);
      NumberContextIsFinite(h, GetOrNull(spec.entries, "field").s);
    }
  }

  /** The first leaf that an evaluation reaches is a comparison with an unsafe literal. */
  predicate StartsUnsafe(h: Host, guard: Json)
    decreases Size(guard)
  {
    guard.Obj? && |guard.entries| == 1 &&
    var op, value := guard.entries[0].key, guard.entries[0].value;
    if op in COMBINATORS then Operands(value) != [] && StartsUnsafe(h, Operands(value)[0])
    else op == "compare" && !OperandSafe(h, value)
  }

  /** Whatever stands behind it, such a guard fails on some ordinary field values. */
  lemma {:induction false} UnsafeStartRaises(h: Host, guard: Json, allowActorOps: bool) returns (ctx: Context)
    requires ValidateGuard(guard, allowActorOps).Ok? && StartsUnsafe(h, guard)
    ensures FieldsFinite(h, ctx) && EvalGuard(h, guard, ctx) == Err(DecimalFault)
    decreases Size(guard)
  {
    var op, value := guard.entries[0].key, guard.entries[0].value;
    if op in COMBINATORS {
      ctx := UnsafeStartRaises(h, Operands(value)[0], allowActorOps);
    } else {
      assert guard == Obj([Entry("compare", value)]);
      CompareGuardIsItsComparison(h, value, NumberContext(""), allowActorOps);
      CompareIsTotalExactlyOnSafeOperands(h, value);
      ctx :| FieldsFinite(h, ctx) && EvalCompare(h, value, ctx).Err?;
      CompareGuardIsItsComparison(h, value, ctx, allowActorOps);
      AcceptedGuardRaisesOnlyOnNaN(h, guard, allowActorOps, ctx);
    }
  }

  /** A context in which one numeric field holds zero. */
  function NumberContext(field: string): Context {
    Context(false, {}, {}, {}, {}, None, false, None, false,
            map[field := Number(0.0)], map[field := "number"], None, false)
  }

  function NaNComparison(): Json {
    Obj([Entry("field", Str("amount")), Entry("op", Str("<")), Entry("value", Str("NaN"))])
  }

  lemma NaNComparisonReads()
    ensures GetOrNull(NaNComparison().entries, "field") == Str("amount")
    ensures GetOrNull(NaNComparison().entries, "op") == Str("<")
    ensures GetOrNull(NaNComparison().entries, "value") == Str("NaN")
  {
    var entries := NaNComparison().entries;
    assert entries[1..][0] == entries[1] && entries[1..][1..][0] == entries[2];
    assert Get(entries[1..], "op") == Some(Str("<"));
    assert Get(entries[1..][1..], "value") == Some(Str("NaN"));
  }

  lemma NaNComparisonIsUnsafe(h: Host)
    requires h.decimalOf("NaN") == Some(QuietNaN)
    ensures ValidateCompare(NaNComparison()).Ok? && !OperandSafe(h, NaNComparison())
  {
    NaNComparisonReads();
  }

  lemma NumberContextIsFinite(h: Host, field: string)
    ensures FieldsFinite(h, NumberContext(field))
  {
    assert ToDecimal(h, Number(0.0)) == Some(Finite(0.0));
  }

  lemma NaNComparisonFails(h: Host)
    requires h.decimalOf("NaN") == Some(QuietNaN)
    ensures EvalCompare(h, NaNComparison(), NumberContext("amount")) == Err(DecimalFault)
  {
    NaNComparisonReads();
    NaNComparisonIsUnsafe(h);
    UnsafeComparisonFails(h, NaNComparison());
  }

  lemma CompareGuardIsItsComparison(h: Host, spec: Json, ctx: Context, allowActorOps: bool)
    ensures var guard := Obj([Entry("compare", spec)]);
            && EvalGuard(h, guard, ctx) == EvalCompare(h, spec, ctx)
            && ValidateGuard(guard, allowActorOps) == ValidateCompare(spec)
  {
    var op := "compare";
    assert op !in COMBINATORS && op in CONDITION_OPERATORS && op !in ACTOR_OPERATORS;
    assert op !in STRING_VALUE_OPERATORS && op !in BOOL_VALUE_OPERATORS;
  }

  /** The gate lets a literal "NaN" pass, and evaluating it on an ordinary amount then fails. */
  lemma AcceptedGuardCanRaise(h: Host, ctx: Context)
    requires h.decimalOf("NaN") == Some(QuietNaN)
    requires ctx == NumberContext("amount")
    ensures ValidateGuard(Obj([Entry("compare", NaNComparison())]), false).Ok?
    ensures FieldsFinite(h, ctx)
    ensures EvalGuard(h, Obj([Entry("compare", NaNComparison())]), ctx) == Err(DecimalFault)
  {
    NaNComparisonIsUnsafe(h);
    CompareGuardIsItsComparison(h, NaNComparison(), ctx, false);
    NumberContextIsFinite(h, "amount");
    NaNComparisonFails(h);
  }

  /** The context with everything replaced that belongs to the acting person and the vote. */
  function WithActor(ctx: Context, applicant: bool, roles: set<string>, committees: set<string>,
                     voteGremium: Option<string>): Context {
    ctx.(actorIsApplicant := applicant, roles := roles, actorCommittees := committees, voteGremiumId := voteGremium)
  }

  lemma CompareIgnoresActor(h: Host, spec: Json, ctx: Context, other: Context)
    requires other.fieldValues == ctx.fieldValues && other.fieldTypes == ctx.fieldTypes
    ensures EvalCompare(h, spec, ctx) == EvalCompare(h, spec, other)
  {
  }

  lemma ConditionLeafIgnoresActor(h: Host, op: string, value: Json, ctx: Context, other: Context)
    requires other == WithActor(ctx, other.actorIsApplicant, other.roles, other.actorCommittees, other.voteGremiumId)
    ensures EvalConditionLeaf(h, op, value, ctx) == EvalConditionLeaf(h, op, value, other)
  {
  }

  lemma OtherLeafIgnoresActor(h: Host, op: string, value: Json, ctx: Context, other: Context)
    requires op !in ACTOR_OPERATORS
    requires other == WithActor(ctx, other.actorIsApplicant, other.roles, other.actorCommittees, other.voteGremiumId)
    ensures EvalLeaf(h, op, value, ctx) == EvalLeaf(h, op, value, other)
  {
    CompareIgnoresActor(h, value, ctx, other);
    ConditionLeafIgnoresActor(h, op, value, ctx, other);
  }

  /** A guard of an automatic transition gives the same value whoever acts. */
  lemma {:induction false} ConditionGuardIgnoresActor(
    h: Host, guard: Json, ctx: Context, applicant: bool, roles: set<string>, committees: set<string>,
    voteGremium: Option<string>)
    requires ValidateGuard(guard, false).Ok?
    ensures EvalGuard(h, guard, ctx) == EvalGuard(h, guard, WithActor(ctx, applicant, roles, committees, voteGremium))
    decreases Size(guard), 0
  {
    if !IsEmptyGuard(guard) {
      var op, value := guard.entries[0].key, guard.entries[0].value;
      if op in COMBINATORS {
        ConditionGuardsIgnoreActor(h, Operands(value), ctx, applicant, roles, committees, voteGremium);
      } else {
        OtherLeafIgnoresActor(h, op, value, ctx, WithActor(ctx, applicant, roles, committees, voteGremium));
      }
    }
  }

  lemma {:induction false} ConditionGuardsIgnoreActor(
    h: Host, guards: seq<Json>, ctx: Context, applicant: bool, roles: set<string>, committees: set<string>,
    voteGremium: Option<string>)
    requires ValidateAll(guards, false).Ok?
    ensures var other := WithActor(ctx, applicant, roles, committees, voteGremium);
            && EvalAll(h, guards, ctx) == EvalAll(h, guards, other)
            && EvalAny(h, guards, ctx) == EvalAny(h, guards, other)
            && (guards != [] ==> EvalGuard(h, guards[0], ctx) == EvalGuard(h, guards[0], other))
    decreases SizeOfAll(guards), 1
  {
    if guards != [] {
      ConditionGuardIgnoresActor(h, guards[0], ctx, applicant, roles, committees, voteGremium);
      ConditionGuardsIgnoreActor(h, guards[1..], ctx, applicant, roles, committees, voteGremium);
    }
  }

  lemma OtherActorLeafIgnoresApplicant(h: Host, op: string, value: Json, ctx: Context, applicant: bool)
    requires op != "actorIsApplicant"
    ensures EvalActorLeaf(h, op, value, ctx) == EvalActorLeaf(h, op, value, ctx.(actorIsApplicant := applicant))
  {
  }

  /** A guard without an applicant gate, well formed or not, cannot tell the applicant from others. */
  lemma {:induction false} GuardWithoutApplicantGateIgnoresApplicant(h: Host, guard: Json, ctx: Context, applicant: bool)
    requires !RequiresApplicant(guard)
    ensures EvalGuard(h, guard, ctx) == EvalGuard(h, guard, ctx.(actorIsApplicant := applicant))
    decreases Size(guard), 0
  {
    if !IsEmptyGuard(guard) && guard.Obj? && |guard.entries| == 1 {
      var op, value := guard.entries[0].key, guard.entries[0].value;
      if op in COMBINATORS {
        GuardsWithoutApplicantGateIgnoreApplicant(h, Operands(value), ctx, applicant);
      } else {
        OtherActorLeafIgnoresApplicant(h, op, value, ctx, applicant);
        if op !in ACTOR_OPERATORS {
          OtherLeafIgnoresActor(h, op, value, ctx, ctx.(actorIsApplicant := applicant));
        }
      }
    }
  }

  lemma {:induction false} GuardsWithoutApplicantGateIgnoreApplicant(
    h: Host, guards: seq<Json>, ctx: Context, applicant: bool)
    requires !AnyRequiresApplicant(guards)
    ensures var other := ctx.(actorIsApplicant := applicant);
            && EvalAll(h, guards, ctx) == EvalAll(h, guards, other)
            && EvalAny(h, guards, ctx) == EvalAny(h, guards, other)
            && (guards != [] ==> EvalGuard(h, guards[0], ctx) == EvalGuard(h, guards[0], other))
    decreases SizeOfAll(guards), 1
  {
    if guards != [] {
      GuardWithoutApplicantGateIgnoresApplicant(h, guards[0], ctx, applicant);
      GuardsWithoutApplicantGateIgnoreApplicant(h, guards[1..], ctx, applicant);
    }
  }

  predicate MentionsActor(guard: Json)
    decreases Size(guard), 0
  {
    guard.Obj? && |guard.entries| == 1 &&
    var op, value := guard.entries[0].key, guard.entries[0].value;
    if op in COMBINATORS then AnyMentionsActor(Operands(value)) else op in ACTOR_OPERATORS
  }

  predicate AnyMentionsActor(guards: seq<Json>)
    decreases SizeOfAll(guards), 1
  {
    guards != [] && (MentionsActor(guards[0]) || AnyMentionsActor(guards[1..]))
  }

  /** The gate of an automatic transition is the manual gate minus the actor gates, anywhere in the tree. */
  lemma {:induction false} AutomaticGateIsManualGateWithoutActors(guard: Json)
    ensures ValidateGuard(guard, false).Ok? <==> ValidateGuard(guard, true).Ok? && !MentionsActor(guard)
    decreases Size(guard), 0
  {
    if !IsEmptyGuard(guard) && guard.Obj? && |guard.entries| == 1 && guard.entries[0].key in COMBINATORS {
      AutomaticGatesAreManualGatesWithoutActors(Operands(guard.entries[0].value));
    }
  }

  lemma {:induction false} AutomaticGatesAreManualGatesWithoutActors(guards: seq<Json>)
    ensures ValidateAll(guards, false).Ok? <==> ValidateAll(guards, true).Ok? && !AnyMentionsActor(guards)
    decreases SizeOfAll(guards), 1
  {
    if guards != [] {
      AutomaticGateIsManualGateWithoutActors(guards[0]);
      AutomaticGatesAreManualGatesWithoutActors(guards[1..]);
    }
  }
}

/** The save gate of the transition actions, `validate_action`. */
module Actions {
  import opened Json
  import opened Wrappers

  datatype ActionError =
    | NotAnObject | MissingType | UnknownType | UnhashableType
    | BadRecipients | BadMap | BadOptionalField | MissingField

  type ActionCheck = Result<(), ActionError>

  const ACTION_TYPES: set<string> := {
    "webhook", "notify", "addToNextSession", "assignBudget", "assignBudgetFromField",
    "assignBudgetFromApplicantGremium", "assignBudgetFromMap"}
  const ASSIGN_BUDGET_TYPES: set<string> := {
    "assignBudget", "assignBudgetFromField", "assignBudgetFromApplicantGremium", "assignBudgetFromMap"}
  const RECIPIENT_KINDS: set<string> := {"gremium", "role", "applicant", "email", "voteGremium", "budgetGremium"}
  const KINDS_WITH_REF: set<string> := {"gremium", "role", "email"}

  function ActionType(action: Json): Json {
    if action.Obj? then GetOrNull(action.entries, "type") else Null
  }

  predicate HasType(action: Json, name: string) {
    ActionType(action) == Str(name)
  }

  predicate RecipientOk(r: Json) {
    r.Obj? &&
    var kind, ref := GetOrNull(r.entries, "kind"), GetOrNull(r.entries, "ref");
    && kind.Str? && kind.s in RECIPIENT_KINDS
    && if kind.s in KINDS_WITH_REF then Truthy(ref) else ref == Null
  }

  function ValidateRecipients(recipients: Json): ActionCheck {
    if recipients.Arr? && recipients.items != [] && (forall i :: 0 <= i < |recipients.items| ==> RecipientOk(recipients.items[i]))
    then Ok(()) else Err(BadRecipients)
  }

  function ValidateBudgetMap(entries: seq<Entry>): ActionCheck {
    var mapping := GetOrNull(entries, "map");
    if !NonEmptyString(GetOrNull(entries, "field")) then Err(MissingField)
    else if !mapping.Obj? || mapping.entries == [] then Err(BadMap)
    else if exists i :: 0 <= i < |mapping.entries| && (mapping.entries[i].key == "" || !NonEmptyString(mapping.entries[i].value))
    then Err(BadMap)
    else Ok(())
  }

  function OptionalString(entries: seq<Entry>, field: string): ActionCheck {
    match Get(entries, field)
    case Some(v) => if NonEmptyString(v) then Ok(()) else Err(BadOptionalField)
    case None => Ok(())
  }

  function RequiredString(entries: seq<Entry>, field: string): ActionCheck {
    if NonEmptyString(GetOrNull(entries, field)) then Ok(()) else Err(MissingField)
  }

  function ValidateFields(entries: seq<Entry>, name: string): ActionCheck {
    match name
    case "notify" => ValidateRecipients(GetOrNull(entries, "recipients"))
    case "assignBudgetFromMap" => ValidateBudgetMap(entries)
    case "addToNextSession" => OptionalString(entries, "gremiumId")
    case "assignBudgetFromApplicantGremium" => OptionalString(entries, "parentId")
    case "webhook" => RequiredString(entries, "webhookId")
    case "assignBudget" => RequiredString(entries, "budgetId")
    case _ => RequiredString(entries, "field")
  }

  function ValidateAction(action: Json): ActionCheck {
    if !action.Obj? then Err(NotAnObject) else
      var kind := ActionType(action);
      if kind == Null then Err(MissingType)
      else if Unhashable(kind) then Err(UnhashableType)
      else if !kind.Str? || kind.s !in ACTION_TYPES then Err(UnknownType)
      else ValidateFields(action.entries, kind.s)
  }

  /** A notification that goes to the Gremium of the current vote. */
  predicate NotifiesVoteGremium(action: Json) {
    action.Obj? && HasType(action, "notify") &&
    var recipients := GetOrNull(action.entries, "recipients");
    recipients.Arr? && exists i ::
      && 0 <= i < |recipients.items| && recipients.items[i].Obj?
      && GetOrNull(recipients.items[i].entries, "kind") == Str("voteGremium")
  }

  // -- the actions that are allowed ----------------------------------------------------------------------

  /** The field is there and holds a text that is not empty. */
  ghost predicate HoldsText(entries: seq<Entry>, field: string) {
    exists text :: Get(entries, field) == Some(Str(text)) && text != ""
  }

  /** The field is missing, or it holds such a text. */
  ghost predicate MayHoldText(entries: seq<Entry>, field: string) {
    Get(entries, field).Some? ==> HoldsText(entries, field)
  }

  /** A recipient names a kind; some kinds need a reference and the others must have none. */
  ghost predicate FitsAsRecipient(r: Json) {
    r.Obj? && exists kind ::
      && Get(r.entries, "kind") == Some(Str(kind))
      && var ref := Get(r.entries, "ref");
         if kind in {"gremium", "role", "email"}
         then ref.Some? && ref.value !in [Null, Bool(false), Number(0.0), Str(""), Arr([]), Obj([])]
         else kind in {"applicant", "voteGremium", "budgetGremium"} && (ref == None || ref == Some(Null))
  }

  ghost predicate HoldsRecipients(entries: seq<Entry>) {
    exists items :: Get(entries, "recipients") == Some(Arr(items)) && items != [] && forall r :: r in items ==> FitsAsRecipient(r)
  }

  /** A map of field values to budget ids, with at least one pair and nothing empty in it. */
  ghost predicate HoldsBudgetMap(entries: seq<Entry>) {
    exists pairs :: Get(entries, "map") == Some(Obj(pairs)) && pairs != [] && forall p :: p in pairs ==>
      p.key != "" && exists id :: p.value == Str(id) && id != ""
  }

  /** What each type of action demands of the other fields. */
  ghost predicate FieldsFit(entries: seq<Entry>, name: string) {
    || (name == "webhook" && HoldsText(entries, "webhookId"))
    || (name == "assignBudget" && HoldsText(entries, "budgetId"))
    || (name == "assignBudgetFromField" && HoldsText(entries, "field"))
    || (name == "assignBudgetFromMap" && HoldsText(entries, "field") && HoldsBudgetMap(entries))
    || (name == "assignBudgetFromApplicantGremium" && MayHoldText(entries, "parentId"))
    || (name == "addToNextSession" && MayHoldText(entries, "gremiumId"))
    || (name == "notify" && HoldsRecipients(entries))
  }

  ghost predicate IsOfType(action: Json, name: string) {
    action.Obj? && Get(action.entries, "type") == Some(Str(name))
  }

  ghost predicate IsAllowed(action: Json) {
    exists name :: IsOfType(action, name) && FieldsFit(action.entries, name)
  }

  lemma TextDecided(entries: seq<Entry>, field: string)
    ensures NonEmptyString(GetOrNull(entries, field)) <==> HoldsText(entries, field)
    ensures RequiredString(entries, field).Ok? <==> HoldsText(entries, field)
    ensures OptionalString(entries, field).Ok? <==> MayHoldText(entries, field)
  {
    var v := Get(entries, field);
    if v.Some? && v.value.Str? && v.value.s != "" {
      assert Get(entries, field) == Some(Str(v.value.s));
    }
  }

  lemma RecipientDecided(r: Json)
    ensures RecipientOk(r) <==> FitsAsRecipient(r)
  {
    if r.Obj? {
      var kind, ref := Get(r.entries, "kind"), Get(r.entries, "ref");
      if kind.Some? && kind.value.Str? {
        assert Get(r.entries, "kind") == Some(Str(kind.value.s));
      }
    }
  }

  lemma RecipientsDecided(entries: seq<Entry>)
    ensures ValidateRecipients(GetOrNull(entries, "recipients")).Ok? <==> HoldsRecipients(entries)
  {
    var v := GetOrNull(entries, "recipients");
    if v.Arr? {
      forall i | 0 <= i < |v.items| ensures RecipientOk(v.items[i]) <==> FitsAsRecipient(v.items[i]) {
        RecipientDecided(v.items[i]);
      }
      assert Get(entries, "recipients") == Some(Arr(v.items));
    }
  }

  lemma BudgetMapDecided(entries: seq<Entry>)
    ensures ValidateBudgetMap(entries).Ok? <==> HoldsText(entries, "field") && HoldsBudgetMap(entries)
  {
    TextDecided(entries, "field");
    var v := GetOrNull(entries, "map");
    if v.Obj? {
      assert Get(entries, "map") == Some(Obj(v.entries));
      if ValidateBudgetMap(entries).Ok? {
        forall p | p in v.entries ensures p.key != "" && exists id :: p.value == Str(id) && id != "" {
          var i :| 0 <= i < |v.entries| && v.entries[i] == p;
          assert p.value == Str(p.value.s);
        }
      }
    }
  }

  lemma FieldsDecided(entries: seq<Entry>, name: string)
    ensures name in ACTION_TYPES && ValidateFields(entries, name).Ok? <==> FieldsFit(entries, name)
  {
    match name
    case "webhook" => TextDecided(entries, "webhookId");
    case "assignBudget" => TextDecided(entries, "budgetId");
    case "assignBudgetFromField" => TextDecided(entries, "field");
    case "assignBudgetFromMap" => BudgetMapDecided(entries);
    case "assignBudgetFromApplicantGremium" => TextDecided(entries, "parentId");
    case "addToNextSession" => TextDecided(entries, "gremiumId");
    case "notify" => RecipientsDecided(entries);
    case _ =>
  }

  /** The gate lets an action pass exactly when its type is known and its fields fit the type. */
  lemma ActionDecided(action: Json)
    ensures ValidateAction(action).Ok? <==> IsAllowed(action)
  {
    if action.Obj? && ActionType(action).Str? {
      var name := ActionType(action).s;
      assert IsOfType(action, name);
      FieldsDecided(action.entries, name);
    }
  }
}

# Model of the application platform's rule engine

The platform runs funding applications through configurable workflows. This project models the code
that decides what a workflow may be and how it is edited, evaluated and driven, together with the
protocol converter and the background protocols beside it, and proves what that code promises.

* **Flow graphs.** `FlowModel` holds states, transitions, layout and groups. `FlowSearch` is the
  breadth-first search by layers and the depth-first cycle search; `FlowValidator` is the validator
  that uses them, and `FlowRules` the independent definition of a well-formed flow that it decides.
  `FlowRuns` runs the automatic transitions of an accepted flow. `Walks` is the theory of walks and
  cycles that all searches are measured against.
* **Graph edits.** `GraphOps` are the edits of the graph editor, `GroupNesting` its cycle check,
  `GraphInvariants` what every sequence of edits keeps, `GroupEffects` what an edit changes and what it
  leaves alone, `EditEffects` what the other edits change, field by field, `UpsertCycles` when an upsert is
  refused, `EditUndo` which edits take each other back, `RenameIso` the rename as an isomorphism, `FieldOps`
  the edits of a form's field list.
* **Evaluators.** `Guards` and `JsonLogic` each pair the gate that runs on save with the evaluator that
  runs later. `GuardMeaning` is the grammar of guards and what each of them means, and `JsonLogicLaws` the
  laws that the values of the rule language obey. `Json` is the data they read, with Python's truth value.
  `Actions` is the part of the validator that checks transition actions; `RedosCheck` the pattern gate.
* **Protocol converter.** `FormulaSpans` cuts inline text into prose and formulas, `TopLabels` reads a
  line of winners, `Fences` strips application fences, `Converter` converts the tree under its depth
  bound, `Handover` places the lines for a change of the minute taker.
* **Background protocols.** `DraftStore` (steps of uploads, binds and the purge, in any interleaving) and
  `DraftPurge` (one uncontended run); `VoteClosing` (any number of workers) and `VoteTicks` (one worker);
  `Reminders`; `ReplayGuard` and `Altcha`. `OrderedSelect` is `ORDER BY … LIMIT …`.
* **Text.** `SqlRender`, `Filenames` over `PercentCoding`, `Money` over `Decimals`, and `BaseClasses`, the
  class search of the style check. `VoteConfigs` projects elections and polls to votes.

Code that the source writes as expressions is a function here. The source's classes that change their
fields, its batch loops and its search loop are classes and methods, each proved against a function or a
relation of the old and the new state.

Library behaviour that is not in the repository is a parameter: the Unicode tables, `str`, `Decimal` and
date parsing, JSON equality, hashes and signatures, the clock, the rows another session holds, the
objects the storage refuses to delete, and the formula spans a regular expression finds.

Where code and documentation differ, the model follows the code:

* `backend/app/shared/guards.py` promises that a wrong guard is refused on save. A comparison with the
  literal text `NaN` is accepted and fails later on an ordinary amount (`Guards.AcceptedGuardCanRaise`).
  `Guards.CompareIsTotalExactlyOnSafeOperands` says exactly which literals have this effect.
* `update_state` changes the key also when the patch holds the empty key, but cascades only for another
  key that is not empty. A later rename can then put one state in two groups
  (`GraphInvariants.EmptyKeyBreaksForest`); `GraphInvariants.EmptyKeyIsSafeExactlyWhenUnnamed` says
  exactly when such an update keeps the graph sound. This is a property of the operations in `graphops`
  alone: a server that stores the graph between two edits refuses the empty key by its key pattern.
* `update_transition` does not look at the new ends; `GraphInvariants.PatchIsSafeExactlyWhenItResolves`
  says when the graph stays connected.
* `upsert_group` drops groups that its own content empties, also one that it names as a sub-group, and a
  second save is then refused. `EditUndo.UpsertAgain` says exactly when.
* `sql_literal` calls its result a safe literal. It is one wherever no quote touches it, which excludes two
  placeholders side by side: their literals run together (`SqlRender.AdjacentPlaceholdersMerge`).
  `SqlRender.TemplateReadsBackExactlyWhenWellPlaced` says for which templates the literals stay whole.
* `_redos_prone` documents that it finds every unbounded repeat whose body holds another one. It does not
  enter lookarounds, atomic groups, conditionals and possessive repeats, so it misses a
  nesting there (`RedosCheck.NestingInLookaheadIsMissed`); `RedosCheck.ProneIsExact` says when its verdict is right.
* `verify_solution` checks the expiry in the salt of the payload, and the signature covers salt and number
  only as one text. `Altcha.SignedPayloadsVerifyExactly` says which payloads a challenge accepts,
  `Altcha.ExpiryBindsExactly` when none is accepted after the expiry, and `Altcha.ExpiryDoesNotBind` that
  for the salts as they are built this fails. `Altcha.AcceptancesAreSpaced` holds in any case.
* `jsonlogic.py` says that an error shows at save time. The gate does not look at operand counts and paths
  (`JsonLogic.AcceptedCanAlwaysFail`); `JsonLogic.AcceptedFailsOnValuesOnlyWhenOperandsFit` says which
  accepted expressions can still give a value.
* `_handover_lines` takes every text for which `isdigit` holds as a number; a superscript digit then
  raises (`Handover.EachLaterKeeperGetsItsLine`).

## Model

| member | source | states |
|---|---|---|
| FlowSearch.ReachableIsReachability | backend/app/shared/config_schemas.py:498-512 | folding exactly one layer per state gives the states that a walk from the initial one reaches, no more and no fewer |
| FlowSearch.ReachableIsLeastClosed | backend/app/shared/config_schemas.py:492-512 | the result is the least set that holds the initial state and is closed under transitions |
| FlowSearch.LayersExhaust | backend/app/shared/config_schemas.py:498-512 | the frontier is empty after one step per state: each step with a frontier sees a new state |
| FlowSearch.SearchFromInvariant | backend/app/shared/config_schemas.py:541-569 | for every trail and node list: what is done is finished for good, a reported tuple is a genuine simple cycle, and without one all given nodes are finished |
| FlowSearch.FirstCycleIsExact | backend/app/shared/config_schemas.py:541-569 | the search gives no cycle iff the graph is acyclic, whatever order the nodes come in, and a reported tuple is a closed walk that passes no state twice |
| Walks.AcyclicMeansBoundedWalks | backend/app/shared/config_schemas.py:515-538 | a graph is acyclic iff no walk is longer than the number of its nodes; the reason the validator forbids automatic cycles |
| Actions.ActionDecided | backend/app/shared/guards.py:485-565 | the gate lets an action pass iff its type is known and its fields fit the type: which text is required, which may be absent, when recipients and when a budget map fit |
| GuardMeaning.GuardDecided | backend/app/shared/guards.py:429-482 | the gate accepts exactly the guards of a grammar: no guard, a leaf with a fitting value, or a combinator over guards, with actor leaves for manual transitions only |
| FlowRules.TransitionsDecided | backend/app/shared/config_schemas.py:355-400 | the transition loop passes iff every transition has two known ends, a guard of the grammar, and allowed actions that suit the kind of state it leads into |
| FlowRules.VoteBranchesDecided | backend/app/shared/config_schemas.py:410-444 | the sorted branch list of a vote state is as demanded iff it has exactly one pass exit and exactly one fail exit |
| FlowRules.KindDecided | backend/app/shared/config_schemas.py:410-480 | the check of one state passes iff its kind, config and exits obey the rules of that kind |
| FlowRules.InitialDecided | backend/app/shared/config_schemas.py:334-347 | the first checks pass iff the keys are distinct and exactly one state is initial, and then name that state |
| FlowRules.ReachableDecided | backend/app/shared/config_schemas.py:483-489 | the reachability check passes iff every state has a walk from the initial one |
| FlowRules.CyclesDecided | backend/app/shared/config_schemas.py:515-538 | the cycle check passes iff the automatic transitions form no cycle, in whatever order the keys are listed |
| FlowRules.HeadErrors | backend/app/shared/config_schemas.py:334-347 | which of the first errors is reported: no states, a key used twice, no initial state, or several |
| FlowRules.TransitionErrors | backend/app/shared/config_schemas.py:355-364 | which error a transition is refused with: its source, its target, a loop, or its guard |
| FlowRules.ActionErrors | backend/app/shared/config_schemas.py:366-400 | which error an action is refused with, and the rule of the target state that each names |
| FlowRules.ValidatorIsExact | backend/app/shared/config_schemas.py:310-407 | the validator accepts a flow iff the flow is well formed by an independent definition over walks and quantified rules |
| FlowRuns.FirstFiringIsFirst | backend/app/modules/flow/service.py:419-466 | the engine takes the first automatic exit whose guard is true and whose target may be entered, and none behind a guard that raises |
| FlowRuns.HopsAreJustified | backend/app/modules/flow/service.py:419-466 | every hop leaves a state that is no vote, by an automatic exit whose guard holds, into a state that may be entered |
| FlowRuns.TrailIsAutomaticWalk | backend/app/modules/flow/service.py:419-466 | what the engine does without people is a walk of automatic transitions |
| FlowRuns.AutomaticAdvancingStops | backend/app/shared/config_schemas.py:515-538 | in an accepted flow every stretch of automatic hops, under whatever the guards read, has fewer hops than there are states and meets no state twice |
| GuardMeaning.EvalMeansHolds | backend/app/shared/guards.py:357-387 | whatever the evaluator answers is what the guard means: "and" for all, "or" for some, "not" for none, and each leaf by what it says of the context |
| GuardMeaning.SavedGuardIsDecided | backend/app/shared/guards.py:364-387 | on finite field values and safe literals the evaluator gives the meaning of every guard of the grammar |
| GuardMeaning.ComparisonValue | backend/app/shared/guards.py:249-301 | a comparison holds iff the field has a value that stands to the operand as the operator says, as numbers, days, yes or no, or texts |
| GuardMeaning.DecimalOrderLaws | backend/app/shared/guards.py:306-321 | of two decimals exactly one of less, equal and greater holds, greater is less with the sides changed, and the other operators are the negations |
| GuardMeaning.DayOrderLaws | backend/app/shared/guards.py:306-321 | the same for dates |
| GuardMeaning.TextLaws | backend/app/shared/guards.py:293-301 | to be in a list is to equal some element, and unequal is not equal |
| GuardMeaning.RoleGateRaisesExactly | backend/app/shared/guards.py:340-362 | a role gate fails on a value that Python cannot look up, and on no other |
| GuardMeaning.RequiresApplicantExactly | backend/app/shared/guards.py:410-426 | a guard requires the applicant iff the applicant gate stands alone or anywhere below combinators |
| Guards.AcceptedGuardRaisesOnlyOnNaN | backend/app/shared/guards.py:364-482 | an accepted guard never fails with the guard error or on an unhashable value; on finite field values and safe literals it always gives a value |
| Guards.CompareIsTotalExactlyOnSafeOperands | backend/app/shared/guards.py:249-285 | an accepted comparison gives a value on all finite field values iff its literal is no NaN under an ordering operator |
| Guards.UnsafeStartRaises | backend/app/shared/guards.py:364-387 | an accepted guard whose first evaluated leaf has an unsafe literal fails on some finite field values, whatever stands behind it |
| Guards.AcceptedGuardCanRaise | backend/app/shared/guards.py:467-482 | the concrete accepted guard that fails on an ordinary amount |
| Guards.ConditionGuardIgnoresActor | backend/app/shared/guards.py:429-464 | a guard accepted for an automatic transition reads nothing of roles, committees, applicant flag or vote Gremium |
| Guards.GuardWithoutApplicantGateIgnoresApplicant | backend/app/shared/guards.py:410-426 | a guard that does not require the applicant gives the same value for the applicant and for others, accepted or not |
| Guards.AutomaticGateIsManualGateWithoutActors | backend/app/shared/guards.py:429-464 | the automatic gate accepts iff the manual gate does and no actor operator stands anywhere in the tree |
| JsonLogicLaws.SubtractionUndoesAddition | backend/app/shared/jsonlogic.py:113-152 | for arbitrary operand expressions with number values, taking away what was added gives the first number back |
| JsonLogicLaws.AdditionUndoesSubtraction | backend/app/shared/jsonlogic.py:113-152 | adding what was taken away gives it back too |
| JsonLogicLaws.DivisionUndoesMultiplication | backend/app/shared/jsonlogic.py:121-152 | dividing a product by its second factor gives the first back |
| JsonLogicLaws.NegationLaw | backend/app/shared/jsonlogic.py:113-118 | a number and its negation add up to zero |
| JsonLogicLaws.OneOperand | backend/app/shared/jsonlogic.py:143-152 | a sum or a product of one operand is that operand |
| JsonLogicLaws.OneMoreSummand | backend/app/shared/jsonlogic.py:143-146 | one more operand adds its number |
| JsonLogicLaws.OneMoreFactor | backend/app/shared/jsonlogic.py:149-152 | one more operand multiplies by its number |
| JsonLogicLaws.OrderLaws | backend/app/shared/jsonlogic.py:102-110 | the comparisons of two expressions are those of their numbers and always give true or false |
| JsonLogicLaws.EqualityLaws | backend/app/shared/jsonlogic.py:159-176 | equal is equality of the values, of every kind, and unequal its negation |
| JsonLogicLaws.ContainsLaws | backend/app/shared/jsonlogic.py:130-140 | "in" is an equal element of a list, or a part of a text |
| JsonLogicLaws.LogicLaws | backend/app/shared/jsonlogic.py:155-176 | "and" asks for every operand value and "or" for some, after all operands are evaluated |
| JsonLogicLaws.NotLaw | backend/app/shared/jsonlogic.py:155-176 | "not" asks for its value to be null, false, zero or empty |
| JsonLogicLaws.DeMorgan | backend/app/shared/jsonlogic.py:155-176 | the negation of a conjunction has the value of the disjunction of the negations |
| JsonLogicLaws.VariableLaw | backend/app/shared/jsonlogic.py:43-76 | a variable gives the value that lies at the end of the keys of its path, and the fallback iff nothing lies there |
| JsonLogicLaws.PlainVariableLaw | backend/app/shared/jsonlogic.py:43-76 | without a fallback it gives null there, and the empty path gives the whole context |
| JsonLogicLaws.DepthOnlyLimits | backend/app/shared/jsonlogic.py:179-204 | the nesting depth limits the evaluation and never changes a value |
| JsonLogic.GateDecidesStructure | backend/app/shared/jsonlogic.py:179-228 | an expression that evaluates to a value is accepted; a fault the gate looks for (unknown operator, several operators, depth) that shows in evaluation is the very fault the gate reports |
| JsonLogic.GateIsExact | backend/app/shared/jsonlogic.py:207-228 | the gate accepts iff every operation has one known operator and the operations nest within the limit; operand counts and paths play no part |
| JsonLogic.OperandsDecideUngated | backend/app/shared/jsonlogic.py:85-176 | an expression that gives a value in some context has fitting operand counts and paths, and one with fitting operands never fails on a count or a path |
| JsonLogic.AcceptedFailsOnValuesOnlyWhenOperandsFit | backend/app/shared/jsonlogic.py:179-228 | an accepted expression fails on the values it meets only, if its operands fit; if they do not fit it gives a value in no context |
| JsonLogic.AcceptedCanAlwaysFail | backend/app/shared/jsonlogic.py:207-228 | the concrete accepted expressions that fail in every context |
| JsonLogic.ApplyChecksCount | backend/app/shared/jsonlogic.py:85-176 | an operator of the table refuses its operands for their count iff it does not take that count |
| JsonLogic.ApplyNeverFailsOnStructure | backend/app/shared/jsonlogic.py:102-176 | no operator of the table raises one of the faults that the gate looks for |
| JsonLogic.ResolveVarNeverFailsOnStructure | backend/app/shared/jsonlogic.py:43-76 | looking up a variable raises none of them either |
| JsonLogic.ResolveVarChecksPath | backend/app/shared/jsonlogic.py:43-76 | a variable refuses its path iff it is neither a text nor empty, whatever the context holds |
| RedosCheck.ProneSeesOpenNesting | backend/app/shared/config_schemas.py:80-101 | the check says yes iff one unbounded repeat lies strictly below another on a way that enters no lookaround, atomic group, conditional or possessive repeat |
| RedosCheck.ProneIsExact | backend/app/shared/config_schemas.py:50-101 | the verdict agrees with the nesting of unbounded repeats over all parts iff two repeats stack on a way that the check follows or none stack on a way through such an element; a pattern without nesting is never refused |
| RedosCheck.ProneIsExactWithoutHidden | backend/app/shared/config_schemas.py:50-101 | a pattern without such elements is refused iff one unbounded repeat lies strictly below another |
| RedosCheck.NestingInLookaheadIsMissed | backend/app/shared/config_schemas.py:69-79 | the concrete nested repeat inside a lookahead that is accepted |
| GroupNesting.VisitIsExact | mcp/antragsplattform_mcp/graphops.py:191-210 | the visit raises only if there is a cycle, and what it returns as done is free of cycles and holds the visited group |
| GroupNesting.AssertAcyclicIsExact | mcp/antragsplattform_mcp/graphops.py:213-219 | the check raises iff the sub-group relation has a cycle |
| GroupNesting.NestingEdges | mcp/antragsplattform_mcp/graphops.py:187-219 | the relation that the check sees is the one the groups state, in both directions when ids are distinct |
| GraphInvariants.EditsKeepGrouped | mcp/antragsplattform_mcp/graphops.py:48-293 | over every sequence of edits, raising or not, ids stay distinct, a state is in at most one group, a group has at most one parent, nesting is acyclic and every member is a state |
| GraphInvariants.EditsKeepConnected | mcp/antragsplattform_mcp/graphops.py:48-293 | over every sequence of edits with resolving patches every transition keeps two known ends |
| GraphInvariants.EditKeepsGrouped | mcp/antragsplattform_mcp/graphops.py:48-293 | each single edit keeps both invariants |
| GraphInvariants.RemoveStateKeepsGrouped | mcp/antragsplattform_mcp/graphops.py:113-131 | removing a state cascades so that no group and no transition still names it |
| GraphInvariants.UpsertGroupKeepsGrouped | mcp/antragsplattform_mcp/graphops.py:237-272 | an upsert that does not raise keeps the group forest although states and sub-groups move between groups |
| GraphInvariants.UpsertKeepsApart | mcp/antragsplattform_mcp/graphops.py:222-272 | after an upsert no two groups share an id, a state or a sub-group |
| GraphInvariants.DeleteGroupKeepsGrouped | mcp/antragsplattform_mcp/graphops.py:275-293 | deleting a group keeps the forest |
| GraphInvariants.RenameKeepsGrouped | mcp/antragsplattform_mcp/graphops.py:62-110 | a rename keeps both invariants and replaces exactly the one key |
| GraphInvariants.RenameKeepsForest | mcp/antragsplattform_mcp/graphops.py:71-90 | renaming a key in the groups to one no group has keeps the forest |
| EditEffects.UpdateStateEffect | mcp/antragsplattform_mcp/graphops.py:93-102 | an update patches exactly the fields it names, of the first state of the key and of no other; without a rename transitions and layout stay |
| EditEffects.UpdateStateUndone | mcp/antragsplattform_mcp/graphops.py:93-102 | patching the old values back gives the graph again, as far as the patch brought no new field |
| EditEffects.UpdateStateRaisesExactly | mcp/antragsplattform_mcp/graphops.py:93-102 | an update raises iff the state is unknown or another state has the new key |
| EditEffects.UpdateTransitionEffect | mcp/antragsplattform_mcp/graphops.py:155-164 | a patch changes exactly its fields of one transition, a null takes a further field away, and nothing else changes |
| EditEffects.AddStateEffect | mcp/antragsplattform_mcp/graphops.py:48-59 | a new state comes last, at its own x and y if both are given; it raises iff the key is taken |
| EditEffects.MergePositionsEffect | mcp/antragsplattform_mcp/graphops.py:173-184 | the given positions replace the old ones, the others stay; it raises iff a key is unknown |
| EditEffects.RemovalsRaiseExactly | mcp/antragsplattform_mcp/graphops.py:113-170 | removing raises iff the thing is not there, and a new transition iff an end is unknown |
| GraphInvariants.EmptyKeyIsSafeExactlyWhenUnnamed | mcp/antragsplattform_mcp/graphops.py:93-102 | an update to the empty key keeps the graph sound iff no state has it yet and no group or position names the old key |
| GraphInvariants.EmptyKeyBreaksForest | mcp/antragsplattform_mcp/graphops.py:93-110 | a concrete pair of updates on the pure operations after which one state is in two groups |
| GraphInvariants.PatchIsSafeExactlyWhenItResolves | mcp/antragsplattform_mcp/graphops.py:155-164 | a patched transition leaves the graph connected iff the ends in the patch are states |
| GroupEffects.UpsertGroupEffect | mcp/antragsplattform_mcp/graphops.py:222-272 | the group has exactly its own content, each other group what it had minus what joined, and all else is unchanged |
| GroupEffects.RemoveStateEffect | mcp/antragsplattform_mcp/graphops.py:113-131 | exactly that state, its transitions, its position and its membership go; all other memberships stay |
| GroupEffects.DeleteGroupEffect | mcp/antragsplattform_mcp/graphops.py:275-293 | the group and the references to it go; states, transitions, positions and other groups stay |
| UpsertCycles.UpsertRaisesExactly | mcp/antragsplattform_mcp/graphops.py:237-272 | on a forest an upsert succeeds iff its content is admissible and no joining sub-group holds the group at any depth; only the latter is reported as a cycle |
| UpsertCycles.UpsertErrors | mcp/antragsplattform_mcp/graphops.py:237-255 | each other refusal has its own error: unknown states, the group inside itself, unknown sub-groups, or no content |
| UpsertCycles.RegroupedIsAcyclicExactly | mcp/antragsplattform_mcp/graphops.py:213-219 | after a group takes children from wherever they were, a cycle exists iff one of these children reached the group before |
| UpsertCycles.UpsertRegroups | mcp/antragsplattform_mcp/graphops.py:222-272 | the nesting after an upsert is the old one with exactly these children moved |
| EditUndo.UpsertAgain | mcp/antragsplattform_mcp/graphops.py:237-272 | saving a group twice is saving it once, unless the first save emptied and dropped one of its own sub-groups; then the second raises |
| EditUndo.RemoveUndoesAddState | mcp/antragsplattform_mcp/graphops.py:48-131 | removing an added state gives back states, transitions, positions and the groups that have content, in order |
| EditUndo.RemoveUndoesAddTransition | mcp/antragsplattform_mcp/graphops.py:134-170 | removing an added transition gives the graph back |
| RenameIso.RenameKeepsVerdict | mcp/antragsplattform_mcp/graphops.py:62-110 | a rename changes the verdict of the validator in neither direction |
| RenameIso.RenamedStaysWellFormed | mcp/antragsplattform_mcp/graphops.py:62-110 | a flow with one state renamed throughout is well formed if the old one was |
| RenameIso.RenameRoundTrip | mcp/antragsplattform_mcp/graphops.py:62-110 | renaming to a fresh key and back gives the graph again, with missing lists and layout written as empty |
| FieldOps.OperationsKeepKeysDistinct | mcp/antragsplattform_mcp/graphops.py:299-334 | every field operation keeps the keys distinct; an update to the empty key exactly when no other field has it |
| FieldOps.UpdateFieldEffect | mcp/antragsplattform_mcp/graphops.py:314-320 | an update patches exactly the attributes it names, of the first field of the key and of no other |
| FieldOps.FieldOpsRaiseExactly | mcp/antragsplattform_mcp/graphops.py:299-334 | adding raises iff the key is taken, the others iff the field is missing or the new key is taken |
| FieldOps.RemoveUndoesAdd | mcp/antragsplattform_mcp/graphops.py:306-326 | removing the added field gives the old list, for every index given |
| FieldOps.MoveBackUndoesMove | mcp/antragsplattform_mcp/graphops.py:329-334 | the moved field stands at the clamped index and moving it back gives the old list |
| FormulaSpans.PiecesTileSource | typst/typst_service/markdown.py:618-683 | the pieces of all children tile the source from the first to the last index without gap or overlap |
| FormulaSpans.ChildTiles | typst/typst_service/markdown.py:644-676 | the pieces of one child continue where a formula from an earlier child ended and stop where the next child begins or behind the formula that reaches into it |
| FormulaSpans.StructuredComesOutWhole | typst/typst_service/markdown.py:658-659 | a child with structure comes out as itself and nothing else, whatever the formulas |
| FormulaSpans.PlainComesOutWholeExactly | typst/typst_service/markdown.py:660-676 | a plain child comes out whole iff there is no formula at all, or it is not empty and none touches it |
| FormulaSpans.ProseStaysInPlainChild | typst/typst_service/markdown.py:660-683 | a prose piece is a slice of its own plain child |
| FormulaSpans.NoProseInStructured | typst/typst_service/markdown.py:618-683 | no place of a child with structure ever comes out as prose |
| FormulaSpans.EveryPlaceIsConvertedOnce | typst/typst_service/markdown.py:618-683 | every index of the source is covered by exactly one piece |
| FormulaSpans.EveryFormulaIsEmittedOnce | typst/typst_service/markdown.py:618-683 | the formulas that come out are those of the scan, each once and in order |
| FormulaSpans.ChildEmitsItsFormulas | typst/typst_service/markdown.py:644-683 | a formula over several children is emitted by the one it starts in |
| TopLabels.SplitIsExact | typst/typst_service/markdown.py:217-236 | the split succeeds iff some list of known labels joined by the separator equals the text, and returns such a list |
| TopLabels.SplitPrefersLonger | typst/typst_service/markdown.py:226-236 | where another reading first differs, the result has the longer label |
| TopLabels.OrderOfEqualLengthsIsIrrelevant | typst/typst_service/markdown.py:223-236 | the result does not depend on how labels of equal length are sorted |
| TopLabels.UniqueReadingGivesWinners | typst/typst_service/markdown.py:217-236 | a printed list of winners that reads in one way only gives exactly these winners |
| TopLabels.EmptyLineNamesNobody | typst/typst_service/markdown.py:236-236 | an empty line names no winner |
| TopLabels.PlainLabelsComeBack | typst/typst_service/markdown.py:217-236 | labels without a comma always come back |
| Fences.StripIsIdempotent | typst/typst_service/markdown.py:521-530 | stripping twice is stripping once |
| Fences.DroppedExactly | typst/typst_service/markdown.py:499-518 | a line goes iff it opens an application fence outside code, or closes one that matches an earlier opening; no line inside a code fence goes |
| Fences.FindOpening | typst/typst_service/markdown.py:507-518 | a positive counter always has a matching opening line, found as a witness |
| Fences.StripKeepsKeptLines | typst/typst_service/markdown.py:521-530 | the output is the kept lines, all of them and in order |
| Converter.BlocksConvertExactly | typst/typst_service/markdown.py:551-577 | a tree converts iff its chains of entered nodes stay within the bound |
| Converter.BlocksKeepTexts | typst/typst_service/markdown.py:563-599 | no text of the source is lost, doubled or moved by the conversion, whatever it is nested in |
| Converter.BlockKeepsShape | typst/typst_service/markdown.py:694-784 | each kind of block gives its own kind of node, with one part for each item and cell, and the texts in their part |
| Converter.BlockLevels | typst/typst_service/markdown.py:687-741 | each block gives its lists in order with the levels its surroundings demand |
| Converter.LevelCountsOwnKind | typst/typst_service/markdown.py:725-741 | every list comes out once and its level is the number of enclosing lists of its own kind |
| Handover.EachLaterKeeperGetsItsLine | typst/typst_service/document.py:145-165 | it fails iff a later keeper has digits that are no numeral; else each keeper but the first gets exactly one line if its item number exists and none otherwise, and the blocks come back unchanged |
| Handover.LinesStandAtTheirItem | typst/typst_service/document.py:145-165 | the lines stand in the stretch of their own agenda item, in the order of the keepers |
| Handover.BlocksComeBack | typst/typst_service/document.py:145-165 | without the inserted lines the blocks are the given ones |
| DraftStore.ExpiredMeans | backend/worker/files_drafts.py:69-84 | expired is a draft, never a bound attachment, whose token has come to its end |
| DraftStore.RunsKeepSound | backend/worker/files_drafts.py:62-171 | over every interleaving of uploads, binds, deletes, findings of the scan and purge steps, stopped anywhere, each attachment keeps its stored object and each draft its token |
| DraftStore.BoundAttachmentsStay | backend/worker/files_drafts.py:62-93 | a bound attachment keeps its row over every run, and its object unless the scan finds something in it |
| DraftStore.DraftsGoOnlyWhenExpired | backend/worker/files_drafts.py:62-93 | a draft goes only by its own delete or by a purge past the end of its token that could lock it |
| DraftStore.PurgingTokensRemovesNoRow | backend/worker/files_drafts.py:96-116 | deleting tokens cascades to no attachment |
| DraftStore.ExtendedDraftsSurvive | backend/worker/files_drafts.py:62-93 | over every run a draft stays as long as no owner deletes it and no purge meets it unlocked past the end of its token |
| DraftStore.UploadKeepsDrafts | backend/worker/files_drafts.py:62-93 | an upload keeps every draft of its token over every run up to a moment before the end it sets |
| DraftPurge.DraftPurger.SelectBatch | backend/worker/files_drafts.py:62-93 | the locking query takes up to the limit of the earliest expired drafts that nobody holds |
| DraftPurge.DraftPurger.PurgeBatch | backend/worker/files_drafts.py:62-93 | exactly the batch goes, and its count and the keys of its objects come back |
| DraftPurge.DraftPurger.PurgeTokens | backend/worker/files_drafts.py:96-116 | exactly the expired tokens without a draft go, and are counted |
| DraftPurge.DraftPurger.RemoveObjects | backend/worker/files_drafts.py:119-136 | exactly the given objects go, except those the storage refuses |
| DraftPurge.DraftPurger.PurgeBatches | backend/worker/files_drafts.py:139-152 | the batches together remove exactly the expired drafts and their objects, and return how many |
| DraftPurge.DraftPurger.PurgeDraftAttachments | backend/worker/files_drafts.py:155-171 | an uncontended run leaves no expired draft and no expired token and returns the number of rows removed; it is a run of the step system and ends in the same state |
| DraftPurge.BatchJoins | backend/worker/files_drafts.py:139-152 | a batch of what is left adds up with what is gone: rows, keys and counts |
| VoteClosing.DueMeans | backend/worker/deadlines.py:323-362 | due is an open vote whose end has come, at the moment of its end too |
| VoteClosing.RunsCloseOnce | backend/worker/deadlines.py:342-417 | over every interleaving of workers and manual changes no vote is closed twice and a worker closes only a vote that is open and past its end at that moment |
| VoteClosing.FreshRunsCloseOnce | backend/worker/deadlines.py:342-417 | from a fresh start no run closes a vote twice |
| VoteClosing.ClosedStaysClosed | backend/worker/deadlines.py:342-417 | a closed vote is never open again |
| VoteClosing.StepKeepsSafe | backend/worker/deadlines.py:342-417 | each lock, commit, abort or manual step keeps the invariant behind these runs |
| VoteTicks.VoteCloser.DueOpenVoteIds | backend/worker/deadlines.py:323-339 | the scan gives up to the limit of the due votes, oldest first |
| VoteTicks.VoteCloser.CloseOne | backend/worker/deadlines.py:386-417 | a vote closes iff it is due at the second look; otherwise nothing changes |
| VoteTicks.VoteCloser.ProcessVotes | backend/worker/deadlines.py:365-374 | a tick closes exactly the oldest due votes up to the limit and counts them, and ends where the run of the step system ends |
| VoteTicks.TickIsRun | backend/worker/deadlines.py:342-374 | scan, lock and close by one worker that meets no lock is a run of the step system that closes exactly the listed votes, in their order |
| VoteTicks.TickDrains | backend/worker/deadlines.py:323-374 | a tick takes the votes that were due earlier before any later one |
| VoteTicks.BacklogDrainsInCeiling | backend/worker/deadlines.py:72-72 | n due votes are all closed after ceil(n / 200) ticks and not before, even if more fall due meanwhile |
| Reminders.TaskReminders.RemindOne | backend/worker/task_reminders.py:322-335 | one row per application, inserted or overwritten; nothing without recipients |
| Reminders.TaskReminders.ProcessTaskReminders | backend/worker/task_reminders.py:71-104 | a run updates each listed application by the due decision on its old row and leaves the others |
| Reminders.LogDecidesLikeHistory | backend/worker/task_reminders.py:242-258 | the decision from one row is the decision from the whole history |
| Reminders.RowRefinesHistory | backend/worker/task_reminders.py:135-258 | over every run the cron with one row sends exactly what a cron with the full history would |
| Reminders.RunsKeepLog | backend/worker/task_reminders.py:212-258 | over every run reminders of one stay are at least the repeat time apart, single without repeat, and none comes before the stay is old enough |
| ReplayGuard.InMemoryReplayGuard.Seen | backend/app/shared/altcha.py:235-252 | the answer and the whole new store; a replay extends no entry |
| ReplayGuard.StoreAgreesWithHistory | backend/app/shared/altcha.py:235-252 | on a forward clock the pruned store answers as the unbounded history of first uses |
| ReplayGuard.EmptyStoreAgreesWithHistory | backend/app/shared/altcha.py:235-252 | the same from an empty store |
| ReplayGuard.AcceptedCallsAreSpaced | backend/app/shared/altcha.py:243-252 | two accepts of one key are at least the window apart |
| ReplayGuard.PruningChangesNoAnswer | backend/app/shared/altcha.py:243-252 | dropping expired entries changes no answer on a forward clock |
| ReplayGuard.BackwardClockForgets | backend/app/shared/altcha.py:243-252 | a concrete run that shows why the clock must run forward |
| Altcha.SolveChallenge | backend/app/shared/altcha.py:94-102 | the least solving number, or none up to the maximum |
| Altcha.SignedPayloadsVerifyExactly | backend/app/shared/altcha.py:196-220 | a payload with the signature of a created challenge is accepted iff it names that challenge, its salt and number spell the server's text and the expiry in its own salt has not passed; all such payloads share one replay key |
| Altcha.AcceptedAfterExpiryExactly | backend/app/shared/altcha.py:105-118 | after the expiry in the server's salt a payload is accepted iff a part changed sides between salt and number and its own salt gives a later expiry or none; with the server's salt never |
| Altcha.ExpiryBindsExactly | backend/app/shared/altcha.py:196-220 | no payload of a created challenge is accepted after its expiry iff no other split of the server's text into salt and number ends later |
| Altcha.ExpiryDoesNotBind | backend/app/shared/altcha.py:57-79 | for every salt that is built with an expiry and every number of two digits or more this fails: some payload is accepted up to ten times the expiry |
| Altcha.CreatedChallengesVerify | backend/app/shared/altcha.py:57-79 | a created challenge has a solution, and every solution that keeps the server's salt verifies exactly until the expiry in it |
| Altcha.SolveThenVerify | backend/app/shared/altcha.py:196-220 | solving a created challenge and verifying it succeeds iff it has not expired |
| Altcha.ErrorsNamed | backend/app/shared/altcha.py:196-220 | each error names its reason: a malformed payload, then the expiry, the hash and the signature |
| Altcha.AltchaVerifier.Verify | backend/app/shared/altcha.py:321-331 | accepted iff the solution is valid and its key is not in the window; an invalid one leaves the store alone |
| Altcha.AcceptancesAreSpaced | backend/app/shared/altcha.py:321-331 | over every run of calls on a forward clock, two acceptances of one created challenge are at least the window apart, whatever the payloads hold |
| SqlRender.Render | admin-cli/antragsplattform_admin/db.py:49-65 | placeholders are filled by position, or the counts are reported |
| SqlRender.PartsGiveTemplate | admin-cli/antragsplattform_admin/db.py:49-65 | the parts with placeholders between them are the template |
| SqlRender.PartsAreFree | admin-cli/antragsplattform_admin/db.py:49-65 | no part holds a placeholder |
| SqlRender.PlainLiteralsReadBack | admin-cli/antragsplattform_admin/db.py:38-46 | whole numbers read back from their literals; null and the truth values are their words |
| SqlRender.RenderedReadsAsTemplate | admin-cli/antragsplattform_admin/db.py:49-65 | for every template and all parameters: the rendered text lexes as the template with each text parameter as one literal of exactly its text iff each placeholder stands outside quotes and no quote of a text literal touches another quote; what the texts hold makes no difference |
| SqlRender.TemplateReadsBackExactlyWhenWellPlaced | admin-cli/antragsplattform_admin/db.py:49-65 | a template reads back for all parameters iff every placeholder stands outside quotes and touches neither a quote nor another placeholder |
| SqlRender.LiteralLexes | admin-cli/antragsplattform_admin/db.py:38-46 | a literal in front of any text reads back as its value iff it is no text or no quote follows |
| SqlRender.MeetingQuotesMerge | admin-cli/antragsplattform_admin/db.py:38-65 | where two quotes meet, the literal in front is lost, whatever follows |
| SqlRender.AdjacentPlaceholdersMerge | admin-cli/antragsplattform_admin/db.py:49-65 | two placeholders side by side run together into one literal |
| Filenames.TrimmedIsFixpoint | backend/app/shared/filenames.py:81-110 | one round of trimming changes nothing iff no edge dot or space and no loose joiner is left |
| Filenames.TrimTrims | backend/app/shared/filenames.py:103-110 | trimming ends in such a name over the given characters and leaves a trimmed name alone |
| Filenames.TrimKeepsSolid | backend/app/shared/filenames.py:103-110 | trimming takes nothing but dots, spaces and joiners, and keeps the rest in order |
| Filenames.VisibleByChar | backend/app/shared/filenames.py:63-78 | character by character, a dropped one leaves nothing, a space separator becomes a plain space, and any other one stays |
| Filenames.BasenameIsLastPart | backend/app/shared/filenames.py:58-60 | the part behind the last separator, which holds none itself |
| Filenames.CapKeepsExtension | backend/app/shared/filenames.py:113-120 | a name that is too long is cut to the limit and keeps a short extension, which starts at the last dot behind something else than dots |
| Filenames.SanitizedIsDisplayName | backend/app/shared/filenames.py:123-143 | the result has 1 to 200 characters, no separator, no dropped character, no edge dot or space and no loose joiner |
| Filenames.DefaultsAreDisplayNames | backend/app/shared/filenames.py:37-37 | the default names meet what the cleaning promises, so the fallback does too |
| Filenames.DisplayNamesAreStable | backend/app/shared/filenames.py:123-143 | such a name in normal form comes back unchanged |
| Filenames.SanitizeIsIdempotent | backend/app/shared/filenames.py:123-143 | cleaning twice is cleaning once on names in normal form |
| Filenames.FallbackIsSafe | backend/app/shared/filenames.py:165-177 | the fallback is 1 to 200 printable characters without quote, backslash, percent, semicolon or slash |
| Filenames.FallbackKeepsSafe | backend/app/shared/filenames.py:165-177 | every safe printable character stays in its place, and only others become underscores |
| Filenames.HeaderCarriesName | backend/app/shared/filenames.py:180-205 | the header is printable ASCII and its extended value decodes to exactly the cleaned name (section 3.2 of RFC 5987, section 4.3 of RFC 6266) |
| PercentCoding.QuoteRoundTrip | backend/app/shared/filenames.py:201-205 | percent-encoded UTF-8 decodes to its text and holds only unreserved characters and percent signs |
| Money.MoneyRoundTrip | backend/app/shared/money.py:8-30 | a reader of the text, in either language and any currency (in English one that does not start with a minus), gets the amount rounded half up to cents |
| Money.GermanShowsCurrency | backend/app/shared/money.py:8-23 | a German amount ends with a space and the currency, euros as their sign |
| Money.EnglishShowsCurrency | backend/app/shared/money.py:8-23 | an English amount starts with the currency behind its minus, euros as their sign without a space and others with one |
| Money.RoundingIsHalfUp | backend/app/shared/money.py:8-23 | the rounding error is at most half a cent, exactly half only away from zero |
| Money.GroupUngroups | backend/app/shared/money.py:26-30 | taking the separators out gives the digits back |
| Money.GroupPlaces | backend/app/shared/money.py:26-30 | a separator stands at every fourth place from the right and nowhere else |
| BaseClasses.BasesOfAll | scripts/check_functional.py:158-173 | the bases of a name are those of all its definitions |
| BaseClasses.PydanticIsReachability | scripts/check_functional.py:158-166 | the path-avoiding search says yes iff some chain of bases leads to a root |
| BaseClasses.FrozenIsReachability | scripts/check_functional.py:169-173 | a class counts as frozen iff some class on a chain of bases has a frozen definition |
| BaseClasses.WrittenBaselineComparesEqual | scripts/check_functional.py:344-389 | after writing the baseline the comparison, of one area or of all, is empty iff every counted path it looks at is of the kind that was written |
| VoteConfigs.ElectionProjectsToVote | backend/app/shared/config_schemas.py:710-753 | a valid election projects to a valid vote with its candidates in order and abstention as options, and its secrecy, guests and quorum rules |
| VoteConfigs.PollProjectsToVote | backend/app/shared/config_schemas.py:810-852 | a valid poll projects to a valid vote with its options in order, its secrecy and its guests, without quorum; only a date poll has no abstention |

## Left out

- GraphInvariants.EditsKeepGrouped: leaves out updates that empty a state key, because the code breaks the invariant there; the exact condition is a lemma of its own. Sub-group ids that name no group are allowed, as the code leaves them behind.
- GraphInvariants.EditsKeepConnected: patches of `from` and `to` must name states, because the code does not check them.
- Guards.AcceptedGuardRaisesOnlyOnNaN: one direction only for whole guards, because `and` and `or` stop early and so may never reach the failing comparison; for a single comparison both directions are proved, and for a guard that starts with an unsafe one `Guards.UnsafeStartRaises` is the converse.
- Filenames.SanitizeIsIdempotent: asks that the clean name is in normal form, because dropping characters can leave a text that composes further.
- Graph edits with an explicit null: a null state key behaves like the empty key, a null `from` or `to` gives a transition without that end, and groups without an id are not modelled.
- Guard fields that hold Python date or datetime objects: field values are JSON here. Texts of errors are not modelled; kinds of errors are.
- Floating-point overflow and rounding in JSON logic and in decimals: numbers are reals, with the NaN and the infinities of `Decimal` kept as values.
- Optimistic locking, the order of outgoing transitions and the unresolvable-Gremium test of the flow service: the set of enterable states is a parameter.
- Regular expressions for formulas, Markdown parsing, image assets, link targets and the vote, election and poll line parsers of the converter.
- The quota, the verdict of the virus scan and the token check under lock of the upload; closing a vote inside the vote service, for which only its contract is used; broadcasts and mail.
- The Redis replay guard, base64 and JSON parsing of the solution text and the parsing of the expiry in the salt, which raises on digit characters that are no numeral.
- SqlRender.RenderedReadsAsTemplate: outside string literals the lexer reads single characters, so it does not see that two numbers side by side run together, or that a negative number behind a minus sign starts a comment.
- SqlRender.TemplateReadsBackExactlyWhenWellPlaced: judges string literals only; comments are not modelled, neither in the template nor those that a negative number behind a minus sign starts.
- SQL comments, dollar quoting and escape strings in templates: the lexer knows plain string literals (section 5.3 of ISO/IEC 9075-2). Database connections and the counting in `DockerDb.execute`.
- ASCII storage names, the Unicode tables behind normal forms, and a strict refusal of overlong UTF-8 in the decoder that the round trip uses.
- Walking Python syntax trees in the style check: the class table is given.
- HTTP, permissions, user interfaces, subprocesses and configuration loading.

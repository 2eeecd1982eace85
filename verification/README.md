# LazyFGA, modelled and proved

LazyFGA lets an administrator describe who may do what with five primitives (groups, resources, parents, roles and
permissions, with attribute conditions), compiles that model to OpenFGA relation definitions and back, explains decisions
over the tuple graph, and keeps tuples in step with identity-provider events. This project models those parts and proves
what they promise.

| files | what they model |
|---|---|
| `ModelIr`, `Validator`, `Condition` | the model, its well-formedness, and the accumulating validator |
| `Violations`, `ErrorOrder`, `Literals` | exactly which violations are reported, where, how often and in which order, and which literals are accepted |
| `AuthModel`, `Meaning` | relation rewrites and the five primitives, each with its meaning over a tuple store |
| `Compiler`, `Emission`, `Decompiler`, `Classification` | both directions, and exactly what comes out of each |
| `Partition`, `ConditionRoundTrip`, `RoundTrip`, `MeaningPreserved`, `ConditionsKept` | what is lost, what comes back, and that meaning is kept |
| `ConditionCel`, `AcceptedText`, `JsonStrings` | printing conditions as CEL, parsing them back, and exactly which texts are accepted |
| `CelTokens`, `CelReading`, `ParsedReading`, `PortableText` | printed and accepted text read by the tokens and the grammar of CEL |
| `Witness`, `FirstPath`, `Explained`, `Agreement` | the bounded witness search, which path it finds, and exactly where it agrees with the compiled model |
| `JsonCopy`, `Edit`, `EditCopy`, `EditSafety`, `EditUndo`, `EditFacts`, `EditOrder` | the editing operations, what they keep, what they undo, and exactly what they change and where |
| `Migrator` | one boot, and many instances booting, crashing and restarting |
| `EventMapping`, `EventOrder`, `TemplateExpansion`, `TemplateAgreement` | matching, rendering behind the injection guard, interruptible delivery, and which rule decides |
| `AuditPages` | keyset pagination with a millisecond cursor |
| `TextOrder`, `ModelDiff`, `Differences` | the canonical structural diff, and what each change says |
| `JsText`, `JsNumber` | ECMAScript strings and numbers as text |
| `Prelude`, `Sorting` | optional values, sequences, stable sorting |

Code that loops and updates is a method proved against a specification function or predicate; what the code promises is
then proved of that specification, and lemmas whose names end in `Exactly` say what it answers in terms of its input
alone. Errors of the network or the database are explicit outcomes (`Failed`, `Faults`,
`Outage`), never preconditions.

## Where the code and its description differ

- A witness of few steps can be missed: the visited set is shared by branches of different depth. The search then says
  that it was truncated (`Witness.ShortWitnessMissed`), and it is only where nine different objects can follow one
  another (`Witness.ShallowSearchDecides`).
- Parsing a printed condition loses a string with U+2028 or U+2029 (the pattern for string literals has no dot-all flag) and
  the sign of a negative zero; `ConditionCel.LeafReads` gives the exact condition.
- A resource whose only relation is named `member` comes back as a group, or not at all; names that look like array
  indices come back first, in numeric order. `RoundTrip.RoundTripRecovers` gives the exact condition.
- A type may have a role or a parent relation named `can_x` without having the permission `x`: a decision asks for the
  relation `can_x`, the witness search for the permission, so the search can find nothing although the decision is to
  allow (`Agreement.RoleNamedCan`). `Agreement.AgreementExactly` gives the exact condition.
- Edits work on a copy made through JSON, which turns a negative zero into zero and what is not finite into null, so an
  edit can change a condition that it does not mention. `JsonCopy.CopiedSame` gives the exact condition, and the laws of
  `EditUndo` carry it.
- The parser reads strings, white space and names as JavaScript does, not as CEL (section Syntax of the Common Expression
  Language specification). It accepts `s == "a\/b"`, an address `"a\d"` or one that ends in a backslash, a line break in
  an address, a no-break space around an operator, and a parameter whose name starts with a digit, which the validator
  accepts and the printer prints as well (a name of digits alone is a constant to CEL). `ParsedReading.AcceptedTextMeansTree` says for all accepted text when CEL reads
  it, `ConditionsKept.ValidTextMeansTree` for valid conditions, `CelReading.PrintedTextMeansTree` for printed text.
- An address or a timestamp may hold a backslash before its closing quotation mark. The splitter takes that for an escape
  and reads on inside the string, so such a comparison is accepted as the last of several but not before another
  (`AcceptedText.TextAcceptedExactly`).
- In PostgreSQL a descending order puts nulls first, so one bookkeeping row without a time makes every migration due
  again (`Migrator.LastOfMeaning`).
- Pages can skip rows that share a millisecond with the last row of the page before (`AuditPages.SkippedRow`,
  `AuditPages.PagesAreComplete`).
- The diff does not see conditions, on role assignments either, nor the members of groups (`ModelDiff.ConditionsAndMembersUnseen`).

## Model

| member | source | states |
|---|---|---|
| `Witness.Explanation.FindWitness` | `apps/api/internal/modules/pdp/reason.go:89-152` | the recursion with its shared visited set computes the search defined from that set; each object is expanded at most once; errors stop it |
| `Witness.FindPermission` | `apps/api/internal/modules/pdp/reason.go:154-167` | the first permission of that name on the first resource of that name, and on no other |
| `Witness.FirstGrantingRole` | `apps/api/internal/modules/pdp/reason.go:108-122` | the first granting role that checks true, or the first error |
| `Witness.ClassifyRoleStep` | `apps/api/internal/modules/pdp/reason.go:49-80` | direct exactly when the user is a stored tuple of the role; otherwise by the first stored `g#member` whose membership checks true, with g and its type; partial exactly when there is neither |
| `Witness.CleanMissIsComplete` | `apps/api/internal/modules/pdp/reason.go:89-152` | not found and not truncated: no chain of inherited parents reaches an object on which a granting role checks true, cycles or not |
| `Witness.FoundPathIsReal` | `apps/api/internal/modules/pdp/reason.go:97-145` | a path leaves only objects on which no granting role checks true, by stored parent tuples with their types, and ends in the first granting role that checks true, reported as the tuples and the server have it and partial exactly where that step is; it has at most nine steps, visits no object twice and proves the permission, by eight parents at most |
| `FirstPath.FoundPathIsFirst` | `apps/api/internal/modules/pdp/reason.go:97-152` | where no chain of nine different parents starts, the path found is the first: each step goes to the first parent, in the order of the relations and of their tuples, from which some chain reaches an object that grants without coming back to the path |
| `Witness.DeepPermissionIsCut` | `apps/api/internal/modules/pdp/reason.go:97-100` | a permission that holds, but by no chain of eight parents or fewer, is never found, and the answer is marked as truncated |
| `Witness.ShallowSearchDecides` | `apps/api/internal/modules/pdp/reason.go:89-100` | where no chain of nine parents starts that visits no object twice and passes no object that grants, found if and only if the permission holds; cycles are no exception |
| `Witness.SmallGraphDecides` | `apps/api/internal/modules/pdp/reason.go:89-100` | in particular where the object and its ancestors are at most eight objects, however they are linked |
| `Witness.FreshChainNeedsObjects` | `apps/api/internal/modules/pdp/reason.go:97-100` | such a chain needs as many different objects as it has steps |
| `Witness.ShortWitnessMissed` | `apps/api/internal/modules/pdp/reason.go:94-97` | a ladder of ten objects whose three-step witness is missed, and reported as truncated, because an object expanded at the depth limit is not expanded again |
| `Witness.SearchGuarantee` | `apps/api/internal/modules/pdp/reason.go:89-152` | from any visited set and depth: what is newly visited grants nothing and has all its parents visited; truncation means a chain down to the limit, of objects that differ, were not visited and do not grant |
| `Witness.CanUnfolds` | `apps/api/internal/modules/pdp/reason.go:110-145` | having a permission unfolds into a granting role or a parent that has it, in both directions |
| `Witness.CanIsLeast` | `apps/api/internal/modules/pdp/reason.go:110-145` | any set of objects closed under both rules contains every object that has the permission |
| `Witness.DenyLinks` | `apps/api/internal/modules/pdp/reason.go:207-219` | the links listed for a denial |
| `Witness.LinksExactly` | `apps/api/internal/modules/pdp/reason.go:207-219` | of the first permission of that name: one link for all its granting roles, if it has any, and then one for each inherited relation, in order |
| `Witness.DenialListsEveryWay` | `apps/api/internal/modules/pdp/reason.go:207-219` | the listed links are exactly the ways to have the permission: it holds if and only if one of them is supplied |
| `Witness.Explain` | `apps/api/internal/modules/pdp/reason.go:223-255` | an allowed decision gets a real path, with its flags as the tuples and the server have them, or is marked truncated; without a chain of nine different parents the path is there exactly when the permission holds; a denial gets its links |
| `Agreement.AgreementExactly` | `apps/api/internal/modules/pdp/reason.go:154-167` | for a valid model and a type: search and decision agree for every server that decides by the compiled model, every store, subject and object of the type, if and only if the type has the permission x, or no role or parent relation of it named can_x admits anyone |
| `Agreement.SearchAgreesWithDecision` | `apps/api/internal/modules/pdp/reason.go:89-152` | for a server that decides roles by the model: what the search looks for the model allows, where reads list at most the links that the model admits; what the model allows the search looks for, where they list at least those and that condition holds |
| `Agreement.ExplanationAgreesWithDecision` | `apps/api/internal/modules/pdp/reason.go:223-255` | for such a server: a path found proves that the compiled model allows, where reads list at most the admitted links, whatever the names; a clean miss proves that it denies, where reads list at least those, stale tuples besides or not, and that condition holds |
| `Agreement.MistakenSearchMisses` | `apps/api/internal/modules/pdp/reason.go:103-108` | where the condition fails, some server, store and subject make the model allow while the search misses cleanly |
| `Agreement.RoleNamedCan` | `apps/api/internal/modules/pdp/evaluator.go:67` | so for a type with a role can_read and no permission read |
| `Agreement.ReachesBounded` | `packages/shared/src/model.ts:158-352` | whether a role admits anyone is decided by following groups no deeper than there are groups |
| `Explained.PermittedTypeAgrees` | `apps/api/internal/modules/pdp/reason.go:110-145` | on a type that has the permission, the search's least fixpoint lies within the compiled model's where reads list at most the admitted links, and holds it where they list at least those |
| `Validator.ValidateModelIR` | `packages/shared/src/model.ts:158-352` | the accumulating passes return the specified error list; it is empty if and only if the model is well formed |
| `Validator.ErrorsMeaning` | `packages/shared/src/model.ts:158-352` | no errors exactly when type names are unique identifiers, each resource has one namespace of relations, every reference resolves, and every inherited permission exists on every parent type |
| `Violations.ViolationsExactly` | `packages/shared/src/model.ts:158-352` | on every model, for every code and every place: reported there exactly as often as the model has that violation at that place, stated over its lists, whatever else it holds |
| `ErrorOrder.ErrorsInOrder` | `packages/shared/src/model.ts:158-352` | violations are listed pass by pass, within a pass as the model lists its elements, and at one element in the order of the rules |
| `Validator.CheckPermissions` | `packages/shared/src/model.ts:287-352` | the permission pass: names, grants, inherited relations, and the permission on each parent type |
| `Condition.ConditionErrorsMeaning` | `packages/shared/src/condition.ts:187-274` | a condition has no errors exactly when names, parameters, operators, types and literals are valid |
| `Violations.DefinitionExactly` | `packages/shared/src/condition.ts:187-274` | on every condition, each error code is collected exactly as often as its name, parameters, leaves and empty groups have it |
| `Literals.CidrExactly` | `packages/shared/src/condition.ts:161-176` | accepted exactly when it is four octets of at most three digits up to 255 and a prefix up to 32, or hexadecimal digits, colons and points with a colon and a prefix up to 128 |
| `Literals.Rfc3339Exactly` | `packages/shared/src/condition.ts:158-158` | accepted exactly when it is a date and time, perhaps a fraction, and Z or an offset, each of its form |
| `Literals.SafeIntegerExactly` | `packages/shared/src/condition.ts:240-256` | a literal passes as an int exactly when its value is an integer of magnitude below two to the 53 |
| `Condition.CidrIsPlain` | `packages/shared/src/condition.ts:161-176` | an accepted CIDR has only characters that a string literal prints as themselves |
| `Condition.Rfc3339IsPlain` | `packages/shared/src/condition.ts:158-158` | so has an accepted timestamp |
| `Compiler.CompileIrToDsl` | `packages/compiler/src/ir-to-dsl.ts:87-103` | a model is compiled if and only if it is well formed, and otherwise refused with all its errors |
| `Compiler.EmitDsl` | `packages/compiler/src/ir-to-dsl.ts:38-79` | the loops compute the specified emission, which `Emission.EmitExactly` pins line by line |
| `Compiler.EmitRelations` | `packages/compiler/src/ir-to-dsl.ts:51-66` | a resource's relations: parents, then roles, then permissions |
| `Emission.EmitExactly` | `packages/compiler/src/ir-to-dsl.ts:38-79` | every type, relation, restriction, operand, parameter and condition emitted, each from its own element of the model and in its order, with operands of a permission roles first, and the text of every condition, parentheses and spaces included |
| `Emission.IndexKeyExactly` | `packages/compiler/src/dsl-to-ir.ts:233-270` | object keys: a name is listed among the array indices exactly when it is one as JavaScript writes it, below 2^32 - 1 |
| `Decompiler.ClassifyPermission` | `packages/compiler/src/dsl-to-ir.ts:159-203` | the first refused operand decides; otherwise roles and parent relations are collected apart |
| `Classification.PermissionExactly` | `packages/compiler/src/dsl-to-ir.ts:159-203` | a rewrite becomes a permission if and only if it is a computed userset, a tuple-to-userset or a union, its name starts with `can_`, every operand is a role of the type with no object or goes along a parent relation to the same name, and one is a role; its lists are those operands, in order |
| `Classification.ReasonExactly` | `packages/compiler/src/dsl-to-ir.ts:159-203` | otherwise the reason is given: intersection, exclusion, name, the first bad operand, or no role |
| `Decompiler.ParseConditions` | `packages/compiler/src/dsl-to-ir.ts:90-119` | which conditions come back, under which names, and which do not |
| `Decompiler.ParseDirect` | `packages/compiler/src/dsl-to-ir.ts:270-280` | first pass: direct relations become roles, parents or are set aside |
| `Classification.RoleExactly` | `packages/compiler/src/dsl-to-ir.ts:135-153` | a direct relation becomes a role if and only if all its entries are users or members of groups, at least one, with conditions that came back |
| `Classification.ParentExactly` | `packages/compiler/src/dsl-to-ir.ts:135-153` | it becomes a parent relation if and only if all its entries are bare types other than user without a condition, at least one |
| `Decompiler.ParseRewrites` | `packages/compiler/src/dsl-to-ir.ts:282-288` | second pass: the other relations become permissions or are set aside |
| `Decompiler.ParseDslToIr` | `packages/compiler/src/dsl-to-ir.ts:210-323` | the recovered model and its coverage, validation backstop included |
| `Classification.RecoveredExactly` | `packages/compiler/src/dsl-to-ir.ts:221-294` | for every model: groups, resources with their roles, parents and permissions, conditions, and what is set aside with its reason, each exactly for its own declarations and in their order |
| `Classification.CoverageExactly` | `packages/compiler/src/dsl-to-ir.ts:293-355` | validation errors, notes and the entries that validation adds, exactly as the recovered model and the source have them |
| `Classification.ResourceOnce` | `packages/compiler/src/dsl-to-ir.ts:264-290` | what is recovered of a resource is determined by that description |
| `Classification.GroupOnce` | `packages/compiler/src/dsl-to-ir.ts:242-262` | so is a recovered group |
| `Decompiler.FullCoverage` | `packages/compiler/src/dsl-to-ir.ts:293-322` | full coverage if and only if nothing is set aside, the result is well formed, the schema is 1.1 and every condition is in the subset |
| `Partition.NothingLost` | `packages/compiler/src/dsl-to-ir.ts:231-291` | for every model: each declared relation is, once, a group's member, parent, role or permission recovered, or in the classifier's advanced list |
| `RoundTrip.RoundTripRecovers` | `packages/compiler/src/dsl-to-ir.ts:210-323` | compiling a valid model and classifying the result gives back exactly that model if and only if it is recoverable: conditions flat, uncollapsed, printable and in object key order; no resource with `member` as its only relation; parents and roles in object key order |
| `RoundTrip.RecoverableIsFullyCovered` | `packages/compiler/src/dsl-to-ir.ts:318-322` | a recoverable model comes back with full coverage and nothing advanced |
| `RoundTrip.EmittedSetAside` | `packages/compiler/src/ir-to-dsl.ts:38-79` | of an emitted model nothing is set aside if and only if every condition in use parses back and no resource has a parent relation `member` as its only relation |
| `RoundTrip.FlatConditionsSetNothingAside` | `packages/compiler/src/ir-to-dsl.ts:38-79` | so it is when every condition is a leaf or one flat group |
| `RoundTrip.NestedConditionSetsAside` | `packages/compiler/src/dsl-to-ir.ts:135-142` | a nested condition in use is always set aside |
| `RoundTrip.PermissionClassified` | `packages/compiler/src/dsl-to-ir.ts:165-202` | an emitted permission, single operand or union, classifies as itself |
| `RoundTrip.ResourceReads` | `packages/compiler/src/dsl-to-ir.ts:264-290` | an emitted resource comes back with parents and roles in object key order, permissions as they were, nothing set aside |
| `ConditionRoundTrip.ConditionReads` | `packages/compiler/src/dsl-to-ir.ts:96-117` | an emitted condition comes back as it was if and only if it is recoverable |
| `MeaningPreserved.CompilingKeepsMeaning` | `packages/compiler/src/ir-to-dsl.ts:38-79` | for every valid model, store, subject, relation and object: the compiled relation holds by a derivation of n steps if and only if the model says so |
| `MeaningPreserved.DecompilingKeepsMeaning` | `packages/compiler/src/dsl-to-ir.ts:159-203` | with full coverage, the recovered model, and that model compiled again, give every relation the same least fixpoint as the source, although union operands are regrouped |
| `ConditionsKept.DecompilingKeepsConditions` | `packages/compiler/src/dsl-to-ir.ts:90-119` | with full coverage, every condition of the source comes back under its name; the text emitted for it is read by the CEL grammar exactly when its parameters' names are CEL names; the source text then reads to the same truth value under every valuation of comparisons, except that it is not read at all where it is not portable |
| `Meaning.PermissionDerives` | `packages/compiler/src/dsl-to-ir.ts:174-202` | a rewrite that classifies as a permission derives what the permission says, whatever the order of its operands |
| `Meaning.PermissionUnfolds` | `packages/compiler/src/ir-to-dsl.ts:59-65` | a permission holds exactly when a granting role does or the same permission on a linked parent |
| `Meaning.IrHoldsLonger` | `packages/compiler/src/ir-to-dsl.ts:59-65` | longer derivations derive no less, so the meaning is the union of its stages |
| `ConditionCel.TopLevelSplit` | `packages/compiler/src/condition-to-cel.ts:91-121` | the index loop over depth, quotes and escapes computes the specified split |
| `ConditionCel.SplitOfJoin` | `packages/compiler/src/condition-to-cel.ts:91-121` | any non-empty list of leaf-like texts joined by one operator splits into that operator (and for a single one) and those texts |
| `ConditionCel.LeafIsLeaflike` | `packages/compiler/src/condition-to-cel.ts:45-55` | every printed leaf is leaf-like, whatever operators, parentheses, quotes or backslashes its strings hold |
| `ConditionCel.TryParseCondition` | `packages/compiler/src/condition-to-cel.ts:185-200` | the parser computes the specified parse |
| `AcceptedText.TextAcceptedExactly` | `packages/compiler/src/condition-to-cel.ts:91-200` | any text, printed or written by hand, is accepted if and only if it is comparisons joined by one operator, white space around each, every one but the last with a literal that closes; and then as those comparisons in that order |
| `AcceptedText.LeafExactly` | `packages/compiler/src/condition-to-cel.ts:150-179` | a text is accepted as a comparison if and only if it is a declared name, an operator and an operand of the name's type, with white space between, or an address call |
| `AcceptedText.ScanExactly` | `packages/compiler/src/condition-to-cel.ts:142-146` | a text is read as a number if and only if it is a numeral, with the digits and the exponent it has |
| `JsonStrings.UnquoteExactly` | `packages/compiler/src/condition-to-cel.ts:127-140` | a text is read as a string if and only if it is a JSON literal that spells it, symbol by symbol, as section 7 of RFC 8259 has them |
| `ConditionCel.LeafReads` | `packages/compiler/src/condition-to-cel.ts:150-179` | a printed leaf parses to itself if and only if its value survives printing: no U+2028 or U+2029 in a string, no negative zero |
| `ConditionCel.PrintedConditionParses` | `packages/compiler/src/condition-to-cel.ts:185-200` | parsing the printed text, in any surrounding white space, gives the tree with one-child groups collapsed if and only if that is a leaf or one flat group and every value survives; null when a nested group remains |
| `CelReading.PrintedTextMeansTree` | `packages/compiler/src/condition-to-cel.ts:58-65` | read by the CEL grammar, with && binding tighter than ||, the printed text evaluates to the tree's truth value for every valuation of its leaves; it is not read at all exactly when a parameter's name is no CEL name |
| `CelTokens.LeafThen` | `packages/compiler/src/condition-to-cel.ts:45-55` | a printed leaf consists of CEL tokens if and only if its names are CEL names, whatever its strings and numbers |
| `CelTokens.QuoteThen` | `packages/compiler/src/condition-to-cel.ts:41-43` | a string printed by JSON.stringify is a CEL string, whatever characters it holds |
| `CelTokens.NumberThen` | `packages/compiler/src/condition-to-cel.ts:142-146` | a number text that the parser accepts is a CEL number, after a sign or none |
| `CelReading.OrListReads` | `packages/compiler/src/condition-to-cel.ts:58-65` | a list joined by || reads as the disjunction of its parts, whatever follows |
| `ParsedReading.AcceptedTextMeansTree` | `packages/compiler/src/condition-to-cel.ts:185-200` | whatever text the parser accepts, printed or written by hand: read by the CEL grammar, it evaluates to the truth value of the tree returned, for every valuation of leaves; or it is not read at all, exactly when a text between its operators does not consist of CEL tokens (an escape that CEL lacks, an unclosed string, a line break in a string, foreign white space, a name that is none) |
| `PortableText.LeafPortable` | `packages/compiler/src/condition-to-cel.ts:150-179` | accepted text of a valid comparison consists of CEL tokens if and only if its names are CEL names, its white space is CEL white space and no solidus in its strings is escaped |
| `PortableText.StringPortable` | `packages/compiler/src/condition-to-cel.ts:127-140` | a string that JSON.parse reads is, with the white space after it, CEL text if and only if it escapes no solidus and that white space is CEL white space |
| `ConditionsKept.ValidTextMeansTree` | `packages/compiler/src/condition-to-cel.ts:185-200` | accepted text of a valid condition is read as the tree, or not at all: exactly when a name is no CEL name, white space outside its strings is none to CEL, or a solidus in them is escaped |
| `ConditionsKept.ValidNames` | `packages/shared/src/condition.ts:179-196` | a name that the validator accepts is a CEL name if and only if it does not start with a digit |
| `ConditionsKept.SolidusNotRead` | `packages/compiler/src/condition-to-cel.ts:127-140` | a valid condition whose accepted source text CEL does not read: a string with an escaped solidus |
| `ParsedReading.SplitFinds` | `packages/compiler/src/condition-to-cel.ts:91-121` | on any text, the loop's parts are the texts between its top-level operators, and all of these are the operator it returns |
| `ParsedReading.LeafScans` | `packages/compiler/src/condition-to-cel.ts:150-179` | any text that parses as a comparison closes only parentheses it opened and has no operator outside its strings |
| `JsonCopy.CopiedSame` | `packages/shared/src/edit.ts:4-5` | a model copied through JSON is the same if and only if no literal is a negative zero, an infinity or NaN |
| `JsonCopy.CopiedTwice` | `packages/shared/src/edit.ts:4-5` | a copy is copied as it is |
| `EditCopy.EditedIsCopied` | `packages/shared/src/edit.ts:14-315` | each of the nineteen edits gives back its argument itself where it is refused, and otherwise a copy of the changed model |
| `EditCopy.CopyCommutes` | `packages/shared/src/edit.ts:14-315` | changing a copy and copying what was changed are the same |
| `EditCopy.SkippedIsUnchanged` | `packages/shared/src/edit.ts:14-315` | where an edit is refused it would have changed nothing |
| `Edit.RemoveType` | `packages/shared/src/edit.ts:31-63` | the loops over groups, parents, roles and permissions of the copy compute the specified removal |
| `Edit.RemoveOutOf` | `packages/shared/src/edit.ts:44-61` | one resource's part of it: parent types, orphaned relations, subjects, inherits |
| `Edit.DisconnectParent` | `packages/shared/src/edit.ts:90-122` | refused without the child; otherwise the cut on a copy |
| `Edit.CutOut` | `packages/shared/src/edit.ts:101-120` | the loop over parents computes the specified cut |
| `Edit.RemoveRole` | `packages/shared/src/edit.ts:151-161` | the role and its grants go |
| `Edit.RenameRole` | `packages/shared/src/edit.ts:163-173` | every role of the name and every grant of it is renamed |
| `Edit.RenamePermission` | `packages/shared/src/edit.ts:212-220` | every permission of the name is renamed |
| `Edit.RenameCondition` | `packages/shared/src/edit.ts:257-269` | the condition and every reference to it is renamed, unless the new name is taken |
| `Edit.RemoveCondition` | `packages/shared/src/edit.ts:272-283` | the condition goes and every reference to it is cleared; an empty list becomes absent |
| `Edit.FixSubjects` | `packages/shared/src/edit.ts:262-268` | every subject reference of groups and roles is rewritten |
| `EditSafety.EditKeepsClosed` | `packages/shared/src/edit.ts:14-315` | for each of the nineteen edits of a closed model, the copy through JSON included: the result is closed if and only if the edit is admissible, which a caller can check first |
| `EditSafety.RunKeepsClosed` | `packages/shared/src/edit.ts:14-315` | every run of admissible edits keeps a model closed at every point |
| `EditSafety.EditingIsSafe` | `packages/shared/src/edit.ts:14-315` | so from every valid model: never a dangling group, parent type, parent relation, role or condition, never a duplicate type, condition or parent relation name |
| `EditSafety.WellFormedIsClosed` | `packages/shared/src/model.ts:158-352` | a valid model is closed |
| `EditSafety.TypeRemovedClosed` | `packages/shared/src/edit.ts:30-63` | removing a type leaves no reference to it and no permission that inherits along a relation gone with it |
| `EditSafety.ConditionUpdatedClosed` | `packages/shared/src/edit.ts:249-254` | replacing a condition is safe exactly when it keeps its name, or takes a free one while nothing refers to the old |
| `EditSafety.MatrixEditClosed` | `packages/shared/src/edit.ts:127-140` | toggling a cell or an inherited relation is safe exactly when the role or relation exists |
| `EditFacts.EditChangesExactly` | `packages/shared/src/edit.ts:5-315` | for each of the nineteen edits, every fact that a closed model with distinct role and permission names states (groups and members, resources, links, roles, assignments, permissions, grants, inherits, conditions) holds afterwards if and only if the edit's declarative description says so, conditions as their copies through JSON: nothing else changes |
| `EditOrder.EditKeepsOrder` | `packages/shared/src/edit.ts:5-315` | for each of the nineteen edits of any model, at every level: what stays keeps its order, and what is added comes last |
| `EditFacts.WellFormedIsNeat` | `packages/shared/src/model.ts:158-352` | a valid model is one of those to which this applies |
| `EditFacts.RemovedTypeFacts` | `packages/shared/src/edit.ts:30-63` | what stays when a type goes: every fact that does not mention it, inheritance along a relation only while a link along it to another type stays, and the copy of each condition |
| `EditFacts.DisconnectFacts` | `packages/shared/src/edit.ts:90-122` | what stays when a parent is cut off: inheritance along the relation goes exactly with its last link, and conditions come out as their copies |
| `EditUndo.RemovingUndoesAdding` | `packages/shared/src/edit.ts:5-63` | removing a type just added gives the model back if and only if no parent relation is empty and JSON has all its literals |
| `EditUndo.DisconnectingUndoesConnecting` | `packages/shared/src/edit.ts:66-122` | disconnecting a parent just connected gives the model back if and only if the relation was new, or had types and not this one, and JSON has all literals |
| `EditUndo.RenamingBack` | `packages/shared/src/edit.ts:257-269` | renaming a condition and back gives the model back if and only if JSON has all literals |
| `EditUndo.ToggleTwice` | `packages/shared/src/edit.ts:127-140` | toggling twice gives the list back if and only if the name was absent, or stood last and nowhere else |
| `EditUndo.ToggleCellTwice` | `packages/shared/src/edit.ts:127-140` | so toggling a cell twice gives the model back if and only if there is no such permission, or the list comes back and JSON has all literals |
| `EditUndo.ToggleInheritTwice` | `packages/shared/src/edit.ts:223-237` | so does toggling an inherited relation twice |
| `Migrator.Database.ApplyMigrations` | `apps/api/internal/db/migrator.go:145-191` | one boot: the due migrations in one transaction or none, exactly when nothing they need fails; of their statements those with more than white space are executed, in order and once per occurrence, and the others are not |
| `Migrator.BlankMeaning` | `apps/api/internal/db/migrator.go:174-176` | trimming leaves nothing of a statement exactly when it has no character but white space |
| `Migrator.BootExecutes` | `apps/api/internal/db/migrator.go:168-186` | what a boot adds, stated over rows and statements: the migrations later than every row, or all where no time is read, in order |
| `Migrator.LastOfMeaning` | `apps/api/internal/db/migrator.go:193-206` | no time is read exactly when there is no row or some row's time is null; otherwise it is the largest |
| `Migrator.StepKeepsInv` | `apps/api/internal/db/migrator.go:145-191` | each step of any instance keeps mutual exclusion and changes what is committed only by whole boots |
| `Migrator.EveryRunIsSafe` | `apps/api/internal/db/migrator.go:145-191` | for strictly increasing times and every interleaving of instances joining, booting, crashing and restarting with any release: rows record a prefix of the journal, none twice, the schema is exactly the statements of those migrations that are more than white space, in order, one instance at most is in a transaction, and whoever finished has its whole release applied |
| `Migrator.BootsCompleteIffIncreasing` | `apps/api/internal/db/migrator.go:168-171` | any two releases booting in turn leave all their migrations if and only if the journal's times strictly increase |
| `Migrator.LostMigration` | `apps/api/internal/db/migrator.go:168-171` | a migration no later than the one before it is lost when a release between them boots first |
| `Migrator.HolderCanCommit` | `apps/api/internal/db/migrator.go:158-190` | whoever holds the lock can always go on to commit a whole boot |
| `EventMapping.MatchRule` | `apps/api/internal/modules/idp/mapping.go:72-90` | event type, every predicate, and a non-empty array for fan-out |
| `EventOrder.MatchesExactly` | `apps/api/internal/modules/idp/mapping.go:72-90` | a rule matches exactly the events of its type at which the value of every predicate stands, and that give it a round |
| `EventOrder.ScalarValueExactly` | `apps/api/internal/modules/idp/mapping.go:30-60` | the value that stands at a path, for each kind of path |
| `EventMapping.Substitute` | `apps/api/internal/modules/idp/mapping.go:108-122` | placeholders are substituted one path after another; a missing or forbidden value stops it |
| `EventMapping.RenderTuple` | `apps/api/internal/modules/idp/mapping.go:100-141` | the rendered tuple, or none |
| `EventOrder.RenderExactly` | `apps/api/internal/modules/idp/mapping.go:100-141` | a tuple is rendered exactly when each part is its own template filled, the types are written in the templates, and what comes out is type:id, a word and type:id |
| `EventMapping.EventsNeverChooseTypes` | `apps/api/internal/modules/idp/mapping.go:100-141` | whatever the event holds, the types of a rendered user and object are the template's literal ones, and the ids hold no colon, #, * or space |
| `EventOrder.RenderedIsGuarded` | `apps/api/internal/modules/idp/mapping.go:100-141` | a rendered user and object are the type written in their template, a colon, and an id that is not empty and holds no colon, #, * or white space; a rendered relation is a word |
| `EventOrder.TypeIdExactly` | `apps/api/internal/modules/idp/mapping.go:130-138` | a token passes the guard if and only if it is a word, a colon and such an id |
| `TemplateExpansion.SubstitutionIsExpansion` | `apps/api/internal/modules/idp/mapping.go:108-122` | where braces stand only around placeholders and no value holds one: the passes over the text, one path after another, replace every placeholder at once by its own value, or fail when one has no plain value |
| `TemplateAgreement.AgreesExactly` | `apps/api/internal/modules/idp/mapping.go:108-122` | a template with braces only around placeholders, and plain paths, renders as if every placeholder were replaced at once, for every event and item, if and only if it has at most one placeholder, or one whose path has a value in no event |
| `TemplateAgreement.OneHoleAgrees` | `apps/api/internal/modules/idp/mapping.go:108-122` | with one placeholder the value may hold anything |
| `TemplateExpansion.ValueSubstitutedAgain` | `apps/api/internal/modules/idp/mapping.go:110-120` | a value that itself reads as a later placeholder is substituted in its turn |
| `TemplateExpansion.ReplaceFills` | `apps/api/internal/modules/idp/mapping.go:119-119` | one pass replaces every occurrence of its placeholder and nothing else |
| `EventMapping.Sink.WriteTuple` | `apps/api/internal/modules/idp/mapping.go:163-167` | a write or delete as a set operation, refused, or cut off by an outage before or after it took effect |
| `EventMapping.ApplyEvents` | `apps/api/internal/modules/idp/mapping.go:195-243` | stable priority order, fan-out, counters and the transient abort compute the specified delivery |
| `EventOrder.MatchedInOrder` | `apps/api/internal/modules/idp/mapping.go:197-210` | the rules applied to an event are exactly those that match it, by ascending priority, those of equal priority as they were given |
| `EventOrder.LastRuleDecides` | `apps/api/internal/modules/idp/mapping.go:195-243` | after any deliveries cut short and one that completes: a tuple that no matching rule writes is as it was, and any other is stored exactly when the last rule that writes it, by event, priority and position, says write |
| `EventOrder.DeliveryCounts` | `apps/api/internal/modules/idp/mapping.go:195-243` | failed counts what does not render or is refused, applied what changes the store, skipped everything else |
| `EventOrder.RuleTasksExactly` | `apps/api/internal/modules/idp/mapping.go:176-191` | one round for each item of the list fanned out over, or one in all, each with its own rendering |
| `EventMapping.DeliveryCompletes` | `apps/api/internal/modules/idp/mapping.go:195-243` | a delivery that is not cut short does every accepted write, and counts every task exactly once |
| `EventMapping.SettledAt` | `apps/api/internal/modules/idp/mapping.go:222-238` | the last accepted task on a tuple decides whether it is stored |
| `EventMapping.RetryConverges` | `apps/api/internal/modules/idp/mapping.go:224-229` | after any number of deliveries cut short anywhere, one that completes leaves the store of a single uninterrupted delivery, even when rules write and delete the same tuple |
| `EventMapping.SettledTwice` | `apps/api/internal/modules/idp/mapping.go:193-195` | delivering again what was delivered completely changes nothing |
| `AuditPages.EscapeLike` | `apps/api/internal/modules/auditread/repo.go:148-157` | the escaped prefix |
| `AuditPages.LikeIsPrefix` | `apps/api/internal/modules/auditread/repo.go:148-157` | the escaped prefix followed by % matches exactly the strings that start with it |
| `AuditPages.ConditionsSay` | `apps/api/internal/modules/auditread/repo.go:61-92` | the gathered conditions hold of exactly the rows the query asks for |
| `AuditPages.QueryPage` | `apps/api/internal/modules/auditread/repo.go:57-145` | the page and its cursor |
| `AuditPages.PageExactly` | `apps/api/internal/modules/auditread/repo.go:57-145` | the page shows rows asked for, field by field, newest first, as many as fit, none that remains being newer; a cursor at the last of them, cut to the millisecond, is given exactly when a row remains |
| `AuditPages.FollowServesOnce` | `apps/api/internal/modules/auditread/repo.go:81-88` | following cursors ends, and serves matching rows newest first, for any timestamps |
| `AuditPages.NoRowTwice` | `apps/api/internal/modules/auditread/repo.go:81-88` | no row is served twice |
| `AuditPages.PagesAreComplete` | `apps/api/internal/modules/auditread/repo.go:57-145` | for every page size the pages together are the whole list if and only if each row lies below the truncated cursor of the one before it |
| `AuditPages.PageSizeIsComplete` | `apps/api/internal/modules/auditread/repo.go:57-145` | for one page size: the pages together are the whole list if and only if the first row of each page lies below the truncated cursor of the page before |
| `AuditPages.WholeMillisecondsAreComplete` | `apps/api/internal/modules/auditread/repo.go:139-143` | so it is when all times are whole milliseconds |
| `AuditPages.SkippedRow` | `apps/api/internal/modules/auditread/repo.go:139-143` | two rows within one millisecond: a page of one skips the earlier row |
| `ModelDiff.DiffModels` | `apps/api/internal/modules/model/diff.go:165-264` | with maps iterated in any order, the result lists exactly the differences, ascending by JSON text |
| `Differences.ReportsExactly` | `apps/api/internal/modules/model/diff.go:165-264` | each kind of change is reported exactly when the lists of the two models say so, the last element of a name standing for it |
| `Differences.DiffExactly` | `apps/api/internal/modules/model/diff.go:165-264` | so the result holds exactly the changes that the lists say, ascending by JSON text |
| `ModelDiff.DiffRoles` | `apps/api/internal/modules/model/diff.go:190-207` | the role changes of one resource |
| `ModelDiff.DiffPermissions` | `apps/api/internal/modules/model/diff.go:209-230` | its permission, grant and inherit changes |
| `ModelDiff.DiffParents` | `apps/api/internal/modules/model/diff.go:232-245` | its parent changes |
| `ModelDiff.SetDiff` | `apps/api/internal/modules/model/diff.go:127-143` | sorted additions and removals, whatever the iteration order |
| `ModelDiff.SplitPair` | `apps/api/internal/modules/model/diff.go:282-289` | the pair is cut at its first NUL |
| `ModelDiff.PairHalves` | `apps/api/internal/modules/model/diff.go:116-124` | cutting a pair gives the relation and the type back |
| `Differences.JoinsWithoutNul` | `apps/api/internal/modules/model/diff.go:116-124` | where relation names hold no NUL, a joined pair is there exactly when its two halves are |
| `ModelDiff.JsonTextInjective` | `apps/api/internal/modules/model/diff.go:37-82` | no two changes have the same JSON text |
| `ModelDiff.DiffIsDetermined` | `apps/api/internal/modules/model/diff.go:248-263` | there is one such list: the answer does not depend on iteration order |
| `ModelDiff.SwapMirrors` | `apps/api/internal/modules/model/diff.go:165-264` | swapping the models swaps added and removed throughout |
| `ModelDiff.EmptyMeansSame` | `apps/api/internal/modules/model/diff.go:165-264` | between valid models the list is empty if and only if type names match and every common resource has equal roles, subject keys, grants, inherits and parent pairs |
| `ModelDiff.ConditionsAndMembersUnseen` | `apps/api/internal/modules/model/diff.go:165-264` | conditions, those attached to or dropped from role assignments included, and the members of groups are not compared |
| `JsNumber.NumberStringReads` | `apps/api/internal/jsutil/jsutil.go:142-199` | digits, exponent and sign are read back from the printed number, except the sign of zero |
| `JsNumber.NumberStringDenotes` | `apps/api/internal/jsutil/jsutil.go:142-199` | in all four layouts the text denotes digits times ten to the n - k |
| `JsNumber.ExponentShown` | `apps/api/internal/jsutil/jsutil.go:165-198` | an exponent is written exactly for numbers below 10^-6 and from 10^21 on |
| `JsNumber.LayoutReads` | `apps/api/internal/jsutil/jsutil.go:165-198` | each layout reads back as its digits and exponent |
| `JsNumber.ToNumberIsExact` | `packages/compiler/src/condition-to-cel.ts:142-146` | reading a decimal literal keeps its value exactly |
| `JsText.JSONString` | `apps/api/internal/jsutil/jsutil.go:101-134` | the writer computes the quoted form |
| `JsText.UnquoteQuote` | `apps/api/internal/jsutil/jsutil.go:101-134` | reading a quoted string gives it back |
| `JsText.QuoteCharExactly` | `apps/api/internal/jsutil/jsutil.go:101-134` | only control characters, quotes and backslashes are escaped, by the shortest escape there is, in lower case |
| `JsText.TrimPadding` | `apps/api/internal/jsutil/jsutil.go:81-92` | trimming removes exactly the surrounding white space |
| `JsText.UnescapeLineSeps` | `apps/api/internal/jsutil/jsutil.go:36-76` | the loop over runs of backslashes computes the escape-by-escape rewriting, on every text |
| `JsText.LineSepsKeepsReading` | `apps/api/internal/jsutil/jsutil.go:36-76` | the decoded symbols, as section 7 of RFC 8259 reads them, are the same before and after |
| `JsText.LineSepsLeavesNone` | `apps/api/internal/jsutil/jsutil.go:36-76` | no escape of U+2028 or U+2029 is left |
| `JsText.LineSepsIdempotent` | `apps/api/internal/jsutil/jsutil.go:36-76` | rewriting twice is rewriting once |
| `JsText.LineSepsChangesOnlyEscapes` | `apps/api/internal/jsutil/jsutil.go:36-76` | text is changed if and only if it has such an escape; an escaped backslash before u2028 is not one |

## Left out

- Lone surrogates: strings are sequences of Unicode scalar values, so a lone surrogate, and an escape of one, is outside the model; a pair of escapes is read as the one character it stands for.
- Byte positions: text is a sequence of characters, not of UTF-8 bytes; every character that the code tests for is ASCII, or is compared whole.
- Floating point: a number is an exact canonical decimal, so the shortest digits are given and `Number(text)` neither rounds nor overflows.
- The DSL text and its transformer to JSON are foreign code: emission goes straight to relation definitions, with object keys in JavaScript's property order.
- A relation, parameter or condition named `__proto__`: as a key of a JavaScript object it is lost in emission; `RoundTrip.RoundTripRecovers` treats it as any other name.
- RoundTrip.RoundTripRecovers: does not model that loss, because the objects are built by foreign code.
- Error texts and path strings: an error is its code and its place.
- The Go twins of the validator and of the printer: each is modelled once.
- CEL evaluation of comparisons: a valuation of leaves is any function from their texts to truth values.
- CEL types and number ranges inside a comparison: an integer literal for a double, one beyond 64 bits, or a parameter on the right whose name is a number or a literal to CEL, consists of tokens, and is read.
- CEL text beyond conditions: raw, bytes and triple-quoted strings, comments, and comparisons that start with a constant instead of a name are not read.
- Contextual tuples, and request context beyond which conditions hold.
- The encoding of the audit cursor as base64url text, and row data as JSON.
- Diff keys of names with U+2028, U+2029, backspace or form feed: Go's encoder and `JSON.stringify` escape these differently; names of valid models have none.
- Array indices that are not integers in `setAssignmentCondition`: they are refused like any index out of range.
- HTTP routing, authentication, configuration, the user interface, token and policy CRUD, the audit recorder, webhook signatures, event extraction.
- JsNumber.ToNumberIsExact: does not model rounding to the nearest double, because digits and exponent are taken as given.
- Agreement.AgreementExactly: speaks of servers that list exactly the links the model admits; `Agreement.ExplanationAgreesWithDecision` says what is left when a changed model no longer admits some stored tuples.
- EditFacts.EditChangesExactly: says nothing of parent relations without a type, which no fact mentions, nor of the order of lists, which `EditOrder.EditKeepsOrder` gives.
- TemplateExpansion.SubstitutionIsExpansion: one way only for a single event; `TemplateAgreement.AgreesExactly` is exact over all events, for templates without stray braces whose paths are plain.
- EventMapping.RetryConverges: assumes that permanent refusals stay the same between deliveries.

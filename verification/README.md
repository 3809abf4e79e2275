# Echo MCP: a verified model

Echo MCP lets a developer load one OpenAPI 3.0 contract, configure one HTTP response that
must be valid under that contract, and observe the requests that were answered with it. This
project models the parts where that promise is kept or lost, and proves what they promise.

* **The validator** (`Json`, `Pointers`, `Canonical`, `Schemas`, `Validation`, `Diagnostics`,
  `Keywords`, `Verdicts`, `References`, `Reach`). A schema is a record decoded from JSON; `$ref` jumps back into the
  raw document and a shared set of open references guards against cycles. The methods that
  carry the mutable set, the loops and the sorting are proved equal to one function,
  `Validate`; the theorems are about that function. Acceptance and mismatch are shown right
  against a separate definition of conformance (`Conforms`), in which references are unfolded
  to any depth and everything the program does not support has an arbitrary meaning. A third
  kind of outcome (cyclic, unresolved or non-local reference, unsupported construct, unknown
  type) decides nothing; for an unknown type this follows the text of the program's error, not
  its code, which is that of a mismatch. Termination on every document is part of the definition of `Validate`: the
  references of the document that are not open decrease with each reference followed.
* **Around it**: the load-time scan (`Scan`, `ScanReport`), route lookup (`Routes`), the
  verdict on a whole rule (`Contracts`), and what can be told from a contract before any rule
  is validated (`Decisions`). `Writing` writes schemas and contracts as JSON and shows that
  decoding reads them back, `Quiet` which of them have nothing to report; `SmallContracts`,
  `ScanLimits` and `Cycles` hold whole contracts that show where promises end.
* **The control plane and the data plane** (`Stores`, `Control`, `Server`, `Runs`,
  `SplitRuns`): classes for the store, the contract manager, the plane and the data-plane
  handler; runs in which requests are interleaved between their match step and their record
  step; and runs in which commands, too, are interleaved between their two critical sections.
* **The contract root** (`ContractPaths`): which files a load may read, for every behaviour of
  symbolic links.
* `Wrappers`, `Text`, `Sorting`: result types, string functions and sorted keys.

Parameters stand for what lies outside: which number literals fit a float64
(`floatFits`), what a response body decodes to (`parse`), the files and links that one load
finds (`Files`), the optional extra validator of the plane, what the webhook sender answers.

Five results are about limits of the code; each comes with the condition under which the
code does keep its promise.

* The scan decodes the document a second time, and a number literal beyond float64 makes that
  decoding fail; the report is then empty. `ScanLimits.OversizedNumberSilencesScan` is a whole
  contract that loads without a report and then turns a rule down for `oneOf`.
  `ScanReport.ReportIsRight` says exactly when the counts are the true ones, and
  `ScanReport.ZeroMeansSupported` that a count of 0 is then a promise about that feature.
* The scan does not look for `not`, which the validator refuses: `ScanLimits.NotIsNotCounted`
  is such a contract. `ScanReport.WhenSilenceIsKept` says, for documents with nothing to report,
  when a schema decoded from some part of the document, used by an operation or not, can make
  validation stop. `Decisions.WhenRulesAreTurnedDown` says it of rules: a contract turns some
  rule down for a feature exactly if a response schema that rules can meet leads to it.
* The scan counts every object that has a key, whether it is a schema or not:
  `ScanLimits.PropertyNameIsCounted` is a contract with a property named `oneOf` that loads with
  a report and never stops at an unsupported feature. `ScanReport.ReportCountsObjects` says which
  objects are counted, and `Quiet.QuietContractReportsNothing` which contracts have no report.
* The guard against cyclic references turns down every body that uses a recursive schema twice:
  `Cycles.CycleDecidesNothing` is a whole contract that allows one rule, forbids another and
  gives both the same error. `Decisions.RulesAreDecided` gives a condition on the schemas under
  which a contract accepts exactly the rules that it allows, and
  `Decisions.SilentContractDecides` what is left of it when a load reports nothing.
* A command has two critical sections. `SplitRuns.DisciplineIsNeeded` gives two runs of a
  configure and a load that overlap, after which a rule is served beside a contract that was
  not consulted: one with a stale flag, one with a stale judgement.
  `SplitRuns.BelongsThroughout` gives the exact condition, event by event, and
  `SplitRuns.DisciplineSuffices` a discipline that is enough.
  `SplitRuns.WholeCommandsAreDisciplined` shows that commands taken whole, as in `Runs`, are
  under it.

## Model

| member | source | states |
|---|---|---|
| Pointers.ResolveJsonPointer | internal/contract/openapi.go:490-519 | the token loop computes `Resolve`, on every document and pointer, failures included |
| Pointers.ResolveIsLocation | internal/contract/openapi.go:490-519 | whatever a pointer resolves to is a part of the document, at a location that is returned |
| Pointers.TwoPassesAreOneScan | internal/contract/openapi.go:500 | replacing all `~1` and then all `~0` is one left-to-right decode, for every string, lone tildes included |
| Pointers.PointerRoundTrip | internal/contract/openapi.go:490-519 | for every location of every document, the pointer written as in section 3 of RFC 6901 resolves to the value there |
| Canonical.PrintInjective | internal/contract/openapi.go:557-563 | two values have the same canonical text if and only if they are equal: numbers by literal, objects as unordered maps |
| Schemas.DecodeAddsNoRef | internal/contract/openapi.go:102-115 | every reference that a decoded schema can follow stands as a `$ref` string in the JSON it was decoded from |
| Schemas.ResolveAddsNoRef | internal/contract/openapi.go:474-488 | the target of a reference only mentions `$ref` strings of the document; with this the validator terminates on cyclic documents |
| Writing.SchemaRoundTrip | internal/contract/openapi.go:102-115 | every schema, written as JSON under the key names of the record with defaults left out, is decoded back to itself |
| Writing.WhenSchemasDecode | internal/contract/openapi.go:102-115 | an object decodes to a schema if and only if under each key of the record there is nothing, null or a value of the right kind; other keys and `additionalProperties` are free |
| Pointers.IndexSelects | internal/contract/openapi.go:506-513 | an array index with any leading zeros and a plus, or minus before zero, selects the element, and beyond the end nothing |
| Pointers.SelectionIsIndex | internal/contract/openapi.go:506-513 | nothing else selects an element of an array |
| Validation.IntegerLiterals | internal/contract/openapi.go:403-410 | a number literal counts as an integer exactly if it is the decimal numeral of a 64-bit integer, or `-0` |
| Validation.ValidateEnum | internal/contract/openapi.go:521-545 | comparing texts accepts exactly the members of the enum list, and anything if there is no list |
| Validation.ValidateAdditionalProperties | internal/contract/openapi.go:573-604 | no problem unless there are extra names; then none for `true`, the least extra name for `false`, unsupported for anything else |
| Validation.ValidateSchema | internal/contract/openapi.go:343-434 | the outcome is `Validate`, and the set of open references is left as it was, on every path; terminates on every document |
| Validation.ValidateReferencedSchema | internal/contract/openapi.go:453-472 | the same for a reference: opened for its target only, and closed again whether the target is missing, rejected or accepted |
| Validation.ResolveLocalSchemaRef | internal/contract/openapi.go:474-488 | gives the decoded target, or nothing when the pointer does not resolve or its target does not decode |
| Validation.ValidateObject | internal/contract/openapi.go:360-386 | required names, then properties, then extra names: the outcome is that of `ValidateMembers` whatever the iteration order of the maps |
| Validation.ValidateElements | internal/contract/openapi.go:387-398 | the outcome is that of the first rejected element |
| Keywords.ReferenceKeyword | internal/contract/openapi.go:454-458 | a reference is refused as non-local if and only if it is not `#/` followed by a pointer |
| Keywords.CompositionKeywords | internal/contract/openapi.go:436-451 | any composition keyword stops every value but a nullable null, and of several `oneOf`, `anyOf`, `allOf`, `not` the first is reported |
| Keywords.ObjectType | internal/contract/openapi.go:354-386 | with the type `object`, or with none and a `required` list or properties, accepted are exactly the objects with the required members, accepted properties, permitted extras and, if there is an enum, a place in it |
| Keywords.MissingMember | internal/contract/openapi.go:365-369 | the first missing member of the `required` list is reported, even if the schema has no other keyword |
| Keywords.NoType | internal/contract/openapi.go:415-416 | without a type, a `required` list and properties every value is accepted, whatever the other keywords |
| Keywords.ScalarTypes | internal/contract/openapi.go:399-431 | accepted are exactly the values of the named scalar type, 64-bit numerals for `integer`, that the enum permits; no value has an unknown type |
| Keywords.ArrayType | internal/contract/openapi.go:387-398 | accepted are exactly the permitted arrays all of whose elements are accepted |
| Diagnostics.ObjectReport | internal/contract/openapi.go:360-431 | what an object reports, said without iteration: first missing name of the list, else the report of the least failing property, else the least extra name, else the enum |
| Diagnostics.ArrayReport | internal/contract/openapi.go:387-431 | the same for an array: the report of the least rejected element, else the enum |
| Diagnostics.ReportHasWitness | internal/contract/openapi.go:343-472 | every rejection has a descent from the root to the reported place, where the value really has the reported problem; it is a cycle exactly if the reference there is local and open by the start or by this descent |
| Diagnostics.OpenedOnDescent | internal/contract/openapi.go:460-465 | the references open at the end of a descent are those open at its start and those it went through, so siblings and other elements open none |
| Diagnostics.OpenedIsBounded | internal/contract/openapi.go:460-465 | on a descent of any length, the open references are among the `$ref` strings of the document and the start schema, and no more than these |
| Diagnostics.ReportIsRelative | internal/contract/openapi.go:380-396 | where a value stands in the body changes nothing in the verdict but the beginning of the reported location |
| Diagnostics.DescentFollowsBody | internal/contract/openapi.go:380-396 | following the location of the end of a descent, in the value it starts with, leads to the value at its end |
| Diagnostics.ReportedPlaceIsInBody | internal/contract/openapi.go:236-239 | the location in the report of a response body exists in that body and holds a value with the reported problem |
| Verdicts.AcceptIsSound | internal/contract/openapi.go:343-472 | acceptance implies conformance under every meaning of the unsupported constructs, with as many unfoldings as references remained |
| Verdicts.MismatchIsSound | internal/contract/openapi.go:343-472 | an ordinary mismatch implies non-conformance under every meaning and every depth of unfolding |
| Verdicts.VerdictIsExact | internal/contract/openapi.go:236-241 | unless the outcome is cyclic, unresolved, non-local, unsupported or of an unknown type, acceptance and conformance are equivalent |
| Cycles.CycleDecidesNothing | internal/contract/openapi.go:460-462 | a whole contract with a recursive schema loads, turns two rules down with the same cyclic-reference error, and allows one of them while it forbids the other |
| References.GuardOnlyBlamesOpenRefs | internal/contract/openapi.go:460-471 | a smaller set of open references gives the same outcome, unless the larger one caused a cycle report at a reference that only it contains; so it never turns acceptance into rejection |
| References.FollowingIsInlining | internal/contract/openapi.go:344-346 | if the reachable references are local, resolvable and acyclic, the outcome, place and problem included, is that of the inlined schema, in which siblings of references are gone |
| References.RankedNeverBlamesRefs | internal/contract/openapi.go:453-472 | under the same condition no value is rejected for a reference |
| Reach.ReachIsExact | internal/contract/openapi.go:343-472 | from a schema, without any value, `Reaches` tells exactly which unsupported features some value makes validation stop at, references, order of properties and required properties included |
| Sorting.LeIsLexicographic | internal/contract/openapi.go:370-375 | the order of names in reports and ambiguities is the lexicographic one |
| Scan.SumInAnyOrder | internal/contract/openapi.go:714-716 | the sum over the members of an object does not depend on which is visited first |
| Scan.TallyCountsSites | internal/contract/openapi.go:696-722 | what the scan counts for a feature is the number of locations of the document whose object node has it |
| Scan.ScanValue | internal/contract/openapi.go:696-722 | the shared counts grow by that tally for each of the five features, whatever the order of map iteration, and never for `not` |
| ScanReport.ScanUnsupportedFeatures | internal/contract/openapi.go:685-694 | the reported counts are the tallies if all literals fit a float64, and otherwise all zero |
| ScanReport.ReportIsRight | internal/contract/openapi.go:685-694 | all reported counts are the true numbers of nodes if and only if every literal fits or there is nothing to report |
| ScanReport.NumbersFitEverywhere | internal/contract/openapi.go:687-689 | the second decoding succeeds if and only if the number literals at all locations fit |
| ScanReport.ReportCountsObjects | internal/contract/openapi.go:696-722 | key by key: the report counts exactly the objects with `oneOf`, `anyOf`, `allOf`, an `additionalProperties` that is no boolean, or a `$ref` string that is not `#/` and a pointer, and is 0 exactly without any |
| ScanReport.CountedAsRead | internal/contract/openapi.go:696-713 | on an object that decodes to a schema the scan counts what the validator reads: `additionalProperties` if present and not boolean, `$ref` if it stands there and is not local, the empty text included, and each composition key |
| Quiet.QuietContractReportsNothing | internal/contract/openapi.go:685-722 | a contract written from schemas without compositions, with references under `#/` and boolean `additionalProperties`, no name being one of the counted keys, loads and reports nothing |
| ScanReport.StopHasSite | internal/contract/openapi.go:436-456 | if validation against a schema of the document, of any value and through any references, stops at an unsupported feature, the document has that feature at a location that is returned |
| ScanReport.ZeroMeansSupported | internal/contract/openapi.go:436-456 | feature by feature, whatever the other counts: if the literals fit and the report shows none, no schema of the document, no value and no chain of references makes validation stop at it; `not` is excepted |
| ScanReport.WhenValidationStops | internal/contract/openapi.go:436-456 | for every document and feature: some value makes validation stop at it if and only if some part of the document decodes to a schema where it is the first thing met; for a schema under `additionalProperties`, if and only if the required properties there can pass |
| ScanReport.WhenSilenceIsKept | internal/contract/openapi.go:696-722 | if the literals fit and nothing is reported, validation against some part of the document that decodes to a schema can stop at an unsupported feature if and only if some part decodes to a schema with `not` that is no reference; a document without `not` is safe |
| ScanLimits.OversizedNumberSilencesScan | internal/contract/openapi.go:685-694 | a whole contract with `oneOf` and the literal `1e999` loads, nothing is reported, and a rule is turned down for `oneOf` |
| ScanLimits.NotIsNotCounted | internal/contract/openapi.go:696-722 | a whole contract with `not` loads, its literals fit, nothing is reported, and a rule is turned down for `not` |
| ScanLimits.PropertyNameIsCounted | internal/contract/openapi.go:704-716 | a contract whose schema has a property named `oneOf` loads, `oneOf` is reported, and no rule ever stops at an unsupported feature |
| Routes.PathMatches | internal/contract/openapi.go:311-333 | the loop decides `Matches`: equal segment counts and segment-wise agreement |
| Routes.MatchingIsSubstitution | internal/contract/openapi.go:311-341 | a template matches a path if and only if some non-empty slash-free values for its parameters give the path's segments |
| Routes.InstanceMatches | internal/contract/openapi.go:311-341 | every path written from an instance of a template matches the template |
| Routes.TemplateMatches | internal/contract/openapi.go:311-341 | a template written from literals and names in braces matches exactly the paths that have the same literals and any non-empty segment at the names |
| Routes.OddBracesAreLiteral | internal/contract/openapi.go:320-330 | `{}` and a brace without its partner match only themselves |
| Routes.PathSegments | internal/contract/openapi.go:335-341 | a path written from segments has these segments, with or without slashes at its ends |
| Routes.TemplateIsCandidate | internal/contract/openapi.go:262-274 | a written template is a candidate for exactly the other paths that agree with it, if it defines the method |
| Routes.LookupOfTemplate | internal/contract/openapi.go:248-284 | with one written template, lookup finds its operation for exactly the paths that agree with it and its own text, and otherwise the empty operation |
| Routes.FindOperation | internal/contract/openapi.go:248-284 | the exact key wins if it defines the method; else the only matching template that does, or all of them in order as an ambiguity, or the empty operation, whatever the map order |
| Contracts.ValidateResponseRule | internal/contract/openapi.go:192-242 | the verdict on a rule is `ValidateRule`: route, then status or default, then content type, then body |
| Contracts.JsonTypes | internal/contract/openapi.go:724-727 | a content type counts as JSON if and only if it spells `application/json` in any letter case between spaces, up to the end or the first semicolon |
| Contracts.WhenContentTypeIsWrong | internal/contract/openapi.go:215-224 | where JSON is offered, the content-type error is given to exactly the other content types, whatever the body |
| Writing.ContractRoundTrip | internal/contract/openapi.go:118-180 | a written contract loads with exactly its paths; a wrong version and the lack of any path, in this order, are what keeps it from loading |
| Writing.WhenDocumentsLoad | internal/contract/openapi.go:118-180 | a document loads if and only if `openapi` is a text that begins with `3.0.`, there is a path, and its members are of the right kinds down to the schemas |
| Contracts.RuleVerdictIsExact | internal/contract/openapi.go:192-242 | unless validation of the body stopped undecided, a rule is valid exactly if the contract defines its operation and status and its content type and body are as required |
| Contracts.LookupIsDefinition | internal/contract/openapi.go:248-284 | lookup finds an operation exactly if the contract defines it by exact path, or else by its only matching template |
| Contracts.AmbiguityListsTemplates | internal/contract/openapi.go:276-278 | an ambiguity lists, sorted and without repetition, all templates (at least two) that define the method and have an instance equal to the path |
| Contracts.LoadedSchemaFromDocument | internal/contract/openapi.go:134-180 | every schema that a loaded contract validates with is decoded from a part of the document that is scanned, or is empty |
| Contracts.RefusalWasReported | internal/contract/openapi.go:168-242 | a rule that a loaded contract turns down for an unsupported feature means that the document has it, and, if the literals fit and it is not `not`, that its reported count is positive |
| Contracts.SilentContractIsSupported | internal/contract/openapi.go:168-177 | a contract loaded without reported features, its literals fitting, never turns a rule down for an unsupported feature other than `not`, and for none at all if its document has no `not` |
| Decisions.WhenRulesAreTurnedDown | internal/contract/openapi.go:192-242 | if every value has a text, some rule is turned down for a feature if and only if the feature is reached from the JSON response schema of an operation under a lower-case method and a decimal status or `default` |
| Decisions.AcceptanceIsConformance | internal/contract/openapi.go:343-472 | against a schema whose references are local, resolvable and acyclic and which, with their targets, has known types only and no unsupported construct on the way of the validator, exactly the conforming values are accepted |
| Decisions.RulesAreDecided | internal/contract/openapi.go:192-242 | a contract all of whose response schemas are so accepts exactly the rules that it allows |
| Decisions.SilentContractDecides | internal/contract/openapi.go:168-242 | a contract that loads with nothing to report, whose literals fit and which has no `not`, with acyclic references and known types, accepts exactly the rules that it allows |
| Stores.Store.constructor | internal/state/store.go:43-45 | a new store has generation 0, no rule and empty logs |
| Stores.Store.Reset | internal/state/store.go:48-56 | rule and both logs are gone and the generation is one more, modulo 2^64 |
| Stores.Store.ConfigureResponseRule | internal/state/store.go:67-72 | the rule is replaced and nothing else changes |
| Stores.Store.HasResponseRule | internal/state/store.go:75-80 | tells whether a rule is stored |
| Stores.Store.MatchResponseRule | internal/state/store.go:83-95 | gives the stored rule if and only if both method and path are equal to its own |
| Stores.Append | internal/state/store.go:102 | the slice grows by the element, in its old storage or in new storage, and what it held before is unchanged |
| Stores.Store.RecordObservation | internal/state/store.go:98-103 | appends to the observations and changes nothing else |
| Stores.Store.RecordWebhookDeliveryObservation | internal/state/store.go:116-121 | appends to the deliveries and changes nothing else |
| Stores.Store.Observations | internal/state/store.go:106-113 | the log as it is now, in fresh storage |
| Stores.CopyThenCall | internal/state/store.go:98-131 | copies of both logs show the logs of that moment for good, whatever sequence of calls changes the store afterwards, although logs grow in place |
| Stores.Store.WebhookDeliveryObservations | internal/state/store.go:124-131 | the same for deliveries |
| Control.ContractManager.LoadOpenAPIContract | internal/control/contract_manager.go:195-254 | path, guard, mode, boundary and file are checked in this order; the new contract becomes active only on success, and the result then carries the counts of its scan and the warnings about them |
| Control.WhenCommandsLoad | internal/control/contract_manager.go:195-234 | a load succeeds if and only if the path is there, no rule is stored or it is forced, the text names a mode, the place is under the root and its document loads |
| Control.ModeTexts | internal/control/contract_manager.go:468-485 | no text and the words `strict`, `warn` and `off`, in any letter case and between spaces, name the modes, and no other text does |
| Control.LoadedTextDecides | internal/control/contract_manager.go:316-371 | from the text of a load to the judgement of a rule: with `strict` or none an invalid rule is refused with its verdict, with `warn` it passes with that violation, with `off` everything passes with a notice |
| Control.OverrideTextDecides | internal/control/contract_manager.go:328-371 | the same for the text of an override, where `off` needs a reason and any other text is an invalid mode |
| Control.WarningsAreTheReport | internal/control/contract_manager.go:433-455 | the warnings of a load name each feature with a positive reported count, with that count, once and in a fixed order, and no other |
| Control.RefusalWasAnnounced | internal/control/contract_manager.go:433-455 | whenever the loaded contract turns a rule down for a feature, the load had warned of it, unless the feature is `not` or the file has a literal beyond float64 |
| Control.ForceOnlySkipsTheGuard | internal/control/contract_manager.go:207-209 | a forced load does exactly what an unforced one does when no rule is stored |
| Control.ContractManager.UnloadOpenAPIContract | internal/control/contract_manager.go:289-313 | refused while a rule is stored, unless forced; otherwise the contract is gone and was the one reported |
| Control.ContractManager.ValidateResponseRule | internal/control/contract_manager.go:316-371 | strict refuses what warn lets pass with a warning; off needs a reason if it is an override; no contract, no check |
| Control.WhenRulesPass | internal/control/contract_manager.go:318-371 | a rule passes if and only if the mode that applies exists, the rule is valid under strict, and an override to off has a reason; one that passes without being valid leaves a warning |
| Control.OverrideIsReload | internal/control/contract_manager.go:328-347 | an override judges a rule as if the contract had been loaded in its mode, except that off passes exactly with a reason |
| Control.ModesAreOrdered | internal/control/contract_manager.go:318-371 | strict, warn and off accept more and more; warn accepts silently exactly what strict accepts, and warns with the violation that strict fails with |
| Control.LocalPlane.ConfigureResponseRuleWithValidation | internal/control/control.go:104-117 | the rule is stored exactly if both judgements succeed; otherwise the whole state is unchanged |
| Control.LocalPlane.LoadOpenAPIContract | internal/control/control.go:126-128 | the guard is given the presence of a rule in the state the load acts on; a failure leaves the whole state as it was |
| Control.LocalPlane.UnloadOpenAPIContract | internal/control/control.go:136-138 | the same for unload |
| Control.LocalPlane.SendWebhookEvent | internal/control/control.go:141-162 | without a sender, or when sending fails, the error is returned and nothing changes; else the delivery is appended and returned |
| Control.LocalPlane.Reset | internal/control/control.go:165-168 | the store is reset and the contract stays |
| Server.DataPlane.HandleDataPlane | internal/httpserver/server.go:43-69 | an uninterrupted request is answered from the stored rule and recorded, or answered 501 without a trace |
| Runs.CommandsAreSteps | internal/control/control.go:104-138 | what the commands do to the state is a step of the run model, with a result that is possible there |
| Runs.UninterruptedRequest | internal/httpserver/server.go:51-66 | the match step and the record step in a row have the effect of the handler |
| Runs.RefusalsLeaveNoTrace | internal/control/control.go:104-162 | any run without its refused commands and failed deliveries is still a possible run and ends in the same world |
| Runs.ContractWasLoaded | internal/control/control.go:126-168 | after any run the active contract is that of the last load or unload that was not refused, or the one at the start; resets and everything else have no part in it |
| Runs.RuleWasStored | internal/state/store.go:67-72 | the rule in force was stored by an event of the run, after which no rule was stored or removed |
| Runs.ContractStays | internal/control/contract_manager.go:207-209 | without force, the active contract cannot change between storing a rule and removing it |
| Runs.RuleBelongsToContract | internal/control/contract_manager.go:289-295 | after every run without force, with any overrides, the contract consulted for the rule in force is the active one, or both are absent; and if strict mode applied, the rule validates against it |
| SplitRuns.WholeCommandsAreDisciplined | internal/control/control.go:104-162 | every run of whole commands, each taken apart into its critical sections, is a disciplined run of sections that ends in the same world |
| SplitRuns.EffectsMakeTheWorld | internal/control/control.go:104-162 | however critical sections are interleaved, the world is the one made by the effects of the second sections, in their order, as whole events |
| SplitRuns.OverlapKeepsLogs | internal/state/store.go:48-121 | with commands and requests overlapping in any way, each log is what was recorded since the last reset, and each observation describes a rule that was stored |
| SplitRuns.BelongsThroughout | internal/control/control.go:104-138 | for every run of overlapping commands: the rule in force belongs to the active contract all the time if and only if each store happened while the judging contract was active and each swap while no rule was stored, or changed nothing |
| SplitRuns.DisciplineSuffices | internal/control/control.go:104-138 | without force it belongs all the time if no rule is stored between a flag read and its swap, and no contract is swapped between a judgement and its store, however else commands overlap |
| SplitRuns.AnswerStillHolds | internal/control/control.go:104-138 | under that discipline the answer that let the rule in force pass is the one that the active contract gives to the same rule and override; if strict mode applies, the rule validates |
| SplitRuns.OverlappingResponsesConform | internal/httpserver/server.go:51-58 | with commands overlapping under that discipline and requests overlapping with everything, without force and override and with strict contracts, each response served while a contract is active is allowed by it |
| SplitRuns.DisciplineIsNeeded | internal/control/control.go:104-128 | two runs without force, each breaking one half of the discipline only, in which a load succeeds and the rule is then served beside a contract that was not consulted |
| SplitRuns.ForbiddenRuleIsServed | internal/control/control.go:104-128 | in these runs the contract forbids the served rule, if the rule is for another method than the contract defines |
| Runs.ServedResponsesConform | internal/httpserver/server.go:51-58 | in every run without force and override and with strict contracts, each response served while a contract is active is allowed by it: operation, status, content type and conformance of the body |
| Runs.PendingWasMatched | internal/httpserver/server.go:51 | a request between its two steps carries the rule that was stored when it was matched |
| Runs.RepliesComeFromRules | internal/httpserver/server.go:51-58 | in any run a request is answered exactly if method and path are those of the rule in force, with its status, its content type if there is one, and its body, as an earlier event stored them |
| Runs.ObservationsDescribeRules | internal/httpserver/server.go:59-64 | whatever is interleaved, each logged observation has the method, path, id and status of a rule stored earlier in the run |
| Runs.LogsSinceReset | internal/state/store.go:48-121 | each log is exactly the sequence recorded since the last reset |
| Runs.GenerationCountsResets | internal/state/store.go:48-64 | the generation is the number of resets modulo 2^64 |
| ContractPaths.EvaluatePathForBoundary | internal/control/contract_path.go:101-121 | for every partial resolver the loop terminates and gives `BoundaryFrom` |
| ContractPaths.BoundaryIsLongestAncestor | internal/control/contract_path.go:101-121 | the result is the resolution of the longest resolvable ancestor-or-self followed by the remaining names, or the path if nothing resolves |
| ContractPaths.WithinRootIsPrefix | internal/control/contract_path.go:123-135 | the test on the relative path succeeds if and only if the root is a prefix, component by component |
| ContractPaths.CleaningFirstIsHarmless | internal/control/contract_path.go:64-76 | cleaning a relative path before joining it to the root names the same place as joining its components one by one |
| ContractPaths.Resolve | internal/control/contract_path.go:63-99 | computes `ResolveSpec`, errors included |
| ContractPaths.AbsoluteText | internal/control/contract_path.go:73-81 | an absolute text, between spaces, names its own components wherever the root is |
| ContractPaths.RelativeText | internal/control/contract_path.go:64-81 | a relative text goes up from the root once for each leading `..` and then down its names |
| ContractPaths.NoFile | internal/control/contract_path.go:64-71 | no text and `.` name no file |
| ContractPaths.NamedFileIsRead | internal/control/contract_path.go:82-98 | without links in the way the named file itself is read if it is under the root, and refused otherwise |
| ContractPaths.AdmittedName | internal/control/contract_path.go:86-98 | a place under the root is reported by a name without `..` that, joined to the root, is the place |
| ContractPaths.ResolveStaysInRoot | internal/control/contract_path.go:63-99 | whatever the links do, success means that the file read is under the root and the reported name leads to it; and nothing under the root is refused |
| ContractPaths.NameIsInside | internal/control/contract_path.go:131-134 | a plain file name that is no link is inside the root, also when it begins with two dots or does not exist yet |

## Left out

- Parsing: files and response bodies enter as parsed trees (or as unreadable, not JSON, several values). Keys are matched exactly and a map has each key once, while the decoder of the program also matches keys that differ in case and takes the last of repeated keys.
- The range of float64: `floatFits` is an arbitrary predicate on number literals.
- The error for an enum entry that is not JSON: it cannot arise, because the entries come from a parsed document.
- Case folding outside ASCII, but for the two characters whose lower case is an ASCII letter.
- Byte lengths: strings are sequences of Unicode scalar values, sorted by code point, which is the order of their UTF-8 bytes.
- The nil receivers and nil state that some methods tolerate: they are never passed inside the program.
- Metadata counts, default contract ids, load times, message texts, suggested actions and capability tables.
- Finding and checking the contract root itself, and Windows paths.
- Sending webhooks: what the sender answers, a delivery or an error, is arbitrary.
- The HTTP server, logging, the MCP tools and process start-up; a contract loaded at start-up is part of the initial state of a run.
- Interleaving inside a locked operation of the store or the manager: each is one step.
- Percent-decoding of reference fragments and the stricter array indices of RFC 6901: the code accepts signs and leading zeros, and so does the model.

# Verified models of pickle-spec's hard core

pickle-spec runs Gherkin specifications against browsers and mobile devices, keeps the resolved
actions as execution plans, caches them, and reports runs. This project models the parts of it
whose correctness is not visible from one function, and proves what those parts are for.

Each module follows one source file or component:

- **Sharding, ShardingHistory** split a selection over shards by past duration (longest first, each
  to the least loaded shard) or by position. The shards partition the selection, and the recorded
  time of the duration shards is within Graham's bound of any other split.
- **JsonText, JsonGrammar, JsonParser, JsonRoundTrip, JsonSpelling, JsonAcceptance, JsonWriting,
  CanonicalJson, CanonicalOrder, PlanRevisions** are the unique-key JSON parser of the plan files,
  which accepts exactly the texts that spell a value (RFC 8259 sections 2 to 7; unique member names
  as in section 2.3 of RFC 7493), and the canonical text that every plan digest rests on.
- **WebPlan, WebPlanValidator, WebPlanSecrets** are the editor that replaces one locator of a web
  plan, the validator that replays a candidate's edits on the baseline, and exactly what both refuse.
- **MobileScript, MobileExecutionCache, MobileAcceptance, MobileLines, MobileVariables,
  MobilePlacement, MobileMeaning, MobileRuntime, MobileEnvironment, MobileReplay** are the compiler from a scenario to a device script
  and the cache that validates scripts before replay: exactly which scenarios compile to an accepted
  script, and exactly when a line of the script, with the compiled environment, does what its step
  asks for. Context and action
  steps always do; an outcome step does unless one of its values, or a quote in a name that it uses,
  changes what is checked.
- **PlanLock, SelectionStore, ValidationStore** are the lock file, and the compare-and-swap and
  publishing protocols of the plan stores, as steps of any number of writers over an abstract file
  system that can be stopped between any two operations.
- **RunCoordinator** lets one of many runs evaluate a cache miss under a lease; **RunPool** is the
  bounded worker pool.
- **SourceDiff** is the line diff by a longest-common-subsequence table.
- **JsonComments** strips comments from configuration text; **TagExpression, TagMeaning, TagPrinting,
  TagParentheses** are the tag-expression tokenizer, parser and evaluator.
- **Diagnostics, DiagnosticsRouting, DiagnosticsConservation, DiagnosticsAttribution** are the buffer
  that attaches application output to scenarios; **RunComparison, RunDifferences** match the results of two runs;
  **SourceOperations** applies text replacements.

Code that loops or updates fields is a method or a class, proved against a function that says what
it computes; the properties are then lemmas about that function. The protocols are transition
functions over runs of steps, and their properties hold of every reachable state. Beside the results
about a function stand lemmas that say what it computes in other terms: spellings, places and
quantifiers over the input instead of the function's own helpers.

Where the code does not keep a promise on every input, a lemma gives an input that shows it, and
another says exactly when the promise is kept, or exactly what is lost:

- A stale lock is unlinked without a new look at it, so two writers can both publish on one expected
  digest (`SelectionStore.StaleLockRace`). A step keeps the lock exactly when it is careful
  (`PlanLock.StepKeepsLockExactlyWhen`); no careless step exists while lock holders do not exit.
- A run whose lease expires can start an evaluation although a newer revision is there
  (`RunCoordinator.ExpiredLeaseEvaluatesStale`): exactly when another run published between its read
  and its start (`RunCoordinator.StaleExactlyWhenOvertaken`).
- An outcome step with the value `"`, with a value that starts with a space, with one that holds
  ` = `, or with the name `a"` is replayed as another check than the step asks for
  (`MobileRuntime.QuoteChangesTheCheck`, `SpaceChangesTheCheck`, `SeparatorChangesTheCheck`,
  `NameChangesTheCheck`); `MobileRuntime.DoesWhatIsAskedExactlyWhen` and
  `MobileReplay.StepIsReplayedExactlyWhen` are the condition, a comparison of the step's texts. For a
  step that compiles to a selector: no value that it uses has a quote or a backslash, and the values
  of quoted names make no difference to its text.
- A step text that spells out `${x}` compiles to a script that the cache refuses
  (`MobileReplay.LiteralPlaceholderIsRefused`); a scenario is accepted exactly when each `${` in its
  texts starts the placeholder of a binding (`MobileReplay.TextsAcceptedExactlyWhen`).
- Count-based shards overlap (`Sharding.OneKeyInTwoShards`): exactly when a key repeats at positions
  that differ modulo the number of shards (`Sharding.ShardsDisjointExactlyWhen`).
- A stray closing parenthesis is read as a tag (`TagPrinting.StrayParenthesisIsATag`), and an accepted
  expression reprints to its tree exactly when it has as many opening as closing parentheses
  (`TagParentheses.AcceptedReprintsExactlyWhen`).
- A scope that starts again while active loses a line (`DiagnosticsConservation.RestartLosesALine`):
  exactly those it held (`DiagnosticsConservation.RestartLosesWhatWasHeld`).
- Comparing runs of which only some results have ids can miss a pair
  (`RunComparison.MixedIdsCanMissAPair`); the matching is always largest exactly when compatibility
  is rectangular (`RunComparison.LargestExactlyWhenRectangular`).
- An insertion that is listed before a replacement at its offset is overwritten
  (`SourceOperations.InsertionIsOverwritten`); `SourceOperations.SplicesExactlyWhen` says which spans
  keep off each other. Texts inserted at one offset come out in reverse
  (`SourceOperations.EqualStartsReverse`).
- Sources that differ in their newlines alone have a diff that shows no change
  (`SourceDiff.NewlineStyleIsNotShown`, `SourceDiff.NoChangeShownExactlyWhen`).

## Model

| member | source | states |
|---|---|---|
| Sharding.LeastLoadedShard | packages/spec/src/selection/sharding.ts:70-77 | the shard with the smallest total, the first one among equals |
| Sharding.DurationAssignments | packages/spec/src/selection/sharding.ts:79-91 | the loop over the ranked selections gives each key the shard of the greedy assignment; a repeated key keeps its last shard |
| Sharding.RankingSorts | packages/spec/src/selection/sharding.ts:48-68 | the ranking is a permutation of its input with descending durations, whatever the locale order of equal durations is |
| Sharding.MedianWithinBounds | packages/spec/src/selection/sharding.ts:30-37 | the fallback duration lies within any bounds of the recorded durations |
| Sharding.MedianHalves | packages/spec/src/selection/sharding.ts:30-37 | the fallback duration is a median: at most half of the recorded durations lie below it and at most half above |
| Sharding.LoadsAddUp | packages/spec/src/selection/sharding.ts:79-91 | the loads of the shards sum to the whole work, for any assignment |
| Sharding.ListSchedulingBound | packages/spec/src/selection/sharding.ts:70-91 | m times any load is at most the sum of durations plus m - 1 times the longest, for a list in any order |
| Sharding.LongJobFits | packages/spec/src/selection/sharding.ts:64-91 | when the last of a descending list is longer than a third of a feasible capacity, the greedy stays within that capacity |
| Sharding.LongestFirstBound | packages/spec/src/selection/sharding.ts:64-91 | every greedy load is within 4/3 - 1/(3m) of the capacity of any other assignment |
| Sharding.ShardWorkIsLoad | packages/spec/src/selection/sharding.ts:79-107 | the work of the selections a shard returns is the load the greedy gave it |
| Sharding.DurationShardsAreBalanced | packages/spec/src/selection/sharding.ts:64-107 | the selections a duration shard returns take at most 4/3 - 1/(3 total) of the capacity of any other split |
| Sharding.ShardInOriginalOrder | packages/spec/src/selection/sharding.ts:109-121 | a shard returns a subsequence of the selection: every occurrence of what it takes and nothing else |
| Sharding.TakenByCount | packages/spec/src/selection/sharding.ts:39-46 | without history a key is taken exactly when it stands at a position of the shard's residue |
| Sharding.TakenByHistory | packages/spec/src/selection/sharding.ts:93-107 | with history each shardable key is taken by exactly the one shard assigned to it, even when keys repeat |
| Sharding.OnlyShardableKeys | packages/spec/src/selection/selection.ts:152-162 | a key that no shardable scenario has is never taken |
| Sharding.EveryShardableIsTaken | packages/spec/src/selection/sharding.ts:39-46 | every shardable key is taken by some shard, whatever keys repeat |
| Sharding.ShardsDisjointExactlyWhen | packages/spec/src/selection/sharding.ts:93-121 | shards are disjoint exactly when history is used or repeated keys agree modulo the number of shards |
| Sharding.OneKeyInTwoShards | packages/spec/src/selection/sharding.ts:39-46 | two scenarios with one key, at the first two positions, are both run by both of two shards |
| Sharding.ShardsPartition | packages/spec/src/selection/sharding.ts:93-121 | with distinct keys each shardable scenario is returned by exactly one shard, and an ignored one by none |
| ShardingHistory.LookupIsRecord | packages/spec/src/selection/sharding.ts:48-59 | the lookup of a key gives a duration exactly when the history has that record for it |
| ShardingHistory.MedianExactly | packages/spec/src/selection/sharding.ts:30-37 | the fallback duration is the value in the middle of the sorted durations, or halfway between the two in the middle, and no other; 0 without any |
| ShardingHistory.CostIsDuration | packages/spec/src/selection/sharding.ts:48-59 | a scenario is ranked with its recorded duration, or with the median when it has none |
| ShardingHistory.HistoryIsUsedExactlyWhen | packages/spec/src/selection/sharding.ts:60-63 | durations decide exactly when some shardable scenario has a recorded one |
| ShardingHistory.RecordedTimeIsBalanced | packages/spec/src/selection/sharding.ts:48-107 | the recorded durations that a shard gets, with the median for scenarios without one, add up to at most 4/3 - 1/(3 total) of the capacity of any other split |
| ShardingHistory.RankedByDurationAndKey | packages/spec/src/selection/sharding.ts:64-67 | in the ranking a longer scenario comes first, and of equally long ones the one with the earlier key in the locale |
| JsonParser.UniqueKeyJsonParser.Parse | packages/runner/src/execution-plans/execution-plan-json.ts:23-29 | the whole text is one value between spaces, read as the grammar reads it, or its first fault |
| JsonParser.UniqueKeyJsonParser.ParseValue | packages/runner/src/execution-plans/execution-plan-json.ts:31-51 | value and new offset are those of the grammar on the text that is left |
| JsonParser.UniqueKeyJsonParser.ParseLiteral | packages/runner/src/execution-plans/execution-plan-json.ts:31-51 | the literal that the text starts with, if any, with the offset after it |
| JsonParser.UniqueKeyJsonParser.ParseObject | packages/runner/src/execution-plans/execution-plan-json.ts:53-66 | the members up to the closing brace, with the offset after it |
| JsonParser.UniqueKeyJsonParser.ParseObjectProperty | packages/runner/src/execution-plans/execution-plan-json.ts:68-86 | one member, refusing a name that was seen before |
| JsonParser.UniqueKeyJsonParser.FinishObjectProperty | packages/runner/src/execution-plans/execution-plan-json.ts:88-98 | whether the object ends or goes on |
| JsonParser.UniqueKeyJsonParser.ParseArray | packages/runner/src/execution-plans/execution-plan-json.ts:100-119 | the items up to the closing bracket, with the offset after it |
| JsonParser.UniqueKeyJsonParser.ParseString | packages/runner/src/execution-plans/execution-plan-json.ts:121-134 | the string up to the first quote that no backslash escapes |
| JsonParser.UniqueKeyJsonParser.ParseNumber | packages/runner/src/execution-plans/execution-plan-json.ts:136-147 | the longest number, with fraction and exponent, refused beyond the safe integers |
| JsonParser.UniqueKeyJsonParser.SkipWhitespace | packages/runner/src/execution-plans/execution-plan-json.ts:149-151 | moves over exactly the four JSON white-space characters |
| JsonRoundTrip.ReadWrittenString | packages/runner/src/execution-plans/execution-plan-json.ts:121-134 | a written string, with escapes and unpaired surrogates, reads back as itself whatever follows |
| JsonRoundTrip.ReadWrittenNumber | packages/runner/src/execution-plans/execution-plan-json.ts:136-147 | every written safe integer, and every written decimal in its range, reads back as itself |
| JsonRoundTrip.NormalIsExact | packages/runner/src/execution-plans/execution-plan-json.ts:136-147 | the number of a text is the decimal it spells, as an integer whenever it is one |
| JsonRoundTrip.ReadWrittenValue | packages/runner/src/execution-plans/execution-plan-json.ts:31-119 | every written value reads back as itself and leaves the rest |
| JsonRoundTrip.ParseUndoesStringify | packages/runner/src/execution-plans/execution-plan-json.ts:23-156 | parsing a written value gives it back and uses all input |
| JsonRoundTrip.ParsedIsWellFormed | packages/runner/src/execution-plans/execution-plan-json.ts:53-86 | nothing that is accepted repeats a member name or holds an unsafe number, at any depth |
| JsonSpelling.SpelledStringIsRead | packages/runner/src/execution-plans/execution-plan-json.ts:121-134 | every spelling of a string is read as that string: any escape, and hexadecimal digits in either case |
| JsonSpelling.ReadStringIsSpelled | packages/runner/src/execution-plans/execution-plan-json.ts:121-134 | whatever is read as a string spells it |
| JsonSpelling.SpelledNumberIsRead | packages/runner/src/execution-plans/execution-plan-json.ts:136-147 | every spelling of a number in range is read as its exact decimal |
| JsonSpelling.ReadNumberIsSpelled | packages/runner/src/execution-plans/execution-plan-json.ts:136-147 | whatever is read as a number spells it |
| JsonAcceptance.ParsesExactlyWhenSpelled | packages/runner/src/execution-plans/execution-plan-json.ts:23-156 | a text parses to a value exactly when it spells it, with white space around any part, and the value repeats no name and holds no number out of range |
| JsonAcceptance.NumberAcceptedExactlyWhen | packages/runner/src/execution-plans/execution-plan-json.ts:141-146 | a spelled number is accepted exactly when it is at most 2^53 - 1 either way |
| JsonWriting.WrittenSpells | packages/runner/src/execution-plans/execution-plan-json.ts:229-231 | what is written spells the value |
| JsonWriting.UnitIsWrittenShort | packages/runner/src/execution-plans/execution-plan-json.ts:229-231 | a unit is written in its shortest spelling, in lower case, and a surrogate without a partner is escaped |
| JsonWriting.WrittenIsCompact | packages/runner/src/execution-plans/execution-plan-json.ts:229-231 | an array or object is written without room for white space |
| JsonWriting.ExponentExactlyWhen | packages/runner/src/execution-plans/execution-plan-json.ts:229-231 | a decimal is written with an exponent exactly when it is below a millionth |
| CanonicalJson.KeyOrder | packages/runner/src/execution-plans/execution-plan-json.ts:193-199 | the order of keys (integer-like first) is a strict total order |
| CanonicalJson.OrderIsUnique | packages/runner/src/execution-plans/execution-plan-json.ts:193-199 | members have one ordered list |
| CanonicalJson.ParseUndoesCanonical | packages/runner/src/execution-plans/execution-plan-json.ts:229-231 | canonical text parses to the canonical value, which is the original up to key order |
| CanonicalJson.CanonicalTwice | packages/runner/src/execution-plans/execution-plan-json.ts:172-203 | canonical form is stable |
| CanonicalJson.SameTextExactlyWhenSameValue | packages/runner/src/execution-plans/execution-plan-json.ts:229-231 | two values have the same canonical text exactly when they are equal up to key order |
| CanonicalJson.DigestIdentifiesValue | packages/runner/src/execution-plans/execution-plan-json.ts:233-235 | two values have the same plan digest exactly when they are equal up to key order |
| CanonicalJson.AcceptedMatchesDigest | packages/runner/src/execution-plans/execution-plan-json.ts:252-269 | a file accepted under an id holds the content that the id is the digest of |
| CanonicalJson.StoredRevisionReadsBack | packages/runner/src/execution-plans/execution-plan-json.ts:245-281 | a created revision, serialized and parsed under its id, is accepted with its id and content |
| CanonicalOrder.CanonicalIsInOrder | packages/runner/src/execution-plans/execution-plan-json.ts:193-199 | in every object of a canonical value array-index keys come first, by their value, and then the others, each a proper prefix of the next or smaller at the first unit where they differ |
| PlanRevisions.DocumentIsLine | packages/runner/src/execution-plans/execution-plan-json.ts:279-281 | a stored document is the canonical value on one line that ends in a line feed |
| PlanRevisions.CreatedExactlyWhen | packages/runner/src/execution-plans/execution-plan-json.ts:245-250 | a revision is made exactly of content that fits the schema and has no id, and gets the digest of its canonical text |
| PlanRevisions.RevisionAcceptedExactlyWhen | packages/runner/src/execution-plans/execution-plan-json.ts:252-269 | a text is accepted exactly when it spells an object of such a content and an id that is its digest and the id asked for |
| PlanRevisions.RevisionRefusedAs | packages/runner/src/execution-plans/execution-plan-json.ts:252-269 | it is refused as no JSON exactly when it spells no value, and for its digest exactly when it holds a revision of another id |
| WebPlan.ReplaceChangesOneLocator | packages/web/src/execution-cache/web-plan-editor.ts:166-193 | a successful edit changes the expected instruction's locator, with required variables only; every other instruction is as it was, and the plan stays valid |
| WebPlan.OnlyLocatorEditsKeepRoles | packages/web/src/execution-cache/web-cache-instructions.ts:68-78 | changing locators keeps every step's instructions valid for its step type |
| WebPlan.EditChain | packages/web/src/execution-cache/web-plan-editor.ts:89-193 | any chain of successful edits changes locators only and keeps the plan valid with known variables |
| WebPlanValidator.ReconstructCandidate | packages/web/src/execution-cache/web-plan-validator.ts:72-148 | the nested loops replay each changed locator as an edit of what was rebuilt so far |
| WebPlanValidator.ReconstructionExact | packages/web/src/execution-cache/web-plan-validator.ts:72-148 | the replay succeeds exactly on candidates that differ in allowed locators only, and then rebuilds the candidate |
| WebPlanValidator.ValidateCandidate | packages/web/src/execution-cache/web-plan-validator.ts:150-221 | the checks in their order, with the first reason to refuse |
| WebPlanValidator.ValidationExact | packages/web/src/execution-cache/web-plan-validator.ts:150-221 | a candidate is accepted exactly when it is well shaped and differs in allowed locators only; its assertion basis is the baseline's |
| WebPlanValidator.EditedPlanIsAccepted | packages/web/src/execution-cache/web-plan-validator.ts:150-221 | what any chain of successful edits makes of an acceptable baseline is accepted, unaltered |
| WebPlanValidator.AcceptedExactlyWhenEdited | packages/web/src/execution-cache/web-plan-validator.ts:72-221 | a candidate is accepted exactly when some chain of edits leads to it |
| WebPlanSecrets.SensitiveExactlyWhen | packages/web/src/execution-cache/web-plan-editor.ts:42-43 | a name is sensitive exactly when one of the nine words stands somewhere in it, in any case |
| WebPlanSecrets.EditSucceedsExactlyWhen | packages/web/src/execution-cache/web-plan-editor.ts:89-193 | an edit of a valid plan succeeds exactly when it names, with its digest, an action that enters no variable with such a name, and brings a locator with known variables; the action stays the same at the new locator |
| WebPlanSecrets.EditRefusedAs | packages/web/src/execution-cache/web-plan-editor.ts:89-163 | which of the three reasons refuses an edit |
| WebPlanSecrets.InstructionExactlyWhen | packages/web/src/execution-cache/web-cache-schema.ts:3-83 | an instruction is valid exactly when each of its templates has segments and well formed names |
| WebPlanSecrets.RolesExactly | packages/web/src/execution-cache/web-cache-instructions.ts:55-78 | an outcome step only checks, after at most one navigation; any other step never checks |
| WebPlanSecrets.CandidateAcceptedExactlyWhen | packages/web/src/execution-cache/web-plan-validator.ts:60-221 | a candidate is accepted exactly when it and the baseline fit the scenario, it is complete, and each instruction is the baseline's or the same action, without a secret, at another locator |
| WebPlanSecrets.CandidateRefusedAs | packages/web/src/execution-cache/web-plan-validator.ts:150-221 | which of the three reasons refuses a candidate |
| WebPlanSecrets.BasisExactly | packages/web/src/execution-cache/web-plan-validator.ts:40-54 | the assertion basis lists every instruction that is no action, with its place, in the order of the plan |
| WebPlanSecrets.SecretsStayInPlace | packages/web/src/execution-cache/web-plan-validator.ts:72-148 | a candidate that changes anything in an instruction that enters a secret is refused |
| MobileExecutionCache.HasValidRanges | packages/mobile/src/execution-cache/mobile-execution-cache.ts:64-71 | true exactly when the ranges start after plan step 1, are not empty, and follow each other without overlap |
| MobileExecutionCache.ScriptVariables | packages/mobile/src/execution-cache/mobile-execution-cache.ts:73-87 | the distinct placeholder names in order, or nothing when one is malformed or reserved |
| MobileExecutionCache.CheckExactVariables | packages/mobile/src/execution-cache/mobile-execution-cache.ts:138-154 | true exactly when the script's variables are those of the required names, which are well formed and distinct |
| MobileExecutionCache.Parse | packages/mobile/src/execution-cache/mobile-execution-cache.ts:183-208 | returns the payload exactly when all checks hold |
| MobileAcceptance.ScriptExactly | packages/mobile/src/execution-cache/mobile-execution-cache.ts:93-122 | a script is supported exactly when its lines are the context of the platform, once, the line that opens the application, and waits, clicks, state checks and text comparisons with quoted arguments |
| MobileAcceptance.VariablesExactly | packages/mobile/src/execution-cache/mobile-execution-cache.ts:73-154 | the variables are exact exactly when the names are distinct and well formed and the placeholders that the script has are their variables and no others |
| MobileAcceptance.PayloadAcceptedExactlyWhen | packages/mobile/src/execution-cache/mobile-execution-cache.ts:183-208 | a payload is accepted exactly when script and variables are so and its ranges count the operations from plan step 2 on |
| MobileLines.WrittenIsQuoted | packages/mobile/src/execution-cache/mobile-execution-cache.ts:51-62 | any string as JSON.stringify writes it is one quoted argument, whatever follows |
| MobileLines.LineIsOperation | packages/mobile/src/agent-device/mobile-ad-script.ts:168-181 | every operation line is one of the supported lines |
| MobileLines.OpenLineOpens | packages/mobile/src/execution-cache/mobile-execution-cache.ts:93-112 | the open line names the application, whatever its id |
| MobileLines.ScriptIsSupported | packages/mobile/src/execution-cache/mobile-execution-cache.ts:93-122 | every compiled script splits into its lines again and is supported, whatever the texts are |
| MobileVariables.ContainedIsFound | packages/mobile/src/execution-cache/mobile-execution-cache.ts:73-87 | a placeholder that occurs is matched, unless an earlier match runs over it |
| MobilePlacement.ReplacedIsPlacedExactlyWhen | packages/mobile/src/agent-device/mobile-ad-script.ts:58-69 | replacing variables leaves `${` only at placeholders of the names exactly when the text has it only there |
| MobilePlacement.SelectorIsPlacedExactlyWhen | packages/mobile/src/agent-device/mobile-ad-script.ts:71-73 | an escaped selector has `${` only at placeholders of the names exactly when its text has |
| MobilePlacement.ArgumentIsPlaced | packages/mobile/src/execution-cache/mobile-execution-cache.ts:73-87 | when all that the pattern matches in the script is placeholders of the names, a quoted argument has `${` only at those |
| MobileVariables.WrittenIsWellPlaced | packages/mobile/src/agent-device/mobile-ad-script.ts:54-69 | quoting keeps every placeholder in place and makes no other |
| MobileVariables.ExactVariablesAreAll | packages/mobile/src/execution-cache/mobile-execution-cache.ts:138-154 | with exact variables the script's placeholders are those of the required names, every one and no other |
| MobileVariables.ExactVariablesWhen | packages/mobile/src/execution-cache/mobile-execution-cache.ts:138-154 | the used names are exact exactly when they are acceptable and every placeholder is that of a binding |
| MobileReplay.AcceptedExactlyWhen | packages/mobile/src/agent-device/mobile-ad-script.ts:234-289 | a compiled scenario is accepted exactly when it has a step, its used names are acceptable, and every placeholder is that of a binding |
| MobileReplay.TextsAcceptedExactlyWhen | packages/mobile/src/agent-device/mobile-ad-script.ts:234-289 | with acceptable binding names and every `${` closed within its text, a scenario compiles to an accepted payload exactly when it has a step and each `${` in its texts starts the placeholder of a binding |
| MobileReplay.CompilerOutputIsAccepted | packages/mobile/src/agent-device/mobile-ad-script.ts:234-289 | a scenario with a step, no `${` in its texts and acceptable binding names compiles to an accepted payload |
| MobileReplay.ForeignPlaceholderIsRefused | packages/mobile/src/execution-cache/mobile-execution-cache.ts:138-154 | a placeholder in the script that no binding gives makes the cache refuse it |
| MobileReplay.LiteralPlaceholderIsRefused | packages/mobile/src/agent-device/mobile-ad-script.ts:58-69 | an action whose text is `${x}` compiles to a refused script |
| MobileReplay.PayloadHidesRuntimeValues | packages/mobile/src/agent-device/mobile-ad-script.ts:140-181 | the payload depends on the templates and names only, not on the values or on texts made with them, but for their shape as assertions |
| MobileReplay.PlanStepIsScenarioStep | packages/mobile/src/agent-device/agent-device-gateway.ts:40-54 | of any accepted payload, plan step i + 2 is scenario step i; earlier ones are the first step and later ones the last |
| MobileReplay.DivergenceIsReportedAtItsStep | packages/mobile/src/agent-device/agent-device-gateway.ts:67-91 | a divergence at plan step i + 2 is reported as i passed steps and a diverged one |
| MobileMeaning.SaysOneThing | packages/mobile/src/execution-cache/mobile-execution-cache.ts:51-62 | a supported line says one command at most |
| MobileAcceptance.SaysExactly | packages/mobile/src/execution-cache/mobile-execution-cache.ts:51-62 | a line says a command exactly when it is the command's words with quoted arguments that spell its texts |
| MobileMeaning.LineSays | packages/mobile/src/agent-device/mobile-ad-script.ts:168-181 | read back, an operation's line says its command with its exact texts |
| MobileMeaning.ExpandUndoesReplacing | packages/mobile/src/agent-device/mobile-ad-script.ts:58-69 | a compiled text with the environment's values in its placeholders is the template with the bound values |
| MobileMeaning.ExpandedOperation | packages/mobile/src/agent-device/mobile-ad-script.ts:75-138 | with the values in its placeholders, a compiled command is the one compiled from the template with the bound values in it |
| MobileMeaning.ReplaysWhatItSays | packages/mobile/src/agent-device/mobile-ad-script.ts:168-181 | the line of an operation replays a command exactly when its own command expands to it |
| MobileRuntime.SelectorStaysExactlyWhen | packages/mobile/src/agent-device/mobile-ad-script.ts:71-93 | the selector of the template with the values is the selector of the text with the values exactly when no value used has a quote or a backslash and leaving quoted names unreplaced gives the same text |
| MobileRuntime.SelectorStaysForAcceptableNames | packages/mobile/src/agent-device/mobile-ad-script.ts:71-93 | with names that the cache accepts, exactly when no value used has a quote or a backslash |
| MobileRuntime.TrimmedExactlyWhen | packages/mobile/src/agent-device/mobile-ad-script.ts:51-52 | what follows the spaces of an assertion is its body exactly when it does not start with a space itself, or is one space |
| MobileRuntime.ArgumentsAgreeExactlyWhen | packages/mobile/src/agent-device/mobile-ad-script.ts:75-138 | the compiled command with the values is the one with the runtime arguments exactly when the selector stays, the body needs no trimming, or the trimmed body is split where the template is |
| MobileRuntime.DoesWhatIsAskedExactlyWhen | packages/mobile/src/agent-device/mobile-ad-script.ts:75-138 | the template's command with the values is what the step asks for, read from its own text, exactly when template and text assert and separate alike and the arguments stay, or the text asserts just the selector |
| MobileRuntime.NoneSpellsSelector | packages/mobile/src/agent-device/mobile-ad-script.ts:71-93 | when quoted names make no difference, no text can assert its own selector |
| MobileRuntime.LineReplaysExactlyWhen | packages/mobile/src/agent-device/mobile-ad-script.ts:75-181 | the line of a compiled step replays what the step asks for in exactly those cases |
| MobileRuntime.QuoteChangesTheCheck | packages/mobile/src/agent-device/mobile-ad-script.ts:71-93 | an outcome step with the value `"` is compiled to another selector than its runtime argument |
| MobileRuntime.NameChangesTheCheck | packages/mobile/src/agent-device/mobile-ad-script.ts:58-93 | an outcome step with the name `a"` keeps its tag in the selector, where the name is escaped |
| MobileRuntime.BackslashNameCanAgree | packages/mobile/src/agent-device/mobile-ad-script.ts:58-93 | with a second name that is the escaped first one, the selectors can agree by what its value happens to be |
| MobileRuntime.QuotedNameCanSpellItsSelector | packages/mobile/src/agent-device/mobile-ad-script.ts:75-93 | a quoted name with the value `visible:` and its own selector is replayed as asked |
| MobileRuntime.SpaceChangesTheCheck | packages/mobile/src/agent-device/mobile-ad-script.ts:51-52 | `visible:<x>` with a value that starts with a space checks another text |
| MobileRuntime.SeparatorChangesTheCheck | packages/mobile/src/agent-device/mobile-ad-script.ts:109-137 | `text:<x> = b` with a value that holds ` = ` is split elsewhere |
| MobileReplay.StepIsReplayedExactlyWhen | packages/mobile/src/agent-device/mobile-ad-script.ts:234-289 | line i + 2 of the script, with the compiled environment, replays what step i asks for exactly when its values leave its form and arguments alone, and always for context and action steps, whatever the names |
| MobileEnvironment.EnvironmentGivesLast | packages/mobile/src/agent-device/mobile-ad-script.ts:274-276 | entry i of the environment, split at its first `=`, is the variable of required name i and the value of the last binding of that name |
| MobileReplay.CompiledEnvironmentSuffices | packages/mobile/src/agent-device/agent-device-gateway.ts:225-232 | with the compiled environment every line of the script replays what it replays with the values of all bindings |
| PlanLock.LockedIsExclusive | packages/runner/src/execution-plans/local-plan-files.ts:257-298 | at most one live writer is in the section of a kept lock |
| PlanLock.StepKeepsLockExactlyWhen | packages/runner/src/execution-plans/local-plan-files.ts:226-245 | a step keeps the lock exactly when it does not unlink a record whose process is alive |
| PlanLock.AtomicRemovalIsCareful | packages/runner/src/execution-plans/local-plan-files.ts:240-244 | unlinking right after the second read, as one operation, would always be careful |
| PlanLock.NoExitInSectionIsCareful | packages/runner/src/execution-plans/local-plan-files.ts:226-282 | while no process exits with its record in the file, every step is careful |
| PlanLock.FileChangesBy | packages/runner/src/execution-plans/local-plan-files.ts:226-298 | the lock file is created only where there is none, and unlinked only after a stale record was read twice or the own token was read back |
| PlanLock.HolderReleases | packages/runner/src/execution-plans/local-plan-files.ts:284-298 | a live holder reads its own token back and its unlink leaves no file |
| PlanLock.TakesOverExactlyWhenStale | packages/runner/src/execution-plans/local-plan-files.ts:226-282 | a waiting writer, undisturbed, takes over a lock exactly when the process in the file has exited |
| SelectionStore.CarefulExactlyWhenLocked | packages/runner/src/execution-plans/local-plan-files.ts:226-298 | the runs that keep the lock at every moment are the careful ones and no others |
| SelectionStore.RunKeepsInv | packages/runner/src/execution-plans/local-execution-plan-store.ts:397-487 | every careful run, of any writers in any interleaving and stopped anywhere, keeps the store's invariant |
| SelectionStore.HistoryIsOneChain | packages/runner/src/execution-plans/local-execution-plan-store.ts:397-487 | generations count up by one, each selection carries the digest before it, no digest recurs, and the visible active revision exists in the slot |
| SelectionStore.OneSuccessPerExpectedDigest | packages/runner/src/execution-plans/local-execution-plan-store.ts:397-430 | at most one writer succeeds per expected digest |
| SelectionStore.PublishedAsAsked | packages/runner/src/execution-plans/local-execution-plan-store.ts:397-470 | each publication has the active revision, reason and author that its writer asked for, on the digest it expected; an active revision was stored with exactly the writer's scope, and only a deactivation has none |
| SelectionStore.RefusedForAReason | packages/runner/src/execution-plans/local-execution-plan-store.ts:397-430 | a writer that ends without publishing, and not for a failed file operation, held the lock at a moment when the digest, the revision or the reason stood against its request |
| SelectionStore.HolderGoesOn | packages/runner/src/execution-plans/local-execution-plan-store.ts:397-430 | a live lock holder can always go on, or has finished and can release |
| SelectionStore.ReleasesWhenFinished | packages/runner/src/execution-plans/local-plan-files.ts:284-298 | a writer works under the lock only and gives it back only when it has finished |
| SelectionStore.NoExitInSectionIsCareful | packages/runner/src/execution-plans/local-plan-files.ts:226-282 | every run in which no lock holder exits is careful |
| SelectionStore.StaleLockRace | packages/runner/src/execution-plans/local-plan-files.ts:240-244 | a run in which two writers succeed on one expected digest after a lock holder stopped |
| ValidationStore.CarefulExactlyWhenLocked | packages/runner/src/execution-plans/local-plan-files.ts:226-298 | the runs that keep the lock at every moment are the careful ones and no others |
| ValidationStore.RunKeepsInv | packages/runner/src/execution-plans/local-plan-validation-store.ts:294-413 | every careful run, of any writers in any interleaving and stopped anywhere, keeps the store's invariant |
| ValidationStore.VisibleHeadsAreBacked | packages/runner/src/execution-plans/local-plan-validation-store.ts:294-413 | a visible head has a receipt exactly when it passed, and that receipt is stored and is for its basis and run |
| ValidationStore.GenerationsCountChanges | packages/runner/src/execution-plans/local-plan-validation-store.ts:294-413 | a step that changes a head raises its generation by one and records another result; receipts are never lost or replaced |
| ValidationStore.RepeatReturnsTheHead | packages/runner/src/execution-plans/local-plan-validation-store.ts:294-335 | publishing what the head already holds ends with that head, and only then |
| ValidationStore.HeadsAreAsked | packages/runner/src/execution-plans/local-plan-validation-store.ts:294-413 | a visible head, and the head a writer is told of, have the basis, run, outcome and receipt that a writer asked for |
| ValidationStore.RefusedForAReason | packages/runner/src/execution-plans/local-plan-validation-store.ts:337-391 | a writer that ends without a head, and not for a failed file operation, had a passed outcome without a receipt for its run, basis and scope, or a receipt for another outcome |
| ValidationStore.HolderGoesOn | packages/runner/src/execution-plans/local-plan-validation-store.ts:294-335 | a live lock holder can always go on, or has finished and can release |
| ValidationStore.ReleasesWhenFinished | packages/runner/src/execution-plans/local-plan-files.ts:284-298 | a writer works under the lock only and gives it back only when it has finished |
| RunCoordinator.RunKeepsInv | packages/runner/src/execution-cache/execution-cache-run-coordinator.ts:80-142 | the lease belongs to a run inside it and nobody has seen a revision of the future, in every reachable state |
| RunCoordinator.RevisionsOnlyGrow | packages/runner/src/execution-cache/execution-cache-run-coordinator.ts:105-123 | published revisions only grow along a run of steps |
| RunCoordinator.NoStaleEvaluation | packages/runner/src/execution-cache/execution-cache-run-coordinator.ts:105-142 | once a newer revision is out, a run that observed an older one starts no evaluation while it owns the lease |
| RunCoordinator.FinishedRunsOwnNothing | packages/runner/src/execution-cache/execution-cache-run-coordinator.ts:125-142 | a lease is given back on every path |
| RunCoordinator.OneRunAtWork | packages/runner/src/execution-cache/execution-cache-run-coordinator.ts:125-142 | while no lease expires, whoever works owns the lease |
| RunCoordinator.SingleFlight | packages/runner/src/execution-cache/execution-cache-run-coordinator.ts:80-142 | while no lease expires, no stale evaluation can start and one run at most is at work |
| RunCoordinator.ExpiredLeaseEvaluatesStale | packages/runner/src/execution-cache/execution-cache-run-coordinator.ts:105-123 | with an expired lease a run can start an evaluation although a newer revision was published |
| RunCoordinator.StaleExactlyWhenOvertaken | packages/runner/src/execution-cache/execution-cache-run-coordinator.ts:80-123 | a run that read and is about to evaluate starts stale exactly when a publication took effect between its read and its start |
| RunCoordinator.RevisionCountsPublications | packages/runner/src/execution-cache/execution-cache-run-coordinator.ts:105-123 | the revision is the number of publications that took effect |
| RunCoordinator.ReplayedBecauseNewer | packages/runner/src/execution-cache/execution-cache-run-coordinator.ts:105-123 | a run replays only what is newer than the revision it observed |
| RunCoordinator.ReleasedExactly | packages/runner/src/execution-cache/execution-cache-run-coordinator.ts:80-103 | a waiter whose lease is gone replays exactly when something was published since the lease was granted, and else takes over a terminal outcome or asks for the lease |
| RunCoordinator.PublishesExactlyWhenOwner | packages/runner/src/execution-cache/execution-cache-run-coordinator.ts:105-123 | an evaluation is published exactly when its run still owns the lease, which it gives back |
| RunCoordinator.RunGoesOn | packages/runner/src/execution-cache/execution-cache-run-coordinator.ts:125-142 | a run that is not done can go on exactly when it does not wait for a lease that is still held |
| RunPool.ClaimsAreExact | packages/runner/src/execution/run-scenarios.ts:156-211 | the claimed indexes are exactly 0 to nextIndex - 1, each once, and at most `concurrency` runs are in flight |
| RunPool.AllRunsInPlace | packages/runner/src/execution/run-scenarios.ts:156-211 | when all workers stopped without an error, every slot holds the run of its own target |
| RunPool.ScheduleLinesUp | packages/runner/src/execution/run-scenarios.ts:66-107 | without a filter the planned results are those of the scheduled targets, index by index |
| RunPool.TargetsExactly | packages/runner/src/execution/run-scenarios.ts:66-73 | the targets are every selection with every target, selection by selection |
| RunPool.ScheduleExactly | packages/runner/src/execution/run-scenarios.ts:94-107 | the planned results are those of every selection with every profile that the filter includes, in that order, and no others |
| RunPool.OutcomesAreBrought | packages/runner/src/execution/run-scenarios.ts:176-207 | a stored run has the outcome that the worker which claimed its index brought back |
| RunPool.PoolComesToAnEnd | packages/runner/src/execution/run-scenarios.ts:172-211 | no interleaving takes more than three steps for each target and one for each worker |
| RunPool.WorkerGoesOn | packages/runner/src/execution/run-scenarios.ts:172-211 | a worker is failed, can go on, or has stopped with nothing left to claim |
| SourceDiff.LongestCommonSubsequence | packages/spec/src/authoring/source-diff.ts:8-27 | each cell of the filled table is the length of the best match of the two tails |
| SourceDiff.ChangedLines | packages/spec/src/authoring/source-diff.ts:29-78 | the two-index walk pushes what the greedy walk over the lists prints |
| SourceDiff.SpecificationSourceDiff | packages/spec/src/authoring/source-diff.ts:47-78 | the diff of the two sources' lines, joined |
| SourceDiff.LinesJoinToSource | packages/spec/src/authoring/source-diff.ts:3-6 | splitting a source into lines loses nothing |
| SourceDiff.TableIsLongestCommonSubsequence | packages/spec/src/authoring/source-diff.ts:8-27 | the table's length is reached by a common subsequence and by no longer one |
| SourceDiff.WalkTransforms | packages/spec/src/authoring/source-diff.ts:47-78 | the walk, with skipped lines as keeps, turns the from-lines into the to-lines and keeps as many as the table says |
| SourceDiff.KeepsAtMostBest | packages/spec/src/authoring/source-diff.ts:47-78 | no edit script keeps more lines |
| SourceDiff.DiffIsMinimal | packages/spec/src/authoring/source-diff.ts:47-78 | the printed lines number n + m - 2 LCS, and no script has fewer |
| SourceDiff.PrintedTellsChanges | packages/spec/src/authoring/source-diff.ts:29-45 | the lines printed with a minus are the removed ones and those with a plus the added ones, in order |
| SourceDiff.NoChangeShownExactlyWhen | packages/spec/src/authoring/source-diff.ts:3-78 | the diff of two sources that differ shows no change exactly when one is the other with all its newlines of the other style |
| SourceDiff.NewlineStyleIsNotShown | packages/spec/src/authoring/source-diff.ts:47-78 | two sources that differ have a diff of the two header lines |
| SourceDiff.IncludesExactlyWhen | packages/spec/src/authoring/source-diff.ts:3-6 | a source is split at carriage return and line feed exactly when it holds the two somewhere |
| SourceDiff.RemovalFirstExactlyWhen | packages/spec/src/authoring/source-diff.ts:29-45 | where the lines differ the removal is printed first exactly when some longest match does without the removed line |
| JsonComments.QuotedJsonEnd | packages/cli/src/configuration/config.ts:453-462 | the offset of the string's last character, with escapes, or of the last of an unterminated string |
| JsonComments.RemoveJsonComments | packages/cli/src/configuration/config.ts:474-497 | the index loop leaves what dropping each comment in turn leaves |
| JsonComments.FirstSurvives | packages/cli/src/configuration/config.ts:474-497 | whatever is dropped behind it, a kept token is read again as it was, so no new comment starts |
| JsonComments.TokensOfStrip | packages/cli/src/configuration/config.ts:474-497 | reading what is left gives the old tokens without the comments |
| JsonComments.StripIsIdempotent | packages/cli/src/configuration/config.ts:474-497 | stripping twice is stripping once |
| JsonComments.StripKeepsLiterals | packages/cli/src/configuration/config.ts:474-497 | every string literal stays, unchanged and in order |
| JsonComments.StripChangesExactlyComments | packages/cli/src/configuration/config.ts:474-497 | a text changes exactly when it has a comment outside strings |
| JsonComments.LineCommentExactly | packages/cli/src/configuration/config.ts:464-467 | a line comment starts with two slashes and ends before the first line feed, or with the text |
| JsonComments.BlockCommentExactly | packages/cli/src/configuration/config.ts:469-472 | a block comment ends with the first star and slash behind its opening, or with the text |
| TagExpression.TokenizeTagExpression | packages/spec/src/selection/tag-expression.ts:10-31 | the tokens that the pattern matches one after the other, or the fault where it matches nothing |
| TagExpression.SpacesEnd | packages/spec/src/selection/tag-expression.ts:10-31 | the first offset that holds no space |
| TagExpression.TagExpressionParser.Parse | packages/spec/src/selection/tag-expression.ts:33-45 | the index-moving parser reads the tree of the grammar and leaves no token |
| TagExpression.TagExpressionParser.ParsePrimary | packages/spec/src/selection/tag-expression.ts:33-92 | the parser's index moves as the grammar reads a tag, a negation or a parenthesis |
| TagExpression.TagExpressionParser.Consume | packages/spec/src/selection/tag-expression.ts:47-51 | the token at the index, which moves on, or the fault at the end |
| TagExpression.TagExpressionParser.ParseParenthesized | packages/spec/src/selection/tag-expression.ts:64-70 | the index moves over a disjunction and its closing parenthesis |
| TagExpression.TagExpressionParser.ParseConjunction | packages/spec/src/selection/tag-expression.ts:33-92 | the loop over `and` builds the tree from the left |
| TagExpression.TagExpressionParser.ParseDisjunction | packages/spec/src/selection/tag-expression.ts:33-92 | the loop over `or` builds the tree from the left |
| TagPrinting.TokensParseBack | packages/spec/src/selection/tag-expression.ts:33-92 | the tokens of a tree printed with minimal parentheses parse to the tree |
| TagPrinting.PrintedParsesBack | packages/spec/src/selection/tag-expression.ts:94-128 | printing, tokenizing and parsing gives the tree back, and the predicate is its evaluation |
| TagPrinting.StrayParenthesisIsATag | packages/spec/src/selection/tag-expression.ts:57-66 | a lone closing parenthesis is accepted, as a tag |
| TagPrinting.ReprintsExactlyWhenPrintable | packages/spec/src/selection/tag-expression.ts:57-66 | an accepted expression reprints to its tree exactly when no tag of the tree is a stray parenthesis |
| TagParentheses.StraysAreExcess | packages/spec/src/selection/tag-expression.ts:10-92 | an accepted expression has one stray tag for each closing parenthesis more than opening ones, and never fewer closing ones |
| TagParentheses.AcceptedReprintsExactlyWhen | packages/spec/src/selection/tag-expression.ts:10-92 | an accepted expression reprints to its tree exactly when it has as many closing as opening parentheses |
| TagMeaning.TokenExactly | packages/spec/src/selection/tag-expression.ts:10-31 | the token at a place is a parenthesis, a keyword in any case that no word character follows, or the longest run of tag characters with or without an at sign |
| TagMeaning.NothingSelectsAll | packages/spec/src/selection/tag-expression.ts:94-128 | no expression selects everything |
| TagMeaning.TagSelects | packages/spec/src/selection/tag-expression.ts:6-8 | a tag selects what carries it, written with or without its at sign |
| TagMeaning.ConnectivesSelect | packages/spec/src/selection/tag-expression.ts:94-128 | what two expressions select decides what `not`, `and` and `or` of them select |
| Diagnostics.ApplicationDiagnosticBuffer.constructor | packages/cli/src/run/application-diagnostics.ts:128-136 | the buffer starts empty |
| Diagnostics.ApplicationDiagnosticBuffer.Record | packages/cli/src/run/application-diagnostics.ts:215-219 | a line is recorded for each requested profile of its stream |
| Diagnostics.ApplicationDiagnosticBuffer.RecordLine | packages/cli/src/run/application-diagnostics.ts:191-213 | a line goes to the one active scenario of the profile, or waits |
| Diagnostics.ApplicationDiagnosticBuffer.ProjectEvent | packages/cli/src/run/application-diagnostics.ts:321-361 | the event that is passed on and the buffer after it |
| Diagnostics.ApplicationDiagnosticBuffer.ClaimPendingOutput | packages/cli/src/run/application-diagnostics.ts:259-278 | a failed or sole scenario takes all waiting lines of its profile, in order |
| DiagnosticsRouting.LineOfOnlyScenario | packages/cli/src/run/application-diagnostics.ts:191-213 | a line goes to the only active scenario of its profile, with its name and current step |
| DiagnosticsRouting.LineOfNobodyWaits | packages/cli/src/run/application-diagnostics.ts:191-213 | with no scenario of the profile, or with two, it waits behind the lines that wait already |
| DiagnosticsRouting.WantsStream | packages/cli/src/run/application-diagnostics.ts:215-219 | a line is recorded for exactly the profiles that want its stream |
| DiagnosticsRouting.FinishedAttemptClaims | packages/cli/src/run/application-diagnostics.ts:259-319 | a finished attempt gets its own entries, and behind them all waiting lines of its profile in order exactly when it failed or no other scenario of the profile is active |
| DiagnosticsRouting.StepTakesItsEntries | packages/cli/src/run/application-diagnostics.ts:233-257 | of a scenario's entries those recorded in a step go to it when it finishes, in order, and the others stay |
| DiagnosticsConservation.RecordOneProfile | packages/cli/src/run/application-diagnostics.ts:191-213 | recording adds the line once, to the recorded profile only |
| DiagnosticsConservation.FinishedStepKeepsLines | packages/cli/src/run/application-diagnostics.ts:233-257 | finishing a step moves its entries and loses none |
| DiagnosticsConservation.AllPicked | packages/cli/src/run/application-diagnostics.ts:280-319 | an attempt that lists each finished step once picks up all their lines |
| DiagnosticsConservation.FinishedAttemptLines | packages/cli/src/run/application-diagnostics.ts:280-319 | a finished attempt receives exactly what its scenario held and claimed |
| DiagnosticsConservation.LinesAreConserved | packages/cli/src/run/application-diagnostics.ts:191-361 | over every well-formed stream, for each profile and line: recorded = delivered + held + pending |
| DiagnosticsConservation.RestartLosesWhatWasHeld | packages/cli/src/run/application-diagnostics.ts:221-231 | a scope that starts again while active loses exactly what it held |
| DiagnosticsConservation.RestartLosesALine | packages/cli/src/run/application-diagnostics.ts:221-231 | a recorded line that is neither delivered nor held nor waiting after its scope started again |
| DiagnosticsConservation.FinishingAgainLosesTheFirst | packages/cli/src/run/application-diagnostics.ts:233-257 | a step that finishes again with output loses exactly what it had from before |
| DiagnosticsConservation.AttemptReceivesWhatItLists | packages/cli/src/run/application-diagnostics.ts:280-319 | any finished attempt receives the lines of each finished step as often as it lists the step |
| DiagnosticsAttribution.RunAttributes | packages/cli/src/run/application-diagnostics.ts:191-361 | over any stream, an active scenario holds entries of its own name and profile only, and a finished step those of that step |
| DiagnosticsAttribution.StepReceivesItsOwn | packages/cli/src/run/application-diagnostics.ts:233-257 | what a finished step receives was recorded in that step, for its profile and scenario |
| DiagnosticsAttribution.AttemptStepReceivesItsOwn | packages/cli/src/run/application-diagnostics.ts:280-319 | what a step of a finished attempt receives was recorded in that step, for its profile and scenario |
| DiagnosticsAttribution.AttemptReceivesItsOwn | packages/cli/src/run/application-diagnostics.ts:259-319 | what an attempt receives was recorded for its profile and scenario, or is a waiting line of the profile that it may claim |
| RunComparison.ChangesBetween | packages/runner/src/results/compare.ts:61-93 | the respects in which the results differ, in the fixed order |
| RunComparison.Differences | packages/runner/src/results/compare.ts:61-93 | contains a kind exactly when the results differ in it |
| RunComparison.FindMatch | packages/runner/src/results/compare.ts:95-112 | the first available result for the candidate's scenario and profile |
| RunComparison.FirstCompatible | packages/runner/src/results/compare.ts:95-112 | nothing before the found result is compatible, and nothing at all when none is found |
| RunComparison.CompareTestRuns | packages/runner/src/results/compare.ts:114-158 | pairs, removed and added results of the greedy matching, or the error of a matched result without attempts |
| RunComparison.MatchedExactlyWhenFirstFree | packages/runner/src/results/compare.ts:95-112 | the matching is the only one in which each candidate has the first compatible result that no earlier one has |
| RunComparison.ComparisonIsMaximal | packages/runner/src/results/compare.ts:114-158 | baseline = matched + removed, candidate = matched + added, nobody is matched twice, and no added result is compatible with a removed one |
| RunComparison.ReportsExactlyTheChanges | packages/runner/src/results/compare.ts:121-142 | a pair is reported exactly when it is matched and differs, with just its differences |
| RunComparison.SelfComparisonReportsNothing | packages/runner/src/results/compare.ts:114-158 | comparing a run with itself reports nothing, even when ids or names repeat |
| RunComparison.LargestExactlyWhenRectangular | packages/runner/src/results/compare.ts:95-112 | of any results of the two runs the matching has most pairs exactly when compatibility is rectangular: whoever shares one counterpart shares all |
| RunComparison.AgreeingIdsAreRectangular | packages/runner/src/results/compare.ts:99-105 | when all results have ids, or none has, compatibility is rectangular |
| RunComparison.MixedIdsCanMissAPair | packages/runner/src/results/compare.ts:99-105 | with ids on some results only, a matching with more pairs can exist |
| RunDifferences.CompatibleExactlyWhen | packages/runner/src/results/compare.ts:99-106 | results are compatible exactly when their profiles agree and their ids do, or their names when an id is missing |
| RunDifferences.LastAttempt | packages/runner/src/results/compare.ts:44-67 | the attempt that is compared is the last one |
| RunDifferences.ChangesExactly | packages/runner/src/results/compare.ts:61-93 | a kind is reported exactly when that part of the results or of their last attempts differs |
| RunDifferences.ReportedUnder | packages/runner/src/results/compare.ts:40-42 | a result is reported under its id, or under its scenario's name when it has none |
| SourceOperations.ApplyReplacements | packages/spec/src/authoring/source-operations.ts:24-39 | the splices in descending order of start, stable among equal starts |
| SourceOperations.SplicesInterleave | packages/spec/src/authoring/source-operations.ts:31-37 | splicing from the last span to the first interleaves the untouched gaps and the new texts |
| SourceOperations.InterleavedIsSimultaneous | packages/spec/src/authoring/source-operations.ts:31-37 | in the interleaving each outside character and each text stands where the spans before it shift it |
| SourceOperations.ReplacedExactlySimultaneously | packages/spec/src/authoring/source-operations.ts:24-39 | for spans apart, a text is the result exactly when it is the simultaneous replacement |
| SourceOperations.AnyOrder | packages/spec/src/authoring/source-operations.ts:28-30 | lists of the same spans give the same result |
| SourceOperations.SplicesExactlyWhen | packages/spec/src/authoring/source-operations.ts:24-39 | the spans in splicing order keep off each other exactly when no two overlap and, of two that start at one offset, the later listed is an insertion; the result is then the gaps and all texts |
| SourceOperations.InsertedTextIsCut | packages/spec/src/authoring/source-operations.ts:28-37 | an insertion that is listed before a replacement at its offset has the replaced length cut from its text |
| SourceOperations.InsertionIsOverwritten | packages/spec/src/authoring/source-operations.ts:28-37 | listed before the replacement the insertion is lost, listed after it stays |
| SourceOperations.EqualStartsReverse | packages/spec/src/authoring/source-operations.ts:28-37 | texts inserted at one offset come out in the reverse of the listed order |

## Left out

- Real file-system, database, subprocess, HTTP and WebSocket calls: the protocols keep the abstract steps create-exclusive, link, rename, unlink and read; directories, flushes, file modes and temporary-file names are not part of this model.
- Time: heartbeats, polling and deadlines are nondeterministic steps (a lease may expire, a wait may end); how long anything takes is not modelled.
- Digests: SHA-256 and the plan digests are injective functions, or free constructors; their hex format, HMAC and key files are not part of this model.
- JsonParser.UniqueKeyJsonParser.ParseNumber: a number is the exact decimal that its text spells. The code takes the nearest double, which is another number when there are more than 15 significant digits or the number is too small for a normal double. Negative zero is zero, and a number that is not finite is refused with the same fault as an unsafe integer.
- Error messages and the offsets in them: an error is a named fault.
- The trailing-comma pattern of packages/cli/src/configuration/config.ts:503, which also rewrites text inside strings.
- Schema checks beyond what a model states: a schema is a predicate on values, and unknown fields and string formats are not modelled.
- The lock, compare-and-swap, coordinator and worker-pool code is a transition function over single operations, not methods: what its loops and awaits do between two operations is one step, and the aliasing of stored objects is not captured.
- Lock records of other hosts and unreadable lock records: the owner of a record is known, and a process has exited or has not.
- Stores with several plan slots: SelectionStore is one slot, and ValidationStore assumes that a basis digest is published under one slot.
- PlanLock.StepKeepsLockExactlyWhen: speaks of the lock file's record and not of the directory that holds it.
- RunCoordinator.NoStaleEvaluation: assumes that replaying a published entry succeeds, because a failed replay evaluates by design.
- Deleting and evicting cache entries, and terminal outcomes other than that they may be reused.
- Sharding: the locale comparison of equal durations is an arbitrary order, and durations are real numbers; reading the history is not part of this model.
- WebPlan: navigation, key presses and values are carried as data; element matching in a browser is not modelled.
- MobileMeaning.ExpandUndoesReplacing: how the device program expands a placeholder is outside the repository; the model takes the value that the runtime environment gives it.
- MobileRuntime.SelectorStaysExactlyWhen: takes a text whose tags, as they are and escaped, bind no name with a backslash; beyond that the two selectors can agree by what the values happen to be, as BackslashNameCanAgree shows. Steps that compile to no selector need nothing of their names.
- MobileReplay.StepIsReplayedExactlyWhen: takes step texts without `${`; what the device program does with a placeholder of which it has no value is outside the repository.
- MobileRuntime.DoesWhatIsAskedExactlyWhen: the text with the values is the template with every bound `<name>` replaced at once; the Gherkin library's own replacement is not part of this model.
- Mobile descriptions, the reason why a scenario is not cacheable, step arguments and the adapter fingerprint; the device commands that a script line triggers.
- MobileReplay.PayloadHidesRuntimeValues: allows that the payload reveals whether a runtime text has the shape of an assertion and of a text comparison, because the code chooses the line by it.
- Diagnostics: the availability of evidence, the callback for each diagnostic and the display text of entries.
- DiagnosticsConservation.LinesAreConserved: needs a well-formed stream (no scope starts again while active, a step finishes once, finished steps are in the attempt); RestartLosesWhatWasHeld, FinishingAgainLosesTheFirst and AttemptReceivesWhatItLists say what each condition prevents.
- RunComparison: resolved actions are compared as JSON text and artifacts by kind and path; a run that lists one result object twice is not modelled.
- SourceOperations: offsetAt, and the replacements that the editor builds from the parsed document, which come from a parser that is not part of this model.
- Gherkin parsing, Studio, React pages, command-line wiring, browser and device automation, screenshots and recordings.

# A model of the OpenClaw tooling cores

This project models eight independent cores of the repository and proves what they are for.
Every result is a statement over all inputs, all runs or all interleavings; nothing is bounded.

| core | files |
|---|---|
| import-cycle check: Tarjan's algorithm, cycle witnesses, the verdict | `Graphs`, `Sorting`, `TarjanInvariant`, `ImportCycles`, `CycleWitness`, `ImportCycleCheck` |
| translation sync: batching, retry with halving, trees, reconcile, fixpoint, RPC client | `TranslationBatches`, `TranslateRetry`, `DottedKeys`, `TranslationTree`, `TranslationObjects`, `LocaleReconcile`, `LocaleSync`, `LocaleFixpoint`, `RpcClient` |
| active memory: toggle-store lock and recall cache | `ToggleLock`, `AsyncLock`, `RecallCache` |
| Bedrock discovery: cache of running and finished discoveries, merge | `BedrockCache`, `BedrockMerge` |
| dashboard: Base32, rate limiter, sessions | `Base32`, `RateLimiter`, `Sessions` |
| import-graph worklist and common ancestor | `ImportGraph` |
| CLI argument normaliser | `ClaudeArgs` |
| surrogate-safe slicing | `Utf16` |

`Common` holds the notions several files share. `dafny verify dfyconfig.toml` checks everything.

How the code is rendered:

* Code that changes state step by step is a method with its loops, or a class with the source's
  fields. It is proved equal to a specification function or relation, and the properties are
  proved of that.
* A class that handles events keeps them in a ghost field, and its `Valid()` says that its fields are what
  the run function makes of them; so every theorem about runs is one about the objects.
* Concurrency is a state machine. JavaScript runs one thread, so one step is what runs between two
  awaits, and any interleaving of steps is a run. The clock is an argument; where a theorem needs it
  not to run backwards, it says so (`Clocked`, `Monotone`).
* What the process cannot control is a parameter: the outcome of each prompt (`oracle`), hashes, the
  locale's ordering, `toUpperCase` outside ASCII, tokens.
* In `Utf16` text is a sequence of UTF-16 code units, lone surrogates included, and bounds are JavaScript
  numbers, infinite ones and NaN included. Elsewhere text is a sequence of characters without lone surrogates;
  where a length is compared with a limit it is counted in code units (`Common.Utf16Length`).
* Integers are unbounded, and batch budgets, which the source does not require to be whole, are reals.

## Findings

Seven promises do not hold for every input of the code as written. The model keeps the code's
behaviour, and states exactly when the promise holds.

* The error "Import cycle stack underflow" is not unreachable: the pop loop takes an empty name for
  an exhausted stack. It is thrown if and only if the empty name is a node
  (`ImportCycles.CollectStronglyConnectedComponents`); a truly exhausted stack never occurs.
* `resolveCommonAncestor` stops one level short of a path that is itself a proper prefix of the first,
  because `path.relative` then gives `..` and not `../`. The result is the longest common prefix if and
  only if every proper prefix of the first path in the list is undercut by a branching one
  (`ImportGraph.ResolveCommonAncestor`, with the instance `/a/b`, `/a` in `ImportGraph.ParentOfFirstIsMissed`).
* Flattening a tree rebuilt from prefix-free dotted keys returns the same map if and only if no key
  starts with a dot, because an empty prefix adds no dot (`TranslationTree.FlattenUndoesUnflattenIff`).
  The key `.a` comes back as `a` (`TranslationTree.LeadingDotIsLost`).
* The recall cache's eviction loop stops at an empty key. One eviction brings the cache to 1000 entries
  if and only if it fits already or the empty key is not among those to drop (`RecallCache.EvictFitsIff`).
  Over all runs the limit of 1000 holds if and only if the empty key may not be written
  (`RecallCache.SizeIsBoundedIff`): the empty key and then 1000 others leave 1001 entries. The keys
  `buildCacheKey` makes are never empty.
* A second sync run does not always find nothing to change. Under a total order of keys, for all files and
  settings, it does if and only if no source key's path is a prefix of another's and no source key starts with a dot
  (`LocaleFixpoint.SyncIsFixpointIff`). With the keys `a` and `a.b` it does not
  (`LocaleFixpoint.NestedKeysDoNotSettle`): from a locale file that holds both as raw keys, the first run keeps
  both values, the tree it writes loses one, and the second run reports that one as missing.
* `agent_end` lines carry no request id. As long as the process ends only prompts it got, answers always
  belong to their prompts if and only if it may end each of them at most once (`RpcClient.AnswersBelongIff`).
* `readToggleStore` takes an unreadable file for an empty store, and the next write then drops every other
  session. A session reads as disabled if and only if all toggles in call order leave it disabled and no such
  write has forgotten it since its last toggle (`ToggleLock.ReplayReads`); without failed reads no update is lost.
  One failed read while another session is toggled is enough (`ToggleLock.FailedReadForgets`).

## Model

| member | source | states |
|---|---|---|
| ImportCycles.ComponentSearch.Push | brain/scripts/check-import-cycles.ts:166-170 | the five fields after a node is entered, with the stack and its membership set still in agreement |
| ImportCycles.ComponentSearch.LowerLink | brain/scripts/check-import-cycles.ts:175-177 | a low link only ever drops, to the bound handed over |
| ImportCycles.ComponentSearch.Visit | brain/scripts/check-import-cycles.ts:165-197 | one recursive visit keeps the search invariant, promises its caller a low link that bounds every edge back into the older stack, and fails only if the empty name is a node |
| ImportCycles.ComponentSearch.ScanSuccessor | brain/scripts/check-import-cycles.ts:172-179 | one successor, unvisited, on the stack or done, advances the scan by one |
| ImportCycles.ComponentSearch.Finish | brain/scripts/check-import-cycles.ts:181-196 | a scanned visit leaves its nodes for an older node to pop, or pops one component |
| ImportCycles.ComponentSearch.PopSegment | brain/scripts/check-import-cycles.ts:184-193 | the loop pops exactly the nodes from `node` upwards, and throws exactly when one of them is the empty name |
| ImportCycles.ComponentSearch.Report | brain/scripts/check-import-cycles.ts:194-196 | the popped set is a strongly connected component and is listed, sorted, exactly when it is cyclic |
| TarjanInvariant.EnterScans | brain/scripts/check-import-cycles.ts:166-172 | entering a node establishes the scan invariant |
| TarjanInvariant.AfterTreeVisit | brain/scripts/check-import-cycles.ts:173-175 | what a finished child visit promises is enough to advance the parent's scan |
| TarjanInvariant.AfterVisitedEdge | brain/scripts/check-import-cycles.ts:176-178 | an edge to a visited node advances the scan, whether it is still on the stack or already popped |
| TarjanInvariant.LinkFindsGray | brain/scripts/check-import-cycles.ts:181-183 | a low link below the own index leads to a visit in progress deeper on the stack |
| TarjanInvariant.LeaveOnStack | brain/scripts/check-import-cycles.ts:181-183 | a visit that returns early keeps the invariant: its nodes all reach an older visit in progress |
| TarjanInvariant.SegmentIsScc | brain/scripts/check-import-cycles.ts:181-193 | when link and index agree, the nodes from `node` upwards are one maximal mutually reachable set |
| TarjanInvariant.PopComponent | brain/scripts/check-import-cycles.ts:184-196 | popping them keeps the invariant and finishes the visit |
| ImportCycles.PoppedListIsReport | brain/scripts/check-import-cycles.ts:199-203 | once all keys are visited, the list holds every cyclic component exactly once, pairwise disjoint |
| ImportCycles.SortingKeepsReport | brain/scripts/check-import-cycles.ts:204-207 | the final sort changes the order only |
| ImportCycles.ComponentLeqTotal | brain/scripts/check-import-cycles.ts:20-22 | length first, then signature, is a total preorder whenever the locale's order is one |
| ImportCycles.CollectStronglyConnectedComponents | brain/scripts/check-import-cycles.ts:155-208 | for every graph: exactly the strongly connected components with several nodes or a self-loop, disjoint, each sorted, the longest first and equal lengths by their joined lines; the throw happens if and only if the empty name is a node |
| ImportCycles.EmptyReportIffAcyclic | brain/scripts/check-import-cycles.ts:264-267 | the report is empty if and only if the graph has no cycle |
| Graphs.AcyclicIffNoCyclicScc | brain/scripts/check-import-cycles.ts:264-267 | a graph has no closed walk if and only if none of its components is cyclic |
| Graphs.SuccIsEdges | brain/scripts/check-import-cycles.ts:172-194 | the loops walk over exactly what the map lists for a node, and that is what an edge is |
| Graphs.AcyclicIffNoClosedWalk | brain/scripts/check-import-cycles.ts:264-267 | acyclic means that no walk along the map ends where it starts |
| CycleWitness.WitnessSearch.Visit | brain/scripts/check-import-cycles.ts:221-241 | a found walk is a simple cycle inside the component, reachable from the start; a visit without one leaves the finished nodes ranked |
| CycleWitness.CycleFound | brain/scripts/check-import-cycles.ts:228-231 | the active path from the repeated node on closes to a simple cycle |
| CycleWitness.RankedHasNoCycle | brain/scripts/check-import-cycles.ts:238-239 | if the start has finished without a result, no cycle inside the component can be reached from it |
| CycleWitness.FindCycleWitness | brain/scripts/check-import-cycles.ts:210-243 | a simple cycle if one can be reached from the first node, the component itself if not, nothing for an empty or unnamed start |
| CycleWitness.CyclicSccHasCycle | brain/scripts/check-import-cycles.ts:210-243 | a cyclic component has a cycle reachable from each of its nodes without leaving it |
| CycleWitness.WitnessNeverFallsThrough | brain/scripts/check-import-cycles.ts:242 | on a reported component the fallback `?? component` is never used |
| ImportCycleCheck.Check | brain/scripts/check-import-cycles.ts:253-278 | success exactly when no walk along the map ends where it starts; otherwise such a walk, repeating nothing but its ends, in every cyclic component and no other |
| ImportGraph.CollectRelativeImportGraph | brain/scripts/load-channel-config-surface.ts:117-144 | the worklist ends on cyclic graphs and returns exactly the files reachable from the entry, which is the smallest set with the entry that the import map does not leave |
| ImportGraph.RelativeLeads | brain/scripts/load-channel-config-surface.ts:154 | the relative path, followed from one path, leads to the other |
| ImportGraph.Climb | brain/scripts/load-channel-config-surface.ts:154-160 | one candidate drives the ancestor up to its limit and no further |
| ImportGraph.UpwardsIffAboveLimit | brain/scripts/load-channel-config-surface.ts:154 | when a relative path starts with `../` |
| ImportGraph.LimitsGiveLongest | brain/scripts/load-channel-config-surface.ts:146-163 | the lowest limit is the longest common prefix exactly under the undercut condition |
| ImportGraph.ResolveCommonAncestor | brain/scripts/load-channel-config-surface.ts:146-163 | the first path cut at the lowest limit, for every list; it is the longest common prefix if and only if every proper prefix of the first path is undercut |
| ImportGraph.ParentOfFirstIsMissed | brain/scripts/load-channel-config-surface.ts:154 | `/a/b` and its parent `/a` give `/a/b`, which is no common prefix |
| TranslationBatches.EstimateBelowTotal | brain/scripts/control-ui-i18n.ts:499-501 | the source's estimate lies two per item below the running total |
| TranslationBatches.TotalsAreSums | brain/scripts/control-ui-i18n.ts:499-501 | the estimate is 2 plus 8 and the two lengths of every item, the running total 2 plus 10 and the lengths |
| TranslationBatches.FitsIff | brain/scripts/control-ui-i18n.ts:667-669 | the limits are 1 to 20 items, and that sum within the budget unless the item is alone |
| TranslationBatches.PartFits | brain/scripts/control-ui-i18n.ts:665-674 | a contiguous part of a batch within the limits is within the limits |
| TranslationBatches.KeepsMaximal | brain/scripts/control-ui-i18n.ts:667-674 | closing a batch only on overflow keeps every closed batch unable to take the next item |
| TranslationBatches.GreedyEndsLater | brain/scripts/control-ui-i18n.ts:659-683 | a greedy batch that starts no earlier than another ends no earlier |
| TranslationBatches.GreedyNeverBehind | brain/scripts/control-ui-i18n.ts:659-683 | greedy needs no more batches, from any start at or after the other partition's |
| TranslationBatches.BuildTranslationBatches | brain/scripts/control-ui-i18n.ts:659-683 | lossless and in order, every batch within both limits, and no contiguous partition within them has fewer batches |
| TranslateRetry.ValidateReply | brain/scripts/control-ui-i18n.ts:943-951 | the loop over the items returns the reply's translation or the error of its first unusable key |
| TranslateRetry.ValidatedValues | brain/scripts/control-ui-i18n.ts:943-951 | a reply is accepted if and only if every item has a non-blank text, and then the map is those texts |
| TranslateRetry.TranslateBatch | brain/scripts/control-ui-i18n.ts:925-987 | ends for every sequence of outcomes, with the specified result, attempts and split depth; and its first prompts decide as in `PromptsDecide` |
| TranslateRetry.PromptsDecide | brain/scripts/control-ui-i18n.ts:932-986 | an accepted first prompt ends the call; a timeout ends it for one item and splits several; after any other failure the same items are sent once more, and that prompt decides |
| TranslateRetry.SplitGoesOn | brain/scripts/control-ui-i18n.ts:961-977 | after a split the larger first half runs, then the other; the first failure is the result, or else both maps together |
| TranslateRetry.TimeoutAnywhere | brain/scripts/control-ui-i18n.ts:473-475 | a message with "timed out" anywhere and in any letter case is a timeout |
| TranslateRetry.UsableIff | brain/scripts/control-ui-i18n.ts:945-948 | a usable text is a string that is not blank |
| TranslateRetry.SuccessIsComplete | brain/scripts/control-ui-i18n.ts:925-987 | on success exactly the items' keys, each with a non-blank value some prompt of this call returned for it |
| TranslateRetry.FailureIsLastAttempt | brain/scripts/control-ui-i18n.ts:955-986 | a failure is that of the last prompt sent, on a contiguous part of the items |
| TranslateRetry.AttemptBound | brain/scripts/control-ui-i18n.ts:925-987 | at most `4n - 2` prompts for `n >= 1` items |
| TranslateRetry.SplitDepthBound | brain/scripts/control-ui-i18n.ts:961-977 | splits nest at most `⌈log2 n⌉` deep |
| TranslateRetry.CeilLog2IsLeast | brain/scripts/control-ui-i18n.ts:962 | repeated halving as the source rounds it takes exactly `⌈log2 n⌉` steps |
| TranslateRetry.BoundsAreTight | brain/scripts/control-ui-i18n.ts:925-987 | for every non-empty list some outcomes reach both bounds at once, and still succeed |
| DottedKeys.SplitOfJoin | brain/scripts/control-ui-i18n.ts:294 | splitting undoes joining for dot-free parts |
| DottedKeys.JoinOfSplit | brain/scripts/control-ui-i18n.ts:294 | joining undoes splitting for every key |
| DottedKeys.FullKeyJoins | brain/scripts/control-ui-i18n.ts:281-289 | flattening joins a path with dots unless it starts with an empty segment |
| TranslationTree.FlattenTranslations | brain/scripts/control-ui-i18n.ts:281-291 | for any order of the keys: every leaf is written, and nothing else |
| TranslationTree.LookupAfterSet | brain/scripts/control-ui-i18n.ts:293-308 | the written path has the value, paths on a line with it are gone, all others are untouched |
| TranslationObjects.TranslationMap.PutText | brain/scripts/control-ui-i18n.ts:307 | one member of one object is replaced by a text |
| TranslationObjects.TranslationMap.PutEmpty | brain/scripts/control-ui-i18n.ts:299-303 | a missing or textual member becomes a new, unshared object |
| TranslationObjects.TranslationMap.SetAlong | brain/scripts/control-ui-i18n.ts:295-307 | the walk writes in place what the tree function computes, and the objects stay a tree |
| TranslationObjects.TranslationMap.SetNestedValue | brain/scripts/control-ui-i18n.ts:293-308 | the same for a dotted key |
| TranslationTree.UnflattenLookup | brain/scripts/control-ui-i18n.ts:1135-1138 | a tree rebuilt from prefix-free keys holds exactly those entries |
| TranslationTree.SolidTreesAgree | brain/scripts/control-ui-i18n.ts:281-308 | trees without empty subtrees are determined by their leaves |
| TranslationTree.GoodTreeEntries | brain/scripts/control-ui-i18n.ts:281-291 | with non-empty dot-free keys the flattened entries are the leaves, and prefix-free |
| TranslationTree.UnflattenUndoesFlatten | brain/scripts/control-ui-i18n.ts:281-308 | setting the flattened entries in any order rebuilds the tree minus its empty subtrees |
| TranslationTree.FlattenUndoesUnflattenIff | brain/scripts/control-ui-i18n.ts:281-308 | for prefix-free keys flattening the rebuilt tree returns the map if and only if no key starts with a dot |
| TranslationTree.LeadingDotIsLost | brain/scripts/control-ui-i18n.ts:283 | an instance, the key `.a` |
| LocaleReconcile.ScanSource | brain/scripts/control-ui-i18n.ts:1017-1050 | the first loop splits the source into kept values, pending items and kept fallback keys |
| LocaleReconcile.ReusedFacts | brain/scripts/control-ui-i18n.ts:1025-1042 | a value is kept exactly when memory or file has one and it is not a fallback to retranslate |
| LocaleReconcile.FallbackFacts | brain/scripts/control-ui-i18n.ts:1027-1041 | fallback keys are carried over exactly |
| LocaleReconcile.PendingFacts | brain/scripts/control-ui-i18n.ts:1044-1049 | the pending items are the source entries that keep nothing, once each |
| LocaleReconcile.StoreBatch | brain/scripts/control-ui-i18n.ts:1082-1101 | every item of a batch gets its value, in the map and as a memory entry, and nothing else changes |
| LocaleReconcile.TranslatePending | brain/scripts/control-ui-i18n.ts:1052-1105 | each pending item ends with a non-blank value a prompt of this run returned for it; the run gives up only after a prompt that failed or left a key without a text |
| LocaleReconcile.FillFallbacks | brain/scripts/control-ui-i18n.ts:1112-1127 | exactly the keys still without a value get the existing or the English text, and exactly the right ones count as fallbacks |
| LocaleReconcile.FallbackRules | brain/scripts/control-ui-i18n.ts:1114-1127 | existing value unless forced, else English; a fallback is what got English or was one before |
| LocaleReconcile.Reconcile | brain/scripts/control-ui-i18n.ts:1017-1127 | the result has exactly the source keys; each is kept, translated or English, as its situation demands; the memory changes at translated keys only; no provider means no prompt |
| LocaleReconcile.KeyOutcome | brain/scripts/control-ui-i18n.ts:1017-1127 | per key, in plain terms: the memory first, then the file, unless a fallback can be translated now; else a prompt's answer, with its memory entry, or the English text |
| LocaleReconcile.MemoryOutcome | brain/scripts/control-ui-i18n.ts:1086-1100 | every other memory entry is as before |
| LocaleSync.BuildNextMap | brain/scripts/control-ui-i18n.ts:1135-1138 | the object tree built in place is the unflattening of the decided values |
| LocaleSync.BuildNextMeta | brain/scripts/control-ui-i18n.ts:1140-1169 | the next meta file |
| LocaleSync.NextMetaFollows | brain/scripts/control-ui-i18n.ts:1140-1169 | every field of the meta file; its date is the present one if the file is new or any other field changes, and otherwise nothing changes |
| LocaleSync.ExpectedIsWritten | brain/scripts/control-ui-i18n.ts:1135-1184 | the four files in plain terms: every key's value at its path and nothing else, that meta file, the glossary or the default, and the memory |
| LocaleSync.CompareAndWrite | brain/scripts/control-ui-i18n.ts:1171-1231 | `changed` if and only if the expected files differ from the present ones; written only when asked; otherwise nothing changes |
| LocaleSync.SyncLocale | brain/scripts/control-ui-i18n.ts:996-1232 | one run from reading to writing, with the prompts it may send; what it writes is those four files; a failed run changes no file and was let down by its last prompt |
| LocaleSync.GoodSourceRoundtrips | brain/scripts/control-ui-i18n.ts:1009-1010 | a source object with non-empty dot-free keys meets the condition of the fixpoint theorem |
| LocaleSync.WrittenIsSettled | brain/scripts/control-ui-i18n.ts:1112-1190 | whatever a run writes is settled for the values it decided on |
| LocaleSync.SettledReuses | brain/scripts/control-ui-i18n.ts:1025-1042 | in settled files every key is kept, with the value it has |
| LocaleSync.SettledIsExpected | brain/scripts/control-ui-i18n.ts:1171-1190 | settled files are the ones a run expects |
| LocaleSync.MemoryStaysLoadable | brain/scripts/control-ui-i18n.ts:376-400 | the written memory loads again without a dropped entry |
| LocaleSync.SyncTwice | brain/scripts/control-ui-i18n.ts:996-1232 | with source keys that round-trip, after a successful writing run a second one with the same source and settings reports no change, writes nothing and sends no prompt, whatever its options; the condition is exact by `LocaleFixpoint.SyncIsFixpointIff` |
| LocaleFixpoint.SyncIsFixpointIff | brain/scripts/control-ui-i18n.ts:996-1232 | a second run changes nothing, for all files and settings, if and only if the source keys are prefix-free and none starts with a dot |
| LocaleFixpoint.LosesKey | brain/scripts/control-ui-i18n.ts:1135-1138 | otherwise the tree that is written loses a source key, whatever the order of its keys |
| LocaleFixpoint.SecondRunChanges | brain/scripts/control-ui-i18n.ts:1017-1190 | otherwise, from a file of raw keys, every second run reports a change, with a provider or without |
| LocaleFixpoint.SyncTwiceDiffers | brain/scripts/control-ui-i18n.ts:996-1232 | the two runs themselves, for every such source and all settings: the first writes, the second fails or reports a change, and without a provider it does not fail |
| LocaleFixpoint.NestedKeysDoNotSettle | brain/scripts/control-ui-i18n.ts:1135-1138 | an instance, the keys `a` and `a.b` |
| RpcClient.StepKeepsInv | brain/scripts/control-ui-i18n.ts:738-891 | every event keeps: at most one pending prompt, the last one written, with all earlier ones resolved |
| RpcClient.SingleFlight | brain/scripts/control-ui-i18n.ts:814-861 | in every reachable state prompts were written in order, each only after the previous one was answered |
| RpcClient.PendingIsSettled | brain/scripts/control-ui-i18n.ts:738-873 | the pending prompt is settled by exactly the events that must settle it, resolved with the line's text only by an `agent_end`, rejected with the given reason by any other, and cleared in the same step |
| RpcClient.IdleSettlesNothing | brain/scripts/control-ui-i18n.ts:778-781 | with nothing pending no event settles anything |
| RpcClient.ClosesWhen | brain/scripts/control-ui-i18n.ts:742-884 | the client closes on request, with the process, and on its pending prompt's timeout |
| RpcClient.CallsQueueUp | brain/scripts/control-ui-i18n.ts:814-815 | calls queue up in order and only the chain takes them |
| RpcClient.ChainSendsNext | brain/scripts/control-ui-i18n.ts:815-863 | with nothing pending and no failure the next call is sent, unless the client is closed |
| RpcClient.StepKeepsOwnEnds | brain/scripts/control-ui-i18n.ts:801-811 | every event the process may send keeps each answer with its own prompt |
| RpcClient.AnswersBelong | brain/scripts/control-ui-i18n.ts:801-811 | if the process ends only prompts it got, each at most once, no prompt is answered by an `agent_end` written for another, late or not |
| RpcClient.NothingWrittenAfterFailure | brain/scripts/control-ui-i18n.ts:815-818 | after the first failed prompt nothing more is written, whatever follows |
| RpcClient.SettledForGood | brain/scripts/control-ui-i18n.ts:848-861 | a prompt settles once |
| RpcClient.ClearedWhenSettled | brain/scripts/control-ui-i18n.ts:794-808 | a settled prompt is never the pending one |
| RpcClient.DuplicateEndMisanswers | brain/scripts/control-ui-i18n.ts:801-811 | a run that ends only written prompts, none more than twice, in which an answer goes to the wrong prompt |
| RpcClient.AnswersBelongIff | brain/scripts/control-ui-i18n.ts:801-811 | with at most `k` ends per written prompt, answers always belong to their prompts if and only if `k` is at most 1 |
| RpcClient.PiRpcClient.OnProcessError | brain/scripts/control-ui-i18n.ts:738-740 | an error of the process rejects what is pending, and the client stays in the state its history leads to |
| RpcClient.PiRpcClient.RejectPendingPrompt | brain/scripts/control-ui-i18n.ts:758-764 | the pending prompt is cleared and rejected |
| RpcClient.PiRpcClient.HandleStdoutLine | brain/scripts/control-ui-i18n.ts:766-812 | the fields change as the protocol step for the line says, and are always what `Run` makes of the client's history, as with every event below |
| RpcClient.PiRpcClient.Prompt | brain/scripts/control-ui-i18n.ts:814-815 | a call only joins the chain |
| RpcClient.PiRpcClient.BeginNext | brain/scripts/control-ui-i18n.ts:815-863 | the next prompt begins when the chain is free, or breaks it when the client is closed |
| RpcClient.PiRpcClient.OnTimer | brain/scripts/control-ui-i18n.ts:834-846 | a timeout acts on its own prompt only, and closes the client |
| RpcClient.PiRpcClient.OnWriteError | brain/scripts/control-ui-i18n.ts:863-873 | a write error rejects its own prompt, pending or not |
| RpcClient.PiRpcClient.OnProcessClose | brain/scripts/control-ui-i18n.ts:742-747 | the process's end closes the client and rejects what is pending |
| RpcClient.PiRpcClient.Close | brain/scripts/control-ui-i18n.ts:880-884 | closing does not settle the pending prompt |
| AsyncLock.ToggleStoreLock.WithLock | brain/extensions/active-memory/index.ts:174-182 | taking the last promise and leaving a new one puts the call at the end of the queue |
| AsyncLock.ToggleStoreLock.Resume | brain/extensions/active-memory/index.ts:183-185 | a call whose promise is resolved is exactly one whose predecessor is done |
| AsyncLock.ToggleStoreLock.ReadToggleStore | brain/extensions/active-memory/index.ts:443-474 | the call inside the section reads the file as it is, or an empty store when reading fails |
| AsyncLock.ToggleStoreLock.WriteToggleStore | brain/extensions/active-memory/index.ts:476-522 | the edited store replaces the file in one step |
| AsyncLock.ToggleStoreLock.ReturnAndRelease | brain/extensions/active-memory/index.ts:184-188 | a finished task resolves its promise |
| AsyncLock.ToggleStoreLock.ThrowAndRelease | brain/extensions/active-memory/index.ts:184-188 | so does a task that throws, with the file unchanged |
| ToggleLock.MutualExclusion | brain/extensions/active-memory/index.ts:174-190 | under any interleaving at most one call is inside its section |
| ToggleLock.GrantedInOrder | brain/extensions/active-memory/index.ts:174-190 | sections are granted in call order |
| ToggleLock.SomeoneCanMove | brain/extensions/active-memory/index.ts:184-188 | no deadlock, also after a task has thrown |
| ToggleLock.CallsCanGoOn | brain/extensions/active-memory/index.ts:174-190 | what each call may do next, and that it may throw at any point before its rename |
| ToggleLock.ThrowLetsNextIn | brain/extensions/active-memory/index.ts:184-188 | after a throw the next caller gets in, with the file unchanged |
| ToggleLock.NoLostUpdate | brain/extensions/active-memory/index.ts:507-523 | the file always equals the effective toggles applied one by one in call order, where one whose read failed starts from an empty store; if none failed, it equals their sequential application |
| ToggleLock.RunKeepsInv | brain/extensions/active-memory/index.ts:174-190 | order, fresh reads and the replay equation hold in every reachable state |
| ToggleLock.ReplayReads | brain/extensions/active-memory/index.ts:443-523 | a session reads as it does after all effective toggles in call order, unless it has been forgotten by a toggle whose read failed |
| ToggleLock.ReadStoreIs | brain/extensions/active-memory/index.ts:443-474 | a reader gets the disabled sessions with a non-blank key, and their dates |
| ToggleLock.LastCallDecides | brain/extensions/active-memory/index.ts:507-523 | with reads that succeed, the last call that wrote a session decides and dates it |
| ToggleLock.LastToggleWins | brain/extensions/active-memory/index.ts:443-523 | read at any moment, a session is disabled exactly when its last effective toggle, or else the first file, says so and it has not been forgotten since |
| ToggleLock.FailedReadForgets | brain/extensions/active-memory/index.ts:468-473 | a run in which one failed read drops another disabled session |
| ToggleLock.PathsAreIndependent | brain/extensions/active-memory/index.ts:172-199 | with one map of locks, filled on first use, no two paths share a lock, and each path's calls and file are what its own moves make of them |
| RecallCache.ActiveRecallCache.GetCachedResult | brain/extensions/active-memory/index.ts:932-942 | answer and new map; on the object, a hit is the latest write, and an unexpired key with fewer than 1000 other keys set since does hit |
| RecallCache.ActiveRecallCache.SetCachedResult | brain/extensions/active-memory/index.ts:944-960 | sweep, reinsertion at the end and eviction in one new map |
| RecallCache.ActiveRecallCache.SweepExpiredCacheEntries | brain/extensions/active-memory/index.ts:962-968 | deleting while walking the map removes what the sweep function removes |
| RecallCache.SweepLeavesUnexpired | brain/extensions/active-memory/index.ts:962-968 | a sweep keeps exactly the unexpired entries, unchanged |
| RecallCache.EvictSpares | brain/extensions/active-memory/index.ts:953-959 | eviction spares every key with fewer than 1000 newer ones |
| RecallCache.EvictFitsIff | brain/extensions/active-memory/index.ts:953-959 | the cache fits after eviction if and only if it fitted before or no empty key is among those to drop |
| RecallCache.RunAgrees | brain/extensions/active-memory/index.ts:932-968 | in every run the cache is part of the unbounded last-write map, in write order |
| RecallCache.HitIsLatestWrite | brain/extensions/active-memory/index.ts:932-942 | a hit returns the latest write of that key, unexpired |
| RecallCache.RecentKeyHits | brain/extensions/active-memory/index.ts:932-968 | an unexpired key hits while fewer than 1000 other keys were set since its last set |
| RecallCache.HitsAreTheLastSet | brain/extensions/active-memory/index.ts:932-942 | a hit is the result of the last set call for that key, less than its time to live ago |
| RecallCache.LastSetIsHit | brain/extensions/active-memory/index.ts:932-968 | within its time to live the last set call is hit while fewer than 1000 other keys were set after it |
| RecallCache.GetDeletes | brain/extensions/active-memory/index.ts:932-942 | a read deletes the key it finds expired and nothing else |
| RecallCache.SetSweeps | brain/extensions/active-memory/index.ts:944-952 | a write puts its key last and leaves no other expired entry |
| RecallCache.SizeIsBounded | brain/extensions/active-memory/index.ts:953-959 | with non-empty keys the size never exceeds 1000 |
| RecallCache.SizeIsBoundedIff | brain/extensions/active-memory/index.ts:953-959 | over all runs with a forward clock the limit holds if and only if the empty key may not be written |
| BedrockCache.DiscoveryCache.BeginDiscovery | brain/extensions/amazon-bedrock/discovery.ts:329-406 | serve, join or start, with the cache entry that follows |
| BedrockCache.DiscoveryCache.FinishDiscovery | brain/extensions/amazon-bedrock/discovery.ts:408-428 | the starter stores or deletes the entry and returns the models, or none |
| BedrockCache.OneOutstanding | brain/extensions/amazon-bedrock/discovery.ts:331-339 | for a positive interval at most one discovery per key is outstanding |
| BedrockCache.CallsJoin | brain/extensions/amazon-bedrock/discovery.ts:331-338 | while a discovery is outstanding every call for its key joins it |
| BedrockCache.StartedIsOutstanding | brain/extensions/amazon-bedrock/discovery.ts:341-406 | a call that starts a discovery starts one, for its key and from its moment |
| BedrockCache.NoIntervalNoCache | brain/extensions/amazon-bedrock/discovery.ts:331-406 | without an interval nothing is shared or kept |
| BedrockCache.JoinersShare | brain/extensions/amazon-bedrock/discovery.ts:336-338 | a joiner waits for the outstanding discovery of its own key |
| BedrockCache.JoinersGetTheValue | brain/extensions/amazon-bedrock/discovery.ts:336-338 | if the joined discovery succeeds in any continuation, the joiner's promise holds its value for good |
| BedrockCache.DiscoveryCache.SettleDiscovery | brain/extensions/amazon-bedrock/discovery.ts:344-399 | the promise of a running discovery settles; the cache entry waits for the starter |
| BedrockCache.ResultIsFinal | brain/extensions/amazon-bedrock/discovery.ts:336-338 | a discovery settles once, so all who wait for it see one outcome |
| BedrockCache.ServedIsRecent | brain/extensions/amazon-bedrock/discovery.ts:331-335 | a served value came from a successful discovery of that key started less than one interval ago |
| BedrockCache.FailureLeavesAbsent | brain/extensions/amazon-bedrock/discovery.ts:417-420 | a failure leaves the key absent, and the next call starts anew |
| BedrockCache.SuccessIsServed | brain/extensions/amazon-bedrock/discovery.ts:408-416 | a success is served until its interval, counted from the start, has passed |
| BedrockCache.SuccessStaysServed | brain/extensions/amazon-bedrock/discovery.ts:331-416 | and it stays so whatever happens, while nobody asks after the interval |
| BedrockCache.RunKeepsInv | brain/extensions/amazon-bedrock/discovery.ts:329-428 | in every run an in-flight entry is an outstanding discovery and a value has a successful source |
| BedrockMerge.ResolveInferenceProfiles | brain/extensions/amazon-bedrock/discovery.ts:244-290 | exactly the wanted profiles in order, each inheriting from the foundation model it names, or the defaults |
| BedrockMerge.WantedMembers | brain/extensions/amazon-bedrock/discovery.ts:251-271 | the wanted profiles are the active ones with an id of their own that pass the provider filter |
| BedrockMerge.WantedIsFilter | brain/extensions/amazon-bedrock/discovery.ts:251-271 | they are filtered in order |
| BedrockMerge.InheritsAll | brain/extensions/amazon-bedrock/discovery.ts:279-287 | apart from id and name a profile is its foundation model, or the plain default |
| BedrockMerge.LastWithIdIs | brain/extensions/amazon-bedrock/discovery.ts:370 | the foundation model of an id is the last one that has it |
| BedrockMerge.AddNewFirst | brain/extensions/amazon-bedrock/discovery.ts:380-386 | of several profiles with one normalised id the first is added |
| BedrockMerge.AddNewIds | brain/extensions/amazon-bedrock/discovery.ts:380-386 | no foundation model is dropped or moved, and every profile id is present |
| BedrockMerge.AddNewDistinct | brain/extensions/amazon-bedrock/discovery.ts:380-386 | an added profile's normalised id occurs nowhere before it |
| BedrockMerge.MergeModels | brain/extensions/amazon-bedrock/discovery.ts:354-398 | the result is that list rearranged, `global.` ids first and then by name |
| Base32.Base32Encode | dashboard/server.js:237-249 | the alphabet symbols of the bit string in groups of five, `⌈8n/5⌉` of them |
| Base32.Base32Decode | dashboard/server.js:222-235 | the whole octets of the bits of the alphabet characters |
| Base32.SymbolsSpellTheAlphabet | dashboard/server.js:238 | the symbol arithmetic is the alphabet of section 6 of RFC 4648 |
| Base32.DecodeOfEncode | dashboard/server.js:222-249 | decoding the symbols gives the bits back, followed by the padding bits |
| Base32.EncodingSpellsTheBytes | dashboard/server.js:237-249 | read as base 32 digits the symbols are the number that the bytes spell, followed by fewer than five zero bits |
| Base32.CanonicalOne | dashboard/server.js:225-228 | each letter counts as its capital, 2 to 7 as themselves, and nothing else counts |
| Base32.BytesRoundTrip | dashboard/server.js:231-233 | fewer than eight bits after whole octets are dropped |
| Base32.DecodeEncodeRoundTrip | dashboard/server.js:222-249 | decoding an encoding returns every byte sequence, with fewer than five bits left over |
| Base32.DecodingIsLenient | dashboard/server.js:225-228 | for ASCII text, case, trailing `=` and characters outside the alphabet do not matter |
| RateLimiter.RateLimitStore.CheckRateLimit | dashboard/server.js:317-333 | the answer counts every failure of the last 15 minutes since the last clear, over the object's whole history; and the pruned list it stores |
| RateLimiter.RateLimitStore.RecordFailedAuth | dashboard/server.js:335-340 | one more failure for this address |
| RateLimiter.RateLimitStore.ClearFailedAuth | dashboard/server.js:342-344 | the address is forgotten |
| RateLimiter.PrunedAgrees | dashboard/server.js:317-344 | at every later time the pruned list and the full history have the same recent part |
| RateLimiter.AnswersFromFullHistory | dashboard/server.js:317-333 | blocked and soft-locked exactly as counting all failures since the last clear in 15 minutes, 20 and 5 of them |
| RateLimiter.AnswersCountFailures | dashboard/server.js:317-333 | the same by counting the failure events themselves, and the announced seconds are what is left of 15 minutes after the last of them, rounded up |
| RateLimiter.RecentIsFilter | dashboard/server.js:320-321 | the stored list is the filter for the last 15 minutes, in order |
| RateLimiter.ChecksAreUnobservable | dashboard/server.js:317-321 | removing every earlier check changes no answer |
| RateLimiter.LockEndsAsAnnounced | dashboard/server.js:322-331 | the announced wait is 1 to 900 seconds, and waiting that long without a new failure of the address unlocks, whatever else happens meanwhile |
| Sessions.SessionStore.CreateSession | dashboard/server.js:192-205 | the new session with its deadline |
| Sessions.SessionStore.IsAuthenticated | dashboard/server.js:371-400 | the answer is that of the ideal table, over the object's whole history; and the entry dropped or touched |
| Sessions.SessionStore.SweepExpired | dashboard/server.js:1472-1481 | deleting while walking removes exactly the stale sessions |
| Sessions.SessionStore.LogOut | dashboard/server.js:1672-1677 | the bearer's session is gone, and no other |
| Sessions.SessionStore.OnPasswordReset | dashboard/server.js:1718 | every session is gone |
| Sessions.SessionStore.OnPasswordChange | dashboard/server.js:1769-1773 | every session but the caller's is gone |
| Sessions.RunAgrees | dashboard/server.js:192-205 | in every run the table holds granted sessions only, and every granted one that is still alive |
| Sessions.GrantedIs | dashboard/server.js:192-205 | the granted tokens are those that some event issued and none since has revoked |
| Sessions.IdleTestIsSubsumed | dashboard/server.js:391-396 | the idle test never fires before the deadline does |
| Sessions.AuthenticatesIffAlive | dashboard/server.js:371-400 | a token authenticates if and only if it was issued, not revoked since, and is at most 3 hours old if remembered and 30 minutes if not |
| Sessions.SweepsAreUnobservable | dashboard/server.js:1472-1481 | removing any sweeps and any earlier requests changes no answer |
| Sessions.RefusalIsFinal | dashboard/server.js:371-400 | a refused token stays refused unless it is issued anew |
| Utf16.NextBoundary | brain/src/utils.ts:80-86 | walking code points never lands inside a surrogate pair |
| Utf16.PairsAreSupplementary | brain/src/utils.ts:80-86 | a high and a low surrogate are exactly what encodes a code point beyond the basic plane |
| Utf16.ResolveStands | brain/src/utils.ts:91-92 | what index each number stands for: from the end when negative, kept within the text, its fraction cut off |
| Utf16.WholeBounds | brain/src/utils.ts:91-92 | a whole number within the text stands for itself, and `-k` for `k` before the end |
| Utf16.WhollyInsideIs | brain/src/utils.ts:100-114 | the code points inside a range are the units between the boundaries inside it |
| Utf16.RangeOfBoundaries | brain/src/utils.ts:100-114 | between boundaries the slice is exactly the code points inside the range |
| Utf16.SliceUtf16Safe | brain/src/utils.ts:88-115 | for every text and all numbers as bounds, fractional, infinite or NaN, exactly the code points wholly inside the resolved range, also when the bounds cross, and nothing for a NaN end; well-formed texts stay so |
| Utf16.SliceOfWellFormed | brain/src/utils.ts:88-115 | a well-formed text cut at boundaries is well-formed |
| Utf16.TruncateUtf16Safe | brain/src/utils.ts:117-123 | the code points wholly below the limit, for every number: all under an infinite one, none under NaN |
| Utf16.TruncatedIsPrefix | brain/src/utils.ts:117-123 | a prefix, one unit short of the limit exactly when the limit splits a pair |
| Utf16.TruncationComposes | brain/src/utils.ts:117-123 | truncating to `n` and then to `m <= n` is truncating to `m` |
| ClaudeArgs.NormalizeClaudePermissionArgs | brain/extensions/anthropic/cli-shared.ts:98-132 | the index loop with lookahead computes the permission pass |
| ClaudeArgs.NormalizeClaudeSettingSourcesArgs | brain/extensions/anthropic/cli-shared.ts:134-166 | the index loop with lookahead computes the setting-sources pass |
| ClaudeArgs.NormalizeClaudeBackendConfig | brain/extensions/anthropic/cli-shared.ts:168-174 | both argument lists go through both passes in this order |
| ClaudeArgs.PassesReadOnce | brain/extensions/anthropic/cli-shared.ts:168-174 | the second pass on the first one's output is one reading of the original arguments |
| ClaudeArgs.NormalizedIsRendering | brain/extensions/anthropic/cli-shared.ts:168-174 | the output renders each token once, plus the safe source and the bypass mode where none is set |
| ClaudeArgs.TokensSpell | brain/extensions/anthropic/cli-shared.ts:104-127 | the tokens spell the arguments, and no flag is left bare before a value |
| ClaudeArgs.ReadingIsUnique | brain/extensions/anthropic/cli-shared.ts:98-166 | no other reading does |
| ClaudeArgs.IsValueIff | brain/extensions/anthropic/cli-shared.ts:111-115 | a value is not blank and does not start with a dash |
| ClaudeArgs.PlainArgsAreKept | brain/extensions/anthropic/cli-shared.ts:98-174 | arguments that neither pass is about are kept as they are, with the two defaults behind them |
| ClaudeArgs.RenderedReadsBack | brain/extensions/anthropic/cli-shared.ts:98-166 | what is rendered is read as the same tokens again |
| ClaudeArgs.Idempotent | brain/extensions/anthropic/cli-shared.ts:168-174 | normalising twice is normalising once |
| ClaudeArgs.ResultIsWellFormed | brain/extensions/anthropic/cli-shared.ts:98-174 | no legacy flag, every split mode has a value, every source is `user`, and some mode and some source are named |
| ClaudeArgs.OthersSurvive | brain/extensions/anthropic/cli-shared.ts:98-174 | all other arguments survive in order, with at most the bypass mode added |

## Left out

- LocaleSync.SyncLocale: a file is its parsed content and a mark that its text is what the renderer emits, so rendering and loading are taken to be mutually inverse; hashes are uninterpreted, and cache keys of different segments are taken to differ.
- TranslationObjects.TranslationMap.SetAlong: the `cursor` loop is a method that moves on by calling itself. Names that objects inherit from `Object.prototype`, such as `constructor`, and the enumeration order of keys that look like array indices are not modelled.
- TranslationTree.FlattenTranslations: takes and returns the map `out` instead of writing into a shared one; the enumeration order is arbitrary.
- TranslateRetry.TranslateBatch: a reply that parses to the JSON value `null`, labels, delays and the closing of the client between attempts are left out; each prompt's outcome is arbitrary, which covers them.
- Joiners of a failing discovery: a joiner gets the rejection itself, while the call that started it returns an empty list; how the joiner's caller handles it is not modelled.
- Other processes that write the toggle file: the lock is per process.
- Bedrock inputs: filtered summaries, the regular expressions behind `resolveBaseModelId`, the AWS client and its pagination are inputs.
- Reading an import graph: files, the import pattern and the resolution of specifiers are one given successor function; paths are POSIX segments.
- TypeScript parsing and source resolution: the graph is given. `localeCompare` is any comparator, and the order of the report is stated when it is a total preorder.
- Upper-casing in the Base32 decoder: characters outside ASCII are upper-cased by a function that is a parameter.
- Process handling of the RPC client: heartbeats, process spawning, kill signals and message texts are left out; only the events they lead to remain.
- Session records: user name and address of a session play no part in the answers and are left out; reissuing a token starts a new grant.
- HTTP routing, headers, WebSocket bridge, cost sums and shell commands of the dashboard: plumbing, or floating point.
- Provider catalogs, re-export barrels, plugin registration, argument parsers and `config-compat.ts`: they would add only easy members.

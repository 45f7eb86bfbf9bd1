# Verified models of the stateful core

This project models, in Dafny, the parts of the repository that hold state, loops or arithmetic, and proves what
they are relied on for. `dafny verify dfyconfig.toml` checks all of it.

Each module follows one source file or one concern of it. Code that updates variables or fields in place is a method
or a class here, proved against a specification function or predicate; what the code promises over whole runs is then
proved about that specification. Strings whose code units or white space matter are sequences of 16-bit units
(`JsText`, `Numerals`); file paths are sequences of names. `Sequences` holds what several models share.

| concern | modules | source |
|---|---|---|
| device-pair notifications: state file, commands, poll ticks, runs | `PairNotify`, `PairNotifyCommands`, `PairNotifier`, `PairNotifyKeys`, `PairNotifyRuns`, `PairNotifySubscriptions` | extensions/device-pair/notify.ts |
| isolated copy of a module's import graph | `ImportPaths`, `ImportGraph`, `CommonAncestor`, `ModuleCopy` | scripts/load-channel-config-surface.ts |
| outbound text chunks (one model for two identical functions) | `TextChunker` | extensions/imessage/runtime-api.ts, extensions/matrix/runtime-api.ts |
| UTF-16 safe slicing (section 2.2 of RFC 2781) | `Utf16` | src/utils.ts |
| Bedrock discovery and its cache | `ProviderFilter`, `BedrockDiscovery`, `BedrockListing` | extensions/amazon-bedrock/discovery.ts |
| Foundry Entra tokens | `FoundryAuth` | extensions/microsoft-foundry/runtime.ts |
| Chutes discovery cache | `ChutesModels` | extensions/chutes/models.ts |
| long-term memory store | `VectorSearch`, `MemoryStore`, `MemoryInterleaving` | extensions/memory-lancedb/index.ts |
| marked-block rewriting | `MarkedBlock`, `MarkedBlockPutGet`, `MarkedBlockByPosition` | scripts/sync-moonshot-docs.ts |
| re-batching of paged listings | `LabelBatches` | scripts/label-open-issues.ts |
| usage totals | `CronUsage` | scripts/cron_usage_report.ts |
| permission arguments | `ClaudeArgs` | extensions/anthropic/cli-shared.ts |
| Sparkle build numbers and the appcast check | `SparkleBuild`, `Appcast` | scripts/sparkle-build.ts, scripts/release-check.ts |

Concurrency is a state machine over steps: a call up to its first suspension, a completion, a failure, a `finally`
handler. Runs are arbitrary finite sequences of such steps from the empty state. For the notifier one completed
command or tick is one step. That they do not overlap is assumed: the code takes no lock around its read, await and
write, so nothing enforces it, and a command that overlaps a tick's awaits can be overwritten by the tick.

Clocks, randomness, network replies and channel outcomes are parameters of the steps. The exact nearest-neighbour
search of the memory store is an interface assumption (`MemoryStore.ExactSearch`).

## Where the code falls short of the expected property

Each of these is proved with the exact condition under which the property holds, or with the exact behaviour where
none does, and with a failing case or family.

- The common ancestor of a set of paths misses a listed proper ancestor of the first path when the others lie at it
  or below it through the first path's own branch (`CommonAncestor.CommonAncestorExact`, `ParentOfFirstIsMissed`).
  The copy never runs into this, because no regular file lies above its package file (`ModuleCopy.CopyRootIsCommon`).
- The isolated copy breaks an import that climbs above the copy root, even when it comes back, and an import of the
  copy root itself unless it finds an index file and the isolated root's name has no extension
  (`ModuleCopy.ImportSurvivesExactly`, `DetourBreaks`, `RootImportBreaks`).
- The chunker does not stop for a negative limit, nor for limit 0 unless the text is all white space
  (`TextChunker.TerminationCondition`). It cuts a word unless every pass finds an opening
  (`WordsStayWholeExactly`, `WordsStayWholeIffRunsFit`, `FirstCutDecides`; `LeadingSpaceSplitsWord`), and it cuts a
  surrogate pair exactly when a pass has no break in its window and the pair straddles the limit
  (`ChunksWellFormedExactly`, `PairCutExactly`; `PairDividedAtLimitOne`).
- A target with outer white space in its account or thread id can subscribe twice
  (`PairNotifySubscriptions.KeysDistinctExactly`, `UpsertDistinctExactly`; `UntrimmedTargetSubscribesTwice`).
- A second one-shot command for an armed key keeps the first one's stamp, so a request stamped between the two is
  still sent after the second reply (`PairNotifySubscriptions.ArmingStampsExactly`,
  `OneShotAnswersLastEffectiveArming`, `StampedAfterLatestArming`; `RearmedKeepsOldStamp`).
- Different targets can share a subscriber key (`PairNotifyKeys.KeysCollideExactly`; `DifferentTargetsShareKeys`).
- A hand-written state file can load as a state that does not survive a save, when a kept entry's time lies between 0
  and 1 (`PairNotify.LoadedIsCleanExactly`; `FractionalEntryLoadsUnclean`).
- The 24-hour promise against duplicate notifications can be broken for a request id exactly when it is blank
  (`PairNotifyRuns.BrokenExactlyForBlankIds`, `BlankIdIsRedelivered`).
- Foundry cache keys join two ids with a colon, so ids with colons can share a key (`FoundryAuth.KeysCollideExactly`, `ColonsCollide`).
- The reset functions meant for tests break single flight, exactly when a reset leaves a fetch or refresh of the key
  running and the key is called again before it ends (`BedrockDiscovery.SingleFlightExactly`,
  `FoundryAuth.OneRefreshPerKeyExactly`; `ResetBreaksSingleFlight`, `ResetBreaksSingleRefresh`).
- Callers that joined a failing Bedrock fetch see its rejection, not the empty list that the starter gets
  (`BedrockDiscovery.OneCallerGetsEmptyList`; `JoinerIsRejected`).
- A rewritten block reads back, and a second rewrite overrides the first, only if neither the start marker nor an
  indented line holds the end marker (`MarkedBlock.PutPutExactly`, `GetPutExactly`; `MarkerLineBreaksBlock`). Writing
  back what was read changes a block that is not in canonical form, and drops a final newline right after it
  (`MarkedBlockPutGet.PutGetExactly`; `FinalNewlineIsLost`).
- Memory stores whose checks and additions interleave may store duplicates
  (`MemoryInterleaving.SeparationExactly`, `MemoryStore.InterleavedStoresExactly`; `InterleavedStoresDuplicate`,
  `BothCheckedFirst`).
- Different suffixes can share a Sparkle build (`SparkleBuild.BuildsCollideExactly`; `SuffixesShareBuild`), and adding an appcast item can
  reject another item, though it never clears one (`Appcast.RejectionsAfterAdding`; `AddingRejectsLegacyItem`).

## Model

| member | source | states |
|---|---|---|
| PairNotifyRuns.NoDuplicateDelivery | extensions/device-pair/notify.ts:287-348 | over every run of ticks and commands on a clock that never runs backwards, two ticks that deliver the same non-blank request id lie more than 24 hours apart, or some tick strictly between them saw the request not pending |
| PairNotifyRuns.RedeliveryNeedsForgetting | extensions/device-pair/notify.ts:298-303 | whatever the clock does, between two deliveries of a request, or at the second one, some tick pruned the entry made by the first |
| PairNotifyRuns.EntriesAreLiveAfterTick | extensions/device-pair/notify.ts:295-303 | after a tick every remembered request id is pending and its entry is at most 24 hours old |
| PairNotifyRuns.SentExactly | extensions/device-pair/notify.ts:305-333 | with distinct pending ids, a send succeeds if and only if the request has no live entry, the subscriber wants it and the channel accepts it, so one failing subscriber does not keep the request from the others |
| PairNotifyRuns.BlankIdIsForgotten | extensions/device-pair/notify.ts:124-127 | an entry under a blank request id does not survive to the next read |
| PairNotifyRuns.BlankIdIsRedelivered | extensions/device-pair/notify.ts:307-333 | with a blank id any two ticks at most 24 hours apart that see it pending deliver it twice to a persistent subscriber whose sends succeed |
| PairNotifyRuns.BrokenExactlyForBlankIds | extensions/device-pair/notify.ts:124-127 | the 24-hour promise of NoDuplicateDelivery can be broken by some run for a request id if and only if the id is blank |
| PairNotifySubscriptions.KeysStayDistinct | extensions/device-pair/notify.ts:184-206 | over every run whose commands carry ids without outer white space, the keys of the stored subscribers are pairwise distinct |
| PairNotifySubscriptions.KeysDistinctExactly | extensions/device-pair/notify.ts:184-206 | over every run the keys are pairwise distinct at every moment if and only if no command stores its target under a key that differs from the one it looked up and is already taken |
| PairNotifySubscriptions.UpsertDistinctExactly | extensions/device-pair/notify.ts:184-206 | one subscribe keeps the stored keys distinct if and only if it changes nothing, or the key it is stored under is the key that was looked up, or nobody has the stored key yet |
| PairNotifySubscriptions.UntrimmedTargetSubscribesTwice | extensions/device-pair/notify.ts:99-107 | a target whose ids are changed by trimming, subscribed twice, is stored twice under one key |
| PairNotifySubscriptions.SubscribedBy | extensions/device-pair/notify.ts:184-206 | every stored subscriber goes back to a command that stored it, has been there since, and no tick since then has spent its key |
| PairNotifySubscriptions.OneShotDeliversOnce | extensions/device-pair/notify.ts:237-250 | a successful one-shot delivery answers the arming that stored the subscription, not spent since, for a request stamped at or after that arming, and after the tick no subscriber has the key |
| PairNotifySubscriptions.ArmingStampsExactly | extensions/device-pair/notify.ts:189-205 | after a one-shot command the subscription is one-shot, and its stamp is the time of the command if and only if the key was not subscribed or was in the other mode (or had that very stamp); otherwise nothing changes |
| PairNotifySubscriptions.OneShotAnswersLastEffectiveArming | extensions/device-pair/notify.ts:184-206 | with trimmed ids, every arming of the key after the one a delivery answers found the key armed and changed nothing |
| PairNotifySubscriptions.StampedAfterLatestArming | extensions/device-pair/notify.ts:244-249 | so on a clock that never runs backwards, when no command arms an armed key, a delivered request is stamped at or after every earlier arming of its key, the latest one included |
| PairNotifySubscriptions.RearmedKeepsOldStamp | extensions/device-pair/notify.ts:200-203 | a family of runs: a chat arms at t1 and again at t2, is told both times that it is armed, and still gets a request stamped before t2 |
| PairNotifySubscriptions.RearmedBetween | extensions/device-pair/notify.ts:334-343 | between one-shot deliveries to a key in two different ticks some command armed that key again, so one arming is spent in one tick |
| PairNotifyKeys.KeysCollideExactly | extensions/device-pair/notify.ts:152-158 | any two targets share a key if and only if their recipients are equal and the rest is alike (same account, threads that print alike, or accounts that overhang one another at a bar), or one recipient overhangs the other at a bar |
| PairNotifyKeys.KeyDeterminesTarget | extensions/device-pair/notify.ts:152-158 | without bars in recipient and account the key determines both, and the thread as it prints |
| PairNotifyKeys.DifferentTargetsShareKeys | extensions/device-pair/notify.ts:157 | families of different targets that share a key: a thread number and its numeral, and parts split at different bars |
| PairNotifier.NotifierService.Tick | extensions/device-pair/notify.ts:287-348 | the state the next operation reads, and the successful sends, are those of a loop-free description of the poll: pruning, first unseen request per id, remembered deliveries, spent one-shot keys removed; skipping the write when nothing changed loses nothing |
| PairNotifier.NotifierService.PruneNotified | extensions/device-pair/notify.ts:298-303 | the loop that deletes entries leaves exactly the pending ones at most a day old, and reports no change only if there was none |
| PairNotifier.NotifierService.DeliverPending | extensions/device-pair/notify.ts:305-333 | the two nested loops record exactly the successful sends, the delivered ids and the spent one-shot keys |
| PairNotifier.NotifierService.UpsertNotifySubscriber | extensions/device-pair/notify.ts:184-206 | appends an unknown key, replaces the entry on a change of mode, and otherwise leaves the list; a change is reported if and only if the key is unknown or the mode differs |
| PairNotifier.NotifierService.Arm | extensions/device-pair/notify.ts:350-382 | arms if and only if the command comes from Telegram and names a chat; with trimmed ids the next read then finds the chat subscribed for one shot and every other subscriber as before, and otherwise nothing changed |
| PairNotifier.NotifierService.HandleNotifyCommand | extensions/device-pair/notify.ts:384-462 | word by word: after on or enable the next read finds the chat subscribed persistently, after once or arm for one shot, after off or disable not at all, with every other subscriber and all that was notified as before; status reports the chat and the count, and status, any other word, another channel and a missing target change nothing; and the reply that goes with each |
| PairNotifyCommands.CommandAnswers | extensions/device-pair/notify.ts:384-462 | the same of the loop-free command, for every clean state, context, word and clock: the word alone decides the mode the chat is in afterwards |
| PairNotifyCommands.TargetIsFirstNonBlank | extensions/device-pair/notify.ts:166-182 | the recipient is the first of sender, origin and destination that is more than white space, trimmed; there is no target if and only if all three are blank; an empty account counts as none, other accounts and the thread are passed on untrimmed |
| PairNotifier.WantedExactly | extensions/device-pair/notify.ts:229-250 | a one-shot subscription wants a request if and only if its time is finite, at least 1 and not before the arming; a persistent one wants all |
| PairNotify.NormalizeNotifyState | extensions/device-pair/notify.ts:81-135 | the reader loop over a state file of any shape: which subscribers and entries it keeps and what it fills in |
| PairNotify.ItemLoadsAs | extensions/device-pair/notify.ts:89-122 | an item is dropped if and only if its target is missing, blank or no string; otherwise the target is trimmed, a blank or mistyped account or thread loads as none, numbers are cut towards zero, every mode but once loads as persistent, and a missing or non-finite stamp as the time of the read |
| PairNotify.WriteThenRead | extensions/device-pair/notify.ts:137-150 | reading back a written state trims it in a fixed way, whatever order the object lists its entries in and whatever the clock says |
| PairNotify.ReloadFixpoint | extensions/device-pair/notify.ts:81-150 | a state survives a save and a load if and only if it is clean (trimmed ids, no blank targets or request ids, positive times); what is read back after a write is always clean |
| PairNotify.LoadedIsCleanExactly | extensions/device-pair/notify.ts:89-134 | whatever a file holds, the subscribers it loads as are clean, and the whole state is if and only if no kept entry has a time between 0 and 1, which is cut to 0 |
| PairNotify.FractionalEntryLoadsUnclean | extensions/device-pair/notify.ts:124-132 | an entry with the time 0.5 under a non-blank id is such an entry |
| ModuleCopy.ImportSurvivesExactly | scripts/load-channel-config-surface.ts:69-78 | for an import between two discovered files, in the copy it resolves to the copy of its target if and only if the specifier never climbs above the copy root and, if it names the root itself, the target is an index file and the isolated root has no extension |
| ModuleCopy.ResolutionCommutes | scripts/load-channel-config-surface.ts:52-78 | a specifier that stays below the copy root resolves in the copy to the copy of what it resolved to, and to nothing if it resolved to nothing |
| ModuleCopy.CandidatesRelocate | scripts/load-channel-config-surface.ts:52-67 | below the copy root, the candidates tried in the copy are the copies of the original candidates in the same order |
| ModuleCopy.CopyModuleImportGraph | scripts/load-channel-config-surface.ts:128-155 | the copied set is exactly the reachable files, below the deepest directory containing them and the package root, with their contents; missing package root and missing entry file are the only errors |
| ModuleCopy.CopyFiles | scripts/load-channel-config-surface.ts:143-148 | the copy loop yields the copies of the listed files |
| ModuleCopy.CopyAllExact | scripts/load-channel-config-surface.ts:143-148 | the copies are exactly the relocated files, each with its own content: no two files overwrite each other |
| ModuleCopy.CopyIsSelfContained | scripts/load-channel-config-surface.ts:128-155 | if every import of a discovered file is kept (it stays below the copy root, or survives by the exact condition of ImportSurvivesExactly, or finds nothing before and after), the files reachable from the copied entry are exactly the copies |
| ModuleCopy.CopiedGraphIsIsomorphic | scripts/load-channel-config-surface.ts:80-107 | under the same condition a path is reachable from a copied entry if and only if it is the copy of a discovered file |
| ModuleCopy.KeptCommutes | scripts/load-channel-config-surface.ts:69-78 | a kept specifier resolves in the copy to the copy of what it resolved to, or to nothing if it resolved to nothing |
| ModuleCopy.ImportsCommute | scripts/load-channel-config-surface.ts:93-103 | each copy imports exactly the copies of what its original imports |
| ModuleCopy.CopyRootIsCommon | scripts/load-channel-config-surface.ts:135-137 | the package root is never below a discovered file, so the ancestor the source computes is the deepest directory containing everything |
| ModuleCopy.ResolvePackageRoot | scripts/load-channel-config-surface.ts:20-32 | the nearest directory at or above the module that holds a package file, or none |
| ModuleCopy.DetourBreaks | scripts/load-channel-config-surface.ts:143-148 | a family of imports that leave the copy root and re-enter it by name resolve before the copy and not after |
| ModuleCopy.RootImportBreaks | scripts/load-channel-config-surface.ts:52-67 | a family of imports of the copy root that resolve to its index file before the copy and not after, when the isolated root has an extension |
| ImportGraph.CollectRelativeImportGraph | scripts/load-channel-config-surface.ts:80-107 | terminates on every finite, possibly cyclic file graph and returns, without repetition, exactly the files reachable from the entry |
| ImportGraph.QueueImports | scripts/load-channel-config-surface.ts:93-104 | the inner loop queues exactly the files the current file imports |
| ImportGraph.ClosedIsReachable | scripts/load-channel-config-surface.ts:80-107 | a set of reachable files that holds the entry and the imports of its members is the set of reachable files |
| ImportGraph.ImportsExactly | scripts/load-channel-config-surface.ts:93-104 | a file imports another if and only if one of its specifiers starts with a dot and resolves to it |
| ImportPaths.ResolveImportCandidates | scripts/load-channel-config-surface.ts:52-67 | the loops fill a set with the base path and the candidates of each extension, in insertion order and without repetition; ExtensionIsReplaced and ExtensionIsAppended say which these are |
| ImportPaths.ResolveRelativeImportPath | scripts/load-channel-config-surface.ts:69-78 | the loop returns the resolution that ExtensionIsReplaced, ExtensionIsAppended and WalkLands describe: the first candidate that is a file, or nothing |
| ImportPaths.ExtensionIsReplaced | scripts/load-channel-config-surface.ts:53-59 | an import whose base name is a non-empty stem and a last part that starts with a dot finds that very path if it is a file, else the stem with the first of .ts, .tsx, .mts, .cts, .js, .jsx, .mjs and .cjs that makes it a file, else nothing: "./b.js" finds b.ts |
| ImportPaths.ExtensionIsAppended | scripts/load-channel-config-surface.ts:60-65 | an import whose base name has no inner dot finds that very path if it is a file, else, extension by extension, the name with the extension or the index file with it, else nothing |
| ImportPaths.SegmentsAreSkipped | scripts/load-channel-config-surface.ts:69-72 | empty segments and "." of a specifier make no difference, wherever they stand |
| ImportPaths.NamesCancel | scripts/load-channel-config-surface.ts:69-72 | a name directly followed by ".." makes no difference either |
| ImportPaths.WalkLands | scripts/load-channel-config-surface.ts:69-72 | what is left, n times ".." and then names, leads n levels up, but not above the root directory, and down by the names |
| ImportPaths.FirstFileInSet | scripts/load-channel-config-surface.ts:54-66 | collecting the candidates in a set does not change which file is found first |
| CommonAncestor.ResolveCommonAncestor | scripts/load-channel-config-surface.ts:109-126 | the nested loops compute a fold of a closed form of the inner loop; an empty list is an error |
| CommonAncestor.CommonAncestorExact | scripts/load-channel-config-surface.ts:109-126 | the result is the deepest directory containing every path if and only if no listed proper ancestor of the first path has all others at it or below it through the branch of the first |
| CommonAncestor.ParentOfFirstIsMissed | scripts/load-channel-config-surface.ts:117 | for /a/b and /a the result is /a/b |
| TextChunker.ChunkText | extensions/imessage/runtime-api.ts:39-53 | the loop stops for every admissible limit; an empty text gives one empty chunk, a text within the limit itself alone, and every other text chunks that some white-space gaps weave back into the text; for a positive limit each chunk fits it, no cut leaves white space on either side, and no chunk after the first is empty |
| TextChunker.CutFromSearches | extensions/imessage/runtime-api.ts:43-45 | the cut the two backward searches choose is the last positive space or newline in the window, else the limit |
| TextChunker.TerminationCondition | extensions/imessage/runtime-api.ts:42-48 | for every integer limit, the loop ends if and only if the limit is positive, or it is zero and the text is all white space |
| TextChunker.ContentPreserved | extensions/imessage/runtime-api.ts:39-53 | the text equals its chunks in order with what was dropped at each cut put back |
| TextChunker.GapsAreWhitespace | extensions/imessage/runtime-api.ts:46-47 | everything dropped is white space |
| TextChunker.ChunkSizes | extensions/imessage/runtime-api.ts:39-53 | every chunk fits the limit and every chunk after the first is non-empty; so is the first unless the text starts with white space |
| TextChunker.TwoPassesConsumeLimit | extensions/imessage/runtime-api.ts:42-48 | any two passes in a row consume at least the limit, though a single one may consume one unit |
| TextChunker.ChunkCount | extensions/matrix/runtime-api.ts:38-52 | at most 2 * floor(length / limit) + 2 chunks |
| TextChunker.WordsStayWholeExactly | extensions/matrix/runtime-api.ts:38-52 | for every text and positive limit, white space was dropped at every cut between two chunks if and only if every pass finds an opening: a space or newline past the first position of its window, or white space at the limit or right before it |
| TextChunker.GapOpensExactly | extensions/imessage/runtime-api.ts:43-47 | one cut drops white space if and only if its pass has such an opening |
| TextChunker.WordsStayWholeIffRunsFit | extensions/matrix/runtime-api.ts:38-52 | a text that does not start with white space and has none but spaces and newlines keeps its words whole if and only if every run without them fits the limit |
| TextChunker.FirstCutDecides | extensions/matrix/runtime-api.ts:38-52 | when every run fits, only the first cut can divide a word, whatever the text starts with |
| TextChunker.WordsStayWhole | extensions/matrix/runtime-api.ts:38-52 | if the text does not start with white space and every run without space or newline fits the limit, words stay whole |
| TextChunker.LeadingSpaceSplitsWord | extensions/imessage/runtime-api.ts:44-47 | leading white space can divide a word: " aaaa" at limit 4, though every run fits |
| TextChunker.ChunksWellFormedExactly | extensions/imessage/runtime-api.ts:39-53 | for every well-formed text and positive limit, all chunks are well-formed if and only if no pass cuts inside a surrogate pair |
| TextChunker.PairCutExactly | extensions/imessage/runtime-api.ts:43-45 | a pass cuts inside a pair if and only if its window has no space or newline past the first position and the pair straddles the limit |
| TextChunker.ChunksStayWellFormed | extensions/imessage/runtime-api.ts:39-53 | so chunks of well-formed text that keep words whole are well-formed |
| TextChunker.PairDividedAtLimitOne | extensions/imessage/runtime-api.ts:45-46 | one emoji at limit 1 becomes two lone surrogates |
| Utf16.ComputeSlice | src/utils.ts:239-266 | the step-by-step clamping, swapping and adjusting gives the text between the next boundary at or after the lower end and the last boundary at or before the upper end |
| Utf16.SliceByPositions | src/utils.ts:239-266 | the slice is the text between the two positions the arguments stand for (counted from the end when negative, clamped, in either order), without the half of a surrogate pair that either end would cut off |
| Utf16.SliceWellFormed | src/utils.ts:239-266 | slices of well-formed UTF-16 are well-formed for all integer ends, negative, swapped or inside a pair |
| Utf16.SplitLosesAtMostOnePair | src/utils.ts:239-266 | the slices before and after any position give the text back but for the one pair the position cuts through |
| Utf16.TruncateIsLongestPrefix | src/utils.ts:268-274 | truncation of the encoding of any scalar sequence is the encoding of the longest prefix that fits the floored limit |
| Utf16.BoundarySlice | src/utils.ts:251-263 | between two positions that cut no pair, a slice of well-formed text is well-formed |
| Utf16.WellFormedIsPaired | src/utils.ts:231-237 | decodability is the same as every high surrogate being followed by a low one and every low one preceded by a high one |
| Utf16.DecodeEncode | src/utils.ts:231-237 | decoding the encoding of any scalar sequence gives it back |
| Utf16.EncodeDecode | src/utils.ts:231-237 | encoding what was decoded gives the code units back |
| BedrockDiscovery.SingleFlightExactly | extensions/amazon-bedrock/discovery.ts:179-214 | over every interleaving of calls, successes, failures and resets, a key with a positive interval has two fetches in flight at some moment if and only if a reset left one of its fetches running and the key was called before that fetch completed |
| BedrockDiscovery.SingleFlight | extensions/amazon-bedrock/discovery.ts:179-214 | so without such a reset, and in particular without any, it has at most one |
| BedrockDiscovery.ResetThenCallExactly | extensions/amazon-bedrock/discovery.ts:148-151 | one reset and a call leave two fetches of the key in flight if and only if one was in flight |
| BedrockDiscovery.ServedAgreesWithUncached | extensions/amazon-bedrock/discovery.ts:157-237 | a cached answer is the listing that an uncached call with the same key makes of the response to a fetch for that key, started strictly less than the interval ago |
| BedrockDiscovery.FetchedIsServedExactly | extensions/amazon-bedrock/discovery.ts:173-224 | the converse over runs: after a fetch for a key succeeds, a call for the key is served its listing if and only if it comes within the interval from the start of the fetch, as long as no reset, no other completion for the key and no call past the expiry comes between |
| BedrockDiscovery.WaitersAgreeWithUncached | extensions/amazon-bedrock/discovery.ts:184-224 | when a fetch succeeds, every call that waits for it, its starter or not, gets the listing of the response under its own key |
| BedrockDiscovery.JoinedFlightIsForKey | extensions/amazon-bedrock/discovery.ts:184-186 | whatever happened, resets included, a call that joins waits for a running fetch of its own key |
| BedrockDiscovery.FailureIsLocal | extensions/amazon-bedrock/discovery.ts:225-236 | a failure removes its own entry and no other, never a cached value, and the next call for the key starts a fetch, unless a reset forgot a fetch of the key as in SingleFlightExactly |
| BedrockDiscovery.OneCallerGetsEmptyList | extensions/amazon-bedrock/discovery.ts:184-236 | when a running fetch fails, exactly one of the calls that wait for it gets the empty list, the one that started it; all others see the rejection |
| BedrockDiscovery.JoinerIsRejected | extensions/amazon-bedrock/discovery.ts:184-186 | a run in which a second call joins a fetch that then fails: the first call answers the empty list, the second the rejection |
| BedrockDiscovery.ResetBreaksSingleFlight | extensions/amazon-bedrock/discovery.ts:148-151 | after a reset during a fetch a key can have two fetches in flight, and the failure of the first removes the entry of the second |
| BedrockDiscovery.Discovery.Discover | extensions/amazon-bedrock/discovery.ts:157-214 | the synchronous part of a call: served, joined or started, and the cache it leaves |
| BedrockDiscovery.Discovery.Succeed | extensions/amazon-bedrock/discovery.ts:192-224 | the success continuation lists the models of the response, writes them with an expiry counted from the start of the fetch, and returns them |
| BedrockDiscovery.Discovery.Fail | extensions/amazon-bedrock/discovery.ts:225-236 | the failure continuation deletes the entry of the key when the interval is positive |
| ProviderFilter.SameProvidersSameFilter | extensions/amazon-bedrock/discovery.ts:37-55 | two filters normalise to the same list if and only if they name the same providers, whatever their order, repetition, case and padding |
| ProviderFilter.NormalizedIsSorted | extensions/amazon-bedrock/discovery.ts:37-45 | the normalised filter is strictly sorted and lists exactly the named providers |
| BedrockListing.ListedExactly | extensions/amazon-bedrock/discovery.ts:57-130 | under a configured filter the listing is in name order and holds exactly the usable summaries whose provider the filter names, or all of them if it names none |
| BedrockListing.ListedInFull | extensions/amazon-bedrock/discovery.ts:57-146 | the listing holds a model if and only if some summary has a non-blank id, streams, puts out text, is active, and is named by the filter (or the filter names nobody), by its provider or the part of its id before the first dot, up to case and padding; the model has the trimmed id, the trimmed name or else the id, and the configured limits |
| BedrockListing.SortedIsStable | extensions/amazon-bedrock/discovery.ts:206 | models with equal names stay in the order of their summaries |
| BedrockListing.SortedKeeps | extensions/amazon-bedrock/discovery.ts:206 | the listing by name is ordered and a permutation of what was pushed |
| BedrockListing.ListModels | extensions/amazon-bedrock/discovery.ts:192-207 | the loop with its skips, and the sort |
| FoundryAuth.OneRefreshPerKeyExactly | extensions/microsoft-foundry/runtime.ts:82-91 | over every interleaving of calls, arrivals, failures, finally handlers and resets, a key has two refreshes outstanding at some moment if and only if a reset left one of its refreshes outstanding and the key was prepared, and not served from the cache, before the finally handler of that refresh ran |
| FoundryAuth.OneRefreshPerKey | extensions/microsoft-foundry/runtime.ts:82-91 | so without such a reset, and in particular without any, it has at most one from its start to its finally handler |
| FoundryAuth.ResetThenPrepareExactly | extensions/microsoft-foundry/runtime.ts:17-20 | one reset and a call leave two refreshes of the key outstanding if and only if one was outstanding |
| FoundryAuth.JoinedRefreshIsForKey | extensions/microsoft-foundry/runtime.ts:82-92 | a call that joins waits for an outstanding refresh of its own key, resets included |
| FoundryAuth.JoinedRefreshIsForAccount | extensions/microsoft-foundry/runtime.ts:70-92 | and of its very own account, if subscription ids hold no colon |
| FoundryAuth.TokenChangesByArrival | extensions/microsoft-foundry/runtime.ts:22-34 | between any two moments a key holds the token it held before, or one that a refresh for the key brought in between |
| FoundryAuth.TokenOrigin | extensions/microsoft-foundry/runtime.ts:22-34 | a cached token came from a completed refresh started for an account with that key |
| FoundryAuth.CachedTokenIsFreshAndOwn | extensions/microsoft-foundry/runtime.ts:70-81 | a token returned on the cache path expires more than five minutes from now and was brought by a refresh for the very same account, if subscription ids hold no colon |
| FoundryAuth.ArrivedTokenIsServedExactly | extensions/microsoft-foundry/runtime.ts:22-34 | the converse over runs: once a token arrived for a key, and until a reset or the next arrival for it, a call for the key is given that token, with the reported expiry or 55 minutes from its arrival, if and only if that lies more than five minutes ahead |
| FoundryAuth.FailureLetsNextCallRetry | extensions/microsoft-foundry/runtime.ts:84-92 | a failed refresh leaves every cached token as it was; after its finally handler, with any events in between and since, a later call for the key starts a refresh, joins one started after that handler, or is served a token that was there before the failure or arrived since |
| FoundryAuth.FinallyClears | extensions/microsoft-foundry/runtime.ts:87-89 | once the finally handler of a settled refresh has run, its key has no promise and the next call joins nothing |
| FoundryAuth.KeyDeterminesAccount | extensions/microsoft-foundry/shared-runtime.ts:10-15 | keys of accounts whose subscription ids hold no colon are equal if and only if the accounts are |
| FoundryAuth.KeysCollideExactly | extensions/microsoft-foundry/shared-runtime.ts:10-15 | any two accounts share a key if and only if they are equal or the subscription id of one runs over that of the other, a colon and part of its tenant id |
| FoundryAuth.ColonsCollide | extensions/microsoft-foundry/shared-runtime.ts:14 | a family of different accounts that share a key |
| FoundryAuth.ResetBreaksSingleRefresh | extensions/microsoft-foundry/runtime.ts:17-20 | clearing both maps during a refresh lets a second one for the same account start |
| FoundryAuth.RuntimeAuth.Prepare | extensions/microsoft-foundry/runtime.ts:70-92 | the synchronous part of a call: cached, joined or started, and the maps it leaves |
| FoundryAuth.RuntimeAuth.TokenArrives | extensions/microsoft-foundry/runtime.ts:26-33 | a completed refresh puts its token in the cache under the key of its account, with the reported expiry or 55 minutes from now, and settles |
| FoundryAuth.RuntimeAuth.RefreshFails | extensions/microsoft-foundry/runtime.ts:84-92 | a failed refresh touches neither map |
| FoundryAuth.RuntimeAuth.Finally | extensions/microsoft-foundry/runtime.ts:87-89 | the finally handler removes the promise of the key |
| ChutesModels.CacheStaysBounded | extensions/chutes/models.ts:490-506 | over every interleaving the cache holds at most 100 entries, with distinct keys |
| ChutesModels.HitIsOwnAndYoung | extensions/chutes/models.ts:508-515 | a hit returns what a response to a request carrying the trimmed token of the caller filed, less than five minutes ago |
| ChutesModels.FiledUnderOwnToken | extensions/chutes/models.ts:521-605 | what a response files is what it lists, or the static catalog if it names no model, under the token the call was made with, or under the empty key once that token was refused with a 401 |
| ChutesModels.FiledIsSound | extensions/chutes/models.ts:557-600 | every filed and returned list is non-empty with distinct ids, given that the static catalog is |
| ChutesModels.HitIsSound | extensions/chutes/models.ts:512-515 | so is every list a hit returns |
| ChutesModels.StoreKeeps | extensions/chutes/models.ts:490-506 | storing keeps the bound and the distinct keys, holds the new entry and otherwise only unexpired entries it held before |
| ChutesModels.StoreDropsOnlyFirst | extensions/chutes/models.ts:495-502 | the only other entry less than five minutes old that storing can drop is the first one in the cache, when it holds 100 and the key is new |
| ChutesModels.ServedExactly | extensions/chutes/models.ts:508-519 | a call finds a list if and only if the cache holds one under its trimmed token that is less than five minutes old, and then that one; otherwise it asks the API, or gets the static catalog in a test environment |
| ChutesModels.FiledIsServed | extensions/chutes/models.ts:490-515 | the converse of HitIsOwnAndYoung over runs: for five minutes a filed list is what calls with that token return, as long as the cache is not full and nothing else is filed under the token |
| ChutesModels.ModelsOfLists | extensions/chutes/models.ts:557-595 | an id occurs in the list made of a response if and only if it is the trimmed, non-blank id of some entry; it occurs once, with the attributes of the first such entry |
| ChutesModels.ListedIds | extensions/chutes/models.ts:557-595 | the listed models are exactly the first entries with each non-blank id |
| ChutesModels.IdDiscovered | extensions/chutes/models.ts:560-565 | a non-blank id is among the discovered ones if and only if some entry carries it |
| ChutesModels.DiscoverModels | extensions/chutes/models.ts:557-595 | the loop with its set of seen ids computes that list |
| ChutesModels.Discovery.PruneExpiredCacheEntries | extensions/chutes/models.ts:482-488 | the deletion loop keeps exactly the entries younger than the lifetime, in order |
| ChutesModels.Discovery.CacheAndReturn | extensions/chutes/models.ts:490-506 | pruning, evicting the oldest key at capacity and setting in place |
| ChutesModels.Discovery.Begin | extensions/chutes/models.ts:508-534 | a call up to its first request |
| ChutesModels.Discovery.Respond | extensions/chutes/models.ts:536-604 | a 401 to a request with a token leads to a second request without it; any other response ends the call, and what it returns and files under the right key is the list of the models the response names, as in ModelsOfLists, or the static catalog if it names none, is an error or an exception |
| MemoryStore.RunsKeepSeparation | extensions/memory-lancedb/index.ts:379-404 | after every run of completed stores, forgets and capture runs every two stored entries score below 0.95 |
| MemoryStore.RunsKeepDistance | extensions/memory-lancedb/index.ts:379-404 | in distances: every two of them lie more than 1/19 apart |
| MemoryStore.CaptureCoversFirstThree | extensions/memory-lancedb/index.ts:612-639 | after a capture run each of the first three texts has a duplicate in the table, up to the first that cannot be embedded, and whatever was added is one of these three |
| MemoryStore.CaptureIsIdempotent | extensions/memory-lancedb/index.ts:612-639 | a capture run only adds, at most three entries, and capturing the same texts again adds nothing |
| MemoryStore.ForgottenForGood | extensions/memory-lancedb/index.ts:427-440 | once a query has deleted its match no stored entry matches it |
| MemoryStore.InterleavedStoresExactly | extensions/memory-lancedb/index.ts:379-404 | two stores that both check before either adds keep the table separated if and only if they are not duplicates of each other |
| MemoryStore.InterleavedStoresDuplicate | extensions/memory-lancedb/index.ts:379-404 | two entries with one vector, both checked against the empty table first, are both stored and are duplicates, for every reflexive metric |
| MemoryInterleaving.SeparationExactly | extensions/memory-lancedb/index.ts:379-404 | over every interleaving of checks, additions and deletions, every two stored entries score below 0.95 at every moment if and only if no store adds its entry although, since its check, another store added a duplicate that is still there |
| MemoryInterleaving.BothCheckedFirst | extensions/memory-lancedb/index.ts:622-638 | a run of two checks and two additions that loses separation |
| MemoryStore.SearchAnswers | extensions/memory-lancedb/index.ts:105-129 | a filtered search over an exact index returns only entries that reach the score, all of them when fewer than the limit come back, and a most similar entry first |
| MemoryStore.SingleMatch | extensions/memory-lancedb/index.ts:427-440 | a search for five rows decides whether exactly one entry of the whole table matches, strongly |
| MemoryStore.FoundIsKnown | extensions/memory-lancedb/index.ts:379-382 | a search for one row decides whether the table holds a duplicate |
| MemoryStore.WithoutExactly | extensions/memory-lancedb/index.ts:131-139 | deleting an identifier removes the entries that carry it and no others |
| MemoryStore.MemoryDB.Search | extensions/memory-lancedb/index.ts:105-129 | the mapping and filtering of the rows, with the guarantees of SearchAnswers for the returned entries |
| MemoryStore.MemoryDB.Store | extensions/memory-lancedb/index.ts:92-103 | appends the entry |
| MemoryStore.MemoryDB.Delete | extensions/memory-lancedb/index.ts:131-139 | refuses identifiers that are not UUIDs and leaves the table then |
| MemoryStore.UuidIsGroups | extensions/memory-lancedb/index.ts:134-137 | an identifier is accepted if and only if it is groups of 8, 4, 4, 4 and 12 hexadecimal digits joined by hyphens |
| MemoryStore.MemoryDB.MemoryStore | extensions/memory-lancedb/index.ts:379-412 | stores if and only if no entry lies within distance 1/19, which is a score of at least 0.95, and otherwise leaves the table and names a most similar entry |
| MemoryStore.MemoryDB.MemoryForget | extensions/memory-lancedb/index.ts:420-478 | by identifier: deleted or refused; by query: deletes if and only if one entry lies closer than 1/9 and no other within 3/7, reports nothing found if and only if none lies within 3/7, and otherwise lists the matches and leaves the table |
| MemoryStore.MemoryDB.AgentEnd | extensions/memory-lancedb/index.ts:612-639 | the capture loop stores, of at most three texts, those without a duplicate at that point, up to the first failed embedding |
| VectorSearch.SearchIsExact | extensions/memory-lancedb/index.ts:105-129 | what filtering the nearest rows by a minimum score keeps and misses, for every exact search |
| MemoryStore.ScanningIsExact | extensions/memory-lancedb/index.ts:105-109 | an exact index exists for every metric, so the interface assumption can be met |
| VectorSearch.ScanIsNearest | extensions/memory-lancedb/index.ts:105-109 | ranking every row by distance and cutting at the limit is an exact search |
| MemoryStore.SquaredDistanceIsReflexive | extensions/memory-lancedb/index.ts:110-112 | the squared Euclidean distance is one of the metrics covered, and is zero from a vector to itself |
| VectorSearch.CloserScoresHigher | extensions/memory-lancedb/index.ts:112-115 | the score 1 / (1 + d) falls as the distance grows and lies in (0, 1] |
| VectorSearch.ScoreThresholds | extensions/memory-lancedb/index.ts:112-115 | the score reaches 0.95 exactly up to distance 1/19 and 0.7 up to 3/7, and exceeds 0.9 exactly below 1/9 |
| MarkedBlock.PutPutExactly | scripts/sync-moonshot-docs.ts:15-51 | a second rewrite overrides the first exactly, if and only if neither the start marker nor any indented line of the first holds the end marker |
| MarkedBlock.GetPutExactly | scripts/sync-moonshot-docs.ts:15-51 | reading a rewritten block gives the lines back if and only if there are none or the same condition holds |
| MarkedBlock.RewriteIsIdempotent | scripts/sync-moonshot-docs.ts:15-51 | rewriting twice with the same lines changes nothing more under exactly that condition |
| MarkedBlock.MarkerLineBreaksBlock | scripts/sync-moonshot-docs.ts:15-51 | for any two markers, the end marker written as a line of the block is not read back and is not overridden by a second rewrite |
| MarkedBlockPutGet.PutGetExactly | scripts/sync-moonshot-docs.ts:15-51 | writing back what was read leaves the text unchanged if and only if the start marker stands alone after its indentation, the end marker stands alone after the same one, every line between starts with it, and no newline right after the block ends the text |
| MarkedBlockPutGet.FinalNewlineIsLost | scripts/sync-moonshot-docs.ts:47-50 | for any two markers, a text that ends in a newline right after its block is changed by writing back what was read |
| MarkedBlockPutGet.SplitIsInjective | scripts/sync-moonshot-docs.ts:40-46 | texts with the same lines are the same |
| MarkedBlock.SurroundingsStay | scripts/sync-moonshot-docs.ts:37-50 | the text through the start marker and the text after the block are untouched, but for a final newline right after the block |
| MarkedBlock.LocatedIs | scripts/sync-moonshot-docs.ts:21-35 | every text with both markers has a located block: what precedes the start marker, its one-line indentation and what follows the line of the end marker |
| MarkedBlockByPosition.RewrittenByPosition | scripts/sync-moonshot-docs.ts:15-51 | from the positions of the first start marker, the first end marker after it and their lines: the text through the start marker, then every line and the end marker with the indentation of the start marker, then what follows the line of the end marker |
| MarkedBlockByPosition.MissingExactly | scripts/sync-moonshot-docs.ts:21-30 | the rewrite fails for a missing start marker if and only if none occurs, and for a missing end marker if and only if none occurs from the first start marker on |
| LabelBatches.FetchOpenLabelItemBatches | scripts/label-open-issues.ts:425-485 | for any finite listing and any real or infinite limit the concatenated batches are the items of the concatenated pages taken under the limit; batches are numbered from 1 with the running count, every one but the last holds exactly 500 items, none is empty, and no page is fetched once the limit is reached |
| LabelBatches.FirstItemsCount | scripts/label-open-issues.ts:440-457 | for a natural limit these are the first that many items, for the default infinite one all of them |
| LabelBatches.TakeNodes | scripts/label-open-issues.ts:452-469 | the loop over the nodes of one page, which stops at the limit and yields full buffers |
| LabelBatches.BatchAt | scripts/label-open-issues.ts:460-484 | numbered, well-sized batches in closed form: batch k holds the items from 500 * k on, so the items determine the batches |
| LabelBatches.PageItemAt | scripts/label-open-issues.ts:440-457 | the items are those of the pages, page after page, each in its order |
| CronUsage.Aggregate | scripts/cron_usage_report.ts:148-213 | the nested totals are exactly the sums over the matching raw entries, for exactly the jobs and models that occur in them |
| CronUsage.RecordEntry | scripts/cron_usage_report.ts:153-211 | the loop body on one entry: filters, missing usage, clamped and truncated tokens, and both levels of counters |
| CronUsage.RecordExact | scripts/cron_usage_report.ts:153-211 | recording one more entry keeps the totals exact |
| CronUsage.EntryCountsOnce | scripts/cron_usage_report.ts:153-211 | one more entry changes nothing when it lies outside the window, whose ends belong to it, or another job or model was asked for; otherwise it adds one run to its job and to its model, as one without usage when it reports no count, and else with the whole parts of its counts, negative and missing ones as 0, and their sum where the total is missing |
| CronUsage.ModelIs | scripts/cron_usage_report.ts:165 | a run is counted under its trimmed model name, or under `<unknown>` when it has none or a blank one |
| CronUsage.JobIsSumOfRows | scripts/cron_usage_report.ts:170-211 | the sum over a job equals the sum over its models, listed in any order |
| CronUsage.TotalsConserve | scripts/cron_usage_report.ts:170-211 | so the runs, missing-usage runs and three token totals of a job equal the sums of its rows |
| ClaudeArgs.MeaningPreserved | extensions/anthropic/cli-shared.ts:44-76 | read as options, the result holds the other options and explicit modes of the input in order and no legacy flag, plus a bypass mode if and only if there was no explicit mode and a legacy flag stood outside every value position |
| ClaudeArgs.NormalizedByPosition | extensions/anthropic/cli-shared.ts:44-76 | from the arguments alone: every argument stays in place but the skip flags, and the bypass mode is appended if and only if there is a skip flag and no mode option, where the argument right after a mode option is its value and counts as neither |
| ClaudeArgs.Spellings | extensions/anthropic/cli-shared.ts:36-71 | how skip flag and mode options are spelled; --permission-mode= followed by anything at all is a mode option |
| ClaudeArgs.NormalizeIsIdempotent | extensions/anthropic/cli-shared.ts:44-76 | normalising twice is normalising once |
| ClaudeArgs.NormalizeArgs | extensions/anthropic/cli-shared.ts:48-75 | the index loop with its two flags computes that rewrite |
| ClaudeArgs.RenderParse | extensions/anthropic/cli-shared.ts:51-71 | reading any argument list as options loses nothing |
| ClaudeArgs.ParseRender | extensions/anthropic/cli-shared.ts:57-66 | options that argument lists can spell are read back from their spelling |
| SparkleBuild.SparkleBuildFloors | scripts/sparkle-build.ts:14-53 | null exactly for impossible dates; the numbers read back from the concatenated decimal texts are year * 10000 + month * 100 + day, ten times that, and a hundred times that plus the lane |
| SparkleBuild.BuildsOrderVersions | scripts/sparkle-build.ts:33-57 | canonical builds are ordered as the versions are: by year, month, day and suffix, where the release comes last, numbers count up but not past 89, and a worded suffix comes after the number 0 and before the number 2 |
| SparkleBuild.BuildDecodes | scripts/sparkle-build.ts:33-57 | the date can be read back from a canonical build, and its last two digits are 90 for a release, the number of a numbered suffix or 89 if that is more, and 1 for a worded one |
| SparkleBuild.BuildsCollideExactly | scripts/sparkle-build.ts:39-57 | two versions share a build if and only if they share the date and their suffixes are equal, both number at least 89, or are a worded one and the number 1 |
| SparkleBuild.LanesSeparate | scripts/sparkle-build.ts:33-52 | legacy floors lie below 1000000000, and lane floors reach it if and only if the year is at least 1000 |
| SparkleBuild.SuffixesShareBuild | scripts/sparkle-build.ts:39-50 | on every date the suffixes numbered 89 and 90 share a build, and so do a worded one and the number 1 |
| Numerals.NumberOfDigits | scripts/sparkle-build.ts:33-36 | reading the decimal digits of a number gives it back |
| Numerals.NoLeadingZero | scripts/sparkle-build.ts:33-36 | and they do not start with a zero, except for 0 itself |
| SparkleBuild.NumberThenTwo | scripts/sparkle-build.ts:52 | appending two digits to a numeral multiplies its value by 100 and adds theirs |
| Appcast.CollectAppcastSparkleVersionErrors | scripts/release-check.ts:264-321 | the two loops list exactly the specified errors in order |
| Appcast.FloorErrorsAreRejections | scripts/release-check.ts:299-318 | the floor errors are one for each rejected item, in item order, naming the floor of its era, where the era is described without a minimum |
| Appcast.AdoptionReached | scripts/release-check.ts:299-306 | the computed adoption date is no later than a date if and only if the fixed date is, or an item with a lane build is |
| Appcast.PassesExactly | scripts/release-check.ts:264-321 | a feed passes if and only if it has items, every item has a numeric version and none is below the floor of its era |
| Appcast.PassesByNumbersExactly | scripts/release-check.ts:264-321 | in numbers: every version is a non-empty string of digits, and every dated item has at least the date, a two-digit lane appended, when its build has ten digits, or the date is 27 February 2026 or later, or some item dated no later has a build of ten digits, and otherwise at least the date with a zero appended |
| Appcast.CanonicalFeedPasses | scripts/release-check.ts:308-318 | a non-empty feed of canonical builds always passes |
| Appcast.RejectionsAfterAdding | scripts/release-check.ts:308-318 | adding an item anywhere never clears a rejection, and rejects another item exactly when it carries a lane build dated no later and the other a legacy build between its two floors |
| Appcast.AddedItemRejects | scripts/release-check.ts:308-318 | a legacy item at its legacy floor, dated before the fixed adoption date and from the year 1000 on, passes alone and is rejected once an item with a lane build dated no later is added |
| Appcast.AddingRejectsLegacyItem | scripts/release-check.ts:308-318 | the items for 2026.1.1 with build 202601010 and for 2025.12.1 with build 2025120190 are such a pair |
| Appcast.AdoptionIsFinal | scripts/release-check.ts:308-318 | in a passing feed, once an item carries a lane build, so does every item from the year 1000 on that is not dated before it |

## Left out

- Interleaving of notifier commands with a tick across its awaits: non-overlap is assumed and not enforced by the code.
- Keys that plain objects inherit, such as "constructor": `notifiedRequestIds` and the usage totals are maps here.
- Non-integer thread ids and the rendering of numbers from 1e21 on.
- Notification and reply texts, listing formats, report sorting and printing.
- File-system failures, symbolic links, and directories named package.json.
- The regular expression that finds imports, URL and string forms of paths, JSON and XML parsing: the models start from specifiers, path segments, parsed items and version parts.
- ModuleCopy.ImportSurvivesExactly: takes the isolated root to be a new name that no specifier mentions and no file starts with, as a random suffix makes it.
- Bedrock: the reasoning flag and input kinds of a model, which depend on its summary alone; case mapping and locale order are parameters, and the cache key is the record it is printed from.
- Foundry: endpoint and model resolution around the token.
- Chutes: every attribute of a model but its id; the static catalog is a parameter; log lines.
- Memory: the embedding, the database and its approximate or failing searches, `shouldCapture`, `detectCategory`, prompt escaping and recall; scores are real numbers, not doubles.
- MemoryStore.MemoryDB.MemoryForget: the error for a stored identifier that is not a UUID cannot occur, because stores are given UUIDs.
- LabelBatches: the total count a batch also carries, and the mapping of a node to an item.
- CronUsage: token fields that are null or not numbers, and rounding of sums beyond 2^53.
- ClaudeArgs: an absent argument list is returned as it is.
- Appcast: the wording of errors, and rounding of build numbers beyond 2^53, which no comparison here can see.
- Model catalogs, wizards, plugin registration, OAuth and device-code flows, release planning: constants and wiring with no property beyond their text.

# Verified models of Meshery's library code

This project models the parts of the repository that carry state, branching or arithmetic, and proves
what their documentation and tests promise. `dafny verify dfyconfig.toml` checks it. One module models one
component; the executable loops are methods proved equal to functions, and the results are lemmas about
those functions or invariants of state machines.

- **go.mod synchroniser** (`GoModText`, `GoModBlocks`, `ModSync`, `ModSyncFixpoint`, `ModSyncSource`,
  `ModSyncLoops`, `GoModDirectives`, `ModSyncRequires`). Texts are strings, lines sequences of strings. A text is *canonical* when openers trim to
  `replace (` or `replace(`, closers are a lone bracket, no other brackets stand in a block and no other line
  looks like an opener. The comment at lines 96-103 of `sync.go` promises idempotence; the code does not keep it when one
  required name ends another, because lines are matched by substring. `Idempotence` says exactly when it holds
  for one destination, and `RepeatableIffSettled` which sources keep it on all destinations.
- **Schema-graph cycle cutter** (`SchemaRefs`): a walk over a shared, possibly cyclic object graph. The
  measure is the set of original schemas not on the path; fresh empty schemas are leaves.
- **Channel broker** (`ChannelBroker`, `ChannelBrokerHandlers`): interleaved steps under a readers-writer
  lock, with the history of every channel. Capacity zero is a hand-off. Invariants hold in every run; the
  handler's methods are runs of the same steps, and a publisher's run has the steps of others between its own.
- **Schema registry** (`SchemaRegistry`, `SchemaVersions`, `JsonPointers`): the maps are an index over the log of
  accepted registrations; what versions, locations and subjects mean is stated character by character.
- **Model generation** (`SheetUpdate`, `RateLimiter`, `GenerationRun`, `GenerationStates`,
  `ModelGeneration`): the batching
  consumer, the limiter that sleeps under its lock with the clock as a parameter, and the permits, timeouts and
  counters of the workers. The batch sizes are never reset once they are used up, as in the source. For the
  components this means that from then on every message is sent at once. For the models it means that the
  hundredth new registrant ends the process: the list of models to be added never gets an entry, and the update of the models sheet indexes
  the empty list of paths it is called with (lines 193-202 and 231-232 of `spreadsheet_update.go`). Closing the sheet
  channel is not safe in runs with a timeout; the model says exactly when a late send may panic.
- **Version orders** (`VersionOrders`, `DottedStrings`, `VersionDirs`): both comparators are one lexicographic
  order on keys padded by a constant. Numbers too large for 64 bits count as the largest integer, as in the
  source, which ignores the error of the conversion.
- **Readable strings** (`ReadableStrings`): two dictionary keys share the value `mTLS`; which one the inverse
  finds depends on the order in which Go walks a map, and is a parameter.
- **Error codes** (`ErrorCodes`, `ErrorSummary`, `ErrorCoder`): allocation over a walk and the summary of it.
  Duplicate codes are found by text, not by value, so `1001` and `01001` do not count as duplicates.

`Strings`, `Sequences`, `Decimals` and `Options` hold the few library functions the components share.

## Model

| member | source | states |
|---|---|---|
| `GoModText.RoundTrip` | `cmd/syncmodutil/internal/modsync/sync.go:191-207` | A printed directive, trimmed and parsed, gives the same pair back if and only if the pair is `Printable`: blank-free tokens without `=>`, no version without a name on the left, a name that does not begin a comment or with white space, no white space at the far right |
| `GoModText.PrintedTrims` | `cmd/syncmodutil/internal/modsync/sync.go:191-207` | What trimming leaves of a printed line: the head, the arrow and the tail, also when a side is empty |
| `GoModBlocks.RecognisersAgree` | `cmd/syncmodutil/internal/modsync/sync.go:251-299` | On canonical lines the blocks the regular expression matches yield the directives of the lines the line scanner sees inside blocks |
| `GoModBlocks.CanonicalTextDirectives` | `cmd/syncmodutil/internal/modsync/sync.go:251-300` | Reading a canonical text with both recognisers gives the directives the line scanner alone would find, block ones first |
| `GoModBlocks.StrippingIdempotent` | `cmd/syncmodutil/internal/modsync/sync.go:155-186` | Stripping twice is stripping once, for any lines |
| `GoModBlocks.StrippingIsComplete` | `cmd/syncmodutil/internal/modsync/sync.go:147-186` | After stripping a canonical text no directive is left that the parser could read |
| `GoModBlocks.BlockMatches` | `cmd/syncmodutil/internal/modsync/sync.go:252-269` | An opener, its lines, a lone closing bracket and any rest: the regular expression reads exactly the directives of those lines, then those of the rest |
| `GoModBlocks.LineAlone` | `cmd/syncmodutil/internal/modsync/sync.go:155-186` | A line outside a block, white space around its text: it is dropped if and only if the text is an opener, or begins with `replace` and white space and contains `=>` |
| `GoModBlocks.LineFirst` | `cmd/syncmodutil/internal/modsync/sync.go:155-186` | Such a line before any others: it is dropped or kept, and the others are stripped as if they stood alone |
| `GoModBlocks.BlockFirst` | `cmd/syncmodutil/internal/modsync/sync.go:155-172` | An opener and the lines up to the first lone closing bracket are dropped, whatever they hold, and the lines behind are stripped as if they stood alone |
| `GoModBlocks.SingleLineRead` | `cmd/syncmodutil/internal/modsync/sync.go:274-298` | A single-line replace is read as the directive of the text behind the keyword, whatever white space separates them, and any other line outside a block is not read |
| `GoModDirectives.PackageAndVersionIs` | `cmd/syncmodutil/internal/modsync/sync.go:342-355` | After one optional blank the first word is the package, and all words behind it, run together, are its version |
| `GoModDirectives.DirectiveRead` | `cmd/syncmodutil/internal/modsync/sync.go:301-321` | Any text with an arrow: the words before the first arrow and those between it and the next are the two packages, and a name that begins a comment yields nothing |
| `GoModDirectives.InvalidIff` | `cmd/syncmodutil/internal/modsync/sync.go:301-305` | A directive is invalid if and only if it has no arrow |
| `GoModDirectives.BlockMatched` | `cmd/syncmodutil/internal/modsync/sync.go:17-39` | The keyword, at most one character of white space, and brackets around text without a closing one are matched as a whole, whatever follows |
| `GoModDirectives.MatchedIsBlock` | `cmd/syncmodutil/internal/modsync/sync.go:17-39` | And everything matched is such a block |
| `GoModDirectives.WithinIs` | `cmd/syncmodutil/internal/modsync/sync.go:322-340` | The text between the first brackets is collected; other text behind them ends the scan, and an opening bracket right behind them resumes it |
| `ModSyncRequires.RequirePinned` | `cmd/syncmodutil/internal/modsync/sync.go:60-72` | A line with the name of a required package and a blank, without an arrow and without its version, becomes the line that requires it and stays marked indirect |
| `ModSyncRequires.OthersKept` | `cmd/syncmodutil/internal/modsync/sync.go:60-61` | Every other line stays as it is |
| `ModSyncRequires.InOrder` | `cmd/syncmodutil/internal/modsync/sync.go:59-73` | The required packages take their turns in order, each on what those before it have left |
| `ModSyncRequires.MismatchIs` | `cmd/syncmodutil/internal/modsync/sync.go:59-64` | The mismatch reported is that of the first package that disagrees with some line, on the first such line |
| `ModSyncRequires.Outcomes` | `cmd/syncmodutil/internal/modsync/sync.go:53-145` | The error mode looks for mismatches first; without one an invalid directive ends the process, and else the text is synchronised |
| `ModSync.KeptWithoutReplace` | `cmd/syncmodutil/internal/modsync/sync.go:155-186` | No line that a run keeps is an opener, or begins, once trimmed, with `replace` and white space and contains an arrow |
| `ModSync.StrippedRewritten` | `cmd/syncmodutil/internal/modsync/sync.go:59-73` | Rewriting require lines commutes with stripping replace directives |
| `ModSync.FiredLine` | `cmd/syncmodutil/internal/modsync/sync.go:59-73` | A line on which a clean pin fires is never part of the replace syntax |
| `ModSync.MergeFirst` | `cmd/syncmodutil/internal/modsync/sync.go:104-132` | The merged list has one entry per module, namely the first candidate for it, in the order of first occurrence, and drops no module |
| `ModSync.MergeTwice` | `cmd/syncmodutil/internal/modsync/sync.go:104-132` | Merging the merged list again, as the destination of a second run, gives the same list |
| `ModSync.OutputRead` | `cmd/syncmodutil/internal/modsync/sync.go:134-145` | The emitted block is read back as one directive per merged entry, in order |
| `ModSync.OutputWellFormed` | `cmd/syncmodutil/internal/modsync/sync.go:96-103` | The result is again a text the synchroniser accepts |
| `ModSync.OutputDirectives` | `cmd/syncmodutil/internal/modsync/sync.go:86-145` | The result holds exactly one replace directive per module: the first among source replaces, source require pins and destination replaces, in that order of emission |
| `ModSyncFixpoint.SecondRun` | `cmd/syncmodutil/internal/modsync/sync.go:53-145` | What a second run makes of the result of the first: the kept lines rewritten again, and the same block |
| `ModSyncFixpoint.FixedIffQuiet` | `cmd/syncmodutil/internal/modsync/sync.go:59-73` | Rewriting leaves a kept line as it is if and only if no pin fires on it, although later pins may undo earlier ones |
| `ModSyncFixpoint.Idempotence` | `cmd/syncmodutil/internal/modsync/sync.go:96-103` | For a source that lists every module once, a second run returns its input byte for byte if and only if no require pin fires on a line the first run kept |
| `ModSyncFixpoint.IdempotentIffFixed` | `cmd/syncmodutil/internal/modsync/sync.go:96-103` | For any source, a second run returns its input byte for byte if and only if a pass over the pins leaves every kept line as it is |
| `ModSyncFixpoint.AcceptedIffQuiet` | `cmd/syncmodutil/internal/modsync/sync.go:59-73` | For any source, the `--err` mode accepts the result if and only if no pin fires on a kept line |
| `ModSyncFixpoint.IdempotentIffAccepted` | `cmd/syncmodutil/internal/modsync/sync.go:59-73` | For a source that lists every module once, a second run changes nothing if and only if the `--err` mode accepts the result |
| `ModSyncFixpoint.IdempotentWithoutOverlap` | `cmd/syncmodutil/internal/modsync/sync.go:96-103` | When no required module name ends another, a second run changes nothing, whatever the destination |
| `ModSyncFixpoint.OverlapBreaks` | `cmd/syncmodutil/internal/modsync/sync.go:59-73` | A family of sources with overlapping names for which the second run does change the result |
| `ModSyncFixpoint.IdempotenceFails` | `cmd/syncmodutil/internal/modsync/sync.go:59-73` | The concrete input `b v1`, `a/b v2` on a destination requiring `a/b v1`: promised idempotence does not hold |
| `ModSyncSource.RepeatableIffSettled` | `cmd/syncmodutil/internal/modsync/sync.go:96-103` | For a given source, a second run changes nothing on every well-formed destination if and only if the list of require pins is settled: another pass leaves alone the line that is left after any pin that can fire first, a condition on their names, versions and order alone |
| `ModSyncSource.SettledIffUnchallenged` | `cmd/syncmodutil/internal/modsync/sync.go:59-73` | A source that lists every module once is settled if and only if no pin overrides a line that is left after a pin has fired first |
| `ModSyncSource.UnsettledChanges` | `cmd/syncmodutil/internal/modsync/sync.go:59-73` | For every unsettled source, a destination of one line on which the second run changes the result |
| `ModSyncSource.FiresIffOverrides` | `cmd/syncmodutil/internal/modsync/sync.go:60-72` | On the line another pin wrote, a pin fires if and only if its name ends that name, or that version when the line is marked indirect, and its own version is not mentioned |
| `ModSyncSource.RewrittenFinal` | `cmd/syncmodutil/internal/modsync/sync.go:59-73` | What the remaining pins make of the line of a pin is the line of the last one that overrides |
| `ModSyncLoops.GetPackageAndVersionFromPackageVersion` | `cmd/syncmodutil/internal/modsync/sync.go:342-355` | The character loop computes the text before the first blank and the rest without blanks |
| `ModSyncLoops.GetStringWithinCharacters` | `cmd/syncmodutil/internal/modsync/sync.go:322-340` | The three-state scan computes the text between the brackets |
| `ModSyncLoops.StripAllReplaces` | `cmd/syncmodutil/internal/modsync/sync.go:155-186` | The scanner loop drops exactly the block and single-line replace directives and keeps all other lines in order |
| `ModSyncLoops.GetReplacedVersionsFromString` | `cmd/syncmodutil/internal/modsync/sync.go:251-300` | The two loops return the block directives and then the single-line ones, or exit on an invalid directive |
| `ModSyncLoops.RewriteOne` | `cmd/syncmodutil/internal/modsync/sync.go:60-72` | The pass for one required package rewrites the firing lines in place, or stops at the first one in the `--err` mode |
| `ModSyncLoops.RewriteRequires` | `cmd/syncmodutil/internal/modsync/sync.go:59-73` | All passes: every line ends up rewritten by all packages in turn, or the first mismatch is reported |
| `ModSyncLoops.AddOne` | `cmd/syncmodutil/internal/modsync/sync.go:106-115` | The map and the order list stay the merged list of entries: an empty name or line and a known name are ignored |
| `ModSyncLoops.SyncRequire` | `cmd/syncmodutil/internal/modsync/sync.go:53-145` | The whole procedure computes the synchronised text, the mismatch error or the exit |
| `SchemaRefs.ResolveRoots` | `utils/component/openapi_generator.go:199-202` | Below the roots the graph is acyclic and every reference is cleared, only targets that close a cycle were replaced, and nothing was replaced if and only if the graph had no cycle |
| `SchemaRefs.ClearSchemaRefs` | `utils/component/openapi_generator.go:216-250` | One walk ends on every finite graph, leaves the stack as it was, clears what it passes and replaces back edges only |
| `SchemaRefs.CutBackEdge` | `utils/component/openapi_generator.go:225-228` | A target on the path is replaced by a fresh empty schema, and nothing else changes |
| `SchemaRefs.ClearPaths` | `utils/component/openapi_generator.go:216-250` | What a finished walk means for paths: they never repeat, stay off the stack and pass through cleared references only |
| `SchemaRefs.ClearStable` | `utils/component/openapi_generator.go:216-250` | A finished subtree stays finished while the rest of the shared graph is walked |
| `SchemaRefs.BackEdgeRepeats` | `utils/component/openapi_generator.go:210-228` | A replaced target did close a cycle reachable from the roots |
| `ChannelBroker.StepKeeps` | `broker/channel/channel.go:86-211` | Every step of publishers, subscribers, teardown and delivery goroutines keeps the invariant |
| `ChannelBroker.ClosedPanics` | `broker/channel/channel.go:86-134` | Exactly a send on a closed channel and a second close panic, whatever the state |
| `ChannelBroker.NoPanic` | `broker/channel/channel.go:86-134` | In every interleaving nothing is sent on a closed channel and none is closed twice; outside a teardown a channel is stored exactly while it is open; publishers see, and teardowns close, open channels only |
| `ChannelBroker.Conservation` | `broker/channel/channel.go:104-190` | In every interleaving a channel has accepted what its goroutines received followed by its buffer, the buffer is within capacity, and each received message is with one goroutine, delivered in order or in hand |
| `ChannelBroker.DrainStep` | `broker/channel/channel.go:181-211` | After a channel is closed the steps of its goroutines take one unit each from what is left, all others leave it alone |
| `ChannelBroker.DrainRun` | `broker/channel/channel.go:181-211` | Over any run the backlog of a closed channel shrinks by exactly the steps of its goroutines |
| `ChannelBroker.DrainProgress` | `broker/channel/channel.go:181-187` | While anything is left on a closed channel one of its own steps is possible |
| `ChannelBroker.Drained` | `broker/channel/channel.go:192-194` | When nothing is left its goroutines have ended and delivered all it accepted |
| `ChannelBroker.WorkedOff` | `broker/channel/channel.go:181-187` | Open or closed, and whatever the callers are doing: the goroutines of a channel alone can receive and pass on all that it has accepted, and nothing else changes |
| `ChannelBroker.AllDelivered` | `broker/channel/channel.go:181-187` | From any state, without a step of a publisher or of a teardown, everything that any channel has accepted can be delivered |
| `ChannelBrokerHandlers.PublishersTogether` | `broker/channel/channel.go:104-106` | The read lock is shared: any number of callers can be publishing at the same time |
| `ChannelBrokerHandlers.ChannelBrokerHandler.SubscribeWithChannel` | `broker/channel/channel.go:167-190` | Subscribing adds a goroutine to the stored channel, or to a new empty one, and touches no other entry |
| `ChannelBrokerHandlers.ChannelBrokerHandler.Publish` | `broker/channel/channel.go:104-134` | Beside other publishers and the delivery goroutines: each queue reported as successful has got the message from this call exactly once, no other queue has, a queue is given up only while neither its buffer nor a goroutine can take the message or when its timer had expired at the select, in which case it may be given up although it has room; and each channel has accepted exactly what was put on it. With no others about and no timer expired exactly the queues are given up whose buffer is full and of whose goroutines none waits on an empty one, so none when the buffers are empty and have room |
| `ChannelBrokerHandlers.ChannelBrokerHandler.Unsubscribe` | `broker/channel/channel.go:195-211` | Exactly the channels of the subject are closed and exactly its entries removed |
| `ChannelBrokerHandlers.ChannelBrokerHandler.CloseConnection` | `broker/channel/channel.go:86-101` | Every channel is closed and the storage is empty |
| `SchemaRegistry.Validator.Register` | `schema/registry.go:63-99` | A registration is rejected or added to the log, and the two maps stay an index over the log |
| `SchemaRegistry.Validator.Resolve` | `schema/registry.go:101-127` | Resolution through the maps is the scan of the log: last exact version, else last derived match, with no fallback to the type; last of the type when no version is given |
| `SchemaRegistry.Validator.ResolveByDerivedSchemaVersion` | `schema/registry.go:129-146` | Resolution by derived version is the last registration with that type and asset version, if the explicit type agrees |
| `SchemaRegistry.LastIsLast` | `schema/registry.go:92-95` | The scan finds the last match, and fails exactly when there is none |
| `SchemaRegistry.AssetVersionFromLocation` | `schema/registry.go:398-408` | The segment after the first `constructs` of the path before the fragment |
| `SchemaRegistry.RegisterAll` | `schema/registry.go:63-127` | After any sequence of registrations every reference resolves as the scan of the accepted ones |
| `SchemaRegistry.New` | `schema/validator.go:86-105` | All registrations are accepted, or the first error is returned |
| `SchemaRegistry.Validator.DocumentTypeFromSchemaVersion` | `schema/validator.go:335-348` | The type found is that of what the version alone resolves to |
| `SchemaRegistry.DetectRefFromDocument` | `schema/validator.go:350-374` | Detection yields the version with its type, or the decode or detection error |
| `SchemaRegistry.DetectedResolvesAlike` | `schema/validator.go:350-374` | The detected reference resolves to the same registration as its version alone |
| `SchemaRegistry.DetectedMismatch` | `schema/validator.go:234-242` | A document detected from its own version fails the version check if and only if it was resolved by derivation to a registration that declares another version |
| `SchemaVersions.VersionParts` | `schema/registry.go:410-426` | A version `<subject>[.<domain>]/<asset version>`, with any white space around it, is the type of its subject and all that follows the first slash |
| `SchemaVersions.DerivedResolution` | `schema/registry.go:129-146` | Without a registration of the very version, the last one of the type and asset version it spells out is found, whatever the capitals of the subject, unless another type is asked for |
| `SchemaVersions.PluralsOf` | `schema/registry.go:428-442` | A plural in `s` or `ies` stands for its singular; a singular and a word in `ss` stand for themselves |
| `SchemaVersions.NothingDerived` | `schema/registry.go:410-426` | Nothing is derived without a slash, with nothing before it or behind it, or with a subject that is empty |
| `SchemaVersions.ExactResolution` | `schema/registry.go:101-127` | The last registration of the very version is found before anything else |
| `SchemaVersions.TypeResolution` | `schema/registry.go:101-127` | Without a version the last registration of the type is found, and nothing without a type |
| `SchemaVersions.DetectedType` | `schema/validator.go:335-374` | The type detected for a document is that of the registration its version resolves to, and the four failures |
| `SchemaVersions.RegistrationRules` | `schema/registry.go:63-90` | A registration without a reference or a location is rejected; its location is trimmed, and an asset version it does not name is read from the location |
| `SchemaVersions.AcceptedNext` | `schema/registry.go:63-99` | Registrations with a reference and a location are accepted, in order, and no others |
| `SchemaVersions.FirstRejectedIs` | `schema/validator.go:86-105` | The error returned is that of the first registration that is rejected |
| `SchemaVersions.AssetVersionIs` | `schema/registry.go:398-408` | The segment behind the first `constructs` of the path is the asset version, whatever the fragment |
| `SchemaVersions.NoAssetVersion` | `schema/registry.go:398-408` | Without such a segment that has another behind it there is none |
| `SchemaVersions.MergedParts` | `schema/validator.go:286-296` | The reference a document is checked for has the parts of the registration, and from the request what it leaves open |
| `SchemaVersions.RequestedMismatch` | `schema/validator.go:234-330` | For a requested reference the version check fails if and only if the registration found declares a version, or else the request has one, and the version of the document is another or no text |
| `JsonPointers.JsonPointer` | `schema/compiler.go:195-207` | The loop prints the pointer of a path |
| `JsonPointers.KeywordFromLocation` | `schema/compiler.go:216-237` | The backward scan finds the last non-empty part of the fragment and unescapes it |
| `JsonPointers.EscapeRoundTrip` | `schema/compiler.go:209-211` | Unescaping an escaped token gives it back, and escaped tokens have no slash (sections 3 and 4 of RFC 6901) |
| `JsonPointers.PointerInjective` | `schema/compiler.go:195-207` | Different paths have different pointers |
| `JsonPointers.KeywordOfPointer` | `schema/compiler.go:213-237` | The keyword of a printed location is the last non-empty token of its path |
| `JsonPointers.KeywordIs` | `schema/compiler.go:213-237` | Behind a printed path the keyword is its last token that is not empty, whatever precedes the first number sign; a path of empty tokens has none |
| `JsonPointers.EscapeParts` | `schema/compiler.go:209-211` | A tilde is written `~0` and a slash `~1` (section 3 of RFC 6901), and nothing else is changed |
| `JsonPointers.UnescapeParts` | `schema/compiler.go:236` | Reading from the left, `~0` is a tilde and `~1` a slash, and a tilde before anything else is itself |
| `SheetUpdate.Updater.ProcessModelToComponentsMap` | `registry/spreadsheet_update.go:43-59` | The nested map stands for exactly the rows of the sheet |
| `SheetUpdate.Updater.AddEntriesInCompUpdateList` | `registry/spreadsheet_update.go:61-78` | The components of a message add the first row of each key not known |
| `SheetUpdate.Updater.AddMessage` | `registry/spreadsheet_update.go:104-124` | The three ways a component is met add the same rows |
| `SheetUpdate.Updater.AddEntriesInModelUpdateList` | `registry/spreadsheet_update.go:80-91` | A new registrant is noted and uses up one unit of the batch of the models; nothing is added to their list |
| `SheetUpdate.Updater.VerifyAndUpdateSpreadsheet` | `registry/spreadsheet_update.go:93-161` | A run completes if and only if there is no message or fewer new registrants than the batch size of the models is left; then the batches, put together, are the first occurrences of the keys the sheet does not have. With fewer of them than the size they are one batch; else the first batch holds those of the messages by which the size is used up, and each later one the new rows of one message. Otherwise the run dies in the update of the models sheet, at the message that brings in the last of these registrants: what was sent are the batches of the messages before, and the rows that waited are lost |
| `SheetUpdate.Updater.UpdateSheet` | `registry/model.go:847-850` | The same for the goroutine of a generation run, which reads the rows of the sheet first |
| `SheetUpdate.DiesAtLast` | `registry/spreadsheet_update.go:127-134` | With as many messages as the batch size of the models, each of a new registrant, the run dies at the last message |
| `SheetUpdate.AllRowsLost` | `registry/spreadsheet_update.go:127-146` | With as many messages as the batch size of the components, each of one component, a run that dies at the last message has sent nothing and all new rows are lost |
| `SheetUpdate.FirstBatchIs` | `registry/spreadsheet_update.go:136-146` | In numbers: the message with which as many new rows have come as the size asks for sends all of them at once, and before it nothing is sent |
| `SheetUpdate.SentInBatches` | `registry/spreadsheet_update.go:104-146` | In numbers: what was sent and what waits after any number of messages, for every size |
| `SheetUpdate.BatchBoundaries` | `registry/spreadsheet_update.go:136-146` | The first batch ends with the message that uses up the size, from then on each batch is the new rows of one message and nothing waits |
| `SheetUpdate.SentAndPending` | `registry/spreadsheet_update.go:104-146` | After every message what was sent and what waits are, together and in order, the new rows so far, and no batch is empty |
| `SheetUpdate.FirstOccurrencesExact` | `registry/spreadsheet_update.go:93-161` | First occurrences: one row for each new key, its first, in order of arrival, and none the sheet has |
| `SheetUpdate.FirstOccurrencesConcat` | `registry/spreadsheet_update.go:104-146` | Taking rows message by message takes the same rows as all at once |
| `RateLimiter.Limiter.RateLimitArtifactHub` | `registry/model.go:663-672` | A call sleeps before every hundredth pass and only then, and passes stay spaced |
| `RateLimiter.Spacing` | `registry/model.go:53-58` | Passes a hundred apart are at least the limiter duration apart |
| `RateLimiter.NoBurst` | `registry/model.go:663-672` | No half-open window of the limiter duration holds more than a hundred passes |
| `RateLimiter.FullWindow` | `registry/model.go:53-58` | A window may hold exactly a hundred |
| `RateLimiter.Limiter.Run` | `registry/model.go:663-672` | Both bounds for any callers in any order, and no more sleep than needed: when nobody waits for the lock or oversleeps, each pass is five minutes behind the first for every hundred passes before it |
| `GenerationRun.StepKeeps` | `registry/model.go:880-1062` | Every step of the main loop, the workers and their goroutines keeps the invariant |
| `GenerationRun.Conservation` | `registry/model.go:802-905` | In every reachable state held and free permits are twenty, and processed is at most the outcomes, these at most the launched models, these at most the total |
| `GenerationRun.WaitReturned` | `registry/model.go:1065` | When the wait returns every model was launched and has exactly one outcome |
| `GenerationRun.LateSendersTimedOut` | `registry/model.go:1024-1066` | A goroutine that may still send after the sheet channel is closed panics when it does, and belongs to a worker that timed out |
| `GenerationRun.LateSendPanics` | `registry/model.go:1024-1066` | The converse: from every closed state, with a worker that timed out and whose registrant is not the core, the state that differs only in its goroutine still being at work is reachable, and its send panics |
| `GenerationRun.LateReachable` | `registry/model.go:929-1034` | A run in which a worker times out can be repeated without the send and the end of its goroutine |
| `GenerationRun.PanicIffTimeout` | `registry/model.go:1024-1066` | The outcomes of a closed run admit the panic if and only if a worker that is not core timed out |
| `GenerationRun.SomeRunPanics` | `registry/model.go:1024-1066` | Some run of a list of models panics if and only if one of them is not of the core registrant, and the processed counter may still be zero then |
| `GenerationRun.NeverStuck` | `registry/model.go:894-1062` | Until a run is complete or has panicked some step is possible even if no goroutine ever sends or ends |
| `GenerationRun.RunEnds` | `registry/model.go:880-1066` | Every step takes at least one unit of a bound fixed at the start, so every run ends, and a run that cannot go on is complete or has panicked |
| `GenerationStates.ReachableIff` | `registry/model.go:802-1066` | Some run gets to a state if and only if the state is consistent and every worker was launched while fewer than twenty of those before it held a permit: nothing else keeps workers from being anywhere at the same time |
| `GenerationStates.WorkerAlone` | `registry/model.go:900-1062` | A worker waits for no other worker and not for the main loop: from any state its own steps alone make of it exactly what may become of it |
| `GenerationStates.TwentyTogether` | `registry/model.go:802-900` | Up to twenty models are being generated at the same time |
| `GenerationStates.LaunchIff` | `registry/model.go:880-900` | The main loop can launch the next model if and only if fewer than twenty workers hold a permit |
| `ModelGeneration.ProgressTracker.IncrementProcessed` | `registry/helpers.go:90-92` | The counter goes up by one modulo the 32-bit range and is returned |
| `ModelGeneration.Int32` | `registry/helpers.go:68-72` | Conversion to 32 bits is the identity in range and always lands in range |
| `ModelGeneration.Generation.Launch` | `registry/model.go:894-900` | With a model left and a permit free: a permit, the wait group and a worker, as the two steps of the main loop |
| `ModelGeneration.Generation.SendToSheet` | `registry/model.go:1024-1034` | The send and the result of a goroutine, as two steps; on the closed channel it panics |
| `ModelGeneration.Generation.Select` | `registry/model.go:1037-1061` | One outcome is counted; with both cases ready either may be taken |
| `ModelGeneration.Generation.Finish` | `registry/model.go:901-905` | The wait group first, then the permit, then the processed counter |
| `VersionOrders.CompareIsLexicographic` | `utils/sortversions.go:33-42` | The comparison decides at the first difference of the keys padded without end |
| `VersionOrders.StringsInOrder` | `utils/utils.go:676-679` | The comparison of strings is the order of dictionaries |
| `VersionOrders.Transitive` | `utils/utils.go:650-686` | The comparison is transitive, strictly when one side is strict |
| `VersionOrders.Antisymmetric` | `utils/utils.go:650-686` | Exchanging the arguments changes the sign |
| `VersionOrders.Sort` | `utils/sortversions.go:75-79` | Sorting with a strict weak order gives a sorted permutation |
| `VersionOrders.SortedUnique` | `utils/sortversions.go:75-79` | Any two sorted arrangements agree, place by place, up to ties |
| `DottedStrings.Cleanup` | `utils/sortversions.go:51-66` | The clean-up replaces the words, moves a leading `stable` and keeps digits and dots |
| `DottedStrings.Less` | `utils/sortversions.go:11-43` | The loops compute the comparison of the keys, whichever side is padded |
| `DottedStrings.BelowIsStrictWeak` | `utils/sortversions.go:11-43` | The comparator is a strict weak order on all strings |
| `DottedStrings.TiedIffSameNumbers` | `utils/sortversions.go:19-42` | Two strings are tied if and only if their numbers, padded with threes, are the same |
| `DottedStrings.SortDottedStringsByDigits` | `utils/sortversions.go:69-79` | The result is a permutation in ascending order |
| `DottedStrings.WordOrder` | `utils/sortversions.go:56-59` | Within one version: alpha, beta, rc, the version itself, stable; stable in front counts like stable behind |
| `DottedStrings.PlainKey` | `utils/sortversions.go:11-66` | Without the four words the numbers are what the digits between the dots make up, whatever other characters stand among them |
| `DottedStrings.PlainOrder` | `utils/sortversions.go:11-43` | Such strings are ordered by the first of their numbers that differ, a missing one counting as three |
| `VersionDirs.IsNumeric` | `utils/utils.go:634-641` | True exactly for pieces of digits, the empty one among them |
| `VersionDirs.CompareVersions` | `utils/utils.go:650-686` | The sign of the result is that of the comparison of the keys |
| `VersionDirs.CompareIsOrder` | `utils/utils.go:650-686` | Antisymmetric, transitive, and with an equivalence as ties |
| `VersionDirs.TiedIffSameParts` | `utils/utils.go:650-686` | Two versions tie if and only if their parts, padded with zeros, are the same |
| `VersionDirs.SplitVersionIs` | `utils/utils.go:643-647` | A version is cut at every dot and dash, and nowhere else |
| `VersionDirs.CompareIsVersionOrder` | `utils/utils.go:650-686` | The comparison in terms of the pieces: the first place where one piece is below the other decides, numbers by their size and before words, words as in a dictionary, and a missing piece counting as zero |
| `VersionDirs.ValidIs` | `utils/utils.go:703-716` | A version directory is a directory whose name is more than a `v` |
| `VersionDirs.GetAllVersionDirsSortedDesc` | `utils/utils.go:689-737` | The version directories, each once, newest first, or the reason why there are none |
| `ReadableStrings.FormatToReadableString` | `utils/manifests/utils.go:159-185` | The loop builds the formatted word |
| `ReadableStrings.ActionRules` | `utils/manifests/utils.go:208-226` | When a space is added, with the exceptions worked out |
| `ReadableStrings.FormattedIsSpaced` | `utils/manifests/utils.go:156-185` | Outside the dictionary the formatted word is the word with a space at exactly the places a rule on its neighbours names |
| `ReadableStrings.FormattedWellSpaced` | `utils/manifests/utils.go:184` | Formatted text has no leading, trailing or doubled spaces |
| `ReadableStrings.NormalizedIs` | `utils/manifests/utils.go:184` | Putting white space in order keeps every other character |
| `ReadableStrings.RoundTrip` | `utils/manifests/utils.go:187-193` | A word comes back if and only if it has no white space, is not of one character, is not `CABundle`, and is not the one of `mtls` and `mTLS` that the walk of the map finds second |
| `Decimals.AtoiOfItoa` | `cmd/errorutil/internal/component/component.go:45` | Printed integers are read back |
| `Decimals.AtoiIs` | `cmd/errorutil/internal/coder/file.go:73-76` | An optional sign and digits are the number if it fits sixty-four bits, and else the bound it exceeds, with an error |
| `Decimals.AtoiFails` | `cmd/errorutil/internal/coder/file.go:73-76` | All other text is no number |
| `ErrorCodes.PrintedCodeReadBack` | `cmd/errorutil/internal/coder/node.go:135-138` | A printed code is read back if and only if it is not negative and neither its first nor its last digit occurs in the component name |
| `ErrorCodes.Allocation` | `cmd/errorutil/internal/coder/node.go:121-175` | A pass keeps names and order, leaves what it does not rewrite, and gives the rest consecutive codes from the next code on |
| `ErrorCodes.DistinctAfterUpdate` | `cmd/errorutil/internal/coder/node.go:137-139` | After an update the codes are distinct if and only if the old ones were and none of them was among the new |
| `ErrorCodes.FreshCodes` | `cmd/errorutil/internal/coder/node.go:121-175` | Distinct old codes below the start value: all codes are distinct integers below the next code |
| `ErrorCodes.ForcedFreshCodes` | `cmd/errorutil/internal/coder/node.go:137-139` | A forced update makes all codes distinct, whatever they were |
| `ErrorCodes.NothingLeft` | `cmd/errorutil/internal/coder/node.go:137-145` | Where all codes are integers a further update that is not forced changes nothing |
| `ErrorCodes.ForcedEntryReadsZero` | `cmd/errorutil/internal/coder/node.go:150-157` | In a forced pass an integer code is recorded with a text that is read as zero |
| `ErrorCodes.ErrorCodeNames` | `cmd/errorutil/internal/coder/file.go:68-71` | Exactly the names `Err`, a capital, at least one more character and `Code` |
| `ErrorCodes.AnalysisChangesNothing` | `cmd/errorutil/internal/coder/node.go:137-145` | A pass that is no update changes nothing, whatever the codes are |
| `ErrorCodes.EntriesMatched` | `cmd/errorutil/internal/coder/node.go:125-157` | Every variable with such a name has one entry, in order: a literal with its code and whether that was an integer, or a mere name |
| `ErrorCodes.EntryText` | `cmd/errorutil/internal/coder/node.go:137-145` | A code that is not rewritten is recorded as it was, and a new one as it is written, without the quotes |
| `ErrorSummary.SummarizeAnalysis` | `cmd/errorutil/internal/error/summary.go:28-66` | Bounds, integer codes and duplicate codes are those of the grouped entries |
| `ErrorSummary.GroupIs` | `cmd/errorutil/internal/coder/node.go:158-167` | A key is in the map exactly when a literal has it, with all its entries in order |
| `ErrorSummary.DuplicatesAre` | `cmd/errorutil/internal/error/summary.go:41-62` | A code is listed as a duplicate if and only if two entries are literals of it, those without a code going together |
| `ErrorSummary.IntegersAre` | `cmd/errorutil/internal/error/summary.go:48-59` | The integer codes are those read from the texts the literals were given |
| `ErrorSummary.SecondPass` | `cmd/errorutil/internal/error/summary.go:41-66` | Distinct integer codes below the next one: no duplicates, exactly these codes, and a next code above the largest |
| `ErrorSummary.UpdateSettles` | `cmd/errorutil/internal/error/summary.go:28-66` | An update settles the code base: the analysis after it is clean and another update changes nothing |
| `ErrorCoder.Component.GetNextErrorCode` | `cmd/errorutil/internal/component/component.go:44-48` | The code printed, and the counter one higher |
| `ErrorCoder.InfoAll.Record` | `cmd/errorutil/internal/coder/node.go:150-170` | The entry is appended and the two derived collections stay what the list says |
| `ErrorCoder.HandleValueSpec` | `cmd/errorutil/internal/coder/node.go:121-175` | All names of a specification look at the one value in turn, and the result tells whether it was changed |
| `ErrorCoder.Walk` | `cmd/errorutil/internal/coder/node.go:121-175` | A walk over specifications of one name each is the pass |

## Left out

- ModSyncFixpoint.IdempotentWithoutOverlap: one direction only; the exact conditions are in `ModSyncFixpoint.Idempotence` and `ModSyncSource.RepeatableIffSettled`.
- ModSyncFixpoint.OverlapBreaks: one family of failing inputs; a failing destination for every failing source is in `ModSyncSource.UnsettledChanges`.
- ModSyncLoops.SyncRequire: the read error of the destination is not modelled; `GoMod` is given, so `New` and `getRequiredVersionsFromString` are not part of this model.
- SchemaRefs.ResolveRoots: loading the document, the check for missing schemas and the JSON encoding are not part of this model; map iteration is an arbitrary choice.
- ChannelBrokerHandlers.ChannelBrokerHandler.Publish: the steps of others and the timers are given as a schedule, and steps not possible at their turn are passed over; `ChannelBroker` has the lemmas over all interleavings.
- ChannelBroker.DrainProgress: fairness of the scheduler and of consumers is not modelled.
- SchemaRegistry.Validator.Register: the lock is not modelled, a call is one step; discovery of the built-in registrations is not part of this model.
- SchemaRegistry.DetectedMismatch: validation of the document against the schema, which follows the version check, is foreign code.
- SheetUpdate.Updater.VerifyAndUpdateSpreadsheet: a row handed to an update that fails is counted as sent, because the source drops it; printing the empty list of models, which comes before the update of their sheet, is taken to succeed; the conversion to a sheet row is left out.
- RateLimiter.Limiter.RateLimitArtifactHub: wrap-around of the counter, which is an `int`, is not modelled.
- GenerationRun.Conservation: the failure of `Acquire` is left out, since its context cannot be cancelled; relationship updates are left out.
- GenerationRun.WaitReturned: the wait group that callers hand in is taken to be unused otherwise.
- GenerationRun.PanicIffTimeout: the consumer of the sheet channel is taken to receive until the channel is closed; that it may die itself is in `SheetUpdate`. What the main loop does after closing the channel, which may end the process before a late send, is left out.
- GenerationRun.RunEnds: a bound, not the exact number of steps, because a goroutine that fails never sends.
- VersionOrders.Sort: the library's sort is represented by its insertion sort for short slices; `VersionOrders.SortedUnique` covers the others.
- VersionDirs.GetAllVersionDirsSortedDesc: directories are named without the path in front of them.
- VersionDirs.IsNumeric: digits beyond ASCII, which the source accepts and then reads as zero, are not modelled.
- ReadableStrings.RoundTrip: text beyond ASCII is not modelled; the source works on bytes there.
- ErrorCoder.Walk: specifications with several names are in `ErrorCoder.HandleValueSpec` only, and a specification without a value, on which the source panics, is not modelled.
- ErrorSummary.SummarizeAnalysis: the sorting of the lists, duplicate error names, call expressions and deprecated calls are left out.
- The methods that hold the write lock of the broker are runs of their caller alone; the delivery goroutines beside them are in `ChannelBroker`.
- White space is that of ASCII and Latin-1; Unicode white space and letter case beyond ASCII are left out.
- Networks, clusters, charts, sheets, databases, logging and file access are left out.
- The compile cache, reference resolution in CUE and archive extraction are left out.

# Verified model of the LawFrame workflow and integration core

This project models, in Dafny, the parts of the repository that compute something a caller relies on,
and proves what those parts promise. `dafny verify dfyconfig.toml` checks all of it.

| area | files | what is modelled |
|---|---|---|
| Workflow documents | `WorkflowModel`, `SemanticValidator`, `WorkflowPatch` | the one-pass semantic validator and its report; checking and applying a patch of add, update and remove operations |
| Flow compiler | `FlowActions`, `Connections`, `FlowCompiler`, `ProjectionDiff`, `SortedStrings` | chaining and flattening action trees, collecting connection ids, compiling a workflow, projecting a flow back, comparing two projections |
| Chat stream | `SseFrames`, `ChatStream`, `SsePrinter` | the read loop that cuts a text stream into frames and settles on an outcome; the printed form of messages |
| Canvas graph | `WorkflowGraph` | the order in which the nodes of a canvas workflow are compiled, and the issues of its graph |
| Catalog sync | `EntryNames`, `CatalogNaming`, `CatalogRegistry`, `SqlLiterals` | normal names, unique names, the registry table under mark-missing and upsert, SQL literals |
| Event outbox | `Outbox`, `OutboxWorker` | the mining worker as a machine with rollback and faults, and its methods as steps of that machine |
| Bridge | `Redaction` | redacting a JSON body |
| Shared | `Prelude`, `Text`, `Json` | optional values, JavaScript string operations, JSON values and paths |

Loops and in-place updates of the source are methods with loops or classes; each is proved equal to a
specification function or to a relation that pins its result, and the lemmas are about those. Input
and output, clocks, the JSON text parser and the JSON schema validator are parameters: the parser is
an arbitrary function, the schema validator's findings are an argument, and faults of the worker's
connections are an argument of a cycle.

## Results that differ from a first reading of the code

* **Outbox.** The update that marks rows as mirrored has no limit while the select before it stops at
  200. A run whose failed inserts leave nothing behind is safe exactly when, at every mirroring, the
  batches published since the last one come to at most 200 rows (`Outbox.RunSafeIff`); one stalled
  cycle is always harmless. `Outbox.AnyRunSafeIff` gives the condition with inserts that did land.
  After `k >= 2` stalled cycles with full batches the next completed cycle marks `100 * (k - 1)` rows
  that ClickHouse never gets (`Outbox.StallsLoseRows`), and there is such a run for every `k`
  (`Outbox.LosingRun`).
* **Catalog sync.** The upsert resolves conflicts on the module code only, but the table has a second
  unique key (package, version, type, name), which marking a row as missing does not free. A sync
  commits exactly when no stored row keeps a record's tuple under another module code until that
  record's turn (`CatalogRegistry.SyncCommits`); `CatalogRegistry.NextSyncCommits` says it of two
  reports in sequence. When the first of two packages with one slug disappears from the report, the
  entry of the other takes over its module code and the sync fails
  (`CatalogRegistry.DroppedTwinBlocks`).
* **Patch composition.** Two patches in sequence and the same operations as one patch agree on the steps
  but not always on the transitions. For patches without renames they agree exactly when no transition
  has an end that the first patch removes and the second adds again while both of its ends are
  present at the end (`WorkflowPatch.PatchesComposeIff`); operations accepted by one check always
  agree (`WorkflowPatch.AcceptedTogetherCompose`).
* **Canvas graph.** The issue called an illegal cycle is also reported without any cycle, for an edge
  between two nodes that the trigger does not reach (`WorkflowGraph.IllegalCycleIff`,
  `WorkflowGraph.AcyclicReported`), and a cycle that passes through the trigger is by itself not reported.
* **Redaction.** Assigning to the key `__proto__` of an output record creates no property, so a record
  keeps its keys exactly when it has no such key (`Redaction.KeysKept`).
* **Recompiling.** Two compilations of one workflow differ, for the diff, in every external delivery
  step, because raw actions are compared as objects (`ProjectionDiff.RecompiledDiff`).

## Model

| member | source | states |
|---|---|---|
| SemanticValidator.CollectSemanticIssues | packages/workflow/src/semantic-validator.ts:157-306 | the single pass with its accumulated sets reports exactly the issues defined position by position, in reporting order |
| SemanticValidator.CheckStep | packages/workflow/src/semantic-validator.ts:171-266 | one turn of the loop: the issues of that step, and a set of references that is again what the steps so far make available; an unregistered module contributes nothing |
| SemanticValidator.CreateWorkflowValidationReport | packages/workflow/src/semantic-validator.ts:327-353 | a report is valid exactly for schema-clean workflows that meet the requirements stated without any accumulated state, and lists what `ReportExact` says |
| SemanticValidator.ReportExact | packages/workflow/src/semantic-validator.ts:327-353 | with schema findings the report holds them and nothing else; otherwise the blocking errors and the warnings are what the checks find, in their order and each once, and only undeclared binding keys are warnings |
| SemanticValidator.IssuesListed | packages/workflow/src/semantic-validator.ts:157-306 | the issues are the findings of every single check, stated on the fields of the workflow, steps before transitions before outputs |
| SemanticValidator.IssuesExact | packages/workflow/src/semantic-validator.ts:157-306 | for every code, errors and warnings alike, an issue is reported exactly when a step, transition or output gives the reason for it |
| SemanticValidator.ValidIffSound | packages/workflow/src/semantic-validator.ts:157-353 | soundness and completeness of validation: distinct ids, registered modules, approvals, inputs declared or produced strictly earlier, transition ends present, outputs produced |
| SemanticValidator.RegistryHoldsLast | packages/workflow/src/semantic-validator.ts:148-155 | the registry maps a code to the last contract given for it, both directions |
| SemanticValidator.IssuesSorted | packages/workflow/src/semantic-validator.ts:347-352 | each list of a report holds exactly the issues of its severity, and blocking errors are listed exactly when some issue is an error |
| WorkflowPatch.ValidateWorkflowPatch | packages/workflow/src/semantic-validator.ts:435-474 | accepts exactly the schema-clean patches whose added ids are new and whose other ids are present in the original workflow, and lists one message per offending operation |
| WorkflowPatch.ApplyWorkflowPatch | packages/workflow/src/semantic-validator.ts:476-534 | the loop with its insertions and deletions computes the fold of the operations and keeps the transitions whose two ends remain |
| WorkflowPatch.UpdateExact | packages/workflow/src/semantic-validator.ts:498-512 | an update gives the first step with the id the changed fields, one by one, and leaves everything else |
| WorkflowPatch.RemoveExact | packages/workflow/src/semantic-validator.ts:515-520 | a removal takes the first step with the id and nothing else |
| WorkflowPatch.PatchContent | packages/workflow/src/semantic-validator.ts:435-534 | after an accepted patch without renames every step is an original one that carries the last value given for each field, or an added one as it was added |
| WorkflowPatch.KeepPicks | packages/workflow/src/semantic-validator.ts:523-533 | the transitions that stay are those whose two ends are steps, in order |
| WorkflowPatch.PatchMessages | packages/workflow/src/semantic-validator.ts:435-474 | one message for each refused operation, in order, with the text for its kind |
| WorkflowPatch.PatchComposition | packages/workflow/src/semantic-validator.ts:476-534 | two patches equal their concatenation on steps; on transitions exactly when no surviving end was absent in between |
| WorkflowPatch.PatchesComposeIff | packages/workflow/src/semantic-validator.ts:435-534 | for patches accepted one after the other, the exact condition for composition, read off the operations: no surviving transition has an end that is removed and added again |
| WorkflowPatch.AcceptedTogetherCompose | packages/workflow/src/semantic-validator.ts:435-534 | operations that one check accepts can be applied as one patch or as two |
| WorkflowPatch.StagedPatchesDiffer | packages/workflow/src/semantic-validator.ts:515-533 | removing a step and putting it back: the transition is lost by two patches and kept by one |
| WorkflowPatch.OpsFrame | packages/workflow/src/semantic-validator.ts:483-521 | for any operations, the steps whose ids no operation mentions keep content, multiplicity and order |
| WorkflowPatch.PatchFrame | packages/workflow/src/semantic-validator.ts:435-534 | after an accepted patch without renames, the steps neither updated nor removed are exactly what the patch does not mention, unchanged and in order |
| WorkflowPatch.IdAccounting | packages/workflow/src/semantic-validator.ts:435-534 | conservation of ids as multisets, and the result's ids are distinct exactly when no id is added twice |
| WorkflowPatch.PatchedNeverDangles | packages/workflow/src/semantic-validator.ts:268-290 | validating any patched workflow never reports a missing transition end |
| WorkflowPatch.AddedStepLands | packages/workflow/src/semantic-validator.ts:484-496 | an added step directly follows the first step with the anchor's id, and leads the list without one |
| WorkflowPatch.AddUndoesRemove | packages/workflow/src/semantic-validator.ts:484-520 | with distinct ids a removed step returns to its place when added behind its predecessor |
| WorkflowPatch.RemoveUndoesAdd | packages/workflow/src/semantic-validator.ts:484-520 | removing a step with a new id right after adding it restores the list |
| FlowActions.ChainActions | packages/workflow-compiler/src/index.ts:281-289 | the backward loop links every action to the chain behind it |
| FlowActions.FlattenExact | packages/workflow-compiler/src/index.ts:291-304 | flattening lists one action for each path of loop, child and next links that exists, and nothing else, in lexicographic order of the paths |
| FlowActions.FlattenChain | packages/workflow-compiler/src/index.ts:281-304 | flattening a chain of compiled actions returns them in order, each but for its link |
| Connections.ConnectionCollector.Visit | packages/workflow-compiler/src/index.ts:402-419 | the recursive visitor adds to its set exactly what the visited value holds |
| Connections.ConnectionsExact | packages/workflow-compiler/src/index.ts:392-419 | a string is collected exactly when some path of keys and indices ends in it under a connection key |
| Connections.ExtractConnectionIds | packages/workflow-compiler/src/index.ts:339-351 | the strictly sorted list of the connections of all actions |
| SortedStrings.SortedUnique | packages/workflow-compiler/src/index.ts:384-400 | a set has one sorted listing, so comparing printed listings compares sets |
| SortedStrings.LessIsUnitsLess | packages/workflow-compiler/src/index.ts:350 | strings are ordered by their UTF-16 code units |
| FlowCompiler.CompileWorkflow | packages/workflow-compiler/src/index.ts:98-120 | the compiled flow: defaults, chained actions on the trigger, sorted connection ids |
| FlowCompiler.CompiledExact | packages/workflow-compiler/src/index.ts:98-120 | read off the workflow: one flattened action per step with its name, title and type, and settings that run a piece with the step's input or are the step's own |
| FlowCompiler.ConnectionsOfSteps | packages/workflow-compiler/src/index.ts:339-351 | the connection ids are the strings found under connection keys, at any depth, in what the steps are run with or in the settings they bring along |
| FlowCompiler.CompiledUnique | packages/workflow-compiler/src/index.ts:98-120 | compilation is deterministic |
| FlowCompiler.ReverseSync | packages/workflow-compiler/src/index.ts:122-156 | one projected step and possibly one warning per flattened action, in order |
| FlowCompiler.ProjectionExact | packages/workflow-compiler/src/index.ts:122-156 | read off the flow: one projected step per action with its name, title, type, word for the type and piece, and one warning text per action of an unknown type |
| FlowCompiler.CompileThenReverseSync | packages/workflow-compiler/src/index.ts:98-156 | the round trip keeps number, order, ids, titles, types and pieces of the steps; warnings and the external flag appear exactly for override types outside the four known ones |
| FlowCompiler.ConnectionIdsExact | packages/workflow-compiler/src/index.ts:98-120 | the flow's connection ids are sorted and are exactly the strings named under connection keys by actions reachable from the trigger |
| ProjectionDiff.DiffActivepiecesProjection | packages/workflow-compiler/src/index.ts:158-226 | the two loops over maps compute the diff, the last step of an id winning |
| ProjectionDiff.DiffExact | packages/workflow-compiler/src/index.ts:158-226 | an entry is in the diff exactly when the two step lists give the reason for its kind and id and it carries the last step each list has for that id |
| ProjectionDiff.DiffReports | packages/workflow-compiler/src/index.ts:158-226 | a kind is reported for an id exactly when the fields of the two lists' last steps give the reason for it, each kind spelled out |
| ProjectionDiff.ConnectionReported | packages/workflow-compiler/src/index.ts:384-390 | a changed connection is reported exactly when some string is found under a connection key in only one of the two settings |
| ProjectionDiff.DiffListed | packages/workflow-compiler/src/index.ts:166-223 | the order of the entries: by first mention of the ids of the later list, kind by kind, then the removed ids of the earlier one |
| ProjectionDiff.DiffEmptyIffEquivalent | packages/workflow-compiler/src/index.ts:158-226 | the diff is empty exactly for the same ids with agreeing type, piece and connections and, for deliveries, the same raw object |
| ProjectionDiff.DiffNoRepeats | packages/workflow-compiler/src/index.ts:158-226 | no pair of kind and id is reported twice |
| ProjectionDiff.AddedAreRemovedBackwards | packages/workflow-compiler/src/index.ts:166-223 | the ids added one way are those removed the other way, in the same order |
| ProjectionDiff.RecompiledDiff | packages/workflow-compiler/src/index.ts:98-226 | two compilations of one workflow differ exactly in the steps with external delivery pieces |
| SseFrames.CutCharacterised | packages/api-client/src/chat-client.ts:323-324 | the split at blank lines is the only leftmost non-overlapping cut of a text, which is defined without an algorithm |
| SseFrames.ReadFramesWhole | packages/api-client/src/chat-client.ts:314-331 | the reader that meets one chunk at a time with its residual buffer finds the frames of the whole text and keeps its tail |
| SseFrames.CutExtends | packages/api-client/src/chat-client.ts:320-324 | frames found in a prefix stay, and only the tail meets the text that follows |
| ChatStream.StreamChatMessageEvents | packages/api-client/src/chat-client.ts:314-376 | the events are those of the buffered reader's frames and of the concatenated text, each as its frame tells it, and the outcome is the one read off the payloads |
| ChatStream.SettlesEnds | packages/api-client/src/chat-client.ts:333-376 | the outcome from the JSON alone: the value at `snapshot` of the last proper `done` event, else the code and message of the last error or their defaults, else incomplete |
| ChatStream.FrameSaysData | packages/api-client/src/chat-client.ts:382-386 | the data of a frame: what follows `data:` and white space in its lines, joined by line feeds |
| ChatStream.FrameTellsEvent | packages/api-client/src/chat-client.ts:388-415 | the event of a frame: the string at `type` and the record or array at `payload` of its parsed data |
| ChatStream.EventsTold | packages/api-client/src/chat-client.ts:326-332 | the events of a list of frames are those its frames tell, in order |
| SseFrames.BreakIsBlankLine | packages/api-client/src/chat-client.ts:323-324 | a frame ends at two line feeds |
| Text.SpacesAre | packages/api-client/src/chat-client.ts:385 | the characters that trimming removes |
| ChatStream.HandleFrames | packages/api-client/src/chat-client.ts:326-349 | the inner loop appends the events of its frames and keeps the last snapshot and the last error |
| ChatStream.ChunkingInvisible | packages/api-client/src/chat-client.ts:314-376 | the buffered reader reports the same events and the same outcome for any two ways of cutting a text |
| SsePrinter.MessageReceived | packages/api-client/src/chat-client.ts:379-390 | a printed message is read back unchanged exactly when no line starts with white space and none but the last ends in a carriage return |
| SsePrinter.PrintReadRoundTrip | packages/api-client/src/chat-client.ts:320-390 | from printed messages cut in any way the buffered reader recovers the messages exactly and in order, if and only if each is faithful and not empty |
| SsePrinter.PrintedEvents | packages/api-client/src/chat-client.ts:320-415 | the events of such a stream are those of the messages |
| EntryNames.NormalizeIsNormal | packages/activepieces-inventory/src/index.ts:533-540 | the result is empty or runs of lower-case letters and digits joined by single underscores |
| EntryNames.NormalIffFixed | packages/activepieces-inventory/src/index.ts:533-540 | a name is left as it is exactly when it is in normal form |
| EntryNames.NormalizeIdempotent | packages/activepieces-inventory/src/index.ts:533-540 | normalising twice changes nothing more |
| EntryNames.NormalizeKeepsLetters | packages/activepieces-inventory/src/index.ts:533-540 | every letter and digit is kept, in order and in lower case |
| EntryNames.NormalizeJoins | packages/activepieces-inventory/src/index.ts:533-540 | where underscores go: one between two parts exactly when other characters separate them or a capital follows a lower-case letter or digit, none around |
| EntryNames.ClassesAre | packages/activepieces-inventory/src/index.ts:533-540 | the capitals, small letters and digits, character by character |
| EntryNames.SeparatorMeans | packages/activepieces-inventory/src/index.ts:533-540 | the underscore between two parts, character by character |
| Text.LowerCharMeans | packages/activepieces-inventory/src/index.ts:533-540 | lower case for each of the 26 capitals |
| CatalogNaming.NameAllocator.UniqueEntryName | packages/activepieces-catalog-sync/src/index.ts:136-156 | the suffix search ends and returns the first candidate whose key is free, and records that key |
| CatalogNaming.NameAllocator.UniqueModuleCode | packages/activepieces-catalog-sync/src/index.ts:158-167 | the suffix search ends and returns the first free module code, and records it |
| CatalogNaming.CandidateInjective | packages/activepieces-catalog-sync/src/index.ts:141-151 | different suffixes give different keys, which is why the searches end |
| CatalogNaming.BuildEntryRecords | packages/activepieces-catalog-sync/src/index.ts:84-134 | one record per selected entry in order, with the first names free behind the records before it and the policy of its piece |
| CatalogNaming.RecordMeans | packages/activepieces-catalog-sync/src/index.ts:84-167 | a record, read off its selection and the records before it: the first free name and module code with their texts, and its policy |
| CatalogNaming.PolicyMeans | packages/activepieces-catalog-sync/src/index.ts:169-271 | the first reason that applies to an entry, what it means, the connection it waits for and its risk level |
| CatalogNaming.NeverActive | packages/activepieces-catalog-sync/src/index.ts:169-271 | exactly which entries come out active: no trigger, nothing blocked by risk or exposure |
| CatalogNaming.SelectedMeans | packages/activepieces-catalog-sync/src/index.ts:92-98 | which entries of a piece are taken under a maximum |
| CatalogNaming.SelectedAt | packages/activepieces-catalog-sync/src/index.ts:91-130 | the records follow the pieces and their entries in order |
| CatalogNaming.NamesUnique | packages/activepieces-catalog-sync/src/index.ts:84-167 | for every report, no two records share a module code or a tuple of package, version, type and name |
| CatalogNaming.RecordsUnique | packages/activepieces-catalog-sync/src/index.ts:84-134 | a report determines its records |
| CatalogNaming.NamesStayNormal | packages/activepieces-catalog-sync/src/index.ts:136-156 | entry names allocated from normalised names are normalised and not empty |
| CatalogRegistry.ActionRegistry.UpsertEntry | packages/activepieces-catalog-sync/src/index.ts:372-450 | an upsert fails exactly when another code holds the tuple and then changes nothing; otherwise it writes one row, leaves every other, and keeps the tuples unique |
| CatalogRegistry.ActionRegistry.Sync | packages/activepieces-catalog-sync/src/index.ts:39-64 | the transaction commits all statements or none |
| CatalogRegistry.SyncCommits | packages/activepieces-catalog-sync/src/index.ts:427-448 | a sync commits exactly when no stored row obstructs a record |
| CatalogRegistry.NextSyncCommits | packages/activepieces-catalog-sync/src/index.ts:39-64 | when a sync commits after another one, in terms of the table before both and the two lists of records |
| CatalogRegistry.DroppedTwinBlocks | packages/activepieces-catalog-sync/src/index.ts:100-167 | dropping the first of two packages with one slug makes the next sync fail |
| CatalogRegistry.GrownReportSync | packages/activepieces-catalog-sync/src/index.ts:39-167 | a report that gained entries at its end keeps every module code, and its sync commits exactly when it would have committed without the sync before |
| CatalogRegistry.SyncReplacesBuiltinView | packages/activepieces-catalog-sync/src/index.ts:285-296 | after a sync the present built-in rows are exactly the records, other built-in rows are missing, foreign rows are untouched |
| CatalogRegistry.SyncedRows | packages/activepieces-catalog-sync/src/index.ts:285-426 | every modelled column of every row after the statements of a sync |
| CatalogRegistry.SyncKeepsTuplesUnique | supabase/migrations/000046_stage16_17_activepieces_catalog_bridge.sql:14-62 | the second unique key is kept by every committed sync |
| CatalogRegistry.SecondSync | packages/activepieces-catalog-sync/src/index.ts:39-64 | repeating a committed sync commits and changes nothing but the time of the check |
| CatalogRegistry.SyncCatalog | packages/activepieces-catalog-sync/src/index.ts:39-64 | building records and syncing them, with the exact condition of success |
| SqlLiterals.LiteralRoundTrip | packages/activepieces-catalog-sync/src/index.ts:498-502 | a quoted text is scanned back exactly when no quote follows it |
| SqlLiterals.ValuesRoundTrip | packages/activepieces-catalog-sync/src/index.ts:397-426 | a whole list of texts, nulls and JSON documents is read back as written |
| Outbox.OutboxSafety | apps/mining-worker/worker.py:84-261 | over all runs in which at most one cycle stalls between mirrorings, every mirrored row is in ClickHouse and every published row was handed to the producer |
| Outbox.RunSafeIff | apps/mining-worker/worker.py:84-261 | a run whose failed inserts leave nothing behind is safe in all states exactly when at every mirroring the batches published since the last one come to at most 200 rows |
| Outbox.AnyRunSafeIff | apps/mining-worker/worker.py:84-261 | any run is safe in all states exactly when at every mirroring each row published since the last one is copied or was left in ClickHouse by a failed insert |
| Outbox.WithinLimitIsSafe | apps/mining-worker/worker.py:84-261 | the bound of 200 keeps every run safe, whatever failed inserts leave behind |
| Outbox.LosingRun | apps/mining-worker/worker.py:109-261 | for every number of stalled cycles above one, a run that loses 100 rows for each further one |
| Outbox.StallsLoseRows | apps/mining-worker/worker.py:109-261 | exactly how many rows are lost after a number of stalled cycles |
| Outbox.RunBound | apps/mining-worker/worker.py:109-186 | at most 100 published rows per stalled cycle since the last mirroring |
| Outbox.DrainBound | apps/mining-worker/worker.py:109-261 | undisturbed cycles take 100 rows each until none is pending, and all taken rows are mirrored and inserted |
| Outbox.DrainComplete | apps/mining-worker/worker.py:109-261 | as many cycles as hundreds of pending rows, rounded up, leave everything mirrored and inserted |
| Outbox.DrainOrder | apps/mining-worker/worker.py:136-171 | over a drain, events are produced in order of event time |
| Outbox.DrainOnce | apps/mining-worker/worker.py:109-261 | over a drain, exactly the rows taken from the pending ones are produced and inserted, each once |
| Outbox.RunProgress | apps/mining-worker/worker.py:109-261 | between any two states of any run no row is lost or moves back, publishing counts one attempt, and mirrored, quarantined and failed rows never change |
| Outbox.CycleExact | apps/mining-worker/worker.py:109-261 | every cycle row by row and in numbers: which up to 100 rows are taken when, which up to 200 are copied, and what becomes of every row |
| OutboxWorker.SelectOldest | apps/mining-worker/worker.py:135-140 | the ordered and limited select |
| OutboxWorker.MiningWorker.PublishPendingEvents | apps/mining-worker/worker.py:109-186 | what is committed and what was handed over, for every place the method can fail |
| OutboxWorker.MiningWorker.MaterializeClickhouse | apps/mining-worker/worker.py:188-261 | what is committed and what was inserted, for every place the method can fail |
| OutboxWorker.MiningWorker.RunCycle | apps/mining-worker/worker.py:84-107 | every cycle, whatever goes wrong in it, is a step of the outbox machine |
| WorkflowGraph.Validate | apps/backend/src/modules/workflow-compiler/workflow-graph-validator.service.ts:10-119 | the queue, the counters and the loops compute the order, the issues and the skipped edges as specified |
| WorkflowGraph.GraphExact | apps/backend/src/modules/workflow-compiler/workflow-graph-validator.service.ts:17-69 | the nodes, roots and arcs of the graph, read off the workflow's nodes and edges |
| WorkflowGraph.IssuesExact | apps/backend/src/modules/workflow-compiler/workflow-graph-validator.service.ts:25-116 | the issues of a report, read off the workflow and the order |
| WorkflowGraph.Traverse | apps/backend/src/modules/workflow-compiler/workflow-graph-validator.service.ts:70-89 | each listed node is the least of those that may come next, and the order goes on until none may |
| WorkflowGraph.OrderIsDistinct | apps/backend/src/modules/workflow-compiler/workflow-graph-validator.service.ts:74-80 | no node is listed twice |
| WorkflowGraph.OrderGoesForward | apps/backend/src/modules/workflow-compiler/workflow-graph-validator.service.ts:81-88 | a runtime edge into a listed node that is no root comes from a node listed before it |
| WorkflowGraph.OrderUnique | apps/backend/src/modules/workflow-compiler/workflow-graph-validator.service.ts:70-89 | a graph has one order |
| WorkflowGraph.DisconnectedIff | apps/backend/src/modules/workflow-compiler/workflow-graph-validator.service.ts:91-100 | a node stays unlisted exactly when it ends a walk without roots that starts where nothing enters or comes back to its start |
| WorkflowGraph.IllegalCycleIff | apps/backend/src/modules/workflow-compiler/workflow-graph-validator.service.ts:102-116 | a cycle is reported exactly when a cycle meets no root or an edge joins two nodes that are no roots and nothing enters the first |
| WorkflowGraph.AcyclicReported | apps/backend/src/modules/workflow-compiler/workflow-graph-validator.service.ts:102-116 | a workflow without a cycle for which one is reported |
| WorkflowGraph.NoTriggerCycleIff | apps/backend/src/modules/workflow-compiler/workflow-graph-validator.service.ts:66-69 | without a trigger a cycle is reported exactly when there is one |
| WorkflowGraph.NoIssuesIff | apps/backend/src/modules/workflow-compiler/workflow-graph-validator.service.ts:10-119 | nothing is reported exactly with one trigger and no walk cut off from it, and then every node is listed |
| Redaction.RedactBridgeBody | packages/activepieces-bridge/src/index.ts:145-163 | the recursive method with its loops computes the redacted value |
| Redaction.SensitiveMeans | packages/activepieces-bridge/src/index.ts:156 | a key is sensitive exactly when it holds one of six words, in whatever case |
| Redaction.RedactedAtVisible | packages/activepieces-bridge/src/index.ts:145-163 | along a path without sensitive keys redaction commutes with access |
| Redaction.RedactedAtSensitive | packages/activepieces-bridge/src/index.ts:156-158 | at a sensitive key only the marker is left and nothing lies beneath it |
| Redaction.RedactionKernel | packages/activepieces-bridge/src/index.ts:145-163 | two bodies are redacted to the same body exactly when they look the same along every visible path |
| Redaction.ViewRedacted | packages/activepieces-bridge/src/index.ts:145-163 | key order, array lengths and leaves that are visible stay |
| Redaction.RedactionIdempotent | packages/activepieces-bridge/src/index.ts:145-163 | redacting twice changes nothing more |
| Redaction.KeysKept | packages/activepieces-bridge/src/index.ts:154-161 | a record keeps all its keys exactly when none is `__proto__` |

## Left out

- Network, database and broker clients, file scanning, hashing and timers: they carry no algorithm of this repository.
- JSON text parsing and JSON schema validation: the parser is an arbitrary function and the schema findings are an argument.
- Patch values that break their declared types (a changed field of the wrong type, or one set to undefined): the model gives every field its declared type.
- Step fields no modelled code reads (data policy, error strategy) and the default module registry, which is a table of constants.
- Policy report, runtime plan preview and patch diff titles of the semantic validator: each is a single filter or map.
- JSON.stringify of connection lists: equal lists have equal texts and the other way round, so the lists are compared.
- FlowCompiler.ReverseSync: object identity of raw actions is modelled by numbering the actions of a flow from a base; a flow whose tree shares one action object in two places is not modelled.
- Strings are sequences of Unicode scalar values; lone surrogates are not modelled, and sorting follows UTF-16 code units.
- Redaction.RedactBridgeBody: the prototype that assigning to `__proto__` may set is not modelled, only own properties.
- Texts, codes and paths of the semantic validator's issues: each is fixed by the kind of issue and the names it carries, which are modelled.
- Warning texts of the graph validator: a skipped edge stands for its warning; the other parts of that compiler service are not modelled.
- CatalogRegistry.SecondSync: the display columns and the metadata column are not modelled; they are computed from the piece, the entry and the options alone.
- CatalogNaming.BuildEntryRecords: display name, description and category of a record are not modelled; the gating reason stands for its code and its text.
- The piece registry table: it has one unique key and its upsert has no case the entry registry lacks.
- CatalogRegistry.ActionRegistry.Sync: row security, generated ids and creation times of the table are not modelled.
- SqlLiterals.ValuesRoundTrip: the statement text around the values, and the literal constants and the clock call among them, are not modelled.
- Outbox.Step: deletion of rows by a workspace's removal and a second worker are not modelled; rows arriving inside a cycle are taken to arrive before its first select or after the cycle, because only that select reads pending rows.
- The worker's refresh statements touch other tables; a failure in them only counts as a failed cycle. Health payloads and metrics are formatting.
- ChatStream.StreamChatMessageEvents: an exception thrown by the caller's event handler, cancellation, and the fallback for a response without a body are not modelled.
- Piece classification, provider routing and the workflow vocabulary: case tables whose claims are read off single branches.

# Verified model of the Jachin Nexus core

This project models the stateful parts of Jachin Nexus in Dafny and proves what they promise, or,
where the code falls short of that, exactly when it does. Check everything with
`dafny verify dfyconfig.toml`.

| file | what it models |
|---|---|
| `Hunks.dfy` | applying the hunks of a unified diff to a list of lines |
| `PastEnd.dfy` | patches with hunks placed past the end of the file |
| `PatchStore.dfy` | applying a whole patch to the workspace, all or nothing, with backups and undo |
| `Topology.dfy` | the order in which a workflow runs its nodes |
| `Workflow.dfy` | running a workflow with checkpoints, freezing, suspending for a human, and resuming |
| `Resume.dfy` | histories of runs, resumes and injected decisions, against one uninterrupted run |
| `EventQueue.dfy` | the persistent input queue, its dispatcher and the session actors |
| `Sessions.dfy` | which actor an input goes to, and how a session is served |
| `Dispatch.dfy` | how often an event is handed out, with one dispatcher or several |
| `SmokeScheduler.dfy` | the release-smoke jobs, in memory and persisted |
| `Versions.dfy` | reading and comparing versions |
| `CloudSync.dfy` | manifest merging, diff and download cycles |
| `LeaderLease.dfy` | the expiring lock that picks the node sending the heartbeat |
| `StreamDelta.dfy` | turning increments or cumulative frames into text to show |
| `BumpAllocator.dfy` | the memory allocator behind the WASM execute ABI |
| `TaskToken.dfy` | base64url, minting and verifying delegation tokens |
| `NoiseFilter.dfy` | splitting a child's output into JSON-looking lines |
| `Text.dfy`, `Arithmetic.dfy`, `Wrappers.dfy` | helpers: `str.strip()`, arithmetic facts, `Option` and `Result` |

Every component that updates state in the program is a class here whose methods are proved equal to
a function of the old state; the results are lemmas about that function. Concurrency is a sequence
of atomic steps in any order: the results on the event queue, the scheduler and the lease hold for
every interleaving.

## What the proofs found

Where documentation and code disagree, the model follows the code.

- A hunk is placed at its old start line whatever its counts say, so an insertion with an old count
  of zero lands before the named line, not after it as diff tools mean it. The header counts are not
  used at all (`core/apply_patch_unified.py:72`, `:139-144`).
- Reading a file translates carriage returns. A failed or undone patch therefore gives the files
  back exactly if and only if no existing target holds one (`FailedPatchChangesNothing`,
  `UndoSeriesRestores`).
- Backup names are not injective: undoing a patch restores each file if and only if no two targets
  with different texts share a backup name (`RollbackRestoresTargets`, `SharedBackupNameMixesFiles`),
  which they never do as long as no underscore stands before another or before a separator
  (`PlainSeriesRestores`).
- Two blocks for the same file are both computed from the original, so the later one wins
  (`LastBlockDecides`). A blank last line is lost when a file is written and read
  (`WrittenLinesReadBack`), and even a patch that changes nothing rewrites a file whose end is not
  exactly one newline behind a line that is not blank (`RewriteFaithful`).
- The order in which hunks are listed does not matter as long as different hunks have different start
  lines (`PatchOrderIrrelevant`). Where an insertion shares its start line with another hunk it matters
  unless the inserted lines can be pushed through both sides of that hunk
  (`SharedStartDependsOnOrder`).
- After an accepted patch with separate hunks the inverse, listed highest first, restores the lines if
  and only if no hunk past the end adds anything; otherwise it fails (`InverseUndoesPatch`). It may be
  listed in any order unless a hunk with an empty new side touches the next one above it, because then
  two of its hunks share a start line (`AnyInverseListingRestores`, `InverseStartsDiffer`,
  `AscendingInverseOfErasure`).
- Hunks placed past the end of a file come first and build a text of their own behind it
  (`FarPatchIsSplice`). The text of the highest of them comes first, and a lower one may land in the
  middle of it (`HighestFarTextFirst`, `FarTextInterleaves`). A hunk that asks for lines past the end can be
  accepted against text another hunk has just added there, so acceptance means "every hunk fits the
  original" exactly when no hunk asks for such lines (`InsidePatchIsSplice`, `AcceptedThoughUnfit`,
  `BorrowedLine`).
- A workflow with a cycle silently runs only the nodes no cycle leads to, and reports success
  (`OmittedExactlyBehindCycles`).
- Resuming amounts to one uninterrupted run when attempts end in success, failure or suspension
  (`ResumesAmountToOneRun`). When the process dies, the next call starts where the killed one did if
  no node had succeeded in the killed call; otherwise it starts at the first node and every completed
  node runs again (`KilledRunStartsOver`), although `core/workflow_engine.py:158` promises that
  completed nodes are skipped. A raising `on_node_done` repeats its node
  (`CallbackFailureRepeatsNode`), a node with an empty id is never resumed at (`EmptyIdStartsOver`),
  and records are saved under the workflow's own id but looked up under the id of the call
  (`OtherIdStartsOver`). A human decision that JSON has no form for is dropped without an error
  (`DecisionArrives`).
- With a second dispatcher events are handed out twice (`HandedOnceIffOneDispatcher`); an actor that
  timed out is never started again (`TimedOutSessionIsStuck`); rows claimed before a restart are
  never worked on again (`AbandonedForGood`).
- A smoke job that was missed and is then announced again for a later time is lost in the next
  restart (`MissedThenReannouncedIsLost`).
- A sync cycle stores the rewritten URL but compares the original one: it converges if and only if
  rewriting changes no URL (`CycleConverges`). A single tenant's manifest is not merged: cycles whose
  downloads all succeed come to rest if and only if no two of its entries for one place have different
  URLs and rewriting leaves the URLs of all items planned at the start alone (`SettlesExactly`).
- `core/sync_daemon.py:870` says that a Redis error counts as acquiring the lease; the lock function catches
  the error itself and answers no. While a node leads, exactly those nodes that have no client at all
  think they lead too (`AcquisitionsApart`, `NoClientNoExclusion`).
- Increments are shown in full if and only if none of them begins with all the text so far
  (`IncrementsShownExactly`, `RepeatedTextIsLost`).
- The allocator's mask aligns for powers of two only (`AlignsExactlyPowersOfTwo`).
- A token is good through its whole last second, and also before its time of issue
  (`MintedTokenAcceptedExactly`).

## Model

| member | source | states |
|---|---|---|
| `Text.StripExact` | core/session_manager.py:76-77 | stripping takes white space off both ends, all of it and nothing else |
| `Text.SpacesExactly` | core/session_manager.py:76-77 | the characters str.strip() takes for white space |
| `Hunks.ApplyHunk` | core/apply_patch_unified.py:72-99 | succeeds exactly when the hunk's old side stands at its place, and then replaces that stretch by the new side, keeping everything before and after |
| `Hunks.WalkReplacesOldSide` | core/apply_patch_unified.py:76-99 | the walk from any index accepts exactly a file whose lines there are the old side, and outputs the new side and the rest |
| `Hunks.WalkReportsFirstClash` | core/apply_patch_unified.py:80-91 | the error names the first line of the old side that the file lacks, says whether the file ended or differs, and reports the right line number |
| `Hunks.SpliceReplacesOldSide` | core/apply_patch_unified.py:72-99 | the same for a whole hunk, places past the end included |
| `Hunks.SortIsDescending` | core/apply_patch_unified.py:167 | sorting keeps the hunks and puts the highest start first |
| `Hunks.SortIsStable` | core/apply_patch_unified.py:167 | hunks with one start line stay in the order listed |
| `Hunks.ApplyHunks` | core/apply_patch_unified.py:167-169 | the hunk loop computes the sorted, one-after-the-other application the lemmas are about |
| `Hunks.PatchIsSimultaneousSplice` | core/apply_patch_unified.py:167-169 | hunks with separate old ranges inside the file are accepted exactly when each fits the original lines, and the result is the splice of all of them at once, defined without any hunk order |
| `Hunks.PatchOrderIrrelevant` | core/apply_patch_unified.py:167-169 | as long as different hunks have different start lines, the listing order changes nothing, errors included |
| `Hunks.SharedStartDependsOnOrder` | core/apply_patch_unified.py:167-169 | an insertion that shares its start line with any hunk that stands there: both results are given, and the listing order does not matter exactly if the inserted lines can be pushed through both sides of the other hunk |
| `PastEnd.FarHunksComeFirst` | core/apply_patch_unified.py:72-99 | for every file and patch, the hunks past the end make their own text of an empty file first, and the others then patch the file with that text appended |
| `PastEnd.FarPatchIsSplice` | core/apply_patch_unified.py:167-169 | separate hunks anywhere are accepted exactly when the far ones apply to an empty file and each near one fits the file with the far text behind it; the result is the simultaneous splice into that |
| `PastEnd.InsidePatchIsSplice` | core/apply_patch_unified.py:167-169 | if no hunk asks for lines past the end, a patch is accepted exactly when every hunk fits the original, and the far text follows the splice of the near hunks |
| `PastEnd.AcceptedThoughUnfit` | core/apply_patch_unified.py:167-169 | an accepted patch has a hunk that does not fit the original exactly when some hunk asks for lines past the end |
| `PastEnd.BorrowedLine` | core/apply_patch_unified.py:167-169 | such patches exist: a hunk is accepted against a line added by another |
| `PastEnd.SingleFarText` | core/apply_patch_unified.py:72-99 | if at most one far insertion adds anything, the far text is what it adds |
| `PastEnd.HighestFarTextFirst` | core/apply_patch_unified.py:167-169 | with more of them, the first line of the highest comes first, whatever the others add |
| `PastEnd.FarTextInterleaves` | core/apply_patch_unified.py:167-169 | a lower far insertion can land inside the text of a higher one |
| `Hunks.InvertSwapsSides` | core/apply_patch_unified.py:79-97 | swapping additions and deletions swaps old side and new side |
| `Hunks.StackedIsLocal` | core/apply_patch_unified.py:72-99 | hunks that end inside a prefix act on that prefix alone and change its length by their net growth |
| `Hunks.InversePatchRestores` | core/apply_patch_unified.py:167-169 | a patch followed by its inverse, with starts moved by the growth of the hunks below, gives the original lines |
| `Hunks.AcceptedGrows` | core/apply_patch_unified.py:72-99 | every accepted list of hunks, wherever placed, changes the length by its net growth |
| `Hunks.InverseUndoesPatch` | core/apply_patch_unified.py:167-169 | after any accepted patch with separate hunks the inverse, listed highest first, restores the lines if and only if no hunk past the end adds anything, and fails otherwise |
| `Hunks.InverseStartsCoincide` | core/apply_patch_unified.py:167-169 | two neighbours in the inverse share their start line exactly when the lower hunk has an empty new side and touches the higher |
| `Hunks.InverseStartsDiffer` | core/apply_patch_unified.py:167-169 | all starts of the inverse differ exactly when no hunk with an empty new side touches the next one above it |
| `Hunks.InverseInAnyOrder` | core/apply_patch_unified.py:167-169 | every listing of the inverse with different starts restores the lines under that same condition and no other |
| `Hunks.AnyInverseListingRestores` | core/apply_patch_unified.py:167-169 | so does every listing at all, if no hunk of the patch with an empty new side touches another from below |
| `Hunks.AscendingInverseOfErasure` | core/apply_patch_unified.py:167-169 | where such a hunk touches any other, listing the inverse lowest first restores exactly if the erased lines can be pushed through both sides of the other; result and failure are given |
| `PatchStore.ReadTextFaithful` | core/apply_patch_unified.py:164 | a file reads back as it is on disk exactly when it holds no carriage return |
| `PatchStore.ReadTextTranslates` | core/apply_patch_unified.py:164 | a return is read as one newline, together with a newline behind it or alone |
| `PatchStore.WrittenLinesReadBack` | core/apply_patch_unified.py:164-166 | written lines read back as themselves exactly when the last one is not blank |
| `PatchStore.RewriteFaithful` | core/apply_patch_unified.py:164-166 | reading and writing unchanged lines keeps a file exactly when it is empty or ends in one newline behind a line that is not blank |
| `PatchStore.PlanIsPerSection` | core/apply_patch_unified.py:109-175 | a successful plan holds one operation per block, each computed from the files before the call |
| `PatchStore.Workspace.ParseToOperations` | core/apply_patch_unified.py:102-175 | the loop over the blocks plans them in order and stops at the first that cannot be planned, with its error |
| `PatchStore.Workspace.NewFileLines` | core/apply_patch_unified.py:149-159 | the loops over hunks and body lines collect the lines of a new file, and refuse a deletion |
| `PatchStore.AllNewLines` | core/apply_patch_unified.py:149-159 | for every list of hunks these are the texts of all context and added body lines, in order |
| `PatchStore.PlanAcceptsExactly` | core/apply_patch_unified.py:125-174 | a patch is planned if and only if it has blocks and each names a file, has hunks, and either makes a new file without deleting or fits an existing one |
| `PatchStore.MisfitWritesNothing` | core/apply_patch_unified.py:167-169 | a hunk that does not fit leaves everything unwritten and, if no earlier block has failed already, raises out of the call |
| `PatchStore.Workspace.constructor` | core/apply_patch_unified.py:241-244 | a workspace starts without backups and without a last success |
| `PatchStore.Workspace.Apply` | core/apply_patch_unified.py:217-321 | the call, with any step of it failing, leaves exactly the specified files, backups and marker |
| `PatchStore.Workspace.ReadAll` | core/apply_patch_unified.py:233-240 | the remembered text of each target is what reading it gives, or none for an absent one |
| `PatchStore.Workspace.WriteAll` | core/apply_patch_unified.py:246-300 | the try block ends in the files, backups and marker of the failing step, or of success |
| `PatchStore.Workspace.CopyAll` | core/apply_patch_unified.py:248-258 | the copies and manifest entries of all targets, touching only this call's own backup |
| `PatchStore.Workspace.WriteFiles` | core/apply_patch_unified.py:260-265 | the targets are written in order up to the failing one |
| `PatchStore.Workspace.RestoreAll` | core/apply_patch_unified.py:303-312 | the except block puts every remembered text back and removes the others |
| `PatchStore.FailedPatchChangesNothing` | core/apply_patch_unified.py:228-321 | whichever step fails, an unsuccessful call leaves all targets as they were read, absent ones absent, other files and other backups untouched; the files are exactly as before if and only if no existing target holds a carriage return; the marker changes only by its own torn write |
| `PatchStore.AppliedPatchWrites` | core/apply_patch_unified.py:260-284 | a successful call writes the text of each target's last operation, keeps other files and other backups, and records a complete backup and the marker, or with backup off neither |
| `PatchStore.LastBlockDecides` | core/apply_patch_unified.py:147-171 | end to end: after a successful call a file holds what its last block asks for, the context and added lines of a new file or the splice into its content before the call, far hunks included; the files reported are those of the blocks, in order |
| `PatchStore.Workspace.RollbackBackup` | core/apply_patch_unified.py:324-377 | undo by id, or by the marker for a missing or blank one, with its errors; manifest entries are restored one by one |
| `PatchStore.RequestedExactly` | core/apply_patch_unified.py:329-341 | an explicit id is used without surrounding blanks, a blank one stands for the last success |
| `PatchStore.NothingToUndo` | core/apply_patch_unified.py:330-340 | without an id to go by nothing is touched |
| `PatchStore.UnknownBackup` | core/apply_patch_unified.py:342-345 | nor with an id that has no complete backup |
| `PatchStore.SafeNameSpelled` | core/apply_patch_unified.py:182-183 | the backup name is the path with every separator written as two underscores, so two paths share one exactly if they are equal after that |
| `PatchStore.PlainPathsApart` | core/apply_patch_unified.py:182-183 | different paths without a backslash, and without an underscore just before an underscore or a separator, never share a backup name |
| `PatchStore.CopyComesFromTarget` | core/apply_patch_unified.py:252-257 | the copy found under a target's backup name is the text of some target sharing that name |
| `PatchStore.RestoreEntriesAt` | core/apply_patch_unified.py:352-372 | entries whose copies exist are all restored, each path from its own copy, other paths untouched |
| `PatchStore.RestoredExactly` | core/apply_patch_unified.py:352-372 | undo goes through if and only if every copy the manifest names is there |
| `PatchStore.RollbackRestoresTargets` | core/apply_patch_unified.py:324-377 | undoing one id at any later time changes only that patch's files, and gives each its text before the patch exactly when no two with different texts are equal after writing their separators as two underscores |
| `PatchStore.PlainRollbackRestores` | core/apply_patch_unified.py:324-377 | for plain paths undoing an id gives every file of the patch its text before it, with no further condition |
| `PatchStore.SharedBackupNameMixesFiles` | core/apply_patch_unified.py:182-183 | patching "a/b" and "a__b" together, then undoing, gives the first the text of the second |
| `PatchStore.BackupsKept` | core/apply_patch_unified.py:242-244 | later patches under fresh ids leave earlier backups alone |
| `PatchStore.UndoSeriesRestores` | core/apply_patch_unified.py:324-377 | undoing any number of patches in reverse order gives every touched file its text at the start, or its absence; exactly the same files if and only if none held a carriage return |
| `PatchStore.PlainSeriesRestores` | core/apply_patch_unified.py:324-377 | for plain paths and fresh ids every series of successful patches is undone completely, with no further condition, and what is touched are the files the patches name |
| `Topology.RelaxBalance` | core/workflow_engine.py:188-194 | the queue and the nodes of positive degree together never grow, which is why the loop ends on every graph |
| `Topology.KahnStep` | core/workflow_engine.py:189-194 | each turn of the loop keeps degrees, queue and order consistent |
| `Topology.KahnRuns` | core/workflow_engine.py:188-195 | from any consistent point the loop ends in a complete order |
| `Topology.OrderSound` | core/workflow_engine.py:180-195 | the order has no repeats, every listed node comes after all its predecessors, and every omitted node has an omitted predecessor |
| `Topology.SourcesComeFirst` | core/workflow_engine.py:186 | nodes without predecessors come first, in the order in which they were added |
| `Topology.WalkGoesForward` | core/workflow_engine.py:180-195 | any walk into a listed node goes strictly forward through listed nodes |
| `Topology.WalkBack` | core/workflow_engine.py:180-195 | from an omitted node one can walk back through nodes for any number of steps |
| `Topology.OmittedExactlyBehindCycles` | core/workflow_engine.py:180-195 | a node is omitted exactly when it lies on a cycle or can be reached from one |
| `Topology.AcyclicListsEveryNode` | core/workflow_engine.py:180-195 | all nodes are listed exactly when the graph has no cycle |
| `Workflow.DAGWorkflow.constructor` | core/workflow_engine.py:161-165 | a workflow starts with an empty, valid graph |
| `Workflow.DAGWorkflow.AddNode` | core/workflow_engine.py:167-170 | a new id goes to the end, a known id only changes its node; the graph stays valid |
| `Workflow.DAGWorkflow.AddEdge` | core/workflow_engine.py:172-178 | refused unless both ends are nodes; otherwise both edge lists grow by this edge, parallel edges kept, and the graph stays valid |
| `Workflow.DAGWorkflow.TopologicalOrder` | core/workflow_engine.py:180-195 | the loop computes the order that `Topology` is about |
| `Workflow.DAGWorkflow.CountInEdges` | core/workflow_engine.py:182-185 | every node's degree is its number of incoming edges |
| `Workflow.DAGWorkflow.ReadyNodes` | core/workflow_engine.py:186 | the first queue holds the nodes of degree zero in insertion order |
| `Workflow.DAGWorkflow.RelaxAll` | core/workflow_engine.py:191-194 | one pass over the successors computes the specified degrees and queue |
| `Workflow.DAGWorkflow.RunWorkflow` | core/workflow_engine.py:229-319 | a call from any stored record, with any node failing, suspending or dying, gives the specified outcome, executions and record, and makes exactly the specified saves |
| `Workflow.DAGWorkflow.ExecuteNodes` | core/workflow_engine.py:273-319 | the node loop, with every record it saves, in order |
| `Workflow.StateStore.SaveState` | l3_node/local_memory.py:152-165 | a save replaces the record of its id and no other |
| `Workflow.DAGWorkflow.Persist` | core/workflow_engine.py:197-227 | a record is saved under the workflow's own id |
| `Workflow.DAGWorkflow.InjectAndResume` | core/workflow_engine.py:336-389 | refused unless suspended; otherwise the decision is saved, if JSON has a form for it, and the run resumes |
| `Workflow.SanitizeFaithful` | core/workflow_engine.py:430-438 | saving keeps a value exactly when it is JSON already and always yields JSON; a tuple becomes the list of its items, a foreign object its text |
| `Workflow.SavedAtEveryDepth` | core/workflow_engine.py:430-438 | at every depth saving turns a tuple into a list and a foreign object into its text, and keeps keys, lengths and everything else |
| `Workflow.StorableExactly` | l3_node/local_memory.py:152-165 | a value can be written to JSON as it is exactly when no foreign object is anywhere inside it |
| `Workflow.SanitizeAllFaithful` | core/workflow_engine.py:430-438 | the same for a whole context |
| `Resume.ReferenceDecided` | core/workflow_engine.py:374-387 | a decision at a node changes nothing before that node and replaces an earlier one for it |
| `Resume.NodesFollowReference` | core/workflow_engine.py:273-319 | from any node on, a run ends in the reference context or frozen at a node with exactly the nodes before it completed |
| `Resume.ResumeStarts` | core/workflow_engine.py:256-268 | a resume starts at the frozen node, with the saved context and completed nodes |
| `Resume.ResumeFollowsReference` | core/workflow_engine.py:229-334 | a resume continues as the uninterrupted run would |
| `Resume.FirstRunOnTrack` | core/workflow_engine.py:229-319 | a first run ends finished, frozen, or not begun if it died at once, on the reference |
| `Resume.PerformKeepsOnTrack` | core/workflow_engine.py:229-389 | every further run, resume or injected decision keeps the workflow on the reference |
| `Resume.ResumesAmountToOneRun` | core/workflow_engine.py:197-389 | over any graph and any history of calls that fail, are suspended, inject decisions, or die before their first node, the workflow ends in the context of one uninterrupted run with the decisions put in just before their nodes; each node succeeds once, in order; until then the record holds a prefix of the order and its next node |
| `Resume.NodeSavesAreGood` | core/workflow_engine.py:273-319 | every record saved inside a call names a prefix of the order as completed, with the reference context there |
| `Resume.EveryRecordIsAPrefix` | core/workflow_engine.py:197-389 | over any such history, every record saved at any moment names a prefix of the order, holds the reference context there, and names no node or the next one |
| `Resume.UninterruptedRun` | core/workflow_engine.py:273-319 | when nothing fails, each node is given the running context and its result is merged into that; the outcome is the last context, every node is executed once in order |
| `Resume.ReferenceContexts` | core/workflow_engine.py:273-319 | the reference is that chain of contexts, with each decision put in just before its node |
| `Resume.HistoryFollowsContexts` | core/workflow_engine.py:197-389 | a finished history has the last context of that chain as its result; an interrupted one has saved the context its next node is to be given, with the nodes executed so far as completed |
| `Resume.WaitingTakesDecisions` | core/workflow_engine.py:290-371 | after an interrupted call a decision is accepted if and only if that call waits for one at a node with an id; the record names the node and holds the context it saw |
| `Resume.ResumeContextExact` | core/workflow_engine.py:214-216 | the frozen context survives saving exactly when it is JSON |
| `Resume.DecisionArrives` | core/workflow_engine.py:374-389 | the suspended node resumes with the decision under "_human_decision" exactly when JSON has a form for it, and else with the saved context as it was, an earlier decision included |
| `Resume.KilledRunStartsOver` | core/workflow_engine.py:256-271 | after a killed call the next one starts where it did exactly if nothing had succeeded in it (or it had itself begun anew); otherwise at the first node with nothing completed |
| `Resume.OtherIdStartsOver` | core/workflow_engine.py:223-252 | a call under another id than the workflow's leaves that id's record as it was until it finishes, so the next call starts where it did |
| `EventQueue.OmniSensoryBus.constructor` | core/event_bus.py:169-180 | a start finds the rows of the table and has no actors |
| `EventQueue.OmniSensoryBus.PersistInput` | core/event_bus.py:81-108 | an input becomes a pending row at the end |
| `EventQueue.OmniSensoryBus.SelectPending` | core/event_bus.py:211-219 | the pending row of lowest id is selected, if there is one |
| `EventQueue.OmniSensoryBus.ClaimSelected` | core/event_bus.py:219-226 | the row moves to processing if still pending; the dispatcher goes on either way |
| `EventQueue.OmniSensoryBus.SubmitClaimed` | core/session_manager.py:73-106 | the event goes to the end of its session's queue, in a new actor if there is none |
| `EventQueue.OmniSensoryBus.TakeOrTimeOut` | core/session_manager.py:38-54 | an idle actor takes its first event, or stops for good if it has none |
| `EventQueue.OmniSensoryBus.FinishCurrent` | core/event_bus.py:317-330 | the event ends and its row is marked done, unless that update fails |
| `EventQueue.StepKeepsInv` | core/event_bus.py:195-240 | every step keeps claimed rows a prefix of the table, each with exactly one session, and every session first in, first out |
| `EventQueue.RunKeepsInv` | core/event_bus.py:195-240 | so does every run, restarts included |
| `EventQueue.SessionsAreFifo` | core/session_manager.py:38-58 | in every interleaving a session starts a prefix of its dispatched events, in increasing row id, one at a time |
| `EventQueue.RowsAreConserved` | core/event_bus.py:195-240 | every row is pending, in the dispatcher's hands, or with exactly one session in exactly one of queue, progress and past; only finished rows are marked done |
| `EventQueue.OneStageOnly` | core/session_manager.py:38-58 | an event handed to a session is queued, in progress or finished, never two of them |
| `Dispatch.HandsOutExactly` | core/session_manager.py:84-106 | a step hands a row out exactly when the row is put at the end of what some session has been handed |
| `Dispatch.SingleDispatcherHandsOnce` | core/event_bus.py:211-235 | one dispatcher hands every row out at most once over a whole run, restarts included |
| `Dispatch.TwoDispatchersHandTwice` | core/event_bus.py:219-235 | with two or more a row can be handed out twice |
| `Dispatch.HandedOnceIffOneDispatcher` | core/event_bus.py:219-235 | at most once over all runs, restarts included, if and only if there is one dispatcher |
| `Sessions.RunRoutes` | core/session_manager.py:73-106 | in every run, with any dispatchers and restarts, an actor only gets inputs of its session: those with its stripped id, or without one those of its source and chat |
| `Sessions.OneActorPerSession` | core/session_manager.py:73-106 | two inputs of one session are never with different actors; two with session ids are with one actor only if these are equal |
| `Sessions.SessionIsSerial` | core/session_manager.py:38-106 | with one dispatcher an input is started only when all earlier ones of its session, handed over in this process life, are finished; without a restart all earlier ones have been handed to the same actor |
| `Sessions.DispatcherTurn` | core/event_bus.py:195-240 | one turn of the dispatcher marks the first pending row and puts it at the end of its session's queue, in a live actor if there was none, and changes nothing else |
| `Sessions.SessionWorksOff` | core/session_manager.py:38-58 | a live session not at work serves its whole queue in order, one turn per input, touching no other session |
| `Sessions.AllFinishedExactly` | core/event_bus.py:317-330 | and that marks exactly the rows of its queue as done |
| `Sessions.StopsOnlyWhenIdle` | core/session_manager.py:41-54 | an actor stops only by its idle time, with nothing in progress and nothing queued, and never starts again by itself |
| `EventQueue.StatusOnlyAdvances` | core/event_bus.py:219-321 | a status never goes back, from any state, with any number of dispatchers |
| `EventQueue.RunHeldAreClaimed` | core/event_bus.py:219-235 | whatever a dispatcher or session holds has been claimed before |
| `EventQueue.StatusMovesOneStep` | core/event_bus.py:219-321 | in every reachable state a step leaves a status alone, claims a pending row or finishes one being processed; nothing goes from pending straight to done |
| `EventQueue.TimedOutSessionIsStuck` | core/session_manager.py:48-106 | a timed-out actor never starts another event while its queue keeps growing |
| `EventQueue.RestartAbandonsClaimed` | core/event_bus.py:169-219 | a restart abandons exactly the rows no longer pending |
| `EventQueue.AbandonedForGood` | core/event_bus.py:211-219 | an abandoned row is never handed out again and keeps its status |
| `EventQueue.EveryStepIsAServerStep` | core/session_manager.py:38-106 | every step of the system is, for each session, a step of one sequential server |
| `EventQueue.RunsRefineServers` | core/session_manager.py:38-106 | every run between restarts is, for each session, a run of that server |
| `SmokeScheduler.CronThinker.SaveBiosSettings` | core/cron_thinker.py:374-416 | given fields are clamped and saved, others kept |
| `SmokeScheduler.CronThinker.FeedAnnouncement` | core/cron_thinker.py:1354-1515 | ignored, past, duplicate or registered exactly in the cases told; a registered job lies in the future and is persisted |
| `SmokeScheduler.CronThinker.AddRow` | core/cron_thinker.py:957-970 | a row is added unless its day has one |
| `SmokeScheduler.CronThinker.RemoveRow` | core/cron_thinker.py:981-989 | all rows of the day go, the others stay in order |
| `SmokeScheduler.CronThinker.RunDueJob` | core/cron_thinker.py:1485-1493 | a due job fires unless it is more than the grace time late; either way it leaves the scheduler |
| `SmokeScheduler.CronThinker.EndCallback` | core/cron_thinker.py:1462-1483 | the end of a callback removes the day's job and its rows |
| `SmokeScheduler.CronThinker.RestorePersistedJobs` | core/cron_thinker.py:1242-1351 | future rows become jobs unless there is one, and all other rows are dropped |
| `SmokeScheduler.SettingsStayInRange` | core/cron_thinker.py:339-416 | whatever is saved, settings stay in range |
| `SmokeScheduler.SavedExactly` | core/cron_thinker.py:374-416 | a saved number in its range is the one used, one outside counts as the nearest end, and what is not given stays |
| `SmokeScheduler.RunTimeOnItsDay` | core/cron_thinker.py:474-480 | a job runs on the chosen day at the chosen minute, to the second; different days run a day or more apart |
| `SmokeScheduler.StepKeepsFresh` | core/cron_thinker.py:1242-1515 | every step keeps jobs later than past firings of their day |
| `SmokeScheduler.FiringsStrictlyLater` | core/cron_thinker.py:1242-1515 | over any run of announcements, settings changes, firings, misfires and restarts a day fires again only for a strictly later run time |
| `SmokeScheduler.FiringsPunctual` | core/cron_thinker.py:1485-1493 | no firing is early or more than the grace time late |
| `SmokeScheduler.DueJobFires` | core/cron_thinker.py:1485-1493 | a due job the scheduler gets to within an hour fires with its run time, later it never does, before it is due nothing happens |
| `SmokeScheduler.AnnouncedJobFires` | core/cron_thinker.py:1354-1515 | an announcement accepted in time leads to a firing at the announced time exactly if the scheduler gets to it within the hour |
| `SmokeScheduler.RunKeepsTimed` | core/cron_thinker.py:1242-1515 | with unchanged timing all run times anywhere are those of the settings |
| `SmokeScheduler.EachDayFiresOnce` | core/cron_thinker.py:1242-1515 | with unchanged timing every day fires at most once, across all restarts |
| `SmokeScheduler.RestoredIsFirstFuture` | core/cron_thinker.py:1253-1330 | a restore gives each day without a job the run time of its first future row |
| `SmokeScheduler.JobSurvivesExactly` | core/cron_thinker.py:1242-1351 | a job survives a restart at its run time exactly when that is its day's first future row |
| `SmokeScheduler.RestartedJobFires` | core/cron_thinker.py:1242-1330 | and so does a job read back after a restart |
| `SmokeScheduler.CallbackClearsDay` | core/cron_thinker.py:1462-1483 | the end of a callback leaves neither job nor row of its day, and everything of other days |
| `SmokeScheduler.RunKeepsPersisted` | core/cron_thinker.py:957-1515 | with unchanged timing every job still to come keeps its row, wherever restores fall |
| `SmokeScheduler.FutureJobsSurvive` | core/cron_thinker.py:1242-1515 | with unchanged timing no job still to come is lost in a restart, second restores on a live scheduler included |
| `SmokeScheduler.MissedThenReannouncedIsLost` | core/cron_thinker.py:957-962 | with a settings change a job still to come can be lost in a restart |
| `Versions.ParseVersion` | core/sync_daemon.py:68-81 | the loops give the first three parts, unreadable or missing ones as zero |
| `Versions.DigitsRead` | core/sync_daemon.py:76 | every number in decimal reads as that number |
| `Versions.RenderedVersionParses` | core/sync_daemon.py:68-81 | three dotted strings of digits, as in "1.2.3" and "1.2.3-beta", mean their three numbers, whatever follows a dash |
| `Versions.RenderedCompare` | core/sync_daemon.py:84-94 | rendered versions compare as their numbers do: major before minor before patch, whatever the suffixes |
| `Versions.UnreadablePart` | core/sync_daemon.py:75-79 | a part with anything but digits, underscores and a sign in it counts as zero |
| `Versions.SignedExactly` | core/sync_daemon.py:75-79 | one sign may stand before the digits of a part |
| `Versions.CompareIsPreorder` | core/sync_daemon.py:84-94 | comparison is a total preorder, and equal exactly on equal versions |
| `CloudSync.MergeManifests` | core/sync_daemon.py:178-192 | the nested loops compute the merge the lemmas are about |
| `CloudSync.MergeItem` | core/sync_daemon.py:183-191 | one item is ignored, appended, or replaces the older one in its place |
| `CloudSync.FirstSeenExact` | core/sync_daemon.py:183-185 | the ids listed are exactly the non-empty ids of the items |
| `CloudSync.MergeKeepsWinners` | core/sync_daemon.py:178-192 | one item per id, ids in first-seen order, each the first among those of highest version |
| `CloudSync.MergeKeepsNewest` | core/sync_daemon.py:178-192 | every item kept by the program's own merge has a strictly higher version than all items of its id before it, and none after it has a higher one |
| `CloudSync.MergeKeepsEveryId` | core/sync_daemon.py:178-192 | every id that stands in a manifest is kept once |
| `CloudSync.MergeIncrementally` | core/sync_daemon.py:178-192 | merging a merged list with further tenants equals merging everything at once; merging twice changes nothing |
| `CloudSync.CloudSyncDaemon.DiffManifestVsLocal` | core/sync_daemon.py:251-334 | the loop lists the items to download in manifest order |
| `CloudSync.CloudSyncDaemon.RunSyncCycle` | core/sync_daemon.py:613-640 | the planned downloads happen one after the other, each failing or not on its own |
| `CloudSync.DiffExact` | core/sync_daemon.py:276-334 | the plan holds exactly the eligible, outdated items, never a permanently uninstalled one |
| `CloudSync.DiffInOrder` | core/sync_daemon.py:274-334 | the plan is in the order of the manifest, part by part |
| `CloudSync.TierExactly` | core/sync_daemon.py:278-306 | which of the three places an item goes to: untyped items and skills, "L3_LOCAL" MCPs in whatever case, other MCPs |
| `CloudSync.PlanExactly` | core/sync_daemon.py:251-334 | an item is downloaded if and only if it has an id, a URL and a known type, is not uninstalled for good, and at its place nothing is installed, or the metadata is unusable, or URL, missing version or a strictly higher version call for it |
| `CloudSync.CycleTouchesPlanOnly` | core/sync_daemon.py:365-532 | however downloads end, everything outside the plan is left alone |
| `CloudSync.CycleStores` | core/sync_daemon.py:411-523 | at its place a download leaves its own URL and version, or what its failure left, whatever the other downloads do |
| `CloudSync.NextDiffExactly` | core/sync_daemon.py:251-334 | over distinct ids, and however the downloads end, the next diff holds exactly the planned items whose failed download left them outdated or whose URL was rewritten |
| `CloudSync.StandardIsLawful` | core/sync_daemon.py:266-272 | the update rule has the three laws the results on cycles rest on: what is up to date has the item's URL, what was just stored is up to date exactly under its own URL, and fetching another outdated item of that URL does not make an item outdated |
| `CloudSync.NoDowngradeUnderOneUrl` | core/sync_daemon.py:266-272 | under one URL an installed item is replaced if and only if that gives it a strictly higher version |
| `CloudSync.CycleConverges` | core/sync_daemon.py:251-334 | over distinct ids, after a cycle of successful downloads the next diff is empty if and only if rewriting left all planned URLs alone |
| `CloudSync.MergedCycleConverges` | core/sync_daemon.py:178-249 | a merged manifest has distinct ids, so one cycle is enough if and only if rewriting left all planned URLs alone |
| `CloudSync.ConflictingUrlsNeverSettle` | core/sync_daemon.py:219-235 | an unmerged manifest naming one place with two URLs always leaves something to download |
| `CloudSync.AgreeingUrlsSettle` | core/sync_daemon.py:251-334 | if the URLs for each place agree and nothing is rewritten, at most as many cycles as there are planned items leave nothing to download |
| `CloudSync.RewrittenStaysDue` | core/sync_daemon.py:122-144 | a planned item whose URL is rewritten is planned again after every cycle |
| `CloudSync.SettlesExactly` | core/sync_daemon.py:613-640 | for any manifest and any rewriting, some number of cycles with successful downloads leaves nothing to download if and only if no two eligible entries for one place have different URLs and no item planned at the start has its URL rewritten |
| `LeaderLease.RedisManager.constructor` | core/redis_manager.py:14-15 | at first nobody holds the key |
| `LeaderLease.RedisManager.TryAcquireLock` | core/redis_manager.py:41-54 | set if absent with an expiry; yes without a client, no on an error, whether or not the command took effect |
| `LeaderLease.RedisManager.ReleaseLock` | core/redis_manager.py:57-73 | deleted only for the holder's value |
| `LeaderLease.HeldUntilExpiry` | core/redis_manager.py:41-54 | while the key is held an attempt succeeds exactly when it has no client |
| `LeaderLease.AcquisitionsApart` | core/redis_manager.py:41-73 | in any mixture of nodes with and without a client: after an acquisition through Redis whose value is not released, an attempt inside its time to live succeeds exactly when it has no client |
| `LeaderLease.ReleaseFreesExactly` | core/redis_manager.py:57-73 | after a release on a working Redis the next attempt succeeds if and only if the lease has run out or the release was the holder's; otherwise the holder keeps the key |
| `LeaderLease.TakenAndReleased` | core/redis_manager.py:41-73 | at any point of a run, a lease taken and then released by its holder is free for the next attempt |
| `LeaderLease.LeaderTimesSpaced` | core/sync_daemon.py:824-866 | the times of heartbeats sent after an acquisition through Redis are at least one time to live apart |
| `LeaderLease.HeartbeatsPerWindow` | core/sync_daemon.py:824-866 | any window of length T holds at most T / TTL + 1 such heartbeats of all nodes together |
| `LeaderLease.TakenOver` | core/sync_daemon.py:824-866 | a held lease is taken over at most p after it has run out, if attempts at most p apart go on until then |
| `LeaderLease.NextLeaderComes` | core/sync_daemon.py:824-866 | with attempts at most p apart, consecutive heartbeats are at most TTL + p apart |
| `LeaderLease.LeaderFollows` | core/sync_daemon.py:824-866 | nobody leads only if the key stays held from before, and the last leader's lease outlasts the last attempt |
| `LeaderLease.NoClientNoExclusion` | core/redis_manager.py:47-49 | without a client every attempt succeeds |
| `StreamDelta.StreamDeltaNormalizer.FeedDelta` | core/stream_text_delta.py:40-82 | all branches of the three modes compute the specified piece and state |
| `StreamDelta.PieceExactly` | core/stream_text_delta.py:40-82 | in every mode a frame that starts with the remembered text is shown without it, and any other is shown whole |
| `StreamDelta.RememberedExactly` | core/stream_text_delta.py:40-82 | what is remembered next, and when the mode changes |
| `StreamDelta.SnapIsSuffixOfShown` | core/stream_text_delta.py:40-82 | on every stream, raw switching included, what is remembered is the end of what was shown |
| `StreamDelta.LockstepExactly` | core/stream_text_delta.py:16-82 | from any state, frame-by-frame agreement with the older function holds exactly for increments then cumulative frames |
| `StreamDelta.AgreesExactlyOnIncThenCum` | core/stream_text_delta.py:16-82 | the same for a fresh normaliser |
| `StreamDelta.StreamShownOnce` | core/stream_text_delta.py:40-82 | increments followed by cumulative frames are shown as exactly the whole text |
| `StreamDelta.IncrementsShownExactly` | core/stream_text_delta.py:40-82 | a stream of increments is shown in full if and only if none of them begins with the whole text so far |
| `StreamDelta.RepeatedTextIsLost` | core/stream_text_delta.py:55-59 | an increment beginning with all text so far is cut |
| `BumpAllocator.Linker.RustAlloc` | core/wasm_runner.py:236-244 | the top of this store's heap is rounded up and advanced; other stores stay |
| `BumpAllocator.Linker.RustRealloc` | core/wasm_runner.py:249-252 | the same pointer unless the block grows, then a new block |
| `BumpAllocator.Linker.RustAllocZeroed` | core/wasm_runner.py:254-255 | a zeroed allocation moves the heap as a plain one does |
| `BumpAllocator.BitByBit` | core/wasm_runner.py:242 | the mask operators of unbounded integers work bit by bit in two's complement |
| `BumpAllocator.MaskBounds` | core/wasm_runner.py:242 | masking takes away at most align - 1, for every alignment |
| `BumpAllocator.RoundUpIsLeastMultiple` | core/wasm_runner.py:242 | for a power of two the mask expression is the least multiple not below the pointer |
| `BumpAllocator.MaskMissesOthers` | core/wasm_runner.py:242 | for any other alignment pointers arbitrarily far up are misaligned |
| `BumpAllocator.AlignsExactlyPowersOfTwo` | core/wasm_runner.py:242 | all heap pointers come out aligned if and only if the alignment is a power of two |
| `BumpAllocator.BlocksAreSound` | core/wasm_runner.py:236-255 | over any requests with any sizes and alignments the blocks lie above the start, in order, without overlap, aligned for powers of two, and the heap grows by at most the sizes plus the worst padding |
| `BumpAllocator.StoresApart` | core/wasm_runner.py:229-241 | in any interleaving of requests of several stores each store is served as if it were alone |
| `BumpAllocator.FreshStoreBlocks` | core/wasm_runner.py:229-255 | in any interleaving the blocks of a fresh store are pairwise disjoint, aligned for powers of two, at or above 0x10000, within the bound of its own requests |
| `BumpAllocator.RepliesApart` | core/wasm_runner.py:236-255 | in any interleaving, of two requests of a store for new bytes the later is answered with a pointer behind the bytes of the earlier |
| `BumpAllocator.ReplyAligned` | core/wasm_runner.py:236-252 | each is aligned as asked, for powers of two, and for a fresh store at or above 0x10000 |
| `BumpAllocator.NothingAsked` | core/wasm_runner.py:237-252 | every other request leaves the heap alone; a block that is not to grow keeps its pointer, a request for nothing gets zero |
| `TaskToken.EncodedLength` | core/mcp_task_token.py:41-42 | the stripped encoding's length for every input |
| `TaskToken.EncodedChars` | core/mcp_task_token.py:41-42 | every encoded character is one of the alphabet's sixty-four |
| `TaskToken.UrlAlphabet` | core/mcp_task_token.py:41-42 | the alphabet is that of section 5 of RFC 4648 |
| `TaskToken.UrlIndexExactly` | core/mcp_task_token.py:45-47 | the decoder reads that alphabet, and the last two characters of the standard one |
| `TaskToken.EncodedGroup` | core/mcp_task_token.py:41-42 | the k-th three bytes and the k-th four characters are the same number of 24 bits |
| `TaskToken.EncodedRest` | core/mcp_task_token.py:41-42 | a rest of one or two bytes is filled up with zero bits into two or three characters |
| `TaskToken.PaddingRestored` | core/mcp_task_token.py:45-46 | the padding put back from the length modulo 4 is the padding that was stripped |
| `TaskToken.PaddingExact` | core/mcp_task_token.py:46 | for any length as many "=" as make it a multiple of four |
| `TaskToken.DecodedAsKnown` | core/mcp_task_token.py:45-47 | any text outside ASCII raises; otherwise characters the decoder does not know are skipped, after the padding has been put back |
| `TaskToken.DecodeInvertsEncode` | core/mcp_task_token.py:41-47 | decoding inverts encoding for every byte string |
| `TaskToken.DropFirstMcpExact` | core/mcp_task_token.py:64 | the first "mcp:" is cut out wherever it stands, and nothing else |
| `TaskToken.StandardIsLawful` | core/mcp_task_token.py:41-47 | encoded parts hold no dot and no white space, so joining, stripping and decoding fit together |
| `TaskToken.TokenParts` | core/mcp_task_token.py:85-90 | a token is taken apart as it was put together |
| `TaskToken.MintedTokenCarries` | core/mcp_task_token.py:50-71 | what a minted token carries: the normalised claims of version 1, issued now, and the MAC of exactly these bytes |
| `TaskToken.AcceptedExactly` | core/mcp_task_token.py:74-120 | any token is accepted if and only if it decodes to a body and the MAC of that body, and the claims are of version 1, not past their expiry and agree with what is asked; it is badly signed if and only if it decodes and the MAC is another, malformed if and only if it has no dot |
| `TaskToken.MintedTokenVerdict` | core/mcp_task_token.py:50-120 | the exact verdict on a minted token, for any verifying key, time and fields |
| `TaskToken.MintedTokenAcceptedExactly` | core/mcp_task_token.py:50-120 | for any lawful text form, the module's own included, accepted if and only if all normalised fields agree and the clamped lifetime of 30 to 600 seconds has not passed; lifetimes outside that range are clamped to its ends |
| `NoiseFilter.StdoutReader.OnChunk` | core/mcp_stdio_noise_filter.py:125-146 | a chunk completes lines, those that look like JSON are forwarded, the rest stays buffered |
| `NoiseFilter.StdoutReader.Forward` | core/mcp_stdio_noise_filter.py:128-146 | the loop forwards exactly the kept lines, in order |
| `NoiseFilter.LooksLikeExactly` | core/mcp_stdio_noise_filter.py:81-85 | a line is kept exactly when its first non-blank character is "{" or "[" |
| `NoiseFilter.ScanExact` | core/mcp_stdio_noise_filter.py:125-126 | splitting loses no character and leaves no newline in lines or tail |
| `NoiseFilter.ScanContinues` | core/mcp_stdio_noise_filter.py:120-126 | splitting may stop anywhere and go on with the tail |
| `NoiseFilter.FilterExact` | core/mcp_stdio_noise_filter.py:128-146 | each line is forwarded at its place or not, whatever the others are |
| `NoiseFilter.ChunkingIrrelevant` | core/mcp_stdio_noise_filter.py:116-146 | however the output is cut into chunks, the same lines are forwarded, those to keep among the complete lines of the whole text in order, and the same tail is kept; the reader keeps the JSON-looking ones |

## Left out

- Parsing of patch text by regular expressions, resolving and checking paths, and the optional syntax check of Python files: the model starts from parsed blocks with canonical paths.
- Targets inside `.patch_backups` (backups are a separate store here), undecodable bytes, translation of newlines on Windows when writing, and restoring writes that fail.
- `PatchStore.UndoSeriesRestores`: asks that within one patch no two existing targets with different texts share a backup name, and that ids are fresh; without the first it is false (`PatchStore.SharedBackupNameMixesFiles`).
- `Resume.ResumesAmountToOneRun`: nodes return updates and do not change the context in place before failing; node results and the initial context are JSON; the state store can be written; the process does not die after a node of the call has succeeded, for then the nodes start over (`Resume.KilledRunStartsOver`). Its death after the last node and before the record is deleted is not modelled. Signals pushed into a running workflow are not part of this model.
- Dictionaries with keys that are not strings in workflow contexts.
- Worker shutdown, `SessionManager.remove`, cancellation, and exceptions between claiming a row and submitting it other than the death of the process.
- Registration of a smoke job is one step: the moment between adding it to the scheduler and persisting it is not modelled. Likewise a restore reads and writes back the list in one step, and the end of a callback removes job and rows in one step; the code holds its lock separately for each part. Jobs are named by their maintenance day instead of the text derived from it.
- Mail polling, extraction of dates from announcements, and the audit log.
- Contents of packages, checksums, reloading and HTTP; a failed download may leave anything at its own place. Ids whose gateway file names collide with other ids, versions that are not strings, and numbers of more digits than `int()` accepts.
- URL rewriting is a parameter of the sync model, and upper-casing covers ASCII only.
- Redis itself beyond one expiring key, and the clock differences between nodes.
- Contents and bounds of WASM memory, reuse of store identities, and pointers beyond 32 bits: pointers are unbounded as in the host function.
- The MAC and the JSON codec of tokens are parameters with the law that written claims read back; number conversion errors on signed but malformed claims are not modelled.
- Decoding of a child's bytes to text, and parsing of the forwarded lines.

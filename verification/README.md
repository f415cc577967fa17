# Verified model of the tool host's protocols and text engines

This project models, in Dafny 4.11, the parts of the repository whose guarantees are hard to see from any
single function, and proves those guarantees for all inputs, all interleavings and all points of failure.

| file | what it models |
|---|---|
| `Lines.dfy` | byte-order mark, line-ending detection, normalization and restoration, `split("\n")` and `"\n".join` |
| `HunkRewriter.dfy`, `HunkSubstitution.dfy`, `PatchedFiles.dfy` | the multi-hunk rewriter, its reference meaning (simultaneous substitution), and what it means for whole files |
| `PatchParser.dfy`, `PatchRoundTrip.dfy`, `PatchGrammar.dfy` | the patch text parser, the printer it inverts, and the grammar it accepts, written out literally |
| `FileSystem.dfy`, `PatchCommitter.dfy` | a file system in which every operation may fail, and the multi-file commit with backups and rollback over it |
| `OperationJournal.dfy`, `JournalProtocol.dfy` | the table of dispatched operations, its transactions, and every interleaving of calls, futures, callbacks, prunes, closures and restarts |
| `StreamRetention.dfy` | one output stream kept as a frozen head and a rolling tail against the true stream, polling, and paging through what is kept |
| `Utf8.dfy`, `TextTruncation.dfy`, `FileReading.dfy` | UTF-8, cutting text at both ends, and reading a file page by page |
| `TaskStore.dfy`, `TaskProtocol.dfy` | tasks, owned jobs and window claims, under every interleaving of the atomic regions |
| `DesktopSession.dfy`, `DesktopInput.dfy` | arming and stopping desktop control, and the input events an action emits |
| `UploadTransfer.dfy` | a chunked upload and its commit |
| `SearchSession.dfy` | a progressive search and its pages |
| `CommandLine.dfy` | the launcher's argument quoting against the Windows backslash/quote splitting rule |
| `Wrappers.dfy`, `Bytes.dfy` | option and result values, octets |

`dafny verify dfyconfig.toml` checks the whole project.

How the models are built. Code that changes state in place is a class or a method with loops, proved against a
specification function or predicate; pure code is functions. Failures of the file system, the database, the
desktop and other threads are nondeterministic choices inside methods, or steps of a transition relation, so a
contract that holds after such a method holds wherever it fails. Ghost counts of what broke or was refused
keep the contracts from being met by always failing: where nothing broke, the operation did its work. The two protocols (`JournalProtocol`,
`TaskProtocol`) are step relations over which runs are sequences of states. The transactions in
`OperationJournal` have as postconditions the predicates that relation is made of; `TaskStore` keeps a ghost
history that is always a run, and its `End` lets other threads work between its regions.

Two places where the code does not do what its surroundings suggest, both kept as they are in the model:

* A hunk that only inserts is placed at line 0. If it is written before a hunk that replaces the first lines of
  the file, or before another insertion, the overlap check passes and the stable descending sort applies the
  two in written order, so an insertion ends up above the one written before it, and a replacement removes
  inserted lines instead of the file's own. `TieLosesReplacement` is the concrete case, `PatchedTextExact` says
  for every accepted patch when its text is right after all, judging by the tied hunks alone, and
  `SafeLayouts` says that only patches without a tie are right whatever text they insert.
* A claim on a window is admitted outside the transaction that stores it, so it may be stored for a task that
  has ended meanwhile. `EndedTaskHoldsClaim` is such a run. `StaleExactly` says for every run that an ended
  task holds a claim exactly when the claim was stored after the task's successful end had deleted its claims
  and nobody claimed the window since, and `StaleAtCommit` what decides it at the moment of the commit. A claim
  left behind hinders nobody: `CommitClaim` grants a window whose holder is no longer active.

A file whose lines end in a lone CR is read as if they ended in LF and written back with the ending detected,
which is LF; a patch therefore rewrites such a file, as `EndingsRoundTrip` and `EndingsSurvive` make exact.

Assumptions. Nobody else writes to the patched files during a commit, temporary and backup names are new and
are no target's path, and what interrupts a commit is an ordinary exception. A closed workflow never calls
`run` again. Results of operations are identified with their JSON text; its size, its failure and uncertainty
flags and the truncation notice are functions of it, as are SHA-256 digests of their data. Stream limits are
at least 1. Releases of keys and buttons succeed, and nothing arms a session while an action holds the
session's lock. Nobody removes or overwrites the target of an upload once it is there: after a commit that put
the target in place and then failed, a further commit would otherwise create it again. `claim_window` reads
the record of its task, then the fence, and inside its transaction the record of the task that holds the
window; these are three steps of their own, and a record only ever changes from active to ended.

## Model

| member | source | states |
|---|---|---|
| Lines.SplitOfJoin | coding_tools_mcp/patching.py:338-345 | splitting joined lines gives back exactly those lines, for any nonempty list of lines without a line feed |
| Lines.JoinOfSplit | coding_tools_mcp/patching.py:338-345 | joining what splitting produced gives the text back, for every text: the bijection the comment claims |
| Lines.StripBom | coding_tools_mcp/patching.py:438-439 | mark and rest together are the content, and the rest of an unmarked file does not begin with a mark |
| Lines.DetectsFirstBreak | coding_tools_mcp/patching.py:442-447 | CR LF is detected exactly when the first LF of the text is preceded by a CR |
| Lines.NormalizesEveryBreak | coding_tools_mcp/patching.py:450-451 | the two replacements in a row turn each CR LF, each lone CR and each lone LF into exactly one LF |
| Lines.UsesCrLfMeansPairs | coding_tools_mcp/patching.py:442-455 | "CR LF throughout" is that every CR is followed by LF and every LF preceded by CR |
| Lines.EndingsRoundTrip | coding_tools_mcp/patching.py:442-455 | normalizing and restoring the detected ending is the identity exactly on texts that use one ending throughout |
| HunkRewriter.ParseUpdateHunk | coding_tools_mcp/patching.py:400-423 | the loop computes the line-by-line reading `ParseHunk`, errors included, which the next four rows determine |
| HunkRewriter.ParseHunkAccepts | coding_tools_mcp/patching.py:403-423 | a hunk is accepted exactly when each of its lines is; then its two sides consist of its own lines |
| HunkRewriter.ParseOfSpelledHunk | coding_tools_mcp/patching.py:403-423 | however the edits of a hunk are spelled, empty context lines and end-of-file notes included, the two sides are the ones the edits describe |
| HunkRewriter.AcceptedLineSpells | coding_tools_mcp/patching.py:403-423 | a line is accepted exactly when it is one of those spellings |
| HunkRewriter.OtherSpellings | coding_tools_mcp/patching.py:403-411 | in any hunk an empty line stands for a space, and the end-of-file note for nothing |
| HunkRewriter.ParseOfRenderedHunk | coding_tools_mcp/patching.py:403-423 | rendering edits as marked lines and parsing them yields the old and the new side the edits describe |
| HunkRewriter.FindSubsequenceAll | coding_tools_mcp/patching.py:426-435 | the result lists exactly the places where the needle occurs, in ascending order; an empty needle gives line 0 |
| HunkRewriter.LocateIsUniqueMatch | coding_tools_mcp/patching.py:348-377 | a hunk is located exactly when its old side occurs in one place only, and then at that place |
| HunkRewriter.WhyNotLocated | coding_tools_mcp/patching.py:350-375 | context not found means that the old side occurs nowhere, and ambiguous that it occurs in exactly the stated number of places |
| HunkRewriter.SortIsStable | coding_tools_mcp/patching.py:379-394 | the sort is a permutation, ordered in the direction asked for, and keeps the written order of ties both ways |
| HunkRewriter.ApplyUpdateHunks | coding_tools_mcp/patching.py:334-397 | the four loops compute `PatchedText` (which the lemmas below characterize), including which error is raised |
| HunkSubstitution.PlanFacts | coding_tools_mcp/patching.py:345-391 | a patch is accepted exactly when each hunk parses, matches once, and the matches in order do not overlap |
| HunkSubstitution.BadLineFirst | coding_tools_mcp/patching.py:346 | a bad line in any hunk is reported before anything else |
| HunkSubstitution.UnlocatedHunk | coding_tools_mcp/patching.py:347-376 | otherwise the first hunk that cannot be placed is reported, with its reason |
| HunkSubstitution.OverlapReported | coding_tools_mcp/patching.py:379-391 | and otherwise the first two neighbours that overlap |
| HunkSubstitution.BottomFirstOrder | coding_tools_mcp/patching.py:394 | the descending stable sort reverses the plan except for the hunks at line 0, which stay in written order |
| HunkSubstitution.BottomUpIsSubstitution | coding_tools_mcp/patching.py:393-396 | with distinct starts, splicing from the bottom equals replacing all blocks at once in one walk from the top |
| HunkSubstitution.BottomUpExact | coding_tools_mcp/patching.py:349-396 | for every accepted plan, splicing equals simultaneous substitution if and only if the tie at line 0 is harmless |
| HunkSubstitution.BottomUpLength | coding_tools_mcp/patching.py:349-396 | even where a tie goes wrong, the number of lines is that of the substitution |
| PatchedFiles.TieLosesReplacement | coding_tools_mcp/patching.py:349-394 | the concrete failing case: `+x` then `-a +A` on the text `a`, `b` is accepted and yields `A`, `a`, `b` |
| PatchedFiles.SafeLayouts | coding_tools_mcp/patching.py:349-396 | a plan comes out right for all inserted texts if and only if its starts are distinct |
| PatchedFiles.PatchedTextExact | coding_tools_mcp/patching.py:334-397 | the text of an accepted patch is the simultaneous substitution of its hunks if and only if the tie at line 0 is harmless |
| PatchedFiles.PatchIsSubstitution | coding_tools_mcp/patching.py:334-397 | if every hunk replaces a line, the file becomes mark, substituted lines and restored endings |
| PatchedFiles.AcceptedExactly | coding_tools_mcp/patching.py:346-391 | such a patch is accepted exactly when its hunks parse, match once each, and no two matches share a line |
| PatchedFiles.HunkOrderIsIrrelevant | coding_tools_mcp/patching.py:345-397 | permuting the hunks of such a patch changes neither acceptance nor the text produced |
| PatchedFiles.EndingsSurvive | coding_tools_mcp/patching.py:334-397 | the mark survives, and a file patched by any hunk uses the ending detected in it throughout, whatever mixture it used; so LF stays LF and CR LF stays CR LF |
| PatchedFiles.UnchangedHunks | coding_tools_mcp/patching.py:334-397 | hunks with equal sides give the content back character for character exactly when it uses one line ending |
| PatchParser.StripTrims | coding_tools_mcp/patching.py:290-310 | what is stripped is all the white space at either end and nothing else |
| PatchParser.ReadAddLines | coding_tools_mcp/patching.py:293-299 | the content of an added file is its run of lines without their plus signs; any other line is an error |
| PatchParser.ReadHunks | coding_tools_mcp/patching.py:314-325 | the hunks of an update are its run of lines grouped at the `@@` marks |
| PatchParser.ParsePatch | coding_tools_mcp/patching.py:276-331 | the index loop terminates on every input and computes the section-by-section reading `Parse` |
| PatchRoundTrip.ParseOfPrint | coding_tools_mcp/patching.py:276-331 | parsing the printed envelope of a printable operation list gives the list back |
| PatchRoundTrip.ParsedIsPrintable | coding_tools_mcp/patching.py:276-331 | everything the parser returns is printable, so printing and parsing it again changes nothing |
| PatchRoundTrip.PrintableExactly | coding_tools_mcp/patching.py:276-331 | the printable lists are exactly the lists that some patch text describes |
| PatchRoundTrip.BodyAcceptedExactly | coding_tools_mcp/patching.py:286-331 | the lines between the envelope parse exactly when a line-by-line automaton allows each where it stands |
| PatchGrammar.ParsesExactly | coding_tools_mcp/patching.py:276-331 | the parser accepts exactly the texts of the literal grammar, headed marks and any line breaks included, and gives each its meaning |
| PatchGrammar.GroupsOfChunks | coding_tools_mcp/patching.py:314-325 | the hunks of an update are the nonempty runs of lines between marks, whatever headings the marks carry |
| PatchGrammar.HeadingIsIgnored | coding_tools_mcp/patching.py:319-322 | anywhere among hunk lines the heading of a mark makes no difference |
| PatchGrammar.HeadingsDoNotMatter | coding_tools_mcp/patching.py:276-331 | two patch texts that differ only in the headings of their marks parse alike |
| PatchGrammar.ParsedHunkLines | coding_tools_mcp/patching.py:318-325 | no line of a parsed hunk begins with a mark or a section |
| PatchGrammar.UnrecognizedIsReported | coding_tools_mcp/patching.py:330 | after any items, the first line that fits nowhere is the error |
| PatchGrammar.MissingPlusIsReported | coding_tools_mcp/patching.py:294-296 | after any items, a line without a plus sign in an added file is an error |
| FileSystems.FileSystem.Replace | coding_tools_mcp/patching.py:119-130 | a rename moves the file over its destination, or fails without effect: for want of a file, because of a directory, or for no reason, which is counted |
| FileSystems.FileSystem.Unlink | coding_tools_mcp/patching.py:203-218 | a removal removes a file, never a directory, or fails without effect and with the same kinds of reasons |
| FileSystems.FileSystem.MakeTemp | coding_tools_mcp/patching.py:238-259 | unless something breaks, a temporary file under a name nothing had |
| PatchCommitter.AssertBaseline | coding_tools_mcp/patching.py:178-191 | no failure means the path is as staged, a conflict that it is not, and anything else that it could not be read |
| PatchCommitter.EnsureParent | coding_tools_mcp/patching.py:228-235 | on success all parents are directories and exactly the reported ones are new; on failure too nothing but some of the parents was created |
| PatchCommitter.PrepareFile | coding_tools_mcp/patching.py:238-251 | on success a new temporary file holds the new content and mode; otherwise no target is touched |
| PatchCommitter.ReserveBackupPath | coding_tools_mcp/patching.py:254-259 | on success a name nothing had, and the files as before |
| PatchCommitter.PreparedOne | coding_tools_mcp/patching.py:105-108 | staging one change keeps the state of the first phase |
| PatchCommitter.PrepareAll | coding_tools_mcp/patching.py:105-108 | wherever it stops the commit can be undone; on success each change with content has its own staged file |
| PatchCommitter.CheckAll | coding_tools_mcp/patching.py:110-111 | a conflict found by the first check is at a path that does not fit, as the files were before the commit |
| PatchCommitter.MovedAside | coding_tools_mcp/patching.py:117-120 | moving an original to its backup keeps every path undoable |
| PatchCommitter.BackedUpOne | coding_tools_mcp/patching.py:113-121 | one more original moved aside keeps the state of the second phase |
| PatchCommitter.BackUpAll | coding_tools_mcp/patching.py:113-121 | wherever it stops the commit can be undone; on success every changed path is empty |
| PatchCommitter.MovedIn | coding_tools_mcp/patching.py:130-131 | moving a staged file to its path keeps every path undoable |
| PatchCommitter.InstalledOne | coding_tools_mcp/patching.py:123-132 | one more installed file keeps the state of the third phase |
| PatchCommitter.InstallAll | coding_tools_mcp/patching.py:123-132 | wherever it stops the commit can be undone; on success every changed path holds its new content |
| PatchCommitter.RollBackPath | coding_tools_mcp/patching.py:202-214 | one path is restored, or something broke and its original is still in its backup; nothing else is touched |
| PatchCommitter.RolledBackOne | coding_tools_mcp/patching.py:202-214 | undoing one path keeps what is known of all settled and all pending paths |
| PatchCommitter.Rollback | coding_tools_mcp/patching.py:193-225 | unless something breaks all files are the original ones; in any case every original is in place or in its backup |
| PatchCommitter.Attempt | coding_tools_mcp/patching.py:104-132 | the body of the `try` either commits everything or stops where it can be undone |
| PatchCommitter.Commit | coding_tools_mcp/patching.py:95-170 | all or nothing wherever a step fails: normal return means every change is in and nothing else differs, an ordinary failure means every file has its old content and mode, and a failed rollback means something broke and each original is at its path or at its recorded backup; a conflict is a path that did not fit, and what nothing speaks against is committed if nothing breaks |
| OperationJournal.SelectResults | personal_mcp/operations.py:58-59 | the keys of all stored results, newest first |
| OperationJournal.DropOverBudget | personal_mcp/operations.py:60-64 | a result is kept exactly when it fits with all newer ones; what is kept fits the budget; no receipt goes |
| OperationJournal.OperationJournal.Prune | personal_mcp/operations.py:55-64 | exactly the results within the retention time are considered, and kept exactly as far as they fit; no receipt goes |
| OperationJournal.OperationJournal.Dispatch | personal_mcp/operations.py:134-151 | admission of a request not seen before: only at capacity room is made, and then by exactly the rows of other, closed owners |
| OperationJournal.OperationJournal.Reserve | personal_mcp/operations.py:123-151 | which of the eight answers a request gets, exactly when; every refusal leaves the table as it was |
| OperationJournal.OperationJournal.Complete | personal_mcp/operations.py:84-105 | an unsettled row becomes unknown, failed or completed by what the result reports, with the returned text, which is the result unless it is oversized; a settled row stays; only results are pruned |
| OperationJournal.RecoveryLosesNothing | personal_mcp/operations.py:37 | startup recovery keeps every receipt and leaves nothing under way, and commutes with the arrival of a late result |
| OperationJournal.GivingUpLosesNothing | personal_mcp/operations.py:79-105 | a result recorded after a caller gave up is recorded as if it had not, and giving up after a result changes nothing |
| OperationJournal.SecondCompletion | personal_mcp/operations.py:100-112 | caller and callback both complete an operation: after the one that settles it the other changes nothing |
| JournalProtocol.StepKeepsInv | personal_mcp/operations.py:79-168 | every step of every thread keeps the protocol's invariant |
| JournalProtocol.AtMostOnce | personal_mcp/operations.py:119-168 | in every run an operation is executed at most once |
| JournalProtocol.ExecutionFollowsCommit | personal_mcp/operations.py:149-153 | an execution comes after the commit of its running row, which is still there unless the owner was closed |
| JournalProtocol.NoReadmission | personal_mcp/operations.py:119-151 | after an execution neither pruning, nor reclaimed capacity, nor a restart lets the operation be dispatched again |
| JournalProtocol.OneResult | personal_mcp/operations.py:84-162 | all normal returns for one operation carry the same result, and a result stored after the first return is that one |
| JournalProtocol.ReceiptsAreFinal | personal_mcp/operations.py:79-105 | completed and failed are final, no row returns to running, and only closed owners lose rows |
| JournalProtocol.CapacityHolds | personal_mcp/operations.py:134-142 | the table never outgrows the record limit or its initial size |
| StreamRetention.StreamBuffer.Append | coding_tools_mcp/processes.py:166-207 | the buffer keeps the limit's head and tail of the longer stream, and reports exactly the bytes it lost |
| StreamRetention.StreamBuffer.Trim | coding_tools_mcp/processes.py:437-450 | the tail keeps its last bytes up to its limit and the offset follows |
| StreamRetention.AppendRetains | coding_tools_mcp/processes.py:166-200 | what an append makes of head and tail is head and tail of the longer stream |
| StreamRetention.AppendEvicts | coding_tools_mcp/processes.py:202-207 | the bytes newly in neither head nor tail are exactly the ones reported |
| StreamRetention.StreamBuffer.Poll | coding_tools_mcp/processes.py:233-243 | a poll hands out the stream from the cursor on except evicted bytes; delivered and omitted bytes add up to the cursor |
| StreamRetention.StreamBuffer.RetainedBytes | coding_tools_mcp/processes.py:159-164 | the total is retained bytes, each counted once, plus reported evictions, and retained bytes respect the limit |
| StreamRetention.StreamBuffer.RetainedSegments | coding_tools_mcp/processes.py:334-360 | the segments handed out agree with the true stream |
| StreamRetention.PageIsTrue | coding_tools_mcp/server.py:2983-3002 | every page is the true stream at its offset, as long as the limit between 1 and 524288 bytes and its segment allow, moves on, ends exactly at the end, and skips only evicted bytes |
| StreamRetention.PagingIsComplete | coding_tools_mcp/server.py:2983-3002 | following `next_offset` from 0 with any page sizes yields retained head then retained tail, no byte twice |
| StreamRetention.PagingABuffer | coding_tools_mcp/server.py:2983-3002 | a buffer is paged through to its whole stream while nothing was evicted, and else to its first and last bytes as the limit divides them |
| StreamRetention.FollowingIsFaithful | coding_tools_mcp/server.py:2983-3002 | pages taken while output is appended are slices of the final stream, in order and without repetition |
| StreamRetention.FollowGrowing | coding_tools_mcp/server.py:2983-3002 | a reader of a buffer to which chunks are appended between its calls gets slices of the final stream, in order and without repetition |
| Utf8.DecodeOfEncode | coding_tools_mcp/textutils.py:141-158 | decoding inverts encoding for every text, as in section 3 of RFC 3629 |
| Utf8.BoundaryIsPrefix | coding_tools_mcp/textutils.py:144-155 | an offset whose octet is no continuation is the encoded length of a prefix, and conversely |
| Utf8.ShortRuns | coding_tools_mcp/textutils.py:144-155 | within any four offsets there is a boundary |
| Utf8.CutAtBoundary | coding_tools_mcp/textutils.py:141-158 | cutting at a boundary gives the octets of a prefix and of the remaining suffix |
| TextTruncation.TruncateFromStart | coding_tools_mcp/textutils.py:141-148 | the longest prefix of whole characters that fits, at most 3 bytes short of the limit |
| TextTruncation.TruncateFromEnd | coding_tools_mcp/textutils.py:151-158 | the longest suffix of whole characters that fits, at most 3 bytes short of the limit |
| TextTruncation.FirstLines | coding_tools_mcp/textutils.py:65-91 | the most whole first lines within both limits, and which limit ended them |
| TextTruncation.TruncateTextHead | coding_tools_mcp/textutils.py:37-91 | a prefix within both limits, maximal in whole lines, with exact byte counts; a part of the first line only if it alone is too long |
| TextTruncation.LastLines | coding_tools_mcp/textutils.py:108-138 | the most whole last lines within both limits, or the end of a last line that alone is too long |
| TextTruncation.TruncateTextTail | coding_tools_mcp/textutils.py:94-138 | a suffix, up to a dropped final line feed, within both limits, maximal in whole lines, with exact byte counts |
| FileReading.SelectLines | coding_tools_mcp/server.py:1754-1787 | the page takes as many requested lines as the limits allow, or the beginning of a first line that exceeds them |
| FileReading.ReadFile | coding_tools_mcp/server.py:1736-1796 | which ranges are refused, and what the page and its continuation are for the range asked for by `end_line` or `max_lines` |
| FileReading.MaxLinesBounds | coding_tools_mcp/server.py:1749-1750 | with `max_lines` at most that many lines are asked for, exactly that many where the file has them |
| FileReading.PageAdvances | coding_tools_mcp/server.py:1790-1796 | the continuation is past the start and asks for exactly the lines not yet shown |
| FileReading.PagesCoverRange | coding_tools_mcp/server.py:1754-1827 | following `next_start_line` shows every requested line once and in order, in at most one page per line and one more |
| FileReading.PagesEqualRange | coding_tools_mcp/server.py:1754-1827 | the pages concatenate to the requested lines if none of them exceeds a page |
| FileReading.ReadToEnd | coding_tools_mcp/server.py:1754-1827 | following pages from any valid start terminates |
| TaskStore.TaskStore.SpawnOwned | bf_automation/task_store.py:158-172 | nothing is started for a task that is ending or not active; otherwise a job is started and listed, unless something breaks, which leaves no open job unlisted |
| TaskStore.TaskStore.CloseEach | bf_automation/task_store.py:137-142 | exactly the jobs that could not be closed stay listed and open |
| TaskStore.TaskStore.CloseJobs | bf_automation/task_store.py:136-145 | closing the jobs succeeds exactly when all closed and no hook failed, and otherwise both locks are free again |
| TaskStore.TaskStore.CleanUp | bf_automation/task_store.py:136-155 | the locked part of an end, while others claim windows: it retires the task, or something broke and the task stays active and fenced |
| TaskStore.TaskStore.End | bf_automation/task_store.py:120-156 | with other threads at work between its regions, an end leaves the task ended, unfenced and without jobs, or, if something broke, active, fenced and with its end lock free; only an inactive task is refused |
| TaskStore.TaskStore.CommitClaim | bf_automation/task_store.py:267-284 | the window is the claimant's afterwards exactly unless another task that is still active holds it |
| TaskProtocol.StepKeepsJobs | bf_automation/task_store.py:120-209 | every region keeps every open job listed with exactly one active task |
| TaskProtocol.EndedOwnsNothing | bf_automation/task_store.py:120-172 | once a task is marked ended it owns no job, every open job belongs to another active task, and this stays so |
| TaskProtocol.FenceHolds | bf_automation/task_store.py:95-172 | a fenced task gains no job and stays fenced until it is ended |
| TaskProtocol.FailedEndIsRetryable | bf_automation/task_store.py:120-156 | an end that fails at any point leaves the task active, fenced and free to be ended again |
| TaskProtocol.ClaimPassesOnlyFromLeaving | bf_automation/task_store.py:263-284 | a window passes to another task only if the task that claimed it last is ending or ended |
| TaskProtocol.ClaimsAreExclusive | bf_automation/task_store.py:263-284 | between claims of one window by two tasks the earlier one began to leave |
| TaskProtocol.StaleExactly | bf_automation/task_store.py:120-156 | in every run an ended task holds a claim exactly when it was stored after the successful end had deleted the claims and nobody claimed the window since |
| TaskProtocol.StaleAtCommit | bf_automation/task_store.py:263-284 | a claim is left behind exactly when at its commit the task was not active, or its end had deleted its claims and then succeeded |
| TaskProtocol.EndedTaskHoldsClaim | bf_automation/task_store.py:263-284 | the concrete run: a claim admitted before its task is ended and stored after |
| DesktopSession.Session.Stop | personal_mcp/desktop_console.py:105-111 | after a stop nothing begun under an earlier epoch is allowed |
| DesktopSession.Session.Authorize | personal_mcp/desktop_console.py:113-121 | which of the four answers an action gets, exactly when; want of arming stops the session, and with it everything begun under that epoch |
| DesktopSession.Session.LookUp | personal_mcp/desktop_console.py:91-103 | a session whose arming ran out is stopped when it is looked up |
| DesktopSession.Session.Arm | personal_mcp/desktop_console.py:239-244 | arming needs an open session and the right epoch; a closed session is never armed |
| DesktopSession.Session.Interfere | personal_mcp/desktop_console.py:91-121 | whatever other threads do, nothing becomes allowed that was not, and closed stays closed |
| DesktopSession.LiveOn | personal_mcp/desktop_console.py:105-121 | over the life of a session, arming included, a closed session stays closed and unarmed and an epoch left behind never comes back |
| DesktopSession.RefusedForGood | personal_mcp/desktop_console.py:105-121 | an action refused for want of arming is never granted afterwards, whatever happens |
| DesktopInput.NativePoint | personal_mcp/desktop_native.py:380-387 | accepted coordinates are those within the preview; they land inside the captured rectangle, at the whole part of their scaled position |
| DesktopInput.CheckArguments | personal_mcp/desktop_native.py:449-472 | the argument checks made before any side effect accept exactly the acceptable actions |
| DesktopInput.CheckKeys | personal_mcp/desktop_native.py:460-467 | a shortcut is one to four distinct keys, all but the last of them modifiers and the last none |
| DesktopInput.EmitsFollows | personal_mcp/desktop_native.py:492-580 | each way an action may end emits a beginning of its script as far as input goes and leaves nothing held |
| DesktopInput.Input | personal_mcp/desktop_native.py:413-423 | input is emitted only right after a granted authorization, so at most one event comes late, and what is not emitted was refused |
| DesktopInput.PressAndRelease | personal_mcp/desktop_native.py:514-521 | wherever it fails, a pressed button is released at once |
| DesktopInput.ClickOnce | personal_mcp/desktop_native.py:504-521 | the four ways one click may end, its press always followed by its release |
| DesktopInput.PerformClick | personal_mcp/desktop_native.py:502-521 | whole clicks and one way a click may end, all of them on success |
| DesktopInput.EmitAll | personal_mcp/desktop_native.py:522-555 | typing and wheel steps emit a beginning of the intended events, all of them on success |
| DesktopInput.WheelTurns | personal_mcp/desktop_native.py:549-555 | scrolling turns the wheel by exactly the steps asked for along each axis, horizontally first |
| DesktopInput.PressKeys | personal_mcp/desktop_native.py:531-540 | the keys to be released cover every key that went down, in order |
| DesktopInput.PerformShortcut | personal_mcp/desktop_native.py:531-543 | whichever press or check fails, the keys tried come up in reverse order, which are the keys that went down and at most one more |
| DesktopInput.ShortcutEnds | personal_mcp/desktop_native.py:531-543 | releasing all keys tried, in reverse, leaves none held however many went down |
| DesktopInput.PerformDrag | personal_mcp/desktop_native.py:556-580 | a drag ends before its press, or emits press, some positions and release, all positions on success |
| DesktopInput.DragStaysBetween | personal_mcp/desktop_native.py:568 | every position is the point of the straight line rounded to the nearest, lies between the ends, and the last one is the end |
| DesktopInput.Act | personal_mcp/desktop_native.py:435-589 | after a stop at most one more input event; exactly which events, releases included, an action may have emitted; all of its script unless something refuses it; nothing held; and not accepted means nothing emitted |
| DesktopInput.Execute | personal_mcp/desktop_console.py:238-261 | an action is refused, with nothing emitted, exactly when it is not allowed; one that fails leaves the session unarmed, one that succeeds extends its arming; no key or button stays down |
| UploadTransfer.Transfer.UploadChunk | personal_mcp/file_transfer.py:408-440 | which chunks are accepted and why the others are refused; a failed or part-way write, or a failed read, changes nothing accepted |
| UploadTransfer.Transfer.Commit | personal_mcp/file_transfer.py:442-484 | the target only ever changes from absent to the whole upload with its declared size and digest; every refusal has its reason; repeats return the same receipt |
| UploadTransfer.UploadAll | personal_mcp/file_transfer.py:408-484 | over any sequence of chunk and commit calls, with others at work in the destination, the target is created at most once, as the concatenation of the accepted chunks, and all successful commits return one receipt |
| SearchSession.Search.Collect | personal_mcp/search.py:95-128 | a record is appended exactly when it respects all three limits, what else ends the search and why, and which lines count as failures |
| SearchSession.Search.Timeout | personal_mcp/search.py:89-93 | a running search becomes partial for its time limit, any other stays as it is |
| SearchSession.Search.Stop | personal_mcp/search.py:196-200 | a running search becomes stopped, any other stays as it is |
| SearchSession.Search.Finish | personal_mcp/search.py:144-148 | a running search completes exactly when nothing failed and the exit code is 0 or 1 |
| SearchSession.CollectAll | personal_mcp/search.py:95-148 | a search completes only with all the matches of its output, in order, and nothing wrong, and fails only for a bad line, a bad exit code or a failed clean-up; cut short it holds the first matches |
| SearchSession.Search.Read | personal_mcp/search.py:172-189 | which cursors and limits are refused; a page holds as many next records as both limits allow, and at least one if there is one |
| SearchSession.PagesArePrefix | personal_mcp/search.py:172-189 | pages followed while the search goes on concatenate to a prefix of the results |
| SearchSession.PagingIsComplete | personal_mcp/search.py:172-189 | when a page says there is no more, the search has ended and the pages are its results |
| SearchSession.PagingEnds | personal_mcp/search.py:172-189 | an ended search is read to its end in at most one page per record and one more |
| SearchSession.FollowSearch | personal_mcp/search.py:172-189 | a reader that follows the pages while the collector, the timer and stops are at work has a prefix of the results, and all of them once a page says there is no more |
| CommandLine.Quote | packaging/Launcher.cs:48-58 | the counting loop computes the recursive quoting `Quoted` |
| CommandLine.ReadBeforeQuote | packaging/Launcher.cs:48-58 | the splitting rule: 2n backslashes before a quote give n and a delimiter, 2n + 1 give n and a literal quote |
| CommandLine.QuotedIsReadBack | packaging/Launcher.cs:48-58 | every string, whatever it contains, is read back from its quoted form |
| CommandLine.SplitOfJoined | packaging/Launcher.cs:124-132 | splitting space-joined quoted values and plain words gives back exactly that list |
| CommandLine.ForwardedOne | packaging/Launcher.cs:125-129 | an argument is passed on unless it is one of the launcher's two switches |
| CommandLine.ForwardedConcat | packaging/Launcher.cs:125-129 | each argument is judged alone, and the order is kept |
| CommandLine.BuildCommand | packaging/Launcher.cs:116-132 | the interpreter receives exactly the intended arguments, whatever paths and user arguments contain |

## Left out

- Real I/O, durability of directory entries, the database engine, threads and sockets: only their abstract effect (map updates, atomic transactions and regions, failure at any point).
- Created directories after a failed commit: the source tries to remove them and promises nothing.
- Interrupts that are no ordinary exceptions (`KeyboardInterrupt` skips the rollback), and programs that write to patched files during a commit.
- How patch operations are staged into file changes (path checks, move handling, reading baselines): mostly single-branch facts.
- HunkRewriter.SortIsStable: the library sort is an insertion sort here; only that it is a stable sort matters.
- The journal's `status` query and its schema upgrade, and request-id validation.
- JournalProtocol.AtMostOnce: says nothing about an owner that was closed and calls again, which the host excludes.
- StreamRetention.StreamBuffer.Append: one stream; standard output and standard error are two such buffers with the same code.
- StreamRetention.StreamBuffer.Poll: what is handed out is described before its truncation to `max_output_bytes`.
- Eviction of whole commands across the runtime and the accounting of starting commands in `exec_command`.
- Utf8.DecodeOfEncode: decoding is modelled for encoded text; which malformed sequences Python's decoder drops is not.
- FileReading.ReadFile: the file is its list of physical lines; binary detection, decoding errors and path checks are left out, and the page is the list of its parts.
- TaskStore.TaskStore.End: recovery of tasks of an earlier process is not modelled, and a token that is already in use cannot come up.
- DesktopSession.Session.LookUp: the map of sessions, its capacity and its secrets are left out; one session is followed.
- DesktopInput.Act: windows, frames, focus and hit tests are one check that may fail at any time; whether a given refusal was right is not modelled.
- Clipboard actions, screen capture and previews.
- UploadTransfer.Transfer.UploadChunk: base64 decoding is a parameter; ownership, capacity, cache files, markers and link checks are left out, and so are downloads.
- UploadTransfer.UploadAll: once the target is there, the others at work in the destination are taken not to remove or overwrite it; without that the source creates it again after a commit that failed late.
- SearchSession.Search.Collect: a line of output arrives already classified, and a record's encoded size is one of its fields; limits on the number of sessions and their release are left out.
- CommandLine.SplitOfJoined: the rule that two quotes in a row inside quotes stand for one is not modelled, since quoted output never contains such a pair there.
- HTTP and stdio transport, schemas, command policies, tunnels, windows and onboarding: foreign calls and pattern lists.

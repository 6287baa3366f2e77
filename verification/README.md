# git-rest, verified

git-rest serves a git clone over HTTP and keeps it in step with a remote that other
writers push to as well. This project models the parts of it where a mistake costs
data, and proves what they keep.

**The repository machine** (`Repository.dfy`, over `GitObjects.dfy`, `WorkingCopy.dfy`,
`Quarantine.dfy`, `PendingSet.dfy`, `PushBackoff.dfy`, `Coalescing.dfy`, `TaskPhase.dfy`,
`Environment.dfy`).
A clone is a branch tip, an index, the files, a possible merge in progress and a
remote-tracking ref; the remote is a branch and its rescue branches. A commit id is
modelled as the content it is a hash of: tree, parents and stamp. The class `Repository`
has one method for each method of the Go type and changes the state one git command at a
time. Before every command that talks to the remote any number of other clones may have
pushed; every command may fail before or after its effect; the process may die at any of
them (`Died`), so what a method ensures about disk and remote holds at each of its crash
points. `Run` is a whole life of the server: boots, requests, ticks, crashes, in any order.

**The merge of conflicted files** (`MarkerScanner.dfy`, `ScalarMerge.dfy`,
`PartitionedMerge.dfy`, `MergedText.dfy`, `MergeSwap.dfy`, `MergeExample.dfy`, `DeepMerge.dfy`,
`Text.dfy`): the marker scanner, the
frontmatter/body partition, the key merge with its counters and its duplicate guard, the
splice back into the file, the lines of the file that is written, the merge in the other
direction, and the recursive map merge. The YAML library is a parameter:
a function from a line to its key and integer value.

**Claim refs** (`ClaimLease.dfy`, `ClaimListing.dfy`): the compare-and-swap protocol at
the origin, the local mirror, and the listing with its fallbacks.

**The re-clone at start** (`Reclone.dfy`): the removal and the moves as steps that can be
cut anywhere.

Methods are proved against the functions beside them; what those functions are worth is
proved in lemmas.

## What is not true of the code

Some natural statements are false. The project keeps the code's behaviour and proves when
they do hold.

- A write acknowledged while a merge is still in progress can be lost: the next pull
  aborts that merge, which discards exactly the staged paths (`AbortDiscardsExactlyStaged`,
  example `StagedDuringMergeIsLost`). It takes a merge that was left in progress by a failed
  `merge --abort` or by a crash. The history variable `inMerge` has the paths acknowledged
  in the merge in progress; a commit of the merge empties it, and an abort moves the staged
  ones to `aborted`, where a path stays until it is next acknowledged. During such a merge a
  recovery's `git add -A` puts files into the same danger; they are in `swept`.
- A rescue commit has exactly the files that are not ignored, and the reset that follows
  writes every tracked path. So a rescue loses unsaved content exactly if its path is
  ignored and tracked, here or at the target (`RescueLosesExactly`, example
  `IgnoredEditIsLost`).
- A fast-forward or merge writes over a file that is ignored, not tracked here, and tracked
  upstream, in a clean tree and without a rescue (`FfLosesExactly`, `MergeLosesExactly`,
  `StopLosesExactly`, example `IgnoredFileIsOverwritten`). Clients can come to count on such
  a file: its first write is refused by `git add`, the same write again finds the file
  unchanged and is accepted (`RefusedThenAccepted`).
- A merge that was left in progress cannot always be aborted: git refuses if a staged path
  has a file that differs from the index, as after a second write whose `git add` was cut
  off (`StagedThenChangedCannotAbort`). From then on every pull ends as unrecoverable with
  nothing changed; the contracts of `RecoverRepoState` and `Pull` say exactly when.
- After a crash within a merge the recovery of untracked files can conclude the merge with
  the drafts of the conflicted files: exactly if some file is untracked
  (`DraftIsCommittedExactly`, example `CrashedQuarantineCommitsDraft`).
- A quarantine writes over a file that has its destination's name; that content survives
  exactly if it is in a commit already (`DestinationInUse`, example
  `DestinationInUseIsLost`). Such paths are in the history variable `overwritten`.
- Not every conflict can be settled or put aside. The last step of a quarantine,
  `git checkout HEAD -- <path>` (pkg/git/git.go:1898-1909), fails if HEAD does not have the
  path, as after a rename on the other side; by then the path is removed and its copy
  staged. If such a path is the only one, every pull fails; otherwise the rest is committed
  without it. `CanSettleExactly`, `AllToldExactly` and `CompletesExactly` say when each
  path, the lists and the merge come out, and `RenamedByTheirsIsDropped` is the input.
- A counter line is written anew as `key: number` (pkg/git/yaml_merge_resolver.go:803). A
  quoted YAML key can have line breaks, so this can bring in a marker line or a second
  closing delimiter: exactly if the key of such a counter has one (`MergedText.MergedFile`,
  examples `CounterKeyBringsMarker` and `CounterKeyClosesEarly`).
- An acknowledged write is staged exactly if it was staged before or is new on disk, since
  the unchanged-content check looks at the file and not at the index (`AcceptedIsStaged`,
  example `AcceptedButNotStaged`).
- The phase normalizer is idempotent exactly on documents with at most one alias line
  (`IdempotentIffAtMostOneAlias`, `TwoAliasesNeedTwoPasses`).
- With equal committer times the scalar merge is not commutative; `SwapKeepsChoice` says
  for which keys, and `EqualTimesKeepOurs` is an example.
- The recursive map merge is not associative (`NotAssociative`); `AssociatesExactly` says
  for which three maps it is.
- The comment of `quarantineDestPath` (pkg/git/git.go:592-603) promises
  `b.md.<ts>.md`; the code, and so the model, gives `b.<ts>.md`.

## Model

| member | source | states |
|---|---|---|
| Repository.Repository.Run | main.go:68-97 | Over any run of requests, ticks, crashes and reboots, with any command breaking anywhere and other clones pushing at will, branch and remote only gain history, and the last acknowledged content of every path is in the branch history, on a rescue branch of the remote, or in its file; while a merge is in progress a file that an abort would reset counts only if that content came in during the merge. Exempt are ignored paths, places of quarantine copies, and paths that were staged in a merge when it was aborted; for the last, and for files that depend on the merge, the last acknowledged write came while a merge was in progress, or after it a start of the process found a merge in progress, whose `add -A` swept the path up in it. If no command breaks and no merge is left over from before, there are none of those. |
| Repository.Repository.WriteFile | pkg/git/git.go:710-727 | A successful write records the normalized content as acknowledged; it loses nothing else and no history. It is refused for missing frontmatter exactly if the file exists, is a task file and the content has none. In a quiet clone `Stores` gives in full when it is accepted and the files, index, tip and remote afterwards. If nothing breaks and no merge of a retry is in the way, the answer is that of the coalescing model, or the race is lost, whatever others push. |
| Repository.Repository.WriteFileIfAbsent | pkg/git/git.go:738-758 | It is refused, changing nothing, if and only if the file exists; otherwise as a write of a new file. |
| Repository.Repository.WriteFileLocked | pkg/git/git.go:763-797 | The unchanged-content path and the frontmatter guard, the latter as an if-and-only-if on the request: nothing is lost whatever breaks, and the coalescing model is followed. |
| Repository.Repository.StoreFile | pkg/git/git.go:799-847 | Writing, staging, then committing and pushing or joining the pending set, as the configuration says. |
| Repository.Repository.CommitAndPush | pkg/git/git.go:819-847 | Success means that a commit of the branch has the content and, if there is a remote, that the remote has this branch; or that there was nothing to commit, with the content at the tip. |
| Repository.Repository.EnqueuePendingLocked | pkg/git/git.go:870-880 | The new pending set, with the first-seen time of a path that was pending already left alone. |
| Repository.Repository.FlushPendingLocked | pkg/git/git.go:923-999 | If nothing breaks there is a commit exactly if something differs from the tip or the tree is clean; it has the index as tree and is in the branch history, and the set is empty, also if the push then fails. Without a commit the set is kept. Nothing is lost. |
| Repository.Repository.FlushPendingIfDue | pkg/git/git.go:890-904 | A due set that can be committed ends empty with a commit if nothing breaks, also if the push fails; in a quiet clone it is also pushed. Unless the commit step fails nothing is left waiting beyond its bounds at the time of the decision; a set within its bounds is left alone. |
| Repository.Repository.DeleteFile | pkg/git/git.go:1076-1127 | Flushes first; only this path stops being acknowledged. In a quiet clone `Removes` gives in full when it is refused, in terms of the state before, and otherwise that the path is in none of files, index and tip, that every other path is as the flush leaves it, and that the remote has the tip. |
| Repository.Repository.RemoveAndCommit | pkg/git/git.go:1097-1127 | A path is removed exactly if git allows it, with the resulting tip, index and files, and success means that the remote has it; whatever others push, only a lost race can come on top. |
| Repository.Repository.PushWithRetry | pkg/git/git.go:409-434 | Success means remote tip = local tip. If nothing breaks and the histories are related, it fails only because a merge stopped on conflicts, a rescue name was taken, or the race was lost; if nobody else pushes the race is not lost, and a clone that is merely behind succeeds. A race error means five rejections, counted, each after the first owed to a further advance of the remote since the fetch before it, and waits of 1.5 to 3 seconds in all; at most one rescue. |
| Repository.Repository.PushAttempt | pkg/git/git.go:411-433 | One turn: what makes it repeat, give up or succeed; if nothing breaks and the histories are related a rejected push is followed by another turn unless a merge stopped or a rescue name was taken. |
| Repository.Repository.RetryPush | pkg/git/git.go:442-479 | After the fetch and merge the tip contains the remote branch unless it has advanced again; if nothing breaks it fails exactly if the merge stopped or the rescue name was taken. |
| Repository.Repository.RescueDirtyTree | pkg/git/git.go:2525-2578 | Nothing local changes unless the rescue push succeeded and captured every file that is not ignored; success leaves a clean tree at the reset target; if nothing breaks it fails only if the remote has a rescue branch of the chosen name. |
| Repository.Repository.ResetHard | pkg/git/git.go:2570-2572 | May only be called on a captured tree and towards a descendant of the tip; then everything at stake is in a commit, even if it is cut off. |
| Repository.Repository.MergeWithDirtyTreeRescue | pkg/git/git.go:1302-1318 | Rescues only a refused merge of a dirty tree, at most once, and without a refusal no tree is reset; success contains the upstream; if nothing breaks and the histories are related the merge is made or stops on conflicts unless the rescue name is taken; a failed rescue leaves no merge in progress unless this call's abort failed. |
| Repository.Repository.MergeUpstream | pkg/git/git.go:2423-2430 | What `git merge` of the upstream guarantees: ancestors kept, a refusal changes nothing, a clean tree with a common history is never refused, a conflict leaves a merge in progress with any stages at any paths outside the merged index, renames included. |
| Repository.Repository.ResolveModifyDelete | pkg/git/git.go:1434-1478 | A deletion on our side takes upstream's version, one on their side is accepted below `_conflicts/`, anything else is left alone. |
| Repository.Repository.StageSide | pkg/git/git.go:1496-1529 | One side of an unmerged path ends up in file and index, and the path is merged; a side without a version fails and changes nothing. |
| Repository.Repository.QuarantineOne | pkg/git/git.go:1820-1922 | It succeeds exactly if there is a file to copy and HEAD has the path; then HEAD's version is back and the copy with the markers is staged at the destination. Without a file nothing changes; without HEAD's version the path is gone and the copy is staged. Whatever breaks, nothing at stake is lost. |
| Repository.Repository.SettlePath | pkg/git/git.go:1679-1714 | The order of the dispatch: rule, keep, resolver, quarantine; it succeeds exactly if the turn of the path ends in one of them. |
| Repository.Repository.ResolveEachPath | pkg/git/git.go:1667-1716 | The loop has the effect of settling every path in turn; `resolved` and `quarantined` have, in order, the paths whose turn ended that way. |
| Repository.Repository.ResolveConflictPaths | pkg/git/git.go:1587-1622 | If no command breaks and no destination is in use, the merge is committed if and only if it completes (every unmerged path named, none stuck, at least one settled), with exactly the settled tree and both parents; in every case nothing is lost and no merge stays in progress unless an abort of this call failed. |
| Repository.Repository.Preflight | pkg/git/git.go:1595-1606 | It passes only safe paths and a directory without a file called `_conflicts`, and otherwise gives up before anything is written. |
| Repository.Repository.CommitAndPushMerge | pkg/git/git.go:1721-1755 | If nothing breaks there is a merge commit exactly if nothing is unmerged; it has the index as tree and both sides as parents; otherwise the merge is aborted. |
| Repository.Repository.ResolveConflictMerge | pkg/git/git.go:1540-1574 | The given paths are resolved: if nothing breaks and no destination is in use there is a merge commit exactly if the merge completes, with the settled tree; and if nobody else pushed success is exactly that. No named path, no merge left in progress. |
| Repository.Repository.PullMergeAndPush | pkg/git/git.go:1261-1279 | The diverged case. If nothing breaks, nobody else pushes and no rescue name is taken: it succeeds if the merge does not stop, and if it stops, and no destination is in use, exactly if the merge completes, with a merge commit of both sides and every path settled (`SyncsTo`). At most one rescue. |
| Repository.Repository.FastForwardOrRescue | pkg/git/git.go:2423-2442 | Reports a rescue only of a tree that was dirty and is clean now, and, if nothing breaks, only if git refused the fast-forward; it then fails only if the rescue name is taken. |
| Repository.Repository.SyncWithUpstream | pkg/git/git.go:2387-2414 | Terminates, rescues at most once if no command breaks, and on success clone and remote have the same tip; `SyncsTo` for every pair of related histories if nothing breaks, nobody else pushes and no rescue name is taken. If nothing breaks no merge is left in progress on any path. |
| Repository.Repository.PullFetch | pkg/git/git.go:1201-1234 | The fetched tip is the remote's, and the base is a best common ancestor. |
| Repository.Repository.RecoverRepoState | pkg/git/git.go:1927-1943 | An abandoned merge is aborted or reported as unrecoverable. If nothing breaks it succeeds if and only if no merge is in progress or git can abort it, that is, no staged path outside the conflict has a file that differs from the index. |
| Repository.Repository.Pull | pkg/git/git.go:2279-2372 | On success with a remote the clone has all the remote had when the pull began and the remote has all the clone has. If nothing breaks, nobody else pushes and no rescue name is taken, `SyncsTo` says when it succeeds, conflicts included. If no command of this call breaks, it returns with no merge in progress if and only if at the start there was none, git could abort it, or the flush concluded it; otherwise it reports an unrecoverable state and changes nothing. If some command breaks, only a failed abort of this call or its death leaves a merge that could be aborted. |
| Repository.Repository.RecoverPendingWrites | pkg/git/git.go:1015-1073 | Whatever a crash left staged is committed with exactly the index as tree, and pushed; with an unmerged path nothing is committed. |
| Repository.Repository.RecoverUntracked | main.go:169-197 | If nothing breaks its effect is exactly `add -A` and a commit if some file is untracked, and nothing otherwise, and outside a merge no untracked file is left; only what it stages itself during a merge comes to depend on that merge. |
| Repository.Repository.Restart | main.go:84-97 | One boot in its order, after a crash that emptied the memory: nothing acknowledged is lost; if nothing breaks and no merge is in progress a commit of the branch has every file that is not ignored if one was untracked, and otherwise what was staged; and only what its own `add -A` stages comes to depend on a merge, whatever breaks only if the start found one. |
| Repository.Repository.Serve | main.go:90-97 | Each event does its work: a request is answered as the coalescing model says in a quiet clone, a flush tick leaves nothing beyond its bounds, a pull tick that nothing opposes succeeds. |
| WorkingCopy.EverPushedStays | pkg/git/git.go:409-479 | For any number of clones whose pushes the remote takes by git's rule (a fast-forward of the branch, a new or fast-forwarded rescue branch), every commit ever pushed stays on the remote, and what was on the branch stays on the branch. |
| WorkingCopy.AbortDiscardsExactlyStaged | pkg/git/git.go:1927-1943 | Unsaved content of the working tree survives an abort if and only if its path is not staged. |
| WorkingCopy.StagedDuringMergeIsLost | pkg/git/git.go:763-847 | A write staged during a merge and then lost by its abort, concretely. |
| WorkingCopy.StagedThenChangedCannotAbort | pkg/git/git.go:1927-1943 | A file staged during a merge and then written once more, after which git refuses to abort, concretely. |
| WorkingCopy.FfKeeps | pkg/git/git.go:2426-2429 | A fast-forward that git allows loses nothing that is not ignored. |
| WorkingCopy.FfLosesExactly | pkg/git/git.go:2426-2429 | Content that only the working tree has is lost by an allowed fast-forward if and only if its path is ignored, not tracked here, and tracked upstream. |
| WorkingCopy.IgnoredFileIsOverwritten | pkg/git/git.go:2423-2429 | A clean tree, an allowed fast-forward and an ignored file that is written over, concretely. |
| WorkingCopy.CleanAllowsFf | pkg/git/git.go:2423-2429 | A fast-forward of a clean tree is never refused, so only a dirty one needs a rescue. |
| WorkingCopy.CleanAllowsMerge | pkg/git/git.go:1302-1318 | Nor is a merge refused in a clean tree. |
| WorkingCopy.MergeKeeps | pkg/git/git.go:1302-1318 | Neither does a merge commit lose anything that is not ignored. |
| WorkingCopy.MergeLosesExactly | pkg/git/git.go:1302-1318 | It loses content that only the working tree has if and only if its path is ignored, not tracked here, and in the merge. |
| WorkingCopy.StopKeeps | pkg/git/git.go:1284-1287 | Nor does a merge that stops on conflicts. |
| WorkingCopy.StopLosesExactly | pkg/git/git.go:1284-1287 | It endangers such content if and only if its path is ignored, not tracked here, and in the merge or in conflict. |
| WorkingCopy.RescueGrows | pkg/git/git.go:2545-2561 | A rescue branch that the remote takes keeps every rescued commit reachable, also when its name is taken. |
| WorkingCopy.RescueCaptures | pkg/git/git.go:2466-2512 | The rescue commit saves every file that is not ignored. |
| WorkingCopy.RescueLosesExactly | pkg/git/git.go:2466-2577 | After a rescue and its reset, content that no commit has survives if and only if its path is not ignored, or is tracked neither here nor at the target. |
| WorkingCopy.IgnoredEditIsLost | pkg/git/git.go:2478-2482 | An edit of a tracked ignored file that is lost, concretely. |
| WorkingCopy.ResetAndCleanIsClean | pkg/git/git.go:2568-2577 | After reset and clean the tree is clean, so no second rescue follows. |
| WorkingCopy.DraftIsCommittedExactly | main.go:169-197 | After a crash within a merge the recovery commits the draft of a conflicted file, with its markers, at the file's own path if and only if some file is untracked. |
| WorkingCopy.CrashedQuarantineCommitsDraft | pkg/git/git.go:1875-1890 | A quarantine copy that was not staged yet when the process died, concretely. |
| GitObjects.MergeBaseDecidesAncestry | pkg/git/git.go:2393-2413 | Comparing a tip with the printed merge base decides ancestry, also with several merge bases. |
| GitObjects.MergeBaseExists | pkg/git/git.go:1224-1228 | Related histories have a merge base. |
| PushBackoff.TotalWait | pkg/git/git.go:488-497 | All waits up to attempt n are at least 100(2^(n-1)-1) ms and below 200(2^(n-1)-1) ms, whatever the jitter. |
| PushBackoff.FiveAttempts | pkg/git/git.go:388-434 | Five attempts wait between 1.5 and 3 seconds. |
| PendingSet.PendingBounds | pkg/git/git.go:908-918 | The true minimum and maximum, in any map order and with the zero time as "not set". |
| PendingSet.NotDueIsWithinBounds | pkg/git/git.go:890-904 | The due test fails exactly if no entry has waited too long. |
| PendingSet.FirstSeenStays | pkg/git/git.go:870-880 | First-seen time and created flag stay while a path stays pending. |
| PendingSet.FirstSeenIs | pkg/git/git.go:870-880 | After any writes, a path that was not pending has the time and kind of its first write. |
| PendingSet.LastModifiedIs | pkg/git/git.go:870-880 | After any writes, a path waits since its last write. |
| Coalescing.CoalescingRefinesSynchronous | pkg/git/git.go:763-847 | For every sequence of requests both modes give the same answers and the same files after each, and the same tip tree after a final flush. |
| Coalescing.CleanStartAgrees | pkg/git/git.go:870-880 | A clean clone starts both modes in step. |
| Coalescing.RequestAgrees | pkg/git/git.go:1076-1127 | One request keeps the runs in step: every staged path is pending, and `created` holds exactly for paths the tip lacks. |
| Coalescing.WrittenExactly | pkg/git/git.go:763-880 | When a write is accepted or refused in a state, and what it leaves in files, index and tip. |
| Coalescing.DeletedExactly | pkg/git/git.go:1076-1127 | When a delete is refused, and otherwise that the path is gone from files, index and tip and nothing else is. |
| Coalescing.FlushedExactly | pkg/git/git.go:923-999 | When a flush is refused, and otherwise that the tip has the index and nothing is pending. |
| Coalescing.AcceptedIsStaged | pkg/git/git.go:794-801 | An accepted write is staged exactly if it was staged already or is new on disk. |
| Coalescing.AcceptedButNotStaged | pkg/git/git.go:794-801 | An accepted write that is neither staged nor pending, concretely. |
| Coalescing.RefusedThenAccepted | pkg/git/git.go:794-807 | An ignored path: the first write is refused, the same write again is accepted, concretely. |
| Quarantine.StripConflictsDir | pkg/git/git.go:606-609 | The loop removes every leading `_conflicts/` level. |
| Quarantine.OneConflictsLevel | pkg/git/git.go:604-625 | A destination has exactly one leading `_conflicts/` level. |
| Quarantine.DestInjective | pkg/git/git.go:604-625 | Two files put aside in one second never share a destination. |
| Quarantine.DestTellsSecond | pkg/git/git.go:604-625 | Neither does one file in two different seconds. |
| Quarantine.TwoDestinations | pkg/git/git.go:604-625 | Two destinations, concretely. |
| Quarantine.PlacesApart | pkg/git/git.go:1607-1608 | The destinations of one merge are apart from each other whenever none is in use. |
| Quarantine.DestIsElsewhere | pkg/git/git.go:604-625 | A destination is never its own source. |
| Quarantine.SettledContent | pkg/git/git.go:1667-1755 | What stays unmerged is exactly what was not named or is stuck; the committed content of every other conflicted path is fixed by its kind, its place and the resolver; every other path but a destination is as the merge left it. For any stages. |
| Quarantine.SettledDestination | pkg/git/git.go:1820-1922 | The copy of a path that was copied is staged at its own destination, and the path has what HEAD has there. |
| Quarantine.SettledOutcome | pkg/git/git.go:1434-1529 | The committed content of a settled path in terms of the recorded stages: upstream's version against our deletion, below `_conflicts/` their deletion or our side, else the resolver's answer, else HEAD's version. |
| Quarantine.CanSettleExactly | pkg/git/git.go:1679-1714 | A path is settled or put aside if and only if, below `_conflicts/`, a side has a version, and, if it is to be put aside, there is a file and HEAD has the path. |
| Quarantine.AllToldExactly | pkg/git/git.go:1667-1716 | The two lists have every path if and only if every path can be settled. |
| Quarantine.CompletesExactly | pkg/git/git.go:1609-1622 | The merge comes to a commit if and only if nothing stays unmerged and one list is not empty. |
| Quarantine.RenamedByTheirsIsDropped | pkg/git/git.go:1898-1909 | A rename on their side against an edit on ours: the path is on neither list and both names are gone from the result, concretely. |
| Quarantine.BothEditedCompletes | pkg/git/git.go:1820-1922 | A conflict without a resolver that completes: our version back and the copy at its destination, concretely. |
| Quarantine.DestinationInUse | pkg/git/git.go:1875-1888 | Content in the place of a destination survives if and only if it is in a commit. |
| Quarantine.DestinationInUseIsLost | pkg/git/git.go:1875-1888 | A note in the place of a destination that is lost, concretely. |
| TaskPhase.NormalizeTaskPhase | pkg/git/task_phase.go:26-74 | Equals the specification the next rows are about. |
| TaskPhase.NormalizationIsLocal | pkg/git/task_phase.go:41-71 | Line count, delimiters, body and all lines but at most one stay as they are. |
| TaskPhase.NormalizedContentLines | pkg/git/task_phase.go:34-71 | Splitting and joining loses nothing: the lines of the result are the normalized lines. |
| TaskPhase.NormalizationCountsDown | pkg/git/task_phase.go:51-71 | Each application lowers the number of alias lines by one until there is none, then it is the identity. |
| TaskPhase.IdempotentIffAtMostOneAlias | pkg/git/task_phase.go:26-74 | Normalizing twice equals normalizing once if and only if there is at most one alias line. |
| TaskPhase.TwoAliasesNeedTwoPasses | pkg/git/task_phase.go:51-71 | A document with two alias lines, concretely. |
| TaskPhase.AliasExactly | pkg/git/task_phase.go:51-71 | The rewritten lines are exactly `phase:`, blanks, the alias bare or in one pair of quotes, blanks, and possibly a carriage return. |
| TaskPhase.RewritesFirstAlias | pkg/git/task_phase.go:51-71 | The first of them becomes `phase: execution` with its line ending, and nothing else changes. |
| TaskPhase.TaskDocument | pkg/git/task_phase.go:26-74 | One document, before and after. |
| MarkerScanner.ConflictRegionScanner.Consume | pkg/git/yaml_merge_resolver.go:565-591 | The object's step equals the state function. |
| MarkerScanner.EnumerateConflictRegions | pkg/git/yaml_merge_resolver.go:542-553 | The loop computes `Regions`. |
| MarkerScanner.RegionsExactly | pkg/git/yaml_merge_resolver.go:542-602 | The scanner accepts a file with these regions if and only if it is plain lines with exactly these regions between them, in order and apart. |
| MarkerScanner.ScanOfRender | pkg/git/yaml_merge_resolver.go:542-602 | Printing any gaps and conflicts and scanning gives the same regions back. |
| MarkerScanner.RenderOfScan | pkg/git/yaml_merge_resolver.go:542-602 | Every accepted file is the print of its blocks. |
| ScalarMerge.ParseScalarSide | pkg/git/yaml_merge_resolver.go:715-764 | Accepted exactly if both sides are non-empty lists of entries without a double key. |
| ScalarMerge.SeedEmittedOutsideRegions | pkg/git/yaml_merge_resolver.go:894-915 | The seed is the set of keys on frontmatter lines outside all regions. |
| ScalarMerge.ResolveScalarRegion | pkg/git/yaml_merge_resolver.go:950-995 | Accepted exactly if every key is decided and new; then one line for each key, ours first. |
| ScalarMerge.ResolveScalarRegions | pkg/git/yaml_merge_resolver.go:1033-1096 | All regions or none, with the guard running across regions. |
| ScalarMerge.AcceptedExactly | pkg/git/yaml_merge_resolver.go:872-888 | The running guard declines exactly the files where some key is undecided or would come twice. |
| ScalarMerge.DecidedExactly | pkg/git/yaml_merge_resolver.go:789-858 | A key is decided if and only if it is a shared counter with two integers, or shared with known times, or one-sided with a base that is known not to have it. |
| ScalarMerge.TopLevelKeyOf | pkg/git/yaml_merge_resolver.go:917-945 | The guard reads the key of every plain line, and of every line whose key is in quotes. |
| ScalarMerge.NoKeyTwice | pkg/git/yaml_merge_resolver.go:860-995 | No key that the guard can read in an emitted line is in another emitted line or in an untouched line of the frontmatter. |
| ScalarMerge.KeySafety | pkg/git/yaml_merge_resolver.go:860-995 | Exactly the union of the sides' keys is emitted, no one-sided key that the base has, no key of another region or of an untouched line. |
| ScalarMerge.OneSideForAll | pkg/git/yaml_merge_resolver.go:789-814 | In the lines of all regions of a file, every shared counter with two integers has a number that reads as the larger one, and all other shared keys take one and the same side: theirs exactly if it is strictly newer. |
| Text.ReadOfDecimal | pkg/git/yaml_merge_resolver.go:803-803 | What is printed for an integer is a numeral and reads, digit by digit, as that integer. |
| ScalarMerge.SwapKeepsChoice | pkg/git/yaml_merge_resolver.go:789-814 | Swapping the sides changes a line exactly if equal times decide between different lines. |
| ScalarMerge.EqualTimesKeepOurs | pkg/git/yaml_merge_resolver.go:789-814 | Two lines for one key at equal times, concretely. |
| ScalarMerge.MergeCommutes | pkg/git/yaml_merge_resolver.go:1033-1096 | With different committer times both directions are accepted or both declined, and every key gets the same line. |
| MergeSwap.EitherDirection | pkg/git/yaml_merge_resolver.go:1033-1096 | For the file with the sides of every conflict exchanged: it has the exchanged plan, it is merged or declined as the original is, and every key gets the same line, if the committer times differ. |
| PartitionedMerge.PlanConflictPartitions | pkg/git/yaml_merge_resolver.go:685-708 | A plan is found exactly if there is one; its two lists in a row are all regions in order, on either side of the closing delimiter. |
| PartitionedMerge.PlanIsUnique | pkg/git/yaml_merge_resolver.go:685-708 | There is at most one partition of a file. |
| PartitionedMerge.BothBodiesKept | pkg/git/yaml_merge_resolver.go:447-460 | Every side with text is in the result whole, once if both are equal; a region without text disappears. |
| PartitionedMerge.SpliceConflictRegions | pkg/git/yaml_merge_resolver.go:1000-1014 | The cursor loop equals the recursive splice. |
| PartitionedMerge.GapKept | pkg/git/yaml_merge_resolver.go:1000-1014 | Every line outside the regions is kept, in order and in its place between the replacements, and nothing else is added. |
| PartitionedMerge.SpliceOfConflicts | pkg/git/yaml_merge_resolver.go:1000-1014 | Putting each conflict in its own place gives the file back. |
| PartitionedMerge.ClosingKept | pkg/git/yaml_merge_resolver.go:606-617 | The frontmatter of the result closes with the same line as before, right after the frontmatter part. |
| MergedText.MergedFile | pkg/git/yaml_merge_resolver.go:1117-1145 | Of the file as written, split into lines after normalization: no marker line is left if and only if no key of a counter written anew has a marker after a line break; the closing delimiter is there, and closes the frontmatter, if and only if no such key has a delimiter between line breaks. |
| MergedText.OutcomeExactly | pkg/git/yaml_merge_resolver.go:1117-1175 | A file with a plan is merged if and only if it is markdown, every frontmatter region has entries on both sides, every key is decided and none comes twice. |
| MergeExample.OneFileMerged | pkg/git/yaml_merge_resolver.go:1117-1175 | One file with a title, a counter and a body in conflict, and its result, concretely. |
| MergedText.CounterKeyBringsMarker | pkg/git/yaml_merge_resolver.go:795-804 | A counter key whose line break brings in a marker line, concretely. |
| MergedText.CounterKeyClosesEarly | pkg/git/yaml_merge_resolver.go:795-804 | A counter key that closes the frontmatter early, concretely. |
| PartitionedMerge.ApplyPartitionedRules | pkg/git/yaml_merge_resolver.go:1117-1175 | The file is resolved as a whole or declined; it is declined exactly for a foreign extension, a missing plan or an undecided frontmatter, and the result is the phase-normalized merge. |
| DeepMerge.DeepMergeTheirsWins | pkg/git/yaml_merge_resolver.go:422-439 | The loops, in any map order, equal the recursive function. |
| DeepMerge.MergeByLookup | pkg/git/yaml_merge_resolver.go:422-439 | At every path the result has exactly what theirs has, and what ours has and theirs does not override on the way down. |
| DeepMerge.EmptyIsIdentity | pkg/git/yaml_merge_resolver.go:422-439 | The empty map is a two-sided identity. |
| DeepMerge.Idempotent | pkg/git/yaml_merge_resolver.go:419-439 | merge(m, m) = m. |
| DeepMerge.Absorbs | pkg/git/yaml_merge_resolver.go:419-439 | merge(merge(a, b), b) = merge(a, b). |
| DeepMerge.AssociatesExactly | pkg/git/yaml_merge_resolver.go:422-439 | Merging three versions from the left or from the right gives the same if and only if, wherever the outer two have a map and the middle one has something else, the last map covers the first. |
| DeepMerge.HidesExactly | pkg/git/yaml_merge_resolver.go:422-439 | merge(x, y) = y if and only if every key of x is in y, recursively where both have a map. |
| DeepMerge.NotAssociative | pkg/git/yaml_merge_resolver.go:422-439 | Map, scalar, map is a counterexample to associativity. |
| ClaimLease.ClaimClient.PutClaimRef | pkg/git/claim_refs.go:362-399 | If nothing breaks it is won exactly if the origin has the expected value, a conflict otherwise; success put the fresh id in its place and in the mirror; a conflict changed nothing; a value once replaced can never be renewed again. |
| ClaimLease.ClaimClient.DeleteClaimRef | pkg/git/claim_refs.go:406-424 | The same for a deletion; retrying one whose reply was lost can only conflict. |
| ClaimLease.ClaimClient.PushClaimRef | pkg/git/claim_refs.go:428-441 | One compare-and-swap between arbitrary changes by others; unless it breaks the answer is decided by the value at the origin. |
| ClaimLease.ClaimClient.FetchMirror | pkg/git/claim_mirror.go:91-98 | The mirror becomes what the origin had at one time during the call, even if it is written late, so it holds only values the claims once had. |
| ClaimLease.AtMostOneWinner | pkg/git/claim_refs.go:428-441 | Of all changes by any client that expect a given id at most one is ever accepted. |
| ClaimLease.NeverReturns | pkg/git/claim_refs.go:480-489 | A value that was replaced never comes back. |
| ClaimLease.ValuesChain | pkg/git/claim_refs.go:406-441 | Each accepted change names the value the previous one put there. |
| ClaimListing.PrefixByComponents | pkg/git/claim_refs.go:318-326 | Matching is by whole path components for every prefix; a slash at its end asks for a further component. |
| ClaimListing.ListingIsExact | pkg/git/claim_refs.go:183-189 | A listing has exactly the matching refs, in ascending order. |
| ClaimListing.SortedIsUnique | pkg/git/claim_refs.go:189-189 | A sorted listing is settled by its elements. |
| ClaimListing.LessExactly | pkg/git/claim_refs.go:189-189 | The order of a listing: the smaller character, or nothing, at the first place where two names differ. |
| ClaimListing.MirrorAgrees | pkg/git/claim_mirror.go:149-162 | A listing of an up-to-date mirror is the listing of the origin. |
| ClaimListing.GlobCoversPrefix | pkg/git/claim_refs.go:179-188 | The pattern sent to the origin misses no matching ref, although it matches more. |
| ClaimListing.ClaimReader.ListClaimRefsLive | pkg/git/claim_refs.go:178-210 | If nothing breaks and the origin does not change there is an answer; with an unchanged origin every answer has exactly the refs that belong to the prefix by components, sorted, each with its metadata; a ref may be missing only if the origin itself dropped it after the call began. |
| ClaimListing.ClaimReader.ReadClaimRef | pkg/git/claim_refs.go:235-304 | Kept if nothing breaks and the origin still has it; dropped only if the origin no longer has it at that id. |
| ClaimListing.ClaimReader.ListClaimRefsFromMirror | pkg/git/claim_mirror.go:130-202 | The whole answer or none, and the whole answer if nothing breaks and the mirrored commits are there. |
| ClaimListing.ClaimReader.ClaimMirrorAge | pkg/git/claim_mirror.go:111-124 | Fresh exactly if a claims fetch was recorded and is not older than the bound. |
| ClaimListing.ClaimReader.ListClaimRefs | pkg/git/claim_refs.go:152-170 | With an unchanged origin every live answer, and every answer of an up-to-date mirror, is the exact list by components; there is an answer if nothing breaks, and it is the mirror's if that is fresh and complete. |
| Reclone.RepoDir.MoveEntriesInto | main.go:539-569 | At every crash point HEAD resolves only if the directory is the complete clone. |
| Reclone.RepoDir.RemoveRepoEntries | main.go:519-534 | Removes everything but the scratch directory; HEAD never starts to resolve. |
| Reclone.RepoDir.RecloneHeadless | main.go:406-472 | Until there is a complete clone no old entry changes; afterwards HEAD resolves only in a complete clone. |
| Reclone.RepoDir.CloneIfNeeded | main.go:348-380 | From whatever a crash left, a start that nothing breaks ends with the complete clone; a directory with a HEAD is left alone. |
| Reclone.RepoDir.Starts | main.go:99-118 | After any number of starts, each cut anywhere, HEAD resolves only if the clone is complete. |

## Left out

- Git itself, SSH, HTTP, the file system: git commands are steps with the effects their documentation gives them; file modes, directories in the place of files and path quoting are not modelled.
- Path validation and a conflicted path that escapes the repository through `..`: a tree cannot hold one; an empty or absolute path is modelled.
- The text of git's output: which paths a merge names, and which push failures are rejections or lease conflicts, are outcomes of the model. A merge may name any of the unmerged paths.
- `os.Stat` of a file or of MERGE_HEAD fails only for a file that is not there.
- The repair of an abandoned rebase and of a detached HEAD, stale locks, memory settings, readiness and metrics.
- `pullRebaseAndPush`, which nothing calls.
- The vault-api resolver and its client: the configured resolver stages some content for a path, or fails.
- Timeouts: a context that is done is one more way in which a command or a check breaks; the split of the pull budget is not modelled.
- Integer width: counters are unbounded in the model, and a shift overflow in the backoff needs more attempts than are ever made.
- The commit messages.
- The marshalled path of `resolveRegion` beyond the map merge and the splice; YAML and JSON parsing.
- Repository.Repository.Run: other clones are any growth of the remote; the server's own requests are one after the other, as under its mutex.
- Reclone.RepoDir.CloneIfNeeded: the clone into an empty directory is one step; git resolves HEAD before it has checked out every file, so a crash within that step is not covered.
- Reclone.RepoDir.RecloneHeadless: `rev-parse` of HEAD is taken to answer truthfully; the code would also re-clone a good directory if it failed for another reason.
- ClaimLease.ClaimClient.NewClaimCommit: a collision of random nonces counts as a failed `commit-tree`.
- ClaimLease.ClaimClient.FetchMirror: no read-your-writes, since the mirror is updated without a lock.
- HTTP handlers, middleware, logging and the tick loops, which only call what is modelled here.

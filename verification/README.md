# Spawnr: a verified model of its ordering guarantees

Spawnr manages virtual machines without a daemon. Nothing watches over them, so all its
safety rests on ordering: which file is written before which process is spawned, which
directory may be deleted once which process is dead, which pointer is switched after
which tree has been checked. This project models that ordering in Dafny and proves it.

`dafny verify dfyconfig.toml` checks everything.

| file | what it models |
|---|---|
| `Outcomes.dfy`, `Bytes.dfy`, `Sequences.dfy` | results, bytes and big-endian integers, split and join |
| `Processes.dfy` | process identities, pidfd signalling, identity files, `spawn_managed` |
| `Lifecycle.dfy` | the two helpers of a machine: start, repair, stop, failed-start cleanup, session directory |
| `SparseClone.dfy` | sparse image copy and its atomic commit |
| `Names.dfy` | clone names, slugs, vsock CIDs |
| `Ownership.dfy` | machine trees, saved state and memory under init, multi-clone, rollback and rm |
| `RuntimeManifest.dfy`, `RuntimeInstall.dfy` | manifest rules, archive extraction, crash-safe setup, discovery |
| `ImageCache.dfy` | the concurrent content-addressed OCI cache |
| `Frames.dfy`, `GuestSession.dfy` | wire format, two writers on one socket, PTY relay and host loop |
| `ImageEnvironment.dfy`, `ChildEnvironment.dfy` | the image environment from host check to child process |
| `Reaper.dfy` | the PID 1 orphan reaper beside managed spawns |

## How faults are modelled

Each system call may fail. In the sequential parts the CLI may also be killed at each
call; `Outcome.Interrupted` then travels to the top without any cleanup code running, and
the contracts of the methods say what holds at that point. In `Processes`, `Lifecycle` and
`Ownership` this cannot happen inside a TerminationSignalBlock; in `RuntimeInstall` it can
happen everywhere. Between any two calls helpers may die, become zombies and have their
PIDs reused. Whole histories are the methods called `AnyHistory` and `AnySetups`: their
postconditions hold after any list of commands each of which may have ended in any way.
Concurrent parts (`ImageCache`, the writers of `GuestSession`, `Reaper`) are step functions
over shared state; their theorems quantify over all event sequences.

A field or parameter called `faultFree` restricts an operation to runs in which no call
fails. It is used only for statements that an operation does succeed.

In `Ownership` a ghost record of the state in which the command began is part of the
invariant `Sound`: machines the command did not create and was not told to remove have
their records, trees and markers. Every method that keeps `Sound` or `Valid` therefore says
so on every exit, being killed included.

## Results that differ from what one would expect

- An interrupted `clear_session` can leave a session directory without its domain marker.
  `start` then refuses the machine; a later `stop` repairs it (`Lifecycle.Machine.Stop`).
- "OCI cache entry is incomplete" does not need tampering: one failed read of a complete
  entry under the lock is enough. That is the exact condition (`ImageCache.IncompleteExactly`).
- The image environment limit and the limit on the effective environment are the same
  number and count the same way. A command is accepted exactly if what survives of the
  image and everything else together fit (`ChildEnvironment.AcceptedExactly`). So an image
  whose one variable X uses the limit up is accepted by host and guest and then makes every
  command fail that does not set X itself (`ChildEnvironment.FullImageRefusesCommands`); the
  same size spent on HOME does no harm.
- `terminate` can report an error although the helper is dead: if it ignores SIGTERM until
  the wait expires and then dies by itself before the SIGKILL. A second `stop` succeeds.
- The identity check takes a live helper whose executable changed for an exited one
  (`Processes.ReplacedImageIsReportedExited`); the lifecycle results assume that helpers do
  not replace their image.
- The reaper depends on PIDs not being recycled too fast, in two places; both are needed
  and together they are enough (`Reaper.HarmlessExactlyIfCareful`).
- A `setup` that exchanged the version directory and then was killed before the pointer
  leaves a pair that `discover` accepts exactly if both locks of that version have the same
  manifest (`RuntimeInstall.PointerAfterExchange`, with a concrete refused pair in
  `StalePointerExists`). If no version ever had two manifests it is never refused.
- In the file loop of the manifest check the test for duplicates never decides: strict
  order already excludes them.

## Model

| member | source | states |
|---|---|---|
| `Processes.MatchesIsExact` | crates/spawnr/src/process.rs:95-127 | when nothing moves between its three reads the check says "running" of a process exactly when it is the recorded incarnation, not a zombie, and its executable is hidden or unchanged; for a recorded helper that is exactly being alive |
| `Processes.MatchesReadsIsSound` | crates/spawnr/src/process.rs:95-127 | when the system moves between the reads, "running" was true at the first and "exited" is true at the last |
| `Processes.ReplacedImageIsReportedExited` | crates/spawnr/src/process.rs:95-127 | the three reads report a live helper that replaced its own image by execve as exited; passt and the VMM must not do that |
| `Processes.DeadStaysDead` | crates/spawnr/src/process.rs:444-462 | a helper found dead stays dead over any number of later commands and reboots |
| `Processes.Kernel.ReadProcfs` | crates/spawnr/src/process.rs:95-127 | the result is the check evaluated over three reads, each in a world of its own |
| `Processes.Kernel.MatchesRunning` | crates/spawnr/src/process.rs:95-127 | for a recorded helper: true means alive at the start, false means dead now |
| `Processes.Kernel.PidfdOpen` | crates/spawnr/src/process.rs:506-517 | a pidfd refers to the present holder of the PID; ESRCH on a pidfd kernel means nobody holds it |
| `Processes.Kernel.SendSignalChecked` | crates/spawnr/src/process.rs:386-427 | on a pidfd kernel exactly one delivery, to the recorded incarnation and through the pidfd, if and only if it reports success; `Ok(false)` means dead; the kill(2) fallback is never reached |
| `Processes.Kernel.WaitForExit` | crates/spawnr/src/process.rs:429-440 | `Ok(true)` means the identity is dead, whatever the number of polls |
| `Processes.Kernel.Terminate` | crates/spawnr/src/process.rs:444-462 | success means the identity is dead; nothing, SIGTERM, or SIGTERM and then SIGKILL was sent, to that incarnation only; without faults a helper that obeys SIGTERM is ended with success, and one that obeys only SIGKILL is dead afterwards |
| `Processes.Kernel.TryWait` | crates/spawnr/src/process.rs:493-504 | reaps the child if it has exited; `Ok(true)` means it is dead, `Ok(false)` that it runs |
| `Processes.Kernel.WaitForChild` | crates/spawnr/src/process.rs:493-504 | polls try_wait; `Ok(true)` means the child is dead and a child is lost from the table only by dying |
| `Processes.Kernel.TerminateSpawned` | crates/spawnr/src/process.rs:468-491 | as `Terminate` for a child of this process; faults apart a helper that dies of either signal is dead afterwards, and one that could be sent SIGTERM is ended with success |
| `Processes.Kernel.Capture` | crates/spawnr/src/process.rs:68-88 | the captured identity is that of the unreaped child |
| `Processes.Kernel.WritePidFile` | crates/spawnr/src/process.rs:293-320 | at every exit the file is unchanged or newly names exactly this identity; an existing file is never replaced |
| `Processes.Kernel.RemovePidFile` | crates/spawnr/src/process.rs:356-367 | removes the file only if it still names the expected identity; success means there is no file |
| `Processes.Kernel.InspectPidFile` | crates/spawnr/src/process.rs:277-291 | Missing and Stale mean that no helper of the file is live, Running that the named one was |
| `Processes.Kernel.RemoveStalePidFile` | crates/spawnr/src/process.rs:370-382 | never removes the identity of a running helper; success means no file and no live helper |
| `Processes.Kernel.Fork` | crates/spawnr/src/process.rs:179-231 | a spawn adds one incarnation that never existed before |
| `Processes.Kernel.RecordOrKill` | crates/spawnr/src/process.rs:179-231 | in the masked window after the fork the child ends up recorded or dead; faults apart it is killed only if it could not be captured |
| `Processes.Kernel.SpawnManaged` | crates/spawnr/src/process.rs:179-274 | on every exit, killed ones included, each live helper of the file is the one the file names; failure leaves none behind and, faults apart, means that there was an identity file or a child that could not be captured |
| `Lifecycle.Machine.AssertOwned` | crates/spawnr/src/storage.rs:172-184 | success means the ownership marker matches |
| `Lifecycle.Machine.AssertDomainLayout` | crates/spawnr/src/storage.rs:189-211 | success means ownership and an intact session domain |
| `Lifecycle.Machine.RemoveSessionTree` | crates/spawnr/src/storage.rs:215-229 | a deletion in any order that may stop after any entry; an identity file is kept or gone |
| `Lifecycle.Machine.RecreateSession` | crates/spawnr/src/storage.rs:215-229 | the directory and its marker, which is created exclusively: with a marker already there it fails |
| `Lifecycle.Machine.ClearSession` | crates/spawnr/src/storage.rs:215-229 | is called only when both helpers are dead, and keeps the invariant at every point where it can stop |
| `Lifecycle.Machine.StopNetwork` | crates/spawnr/src/vmm.rs:515-526 | success means the network helper is dead and its file gone |
| `Lifecycle.Machine.EndVmm` | crates/spawnr/src/vmm.rs:483-497 | `Ok(true)` means the VMM is dead; it is asked to power off first, and gets a signal only if it outlived that and a request to shut down |
| `Lifecycle.Machine.StopRunningVmm` | crates/spawnr/src/vmm.rs:483-501 | the VMM identity is removed only after the process is gone, whether or not an error was recorded |
| `Lifecycle.Machine.Stop` | crates/spawnr/src/vmm.rs:475-513 | success means both helpers dead, both files gone, a fresh session; a machine that is not owned is not touched; neither disk is in the frame; without faults it succeeds from any half-deleted session if no helper is live or helpers obey SIGTERM, and leaves none live if they obey SIGKILL |
| `Lifecycle.Machine.CleanHelper` | crates/spawnr/src/vmm.rs:450-473 | ends a helper this process spawned, then drops its identity; success means none is live, and faults apart none is live anyway if it can be killed |
| `Lifecycle.Machine.CleanupFailedStart` | crates/spawnr/src/vmm.rs:450-473 | the session is cleared only when every helper of the failed start is proven dead, otherwise the identities stay; faults apart no helper that can be killed is left, and it succeeds if SIGTERM could be sent to each |
| `Lifecycle.Machine.WaitForSocket` | crates/spawnr/src/vmm.rs:838-855 | success means that the child was seen running and right after that a socket at its path; an error, faults apart, that it is gone or there is no socket; polling never loses track of the child |
| `Lifecycle.Machine.Repair` | crates/spawnr/src/vmm.rs:379-397 | from each of the nine pairs of identity states: both were live and nothing is touched, or no helper is live, no file left and the session fresh; anything is touched only in an owned, whole session one of whose helpers was seen not running |
| `Lifecycle.Machine.BringDown` | crates/spawnr/src/vmm.rs:385-396 | success means no live helper and no identity file |
| `Lifecycle.Machine.SpawnNetwork` | crates/spawnr/src/vmm.rs:398-414 | success means that passt was spawned by this call and then came up at its socket; a failed wait is a failure and, faults apart, leaves no helper live that can be killed |
| `Lifecycle.Machine.SpawnVmm` | crates/spawnr/src/vmm.rs:416-448 | the same for the VMM, with the network helper up |
| `Lifecycle.Machine.Abandon` | crates/spawnr/src/vmm.rs:411-446 | a failed start stays a failure, whatever becomes of its cleanup |
| `Lifecycle.Machine.SpawnBoth` | crates/spawnr/src/vmm.rs:398-448 | success means that both files name helpers spawned by this call, each of which was seen running and then listening, the network helper before the VMM; faults apart, failure means that a helper did not come up and leaves none live that can be killed |
| `Lifecycle.Machine.Start` | crates/spawnr/src/vmm.rs:372-448 | success means both files name helpers found live together, to which nothing was done, or both spawned by this call and each seen running and then listening, with every earlier helper dead; a running machine is left alone; a machine that is not owned or whose session lost its marker is refused and not touched; faults apart, failure leaves no helper live that can be killed and, if earlier helpers could be stopped, means that a new helper did not come up |
| `Lifecycle.Machine.GetStatus` | crates/spawnr/src/vmm.rs:220-228 | "running" means both helpers were live together, "stopped" that none is live, "degraded" that one was live and the other is dead; faults apart there is an answer, the right one if no helper dies meanwhile |
| `Lifecycle.AnyHistory` | crates/spawnr/src/vmm.rs:372-526 | over any history of start, stop, status and reboots, each failing or killed anywhere outside signal-blocked windows, every live helper is named by its identity file, dead helpers stay dead and, on a pidfd kernel, signals went to spawned helpers only |
| `SparseClone.Patch` | crates/spawnr/src/storage.rs:545-555 | what each byte of a file is after a positioned write |
| `SparseClone.PatchTwice` | crates/spawnr/src/storage.rs:545-555 | two adjacent positioned writes are one |
| `SparseClone.PatchGrows` | crates/spawnr/src/storage.rs:545-555 | one more short write extends what has been written |
| `SparseClone.SeekData` | crates/spawnr/src/storage.rs:499-518 | SEEK_DATA: the first reported data byte, or that there is none; unsupported only where the filesystem reports no extents |
| `SparseClone.SeekHole` | crates/spawnr/src/storage.rs:519-530 | SEEK_HOLE at data: the end of the extent, strictly behind, so every extent is nonempty and the loop ends |
| `SparseClone.ReadAt` | crates/spawnr/src/storage.rs:534-536 | a positioned read gives any nonempty part, nothing exactly at the end of the file |
| `SparseClone.WriteAt` | crates/spawnr/src/storage.rs:545-555 | a positioned write takes any part |
| `SparseClone.WriteAllAt` | crates/spawnr/src/storage.rs:545-555 | success is one complete positioned write under any short writes; failure leaves a prefix of it |
| `SparseClone.CopyWhole` | crates/spawnr/src/storage.rs:506-515 | the fallback path ends with an identical file |
| `SparseClone.CopyStep` | crates/spawnr/src/storage.rs:532-539 | writing a chunk at its place extends the copied part |
| `SparseClone.SkipHole` | crates/spawnr/src/storage.rs:499-518 | a hole is skipped: the destination keeps what it held there |
| `SparseClone.CopyExtent` | crates/spawnr/src/storage.rs:532-539 | one data extent under short reads and writes |
| `SparseClone.CopyExtents` | crates/spawnr/src/storage.rs:495-541 | the loop over all extents |
| `SparseClone.SparseCopy` | crates/spawnr/src/storage.rs:492-543 | for every extent layout, on both paths, success leaves the source data over what the destination held, and a byte-identical copy exactly if that was zero under the holes; the loops terminate and without faults succeed |
| `SparseClone.OverlaidIsCopy` | crates/spawnr/src/storage.rs:492-543 | the result of the extent path is a copy exactly if the destination was zero wherever the source has a hole |
| `SparseClone.CloneSparseOrReflink` | crates/spawnr/src/storage.rs:468-490 | the reflink and the copy both end with an identical file, and do so without faults |
| `SparseClone.Directory.CommitNoReplace` | crates/spawnr/src/storage.rs:641-661 | never replaces a name; success moves the inode to its final name; other names stay |
| `SparseClone.Directory.BuildImage` | crates/spawnr/src/storage.rs:454-466 | only the temporary name is touched; success is a complete, valid copy, granted without faults exactly to ext4 images |
| `SparseClone.Directory.CloneImageAtomic` | crates/spawnr/src/storage.rs:454-466 | at every exit the final name is as before or names a complete, valid copy; no earlier file is touched; without faults it succeeds exactly for a free name and an ext4 image, and leaves nothing behind otherwise |
| `Names.TrimEnd` | crates/spawnr/src/machine.rs:708-758 | trim_end_matches: the longest prefix not ending in the character |
| `Names.DecimalRoundTrip` | crates/spawnr/src/machine.rs:726-733 | decimal suffixes determine their number |
| `Names.DecimalOrder` | crates/spawnr/src/machine.rs:726-733 | digits come most significant first |
| `Names.DecimalLength` | crates/spawnr/src/machine.rs:726-733 | how many digits a suffix has |
| `Names.LastFieldOfSuffix` | crates/spawnr/src/machine.rs:726-733 | the suffix is what follows the last hyphen |
| `Names.CandidateInjective` | crates/spawnr/src/machine.rs:726-733 | candidates of different suffixes differ in spite of the truncation to 63 bytes |
| `Names.CandidatesInjective` | crates/spawnr/src/machine.rs:726-733 | the same for the candidate function as a whole |
| `Names.CandidateValid` | crates/spawnr/src/machine.rs:657-733 | every candidate with a 32-bit suffix passes validate_name |
| `Names.CutBaseIsLongest` | crates/spawnr/src/machine.rs:726-733 | a candidate is the cut base, a hyphen and the suffix, and the cut base is the longest beginning of the base that fits 63 bytes and does not end in a hyphen |
| `Names.ShortBaseIsKept` | crates/spawnr/src/machine.rs:726-733 | a base of at most 50 characters is never cut |
| `Names.LeastFreeUnique` | crates/spawnr/src/machine.rs:724-739 | "the candidates of the least free suffixes" determines the list of names |
| `Names.LeastFreeDistinct` | crates/spawnr/src/machine.rs:724-739 | such names are pairwise distinct |
| `Names.ProbesBounded` | crates/spawnr/src/machine.rs:724-739 | pigeonhole: at most the number of taken names plus the number of names found so far probes have been made |
| `Names.FirstFree` | crates/spawnr/src/machine.rs:724-739 | the loop ends within the number of taken names + count probes with exactly `count` names at the least free suffixes |
| `Names.SuffixedNames` | crates/spawnr/src/machine.rs:720-739 | for any validated base or slug: `count` distinct unused valid names; no candidate is ever refused |
| `Names.AllocateCloneNames` | crates/spawnr/src/machine.rs:708-740 | one explicit name if it is free; otherwise, with the explicit name or the repository's directory as base, the candidates of the least free suffixes, all valid, unused and distinct; fails exactly for a taken explicit name or an unusable repository |
| `Names.WordsOfWord` | crates/spawnr/src/machine.rs:742-758 | a run of ASCII letters and digits is one word |
| `Names.WordsAreSeparated` | crates/spawnr/src/machine.rs:742-758 | any other character separates words, so words are the maximal runs, in order |
| `Names.SlugOfWord` | crates/spawnr/src/machine.rs:742-758 | the slug of one word is the word in lower case, cut at 50 |
| `Names.WordAppended` | crates/spawnr/src/machine.rs:742-758 | each further word is put behind one hyphen |
| `Names.TailIs` | crates/spawnr/src/machine.rs:693-700 | what is behind the last '/' or ':' |
| `Names.LastWord` | crates/spawnr/src/machine.rs:693-700 | trailing slashes and a ".git" do not count |
| `Names.DirectoryIsLastWord` | crates/spawnr/src/machine.rs:693-706 | for a repository that ends in a word behind '/' or ':', with or without ".git" and slashes behind it, the directory is that word in lower case, whatever comes before |
| `Names.ClonesOfRepository` | crates/spawnr/src/machine.rs:708-740 | the clones of such a repository are called word-n, for the least n that are free |
| `Names.NumberedFromOne` | crates/spawnr/src/machine.rs:724-739 | and if none of these names is taken, n is 1, 2, 3 and so on |
| `Names.RepositoryAccepted` | crates/spawnr/src/machine.rs:675-706 | a nonempty single line from which a directory name can be derived |
| `Names.ComputeSlug` | crates/spawnr/src/machine.rs:742-758 | the one-pass loop with its pending separator computes: words joined by hyphens, cut at 50, trimmed |
| `Names.SlugIsValidName` | crates/spawnr/src/machine.rs:657-758 | a nonempty slug is a valid name of at most 50 bytes; it is empty exactly if the text has no ASCII letter or digit |
| `Names.ProbeCid` | crates/spawnr/src/machine.rs:631-635 | the wrapping probe returns the first free CID in probe order, at least 4096; it terminates when one is free |
| `Names.FreeCidExists` | crates/spawnr/src/machine.rs:627-635 | fewer than 2^32 - 4096 used CIDs leave a free one |
| `Names.ProbeNeverEnds` | crates/spawnr/src/machine.rs:633-635 | with every CID used no number of probe steps finds one, so the condition is exact |
| `Ownership.ConsistentInsert` | crates/spawnr/src/machine.rs:619-655 | a record with a fresh identifier and a free CID keeps all identifiers and CIDs distinct |
| `Ownership.IdsOfInsert` | crates/spawnr/src/machine.rs:83-86 | filing a record adds its identifier |
| `Ownership.IdsOfRemove` | crates/spawnr/src/machine.rs:390 | dropping a record removes exactly its identifier |
| `Ownership.CidCount` | crates/spawnr/src/machine.rs:627-631 | no more CIDs are in use than machines exist |
| `Ownership.CidsOfRemove` | crates/spawnr/src/machine.rs:627-631 | what one record contributes to the used CIDs |
| `Ownership.RollbackTurn` | crates/spawnr/src/machine.rs:403-410 | one turn of the rollback loop: the record goes exactly if its removal succeeded |
| `Ownership.RollbackAccounts` | crates/spawnr/src/machine.rs:403-410 | through the rollback every tree stays accounted for by a saved record, a failed removal, or a record still to be rolled back |
| `Ownership.RollbackExact` | crates/spawnr/src/machine.rs:397-420 | after the rollback memory is the base plus exactly the records whose removal failed |
| `Ownership.RollbackComposes` | crates/spawnr/src/machine.rs:157-164 | removing the machine at hand and then rolling back the earlier ones is one rollback of all of them |
| `Ownership.CloneStateGrows` | crates/spawnr/src/machine.rs:156-166 | filing the next clone keeps the multi-clone invariant |
| `Ownership.CloneStateSize` | crates/spawnr/src/machine.rs:120-128 | k clones make memory larger by at most k |
| `Ownership.NextNameIsFree` | crates/spawnr/src/machine.rs:120-128 | the next allocated name is not filed yet |
| `Ownership.FreshIsNew` | crates/spawnr/src/machine.rs:619-655 | a fresh record shares its identifier with no other |
| `Ownership.Store.Lock` | crates/spawnr/src/state.rs:78-121 | the state read under the flock is the saved one |
| `Ownership.Store.Save` | crates/spawnr/src/state.rs:135-159 | saved state is the old one or the one in memory at every exit, the latter on success; failure before and after the rename both occur |
| `Ownership.Store.StopHelpers` | crates/spawnr/src/vmm.rs:475-513 | success means no live helper of the machine and a whole session; only its own session is touched |
| `Ownership.Store.RemoveMachine` | crates/spawnr/src/storage.rs:310-316 | concerns one tree only; success means it is gone |
| `Ownership.Store.RemoveTree` | crates/spawnr/src/storage.rs:232-241 | a deletion that may stop half way and is refused without the marker |
| `Ownership.Store.CreateTree` | crates/spawnr/src/storage.rs:127-158 | a marked new tree, or none unless its removal failed too |
| `Ownership.Store.CommitStorage` | crates/spawnr/src/storage.rs:289-308 | both disks or no tree, unless its removal failed too |
| `Ownership.Store.NewRecord` | crates/spawnr/src/machine.rs:619-655 | fresh identifier, free CID of at least 4096, everything stays distinct |
| `Ownership.Store.StartRecord` | crates/spawnr/src/machine.rs:466-498 | success means that the helpers are live at the end of the boot, in a whole tree; faults apart it is granted to each whole machine |
| `Ownership.Store.StartAndClone` | crates/spawnr/src/machine.rs:168-178 | success means that the machine was booted, that its helpers were still live when the guest answered, and that the guest has cloned this repository into this directory; otherwise nothing counts as cloned |
| `Ownership.OwnTreeTouched` | crates/spawnr/src/storage.rs:310-316 | touching a tree of its own lets a command spare all others |
| `Ownership.OwnRecordDropped` | crates/spawnr/src/machine.rs:403-409 | so does dropping a record of its own |
| `Ownership.Store.DropMachine` | crates/spawnr/src/machine.rs:403-409 | the record goes exactly with its tree, and no machine that is not the command's own is touched |
| `Ownership.Store.RollbackAll` | crates/spawnr/src/machine.rs:402-410 | the reverse loop keeps the rollback invariant, spares every machine not created by the command, killed or not, and reports whether every removal succeeded |
| `Ownership.Store.RollbackCreated` | crates/spawnr/src/machine.rs:397-420 | exactly the records whose removal failed remain, every tree stays tracked, and earlier machines keep record, tree and markers, whether or not the save succeeds and also if it is killed |
| `Ownership.Store.FileNew` | crates/spawnr/src/machine.rs:82-86 | storage first, then the record in memory |
| `Ownership.Store.UndoInit` | crates/spawnr/src/machine.rs:87-90 | after the failed save of `init` every tree is tracked again |
| `Ownership.Store.InitCommit` | crates/spawnr/src/machine.rs:80-91 | the masked commit of `init`: one record and its tree, or every tree tracked |
| `Ownership.Store.SparedSince` | crates/spawnr/src/machine.rs:69-202 | what a command that kept its invariant has done to machines that existed before |
| `Ownership.Store.CreateOne` | crates/spawnr/src/machine.rs:69-95 | `init` from its first check on |
| `Ownership.Store.InitMachine` | crates/spawnr/src/machine.rs:69-95 | success adds exactly one saved record with a tree of its own, and is granted, faults apart, exactly for a valid unused name; on every exit each tree has a saved record or failed to be removed, and earlier machines keep record, tree and markers |
| `Ownership.Store.AbortClone` | crates/spawnr/src/machine.rs:128-155 | a failure exit outside the commit: exactly the unremovable records remain |
| `Ownership.LastUndone` | crates/spawnr/src/machine.rs:157-161 | the rollback invariant after the machine at hand |
| `Ownership.LastAccounted` | crates/spawnr/src/machine.rs:157-161 | every tree is tracked again |
| `Ownership.Store.UndoLast` | crates/spawnr/src/machine.rs:157-161 | the machine whose save failed is dropped exactly if its tree is gone; all others are spared |
| `Ownership.Store.UndoClone` | crates/spawnr/src/machine.rs:157-164 | a failed save rolls back this machine and all earlier ones |
| `Ownership.Store.CloneCommit` | crates/spawnr/src/machine.rs:148-165 | the masked commit of one clone and its two failure exits |
| `Ownership.Store.FinishClone` | crates/spawnr/src/machine.rs:166-184 | boot the newest machine and clone into it, or roll everything back |
| `Ownership.Store.CloneOne` | crates/spawnr/src/machine.rs:120-186 | one turn of the multi-clone loop with all five failure exits |
| `Ownership.Store.CloneEach` | crates/spawnr/src/machine.rs:118-186 | the loop over all names; without faults all new machines run at its end |
| `Ownership.Store.LockAndName` | crates/spawnr/src/machine.rs:97-118 | the names are allocated against the saved state, read under the lock |
| `Ownership.Store.CreateAll` | crates/spawnr/src/machine.rs:97-202 | `clone_machines` from its first check on |
| `Ownership.Store.CloneMachines` | crates/spawnr/src/machine.rs:97-202 | success adds exactly `count` saved records marked as repository machines, named as `allocate_clone_names` says, each with its own tree, booted by this command and with the repository cloned into its directory; an error leaves in memory the initial map plus exactly the inserted records whose removal failed; on every exit earlier machines keep record, tree and markers and saved state differs only by records of this run; faults apart it succeeds exactly for allowed arguments and all new machines run |
| `Ownership.Store.AskGuest` | crates/spawnr/src/machine.rs:351-384 | passes only if a live guest, running before or booted for this, reported a clean workspace; without faults a machine found stopped is booted, asked and stopped again |
| `Ownership.Store.MayRemove` | crates/spawnr/src/machine.rs:347-384 | nothing is deleted before the guest has been asked |
| `Ownership.Store.StopIfRunning` | crates/spawnr/src/machine.rs:386-388 | a running machine is stopped first |
| `Ownership.Store.Destroy` | crates/spawnr/src/machine.rs:386-391 | the record goes only after the tree, and only this tree is touched |
| `Ownership.Store.Remove` | crates/spawnr/src/machine.rs:347-395 | removes the named machine, and does so when nothing fails; all others keep record, tree and markers; without --force a repository machine whose guest does not report a clean workspace keeps tree and record; a tree without its markers is never deleted |
| `Ownership.Store.StartMachine` | crates/spawnr/src/machine.rs:204-215 | success means that the machine has a record and runs; faults apart each whole machine can be started; no tree and no record changes |
| `Ownership.Store.Run` | crates/spawnr/src/machine.rs:26-47 | on every exit of every command the ownership invariant holds and machines the command is not about keep record, tree and markers |
| `Ownership.StandsUntilRemoved` | crates/spawnr/src/machine.rs:69-420 | what stands after some command stands until an rm names it |
| `Ownership.RunAndWatch` | crates/spawnr/src/machine.rs:26-47 | one command lets every machine stand that it was not told to remove |
| `Ownership.AnyHistory` | crates/spawnr/src/machine.rs:69-420 | over any history of init, clone, start and rm: a tree lacks a saved record only if removing that tree failed; a machine that a successful init or clone has filed keeps its record and its marked tree until an rm names it; CIDs are distinct and at least 4096 |
| `RuntimeManifest.ResolveValid` | crates/spawnr/src/runtime.rs:458-494 | a valid path is its own normal form |
| `RuntimeManifest.ValidPathsDoNotAlias` | crates/spawnr/src/runtime.rs:458-494 | a valid path stays below the root and different valid paths are different files |
| `RuntimeManifest.ValidPathIs` | crates/spawnr/src/runtime.rs:458-494 | the valid paths are exactly two or more plain components joined by '/', the first of which is one of four directories |
| `RuntimeManifest.LexDecides` | crates/spawnr/src/runtime.rs:496-504 | the order is the lexicographic one: the first character in which two paths differ decides |
| `RuntimeManifest.LexPrefix` | crates/spawnr/src/runtime.rs:496-504 | and a path comes before its continuations |
| `RuntimeManifest.LexTransitive` | crates/spawnr/src/runtime.rs:496-504 | byte order on paths is transitive |
| `RuntimeManifest.LexIrreflexive` | crates/spawnr/src/runtime.rs:496-504 | and irreflexive, so the duplicate test never decides alone |
| `RuntimeManifest.ValidateFiles` | crates/spawnr/src/runtime.rs:204-223 | accepts exactly the nonempty lists of valid files in strictly ascending lexicographic order |
| `RuntimeManifest.ExactMembers` | crates/spawnr/src/runtime_install.rs:441-463 | equal counts, inclusion and strict order give equality of the path sets |
| `RuntimeInstall.VerifiedTreeUnique` | crates/spawnr/src/runtime_install.rs:516-579 | a lock determines the verified tree byte for byte and mode for mode, if SHA-256 has no collisions |
| `RuntimeInstall.ReinstallChangesNothing` | crates/spawnr/src/runtime_install.rs:97-152 | installing a version again where it was verified is the identity |
| `RuntimeInstall.TableDecides` | crates/spawnr/src/runtime_install.rs:441-463 | the table kept during extraction matches the manifest exactly if the tree does |
| `RuntimeInstall.AdmissibleIsFileTree` | crates/spawnr/src/runtime_install.rs:385-398 | what has been extracted is a file tree: no file is also a directory |
| `RuntimeInstall.Runtime.DecodeManifest` | crates/spawnr/src/runtime.rs:186-271 | decoded and valid, or refused |
| `RuntimeInstall.Runtime.LoadInstallation` | crates/spawnr/src/runtime_install.rs:497-514 | faults apart, loads exactly trees with a readable valid manifest |
| `RuntimeInstall.Runtime.Walk` | crates/spawnr/src/runtime_install.rs:581-605 | finds every path and no special file |
| `RuntimeInstall.Runtime.VerifyFiles` | crates/spawnr/src/runtime_install.rs:545-579 | every listed file has its type, link count, size, mode and digest |
| `RuntimeInstall.Runtime.VerifyInstallation` | crates/spawnr/src/runtime_install.rs:516-550 | success means: exactly the manifest and its files, each as listed; faults apart it is granted to all such trees |
| `RuntimeInstall.Runtime.CopyMember` | crates/spawnr/src/runtime_install.rs:398-416 | short reads notwithstanding, the whole member and exactly its header size |
| `RuntimeInstall.Runtime.CheckHeader` | crates/spawnr/src/runtime_install.rs:341-384 | the header checks of a tar member |
| `RuntimeInstall.Runtime.ExtractMember` | crates/spawnr/src/runtime_install.rs:339-429 | one admissible member becomes one file |
| `RuntimeInstall.Runtime.ExtractMembers` | crates/spawnr/src/runtime_install.rs:336-429 | all members admissible, at most 1 GiB, and the table describes the tree |
| `RuntimeInstall.Runtime.CompareWithManifest` | crates/spawnr/src/runtime_install.rs:431-463 | succeeds exactly if the tree verifies, faults apart |
| `RuntimeInstall.Runtime.ExtractArchive` | crates/spawnr/src/runtime_install.rs:331-466 | success gives exactly the tree the members describe, at most 1 GiB, and that tree verifies; a good archive succeeds without faults |
| `RuntimeInstall.Runtime.WriteActive` | crates/spawnr/src/runtime_install.rs:607-637 | active.json is the old or the new one at every exit |
| `RuntimeInstall.Runtime.ExchangeStaging` | crates/spawnr/src/runtime_install.rs:474-480 | the directories change places, the replaced tree into staging, or nothing happens |
| `RuntimeInstall.Runtime.InstallStaging` | crates/spawnr/src/runtime_install.rs:468-495 | the exchange comes before the pointer at every crash point |
| `RuntimeInstall.Runtime.Fetch` | crates/spawnr/src/runtime_install.rs:120-131 | only bytes of the locked size and digest pass |
| `RuntimeInstall.Runtime.Stage` | crates/spawnr/src/runtime_install.rs:130-138 | what is staged has been verified |
| `RuntimeInstall.Runtime.InstallArchive` | crates/spawnr/src/runtime_install.rs:133-152 | extract, verify, install, verify again |
| `RuntimeInstall.Runtime.Setup` | crates/spawnr/src/runtime_install.rs:97-152 | at every crash point the version directory is its prior tree or verified, other versions are untouched, active.json is unchanged or names the verified tree, and a replaced tree is kept until it does; success means active, verified, and version, target, protocol and range as locked; a rerun on a verified tree changes no tree; it recovers without faults |
| `RuntimeInstall.Runtime.Discover` | crates/spawnr/src/runtime_install.rs:154-198 | returns a runtime exactly if active.json and the manifest it names agree and the CLI version is in its range, faults apart |
| `RuntimeInstall.OriginsGrow` | crates/spawnr/src/runtime_install.rs:97-152 | one setup keeps every installed version traceable to a lock |
| `RuntimeInstall.ActiveAgrees` | crates/spawnr/src/runtime_install.rs:154-198 | if no version had two manifests, the pointer and the tree it names agree |
| `RuntimeInstall.AnySetups` | crates/spawnr/src/runtime_install.rs:97-198 | over any history of crashing setups every version is verified for a lock that was used, and with immutable releases active.json always names a runtime that `discover` accepts |
| `RuntimeInstall.PointerAfterExchange` | crates/spawnr/src/runtime_install.rs:154-198 | a pointer written for one lock over a tree verified for another of the same version is accepted exactly if both have the same manifest |
| `RuntimeInstall.KilledBeforePointer` | crates/spawnr/src/runtime_install.rs:468-495 | a run that is killed between exchange and pointer ends in such a state |
| `RuntimeInstall.StalePointerExists` | crates/spawnr/src/runtime_install.rs:154-198 | two concrete locks of one version for which the stale pointer is refused |
| `ImageCache.AdvanceFacts` | crates/spawnr/src/oci.rs:74-132 | a call takes only a free lock, keeps its digest under it, and installs only where nothing is |
| `ImageCache.CommitKeepsOthers` | crates/spawnr/src/oci.rs:1067-1093 | a step under one lock disturbs no other call |
| `ImageCache.CommitKeepsOwn` | crates/spawnr/src/oci.rs:74-132 | the acting call keeps its part of the invariant |
| `ImageCache.StepKeepsEntries` | crates/spawnr/src/oci.rs:109-131 | entries are never changed, new ones are complete and bound |
| `ImageCache.StepKeepsInv` | crates/spawnr/src/oci.rs:74-132 | every step of any call keeps the cache invariant |
| `ImageCache.CacheIsSound` | crates/spawnr/src/oci.rs:74-132 | in every concurrent run with crashes in half-built temporaries and moving tags each entry is complete and made from the image of its digest, at most one build per key is installed, and a successful call points at such an entry |
| `ImageCache.OneBuilderPerKey` | crates/spawnr/src/oci.rs:94-131 | what the flock is for: no two calls with one key are past the check under the lock at once |
| `ImageCache.InstallNeverCollides` | crates/spawnr/src/oci.rs:124-130 | so a finished build always finds its place free and is installed as it was built |
| `ImageCache.EntriesStay` | crates/spawnr/src/oci.rs:124-130 | an installed entry never changes |
| `ImageCache.IncompleteNeedsMisread` | crates/spawnr/src/oci.rs:98-104 | if files can be read under the lock, "incomplete entry" is never reported |
| `ImageCache.IncompleteExactly` | crates/spawnr/src/oci.rs:95-104 | it is reported exactly when an entry, which is then complete, could not be read under the lock |
| `ImageCache.IncompleteIsReachable` | crates/spawnr/src/oci.rs:95-104 | a concrete race with one failed read reaches it without tampering |
| `ImageCache.PullIsPinned` | crates/spawnr/src/oci.rs:687-712 | with any tag or digest in the user's reference the registry is asked for the inspected digest of the same repository |
| `ImageCache.PinReplaced` | crates/spawnr/src/oci.rs:700-711 | a digest the user wrote is replaced |
| `ImageCache.WithoutTagDropsTag` | crates/spawnr/src/oci.rs:701-706 | a tag is dropped, a registry port is not |
| `ImageCache.ManifestDigestIs` | crates/spawnr/src/oci.rs:687-693 | a digest is "sha256:" and 64 hexadecimal digits |
| `ImageCache.PullOtherwise` | crates/spawnr/src/oci.rs:687-712 | a malformed digest is refused, references to other transports are left alone, and whatever is asked of a registry is pinned |
| `Frames.FrameRoundTrip` | crates/spawnr-protocol/src/lib.rs:139-161 | a written frame is read back, whatever follows it |
| `Frames.ReadFrameIsExact` | crates/spawnr-protocol/src/lib.rs:150-161 | only the encoding of a frame is read as that frame |
| `Frames.ReadFrameIsStable` | crates/spawnr-protocol/src/lib.rs:150-161 | a frame read or refused stays so, whatever arrives later |
| `Frames.ReadAllOfEncoded` | crates/spawnr-protocol/src/lib.rs:139-161 | a sequence of frames followed by an incomplete one decodes to itself |
| `Frames.PartIsIncomplete` | crates/spawnr-protocol/src/lib.rs:150-161 | a proper part of a frame is never mistaken for a frame or refused |
| `Frames.Stream.WriteFrame` | crates/spawnr-protocol/src/lib.rs:139-148 | three writes put exactly the encoding on the wire; failure leaves a prefix on a broken connection; an oversized payload writes nothing |
| `Frames.ControlRoundTrip` | crates/spawnr-protocol/src/lib.rs:108-137 | control messages up to 8 MiB round-trip and leave what follows alone |
| `Bytes.BigEndianRoundTrip` | crates/spawnr-protocol/src/lib.rs:139-161 | u32 lengths survive to_be_bytes and from_be_bytes |
| `Bytes.SignedRoundTrip` | crates/spawnr/src/guest.rs:97-102 | i32 exit codes and signals do too |
| `GuestSession.StepKeepsInv` | crates/spawnr/src/guest.rs:63-83 | every step of the two writers keeps the wire a sequence of whole frames plus one beginning |
| `GuestSession.MergeKeepsOrder` | crates/spawnr/src/guest.rs:63-83 | the merge keeps the order of each writer |
| `GuestSession.WireIsMerge` | crates/spawnr/src/guest.rs:62-160 | any interleaving of the two threads, cut anywhere, decodes to an order-preserving merge of their frames plus at most the beginning of one |
| `GuestSession.NothingBlocks` | crates/spawnr/src/guest.rs:62-83 | no deadlock: as long as no write has failed, every run of the two threads can be continued until all their frames have arrived |
| `GuestSession.InputArrivesInOrder` | crates/spawnr/src/guest.rs:67-83 | the stdin bytes on the wire are a prefix of what was typed |
| `GuestSession.FedIsTyped` | crates/spawnr-agent/src/command.rs:281-297 | what the guest command has been fed is a prefix of what was typed |
| `GuestSession.SignalsAreUnderstood` | crates/spawnr/src/guest.rs:136-160 | the guest accepts each frame of the signal thread and acts on the same signal or size |
| `GuestSession.WireIsUnderstood` | crates/spawnr-agent/src/command.rs:281-297 | what the two threads send, in whichever order, consists of frames that the guest accepts, up to one that is incomplete |
| `GuestSession.HostLoop` | crates/spawnr/src/guest.rs:85-106 | the reader loop computes the host's view of the received bytes, which the next three rows describe |
| `GuestSession.HostViewIs` | crates/spawnr/src/guest.rs:85-106 | for every received stream: the output before the first frame that is not output is printed, that frame decides about the ending, and without one the connection was lost |
| `GuestSession.NoCodeInvented` | crates/spawnr/src/guest.rs:85-106 | an exit code is returned exactly if output frames are followed by an exit frame of four bytes, which are that code |
| `GuestSession.BrokenOffIsLost` | crates/spawnr/src/guest.rs:88 | a stream that breaks off anywhere before the end of the exit frame is an error, and what was printed is a beginning of the output |
| `GuestSession.HostSees` | crates/spawnr/src/guest.rs:85-106 | the host prints exactly the output frames and returns exactly the code sent |
| `GuestSession.ExitCodeTells` | crates/spawnr-agent/src/command.rs:736-740 | the code determines the status, except that exiting with 128 + n looks like being killed by signal n |
| `GuestSession.Pty.Apply` | crates/spawnr-agent/src/command.rs:292-297 | what one host frame does to the guest command |
| `GuestSession.Pty.Read` | crates/spawnr-agent/src/command.rs:270-279 | a read after poll reported output is never empty |
| `GuestSession.Forward` | crates/spawnr-agent/src/command.rs:270-279 | output that can be read becomes one frame; nothing is sent exactly when nothing can be read |
| `GuestSession.Drain` | crates/spawnr-agent/src/command.rs:307-332 | draining forwards in order, and all that was available when the command exited, unless the deadline cuts it off after that many reads |
| `GuestSession.TakeInput` | crates/spawnr-agent/src/command.rs:281-297 | one host frame is taken off the wire and applied; it fails exactly if there is no whole frame that the guest accepts |
| `GuestSession.Relay` | crates/spawnr-agent/src/command.rs:229-305 | on success the wire carries the output read from the PTY, in frames, and then the exit code; nothing that could be read is left unless the deadline passed; the command was fed the input, sent the signals and given the window size that the frames taken say, in order; it succeeds over a connection that holds with a host whose frames the guest accepts |
| `GuestSession.Interactive` | crates/spawnr/src/guest.rs:53-107 | end to end: host output is what was read from the PTY, with nothing left that could be read unless the deadline passed, and the returned i32 is the command's exit code, or 128 plus the signal that ended it; over a connection that holds, with input the guest accepts, there is such a result |
| `ImageEnvironment.SplitOnce` | crates/spawnr-agent/src/session.rs:211-213 | split at the first '=' |
| `ImageEnvironment.LegalByParts` | crates/spawnr/src/oci.rs:571-584 | the host's and the guest's name and value checks describe the same entries |
| `ImageEnvironment.HostAccepts` | crates/spawnr/src/oci.rs:556-587 | the host accepts exactly the legal lists |
| `ImageEnvironment.Parse` | crates/spawnr-agent/src/session.rs:196-228 | the guest accepts exactly the same lists and lets the last entry win |
| `ImageEnvironment.LastWinsValue` | crates/spawnr-agent/src/session.rs:221-225 | a name has the value of its last entry |
| `ImageEnvironment.LastWinsNames` | crates/spawnr-agent/src/session.rs:221-225 | and no other names appear |
| `ImageEnvironment.EncodedIsJoin` | crates/spawnr-agent/src/session.rs:162-175 | the file is the entries joined by NUL and closed by NUL |
| `ImageEnvironment.EncodedSize` | crates/spawnr-agent/src/session.rs:162-175 | its size is what the limit counts |
| `ImageEnvironment.StoredEncoded` | crates/spawnr-agent/src/session.rs:162-194 | splitting the stored file gives the entries back |
| `ImageEnvironment.Encode` | crates/spawnr-agent/src/session.rs:162-175 | encodes exactly the legal lists |
| `ImageEnvironment.Decode` | crates/spawnr-agent/src/session.rs:125-194 | accepts exactly files within the limit whose entries are UTF-8 and legal |
| `ImageEnvironment.Transport` | crates/spawnr-agent/src/session.rs:162-228 | host check, encoding and decoding together: a list arrives exactly if it is legal, and decode(encode(es)) is parse(es) |
| `ImageEnvironment.EscapeCharBound` | crates/spawnr/src/oci.rs:29-34 | no character takes more than six bytes per byte of its UTF-8 form, in whichever form RFC 8259 allows |
| `ImageEnvironment.EscapeBound` | crates/spawnr/src/oci.rs:29-34 | the same for texts |
| `ImageEnvironment.JsonItemsBound` | crates/spawnr/src/oci.rs:29-34 | what escaping can make of an environment |
| `ImageEnvironment.JsonFits` | crates/spawnr/src/oci.rs:542-554 | the 8 MiB check never refuses the JSON of an environment within the limits, whatever escapes the encoder chooses |
| `ImageEnvironment.MetadataFits` | crates/spawnr/src/oci.rs:613-641 | nor the pretty-printed cache metadata, as long as its other fields stay below 2015 KiB |
| `ChildEnvironment.Command.SetAll` | crates/spawnr-agent/src/command.rs:383-394 | a layer overrides what is below it and nothing else |
| `ChildEnvironment.Command.ApplySession` | crates/spawnr-agent/src/session.rs:89-123 | the session sets or removes its five names and leaves all others |
| `ChildEnvironment.Command.Inherit` | crates/spawnr-agent/src/command.rs:380-391 | account over image over the fallback PATH |
| `ChildEnvironment.Command.CheckSize` | crates/spawnr-agent/src/command.rs:398-457 | accepts exactly environments and arguments within both limits: 1 MiB for the environment, and ARG_MAX less 32 KiB for environment, arguments and pointers |
| `ChildEnvironment.Command.Populate` | crates/spawnr-agent/src/command.rs:374-396 | for every name the five mutated layers give what precedence says: request, session, account, image, fallback; success exactly if the result fits |
| `ChildEnvironment.Command.PopulateFromEntries` | crates/spawnr-agent/src/command.rs:374-396 | from the Config.Env list to the child: a name that nothing above the image decides has the value of its last entry |
| `ChildEnvironment.BytesWithout` | crates/spawnr-agent/src/command.rs:398-425 | the size of an environment does not depend on the order of summation |
| `ChildEnvironment.ManagedNamesAreNotInherited` | crates/spawnr-agent/src/session.rs:89-123 | a name the session manages never comes from the image, and is absent if session and request do not set it |
| `ChildEnvironment.ImageBytes` | crates/spawnr-agent/src/command.rs:398-425 | what the host counts is at least what the variables take, and the same exactly if no name appears twice |
| `ChildEnvironment.EffectiveSize` | crates/spawnr-agent/src/command.rs:398-425 | the effective environment is what survives of the image plus what is there without it |
| `ChildEnvironment.AcceptedExactly` | crates/spawnr-agent/src/command.rs:398-457 | the guest accepts a command exactly if the surviving part of the image and everything else together fit |
| `ChildEnvironment.FullImageIsLegal` | crates/spawnr/src/oci.rs:556-587 | a one-variable list that uses the limit up is accepted |
| `ChildEnvironment.FullImageRefusesCommands` | crates/spawnr-agent/src/command.rs:398-425 | the accepted list whose one variable X uses the limit up makes every command fail that does not set X itself |
| `ChildEnvironment.FullImageMayBeHarmless` | crates/spawnr-agent/src/command.rs:398-425 | the same list with HOME instead of X costs nothing |
| `Reaper.StepKeepsManager` | crates/spawnr-agent/src/reaper.rs:16-84 | every step keeps a guard's PID tracked and out of the scan's hands |
| `Reaper.NothingIsStolen` | crates/spawnr-agent/src/reaper.rs:16-84 | in every interleaving the scan never takes the status of a registered unwaited child, if no PID is recycled under a guard or between its listing and its waitpid |
| `Reaper.AbandonedIsCollected` | crates/spawnr-agent/src/reaper.rs:31-84 | an abandoned child is tracked until its guard drops and collected by one scan afterwards |
| `Reaper.ListingMustNotBeRecycled` | crates/spawnr-agent/src/reaper.rs:53-84 | on a kernel that may recycle listed PIDs, whatever it promises about guards, some run steals |
| `Reaper.GuardMustNotBeRecycled` | crates/spawnr-agent/src/reaper.rs:31-38 | on a kernel that may recycle the PIDs of living guards, whatever it promises about listings, some run steals |
| `Reaper.HarmlessExactlyIfCareful` | crates/spawnr-agent/src/reaper.rs:16-84 | the scan is harmless in all runs exactly on kernels that do neither |
| `Sequences.JoinSplit` | crates/spawnr/src/runtime.rs:472-477 | joining the split parts gives the text back |
| `Sequences.SplitSeparates` | crates/spawnr/src/runtime.rs:472-477 | no part holds a separator, and there are two or more exactly if the text holds one |
| `Sequences.JoinHolds` | crates/spawnr/src/runtime.rs:472-477 | a joined text holds what its parts hold, and separators |
| `Sequences.SplitJoin` | crates/spawnr-agent/src/session.rs:177-194 | splitting joined parts gives the parts back |

## Left out

- skopeo, umoci, mkfs, e2fsck, fuse2fs and the publishing script: a build is one step that yields a complete or no temporary entry, and a registry copy by digest is taken to yield the image of that digest.
- HTTP, tar, zstd, JSON, semver, SHA-256 and UUID code: function parameters, or inputs. SHA-256 is assumed free of collisions only where a contract names `CollisionFree`; cache keys are represented by the inputs of their hash, and UUIDs by numbers drawn once.
- The component, launcher, target, protocol and version rules of manifests and locks: the parameters `general`, `lockGeneral`, `semver` and `compatible`.
- Directory modes of an installed runtime and leftover temporary directories of killed runs.
- Validation of environment references and of `exec` requests, `open`, `publish`, `list`, `doctor`, argument parsing and terminal handling.
- The kill(2) fallback on kernels without pidfds: it is in the model, but the signalling statements are limited to pidfd kernels.
- Power loss and fsync; SIGKILL of the CLI inside signal-blocked windows of machine ownership.
- Clocks: each wait ends after some number of polls.
- Two CLI processes on one machine at a time: the state flock serialises them, so histories are sequences.
- Lifecycle.Machine.Start: whether a helper comes up in time depends on foreign programs, so there is no statement that it does; deadlines are some number of polls, which may be none.
- Lifecycle.Machine.GetStatus: the two identity files are inspected one after the other, so "running" speaks about the moment before the first.
- Ownership.Store.StopHelpers: summarises the lifecycle model by its result instead of calling it: success means no live helper and a whole session, and it succeeds without faults if helpers obey SIGTERM, as `Lifecycle.Machine.Stop` proves.
- Ownership.Store.InitMachine: restricted to fewer than 2^32 - 4096 machines; with all CIDs used the source loops forever (`Names.ProbeNeverEnds`).
- Ownership.Store.CloneMachines: the same bound on existing machines plus clones; what the guest clones is recorded as repository and directory, not as file contents.
- Names.AllocateCloneNames: the number of names in use plus the count stays below 2^32, the range of the suffix counter; `char::to_lowercase` is any function that yields no ASCII capitals.
- SparseClone.SparseCopy: sources that change during the copy are not modelled; the layout that the filesystem reports does not change either.
- Frames.Stream.WriteAll: a socket write that fails means the connection is gone, so nothing written later arrives.
- GuestSession.Relay: the guest's own system calls (poll, writes to the PTY, setting the window size) do not fail, and process group signals to leftover children are not modelled.
- GuestSession.HostLoop: writing to the host's own terminal does not fail.
- The two disks of a machine in `Lifecycle`: no step of the source names them, and in the model no step can assign them.
- ImageEnvironment.MetadataFits: holds while the other metadata fields, the source reference above all, stay below 2015 KiB; the source puts no limit on them.
- ImageEnvironment.Transport: ownership and permission bits of the guest file are not modelled.
- Reaper.NothingIsStolen: the assumption on PID reuse stated in `Kernel`.

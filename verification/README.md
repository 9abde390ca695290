# Verified models of wings-rs

A Dafny model of the state machines and algorithms inside the wings-rs game-server daemon, with proofs of what they keep over whole runs. `dafny verify dfyconfig.toml` checks all of it.

Disk accounting is the largest part. The daemon keeps a nested index of directory sizes and one cached counter, and both stand in for a flat ledger of bytes per directory. The tree is a heap structure here, as in the daemon: `DiskUsage.dfy` has nodes whose methods change sizes and entry maps in place, each proved against a flat map from paths to sizes. `Basics.dfy` holds what several modules share, `PathMaps.dfy` has the algebra of such maps, `Ledger.dfy` the ledger and its sums, `Filesystem.dfy` the quota gate, deletes and moves, `DiskRuns.dfy` the run theorems, `DiskScan.dfy` the scan that rebuilds index and counter, and `QuotaRace.dfy` the gate under concurrent callers.

Around it stand the two writers that charge bytes in batches (`Writers.dfy`, `AsyncWriter.dfy`), the console splitter and its throttle (`LineSplitter.dfy`, `Throttle.dfy`), the power-action lock and the crash watcher as step systems (`PowerLock.dfy`, `CrashWatcher.dfy`), the rewriting of JSON and properties files (`JsonUpdate.dfy`, `Properties.dfy`), the CurseForge fingerprint (`Fingerprint.dfy`), the content search (`ContentSearch.dfy`) and lexical path resolution (`PathResolve.dfy`).

Code that changes its state is a class or a method proved against a specification function; concurrent code is a state machine whose steps are the atomic accesses. Ghost parameters called `s`, `sub`, `at` and `root` describe the tree a node hangs in and have no counterpart at run time.

Several properties hold only under a condition, and are stated as an equivalence with it:

- A file move is accounted for exactly when the counter, as a signed number, is not above a nonzero limit, because the second half of the move passes the quota gate again and its refusal is ignored.
- A directory move is accounted for exactly when nothing else is recorded at the target.
- Past 2^63 bytes the signed deltas wrap: the exact conditions for the delete of such a directory and for a scan that finds one are part of the run and scan theorems.
- Concurrent frees can wrap the counter below zero, because the load and the store are separate; the condition under which a free may start is exact, and so is the range of limits and deltas in which the overshoot of concurrent callers is bounded.
- The polled writer forgets a refused batch, and adds a write up again at every retry, after a pending allocation or a blocked file alike; it under-counts exactly when more was refused than wasted in this way.
- The lock's check and store are separate, so two power actions can run together without any timeout; they do exactly when an entry finds the lock held. A failed action restores the state its caller saw before waiting, current or not.
- The "server is ready" check is independent of how the console stream is chunked exactly when no terminated line is longer than 512 bytes; the lines always are.
- Two JSON updates commute exactly unless they race for a non-object, the order of all replacements is irrelevant exactly when no two race, and a second pass changes nothing exactly when every value reads back coerced.
- Properties processing is idempotent exactly on the texts that leave no line ending in a carriage return, given replacements that leave alone the values they put in place.
- With full reads, a query is found wherever it is exactly when it is at most one byte longer than the buffer, or the file fits in two reads, or the file is shorter than the query.
- Resolving a join piecewise can leave a leading "." that resolving it whole does not, and a leading "." changes the names a path is charged under.

## Model

| member | source | states |
|---|---|---|
| DiskRuns.RunAgrees | application/src/server/filesystem/mod.rs:388-467 | In every run of allocations, frees, deletes and moves whose bytes do not overflow, index and counter agree with the flat ledger in every state if and only if every operation meets its guard: a file move only while the counter, read as a signed number, is not above a nonzero limit; a directory move only where nothing but the directory itself is recorded at the target; a delete of a directory of more than 2^63 bytes only where the gate admits its wrapped delta and the directories above hold nothing else. All other operations always settle. |
| DiskRuns.StepSettles | application/src/server/filesystem/mod.rs:388-467 | One operation, whichever it is, keeps the agreement if and only if its guard holds. |
| DiskRuns.MoveFileSettles | application/src/server/filesystem/mod.rs:463-466 | A file move frees and then allocates again through the quota gate, so the accounts stay right exactly when the counter, read as a signed number, does not exceed a nonzero limit (or nothing is moved). |
| DiskRuns.MoveDirectorySettles | application/src/server/filesystem/mod.rs:447-462 | A directory move settles exactly when the directory is not recorded, or nothing else is recorded at the target; the code overwrites a nonempty target while its ancestors keep the overwritten bytes. |
| DiskRuns.DeleteDirectorySettles | application/src/server/filesystem/mod.rs:395-407 | Although both the size update and the removal run, each directory above a deleted one loses its bytes exactly once. Past 2^63 bytes the delta turns positive: it saturates every directory above, which the removal then leaves at zero, so the accounts stay right exactly when the gate admits it and those directories hold nothing else. |
| DiskRuns.HugeDeleteFails | application/src/server/filesystem/mod.rs:395-407 | Without a limit and from a new file system, a run of three allocations and such a delete loses the agreement. |
| DiskRuns.DeleteFileSettles | application/src/server/filesystem/mod.rs:399-402 | Freeing a file under its own path takes its bytes off its parents, and the zero entry left at the file's path changes nothing. |
| DiskRuns.AllocateSettles | application/src/server/filesystem/mod.rs:672-703 | An allocation is charged to the directory and everything above it if admitted, and to nothing if refused. |
| DiskRuns.ReallocationAdmitted | application/src/server/filesystem/mod.rs:463-466 | After the first half of a file move the gate admits the second half exactly when the counter, read as a signed number, was within a nonzero limit before. |
| DiskRuns.CounterIsTopLevel | application/src/server/filesystem/mod.rs:162-167 | In agreement the cached counter is the root's own bytes plus the sizes of the top-level entries. |
| DiskRuns.RelocateInPlace | application/src/server/filesystem/usage.rs:46-98 | Removing a directory and adding it back at the same path restores every size but the root's own, if and only if each directory above it was recorded with at least its size. |
| DiskRuns.AllocationWithinLimit | application/src/server/filesystem/mod.rs:677-687 | An admitted allocation from within the limit stays within it exactly when the sum fits a signed 64-bit number; then a refused one changes neither counter nor index. |
| DiskRuns.GateStays | application/src/server/filesystem/mod.rs:677-698 | From within a nonzero limit, one call of the gate leaves the counter within it exactly when a positive delta adds up to a signed 64-bit number; a larger sum wraps and is admitted. |
| DiskRuns.GateExactly | application/src/server/filesystem/mod.rs:672-703 | For every counter, limit and delta, when the gate refuses and the whole state after it, in numbers: a sum of 2^63 or more reads as a negative one, a counter past 2^64 goes round, a free stops at zero, and zero changes nothing. |
| DiskRuns.DeleteRecords | application/src/server/filesystem/mod.rs:395-407 | Deleting a directory recorded with no bytes changes nothing, its entry included; deleting any other leaves nothing recorded at or below it. |
| DiskRuns.RootSizeMoved | application/src/server/filesystem/usage.rs:25-98 | The root's own size is not the sum of what is below it: no operation changes it but the move of a recorded directory, which adds all of that directory's size wherever it goes. |
| DiskRuns.RunWithinLimit | application/src/server/filesystem/mod.rs:388-467 | From within a nonzero limit, a run of allocations, frees, deletes and moves keeps the counter within it in every state if and only if every sum it asks the gate for fits a signed 64-bit number. |
| DiskRuns.EmptyAgrees | application/src/server/filesystem/usage.rs:3-7 | A fresh index and a zero counter agree with the empty ledger. |
| Ledgers.UsedMoved | application/src/server/filesystem/mod.rs:450-462 | Moving a subtree of the ledger conserves the total, takes its bytes off everything above the source and puts them on everything above the target. |
| Ledgers.UsedSplit | application/src/server/filesystem/usage.rs:54-73 | The bytes below any directory are those outside a subtree plus what of the subtree lies below it. |
| DiskScan.Rescan | application/src/server/filesystem/mod.rs:121-167 | The loop over a tree leaves exactly the accounts the specification of a scan gives, and swaps them in. |
| DiskScan.RecursiveSize | application/src/server/filesystem/mod.rs:123-160 | The recursive loop returns a directory's own length and its direct entries', and updates the index for every directory inside. |
| DiskScan.EntryTotal | application/src/server/filesystem/mod.rs:163-164 | Adding up the top-level entries in any order gives their sum, modulo 2^64. |
| DiskScan.ScanSettles | application/src/server/filesystem/mod.rs:121-167 | For every finite tree whose lengths do not overflow, index and counter agree after the scan with the ledger of what the tree holds if and only if no directory inside the root has a length and direct entries' lengths of 2^63 bytes or more, whose cast would be subtracted. |
| DiskScan.LargeDirectoryMissed | application/src/server/filesystem/mod.rs:151-154 | A tree the scan gets wrong: a directory with two files that add up to 2^63 bytes. |
| DiskScan.ScanFinds | application/src/server/filesystem/mod.rs:136-157 | The index records exactly the root and the directories of the tree, and each is charged its own length and its direct entries'. |
| DiskScan.StoredTotal | application/src/server/filesystem/mod.rs:134-167 | The stored total counts every file once, every directory inside the root twice, and the root once, exactly when the tree is such a one, and falls short otherwise. |
| DiskScan.ScanThenRun | application/src/server/filesystem/mod.rs:388-467 | A run that starts from a scan keeps index, counter and ledger together in every state if and only if the tree is such a one and every operation meets its guard. |
| Filesystems.Filesystem.AllocateInPathRaw | application/src/server/filesystem/mod.rs:672-703 | The quota gate: when it grants, and the whole accounting state after it, wrap-around and saturation included. |
| Filesystems.Filesystem.TruncatePath | application/src/server/filesystem/mod.rs:388-407 | Deletion accounting for a file and for a directory, with the size looked up first and the index entry removed only when it is not zero. |
| Filesystems.Filesystem.MoveDirectory | application/src/server/filesystem/mod.rs:447-462 | The directory branch of a rename: what is taken off is what is hung below the target. |
| Filesystems.Filesystem.RenamePath | application/src/server/filesystem/mod.rs:418-467 | Both branches of a rename, with the whole accounting state after them. |
| Filesystems.Filesystem.ClearAll | application/src/server/filesystem/mod.rs:730-732 | Everything is dropped but the root's own size, and the counter is zero. |
| Filesystems.Filesystem.RecordedSize | application/src/server/filesystem/mod.rs:395-397 | The size looked up in the nested index is the one recorded for the path, or zero. |
| DiskIndex.DiskUsage.GetSize | application/src/server/filesystem/usage.rs:10-23 | The recursive lookup finds a size exactly for the recorded paths, and it is the recorded one. |
| DiskIndex.DiskUsage.UpdateSize | application/src/server/filesystem/usage.rs:25-44 | The descent changes every non-empty prefix of the path by the delta, saturating, creates the missing ones, and touches nothing else; the tree stays a tree. |
| DiskIndex.DiskUsage.RemovePath | application/src/server/filesystem/usage.rs:46-52 | The root is never removed; otherwise the subtree comes off as a tree of its own, sharing no node with the rest. |
| DiskIndex.DiskUsage.RecursiveRemove | application/src/server/filesystem/usage.rs:54-73 | Exactly the paths at and below the target go, and only directories strictly between the start and the target lose its size. |
| DiskIndex.DiskUsage.AddDirectory | application/src/server/filesystem/usage.rs:79-98 | Every proper prefix of the target, the root included, grows by the source's size, and the source replaces whatever was at the target. |
| DiskIndex.DiskUsage.RaiseParents | application/src/server/filesystem/usage.rs:86-92 | The walk down the parents creates what is missing and raises every node it leaves behind. |
| DiskIndex.DiskUsage.Clear | application/src/server/filesystem/usage.rs:75-77 | All entries go, the root's own size stays. |
| DiskIndex.RelocatedSize | application/src/server/filesystem/usage.rs:46-98 | The size at any path after a removal followed by an addition, read off the sizes before. |
| DiskIndex.UpdatedClamped | application/src/server/filesystem/usage.rs:25-44 | An update records every path on the way but the root, and takes each to the exact sum, cut off at zero and at 2^64 - 1. |
| DiskIndex.RemovedClamped | application/src/server/filesystem/usage.rs:46-73 | A removal takes the exact difference on the recorded directories strictly between the root and the target, no lower than zero. |
| DiskIndex.AddedClamped | application/src/server/filesystem/usage.rs:79-98 | An addition takes the exact sum, up to 2^64 - 1, on every directory above the target, the root included, and leaves at the target exactly what is added. |
| QuotaRace.OvershootBounded | application/src/server/filesystem/mod.rs:677-698 | With k concurrent callers, check and add being separate steps and frees two steps as well, the counter never exceeds limit + (k-1) * D in any interleaving of covered frees: one that will subtract runs beside none that will store zero, and those that subtract take no more together than the counter holds; one that will store zero runs beside none that will subtract. |
| QuotaRace.OvershootExactly | application/src/server/filesystem/mod.rs:677-687 | For deltas up to the limit, that bound holds in every run of covered frees if and only if limit + k * D fits a signed 64-bit number, or the bound is past what the counter can hold. |
| QuotaRace.PastBoundRuns | application/src/server/filesystem/mod.rs:677-687 | Otherwise a run of allocations alone breaks it: the overshot counter and one more delta read as a negative number, which the gate admits. |
| QuotaRace.CoverExactEverywhere | application/src/server/filesystem/mod.rs:677-698 | Where limit + k * D fits a signed 64-bit number, the cover is exact: in every state covered frees can reach, a further free may start if and only if it is covered, the bound holding then for everything that can follow and broken by some continuation otherwise. |
| QuotaRace.AtOnceBounded | application/src/server/filesystem/mod.rs:685-698 | Where every free stores at once after it loads, the bound needs no further condition. |
| QuotaRace.OvershootAttained | application/src/server/filesystem/mod.rs:677-687 | The bound is attained for every k. |
| QuotaRace.UncoveredWraps | application/src/server/filesystem/mod.rs:689-697 | Any uncovered free can be continued, by the pending stores alone, so that the counter wraps below zero, past any limit. |
| QuotaRace.OverlappingFreesWrap | application/src/server/filesystem/mod.rs:689-694 | Two callers are enough for that, from any counter. |
| QuotaRace.AloneIsAllocate | application/src/server/filesystem/mod.rs:672-703 | Uninterrupted, the separate steps are the sequential gate. |
| Writers.FileSystemWriter.AllocateAccumulated | application/src/server/filesystem/writer.rs:73-90 | The gathered bytes are charged at once or kept, with the disk left as it was when they are refused. |
| Writers.FileSystemWriter.Write | application/src/server/filesystem/writer.rs:95-109 | Outcome and whole new state of a write. |
| Writers.FileSystemWriter.Flush | application/src/server/filesystem/writer.rs:112-120 | Outcome and whole new state of a flush. |
| Writers.FileSystemWriter.Seek | application/src/server/filesystem/writer.rs:124-132 | Outcome and whole new state of a seek. |
| Writers.RunKeepsBooks | application/src/server/filesystem/writer.rs:73-133 | Over every run in which each write's sum with what is gathered fits a signed 64-bit number, refusals and other users of the disk included: bytes charged plus bytes gathered are the bytes offered, and the file holds at most 1,023,999 bytes more than were charged. |
| Writers.FlushSettles | application/src/server/filesystem/writer.rs:112-132 | A flush or seek is refused exactly when something has gathered and the gate turns it down, and then changes nothing; otherwise it answers as the file and leaves everything accepted charged and nothing gathered. |
| Writers.WriteAnswers | application/src/server/filesystem/writer.rs:95-109 | A write answers that the disk is full exactly if 1,024,000 bytes or more have gathered and the gate turns them down, and then the file is not asked; otherwise it answers as the file. |
| Writers.ToldIsAccepted | application/src/server/filesystem/writer.rs:95-109 | Over every run, the counts that writes are answered with add up to the bytes the file took. |
| Writers.SlackAttained | application/src/server/filesystem/writer.rs:95-109 | The slack of 1,023,999 bytes is attained. |
| Writers.RunSettles | application/src/server/filesystem/writer.rs:73-133 | On an undisturbed disk, index, counter and ledger gain exactly the charged bytes, in the parent directory. |
| AsyncWriter.AsyncFileSystemWriter.PollAllocation | application/src/server/filesystem/writer.rs:208-227 | What polling the allocation in flight leaves and answers. |
| AsyncWriter.AsyncFileSystemWriter.PollWrite | application/src/server/filesystem/writer.rs:231-256 | Outcome and whole new state of a polled write, whichever way the two polls of the allocation and the poll of the file answer. |
| AsyncWriter.AsyncFileSystemWriter.PollFlush | application/src/server/filesystem/writer.rs:258-276 | Outcome and whole new state of a polled flush. |
| AsyncWriter.AsyncFileSystemWriter.PollShutdown | application/src/server/filesystem/writer.rs:278-296 | Outcome and whole new state of a polled shutdown. |
| AsyncWriter.AsyncFileSystemWriter.StartSeek | application/src/server/filesystem/writer.rs:300-306 | Outcome and whole new state of a seek's start. |
| AsyncWriter.AsyncFileSystemWriter.PollComplete | application/src/server/filesystem/writer.rs:308-316 | Outcome and whole new state of a seek's completion. |
| AsyncWriter.RunBalanced | application/src/server/filesystem/writer.rs:194-316 | In every interleaving: charged + refused + in flight + gathered bytes are the bytes offered, never both in flight and gathered, and less than a batch gathered. |
| AsyncWriter.NeverUndercounts | application/src/server/filesystem/writer.rs:194-316 | Up to the first refusal, accepted bytes are at most charged + in flight + gathered, and at most charged + 1,023,999. |
| AsyncWriter.OfferedIsWasted | application/src/server/filesystem/writer.rs:231-256 | Over every run, the bytes offered and not accepted are exactly those of writes that passed their first poll and were not taken: pending, refused, blocked, failed or short. |
| AsyncWriter.WriteAnswered | application/src/server/filesystem/writer.rs:231-256 | In every balanced state: a polled write reports a number of bytes exactly when the allocations it waits for are granted and the file took that number; a full disk exactly when one was refused; it is pending exactly when one is in flight or the file is blocked; and the file takes nothing otherwise. |
| AsyncWriter.ToldIsAccepted | application/src/server/filesystem/writer.rs:231-256 | Over every run, the counts that polled writes are answered with add up to the bytes the file took. |
| AsyncWriter.SeekAnswered | application/src/server/filesystem/writer.rs:300-316 | A seek starts by sending what has gathered on its way and answers as the file; it completes when that is granted and the file says so. |
| AsyncWriter.UndercountsExactly | application/src/server/filesystem/writer.rs:194-316 | In every state of every run: charged + refused + in flight + gathered is accepted + wasted. So accepted bytes exceed charged + in flight + gathered exactly when more was refused than wasted, the 1,023,999 bound holds exactly while refused + in flight + gathered stays within wasted + 1,023,999, and with nothing left over the charge is right exactly when refused equals wasted. |
| AsyncWriter.FlushReachesFile | application/src/server/filesystem/writer.rs:258-296 | A flush reaches the file exactly when its allocations are granted, and then answers as the file with nothing gathered or in flight; otherwise it is pending while an allocation is in flight, or reports a full disk for a refused one. A shutdown does the same. |
| AsyncWriter.RefusalsForget | application/src/server/filesystem/writer.rs:208-227 | After a refusal the bound is gone: for every number of rounds there is a run that puts that many batches less one byte into the file and charges none. |
| AsyncWriter.RetriesOvercharge | application/src/server/filesystem/writer.rs:239-256 | A write of any size, retried any number of times for a pending allocation or a blocked file, is charged once for every attempt although its bytes are accepted once. |
| AsyncWriter.DropSettles | application/src/server/filesystem/writer.rs:319-333 | A writer dropped with nothing in flight and nothing refused has everything accepted charged, if the last allocation is granted. |
| LineSplitter.LineSplitter.Feed | application/src/server/container.rs:244-350 | One chunk through the buffer: the slices are those of the simple splitter on the unread bytes and the chunk, the unread bytes are its rest, and the buffer stays within 1536 bytes. |
| LineSplitter.LineSplitter.Finish | application/src/server/container.rs:352-357 | What is left at the end of the stream is the last slice. |
| LineSplitter.ReadStream | application/src/server/container.rs:244-357 | The whole reader task emits the simple splitter's slices of the whole stream, and checks for the ready marker what chunk-by-chunk feeding checks. |
| LineSplitter.ChunkingIrrelevant | application/src/server/container.rs:244-357 | Two ways of cutting one stream into chunks give the same slices. |
| LineSplitter.SlicesAppend | application/src/server/installation.rs:373-442 | Cutting a text is cutting its first part and then its rest together with the second part. |
| LineSplitter.SlicesRejoin | application/src/server/container.rs:298-343 | The slices, with their newlines, and the rest give the text back, and are a proper cut of it: no slice holds a newline or more than 512 bytes, and one without a newline after it is full. |
| LineSplitter.CutUnique | application/src/server/installation.rs:617-689 | There is no other proper cut of a text. |
| LineSplitter.SplitAllRejoins | application/src/server/container.rs:244-357 | The slices of a whole stream re-join to the stream, and each is newline-free and at most 512 bytes long. |
| LineSplitter.StartupExactly | application/src/server/container.rs:244-344 | The "server is ready" check sees the same slices for every chunking of a stream if and only if no line with a newline at its end is longer than 512 bytes. |
| LineSplitter.UnfitChecked | application/src/server/container.rs:298-325 | A whole text has only unforced cuts checked exactly when its terminated lines fit in 512 bytes. |
| LineSplitter.StartupSeesChunks | application/src/server/container.rs:251-343 | Of an unterminated line no cut is checked, with its newline in the same chunk all are; the two ways differ exactly when it is longer than 512 bytes. |
| Throttle.RateLimiter.AllowRatelimit | application/src/server/container.rs:211-242 | Verdict and whole new state for one line. |
| Throttle.RunCounted | application/src/server/container.rs:208-242 | In every run with a monotone clock, each window but the first passes exactly `lines` lines and the first one fewer, windows last, and each warns at most once. |
| Throttle.ThroughputBounded | application/src/server/container.rs:208-242 | After time T at most lines * (floor(T / interval) + 1) - 1 lines have passed. |
| Throttle.ThroughputAttained | application/src/server/container.rs:208-242 | That bound is attained at every multiple of the interval. |
| Throttle.RefusedOnlyWhenFull | application/src/server/container.rs:214-239 | A line is refused exactly when the throttle is on, the counter is full and the window still runs. |
| Throttle.WarnedFirst | application/src/server/container.rs:223-239 | Over every run of a throttle that is on, with a share of at least one line, a line brings the warning exactly if it is refused and the line before it was not. |
| Throttle.ShareThenWindow | application/src/server/container.rs:208-242 | After a line that restarts the window, one line less than the share passes whenever those come, and the next passes exactly if the interval has run out. |
| Throttle.ShareThenWindowFresh | application/src/server/container.rs:208-242 | So it is from the start. |
| Throttle.OffPasses | application/src/server/container.rs:214-216 | With the throttle off, or an interval of zero, every line passes without a warning; with a share of no lines, none warns. |
| PowerLock.BodiesBounded | application/src/server/state.rs:76-118 | In every interleaving of the separate check and store, running bodies are at most one for a held lock plus one for every entry that found it held; a held lock has a running body; broadcasts are exactly the changes and the last is the state. |
| PowerLock.MutualExclusion | application/src/server/state.rs:76-118 | With check and store as one step, bodies are at most one for a held lock plus the callers that entered after their timeout; without those, power actions exclude one another. |
| PowerLock.MutualExclusionExactly | application/src/server/state.rs:76-118 | In every run of the separate steps, two bodies are inside together at some moment if and only if some entry finds the lock held. |
| PowerLock.StepAccounted | application/src/server/state.rs:76-118 | Every step keeps the exact balance of bodies, lock, overtaking entries and releases that found the lock open. |
| PowerLock.CheckThenStoreRaces | application/src/server/state.rs:89-103 | As written, two callers can pass the check together and run together with no timeout involved. |
| PowerLock.FailureRestores | application/src/server/state.rs:87-111 | Over every run, with everyone else doing anything, a failed action leaves the state its caller read before it waited, whichever one its body replaced. |
| PowerLock.SuccessKeeps | application/src/server/state.rs:105-116 | Over every run, a body begins in the state its caller asked for, and an action that succeeds takes nothing back and leaves the lock open; the state stays unless someone else set one meanwhile. |
| PowerLock.StaleRestored | application/src/server/state.rs:87-111 | That state can be stale: a run without timeouts or overtaking in which a failed action takes the server back from a state another action reached meanwhile. |
| PowerLock.ServerStateLock.SetState | application/src/server/state.rs:54-70 | The state is stored and broadcast exactly when it changes. |
| PowerLock.ServerStateLock.ExecuteAction | application/src/server/state.rs:76-118 | One caller with nobody beside it ends where the protocol's steps end: in the state asked for if it is done and in the old one if not, the lock open unless it was turned away. |
| CrashWatcher.RestartsBounded | application/src/server/mod.rs:136-333 | Over every run with a monotone clock: crash restarts are the timeout apart, each container is followed by at most one start, and every start has its cause, a crash since `crash_handled` was cleared or a restart asked for. |
| CrashWatcher.StepCaused | application/src/server/mod.rs:207-326 | Every step keeps the accounts of starts, pending decisions, clearings and requests. |
| CrashWatcher.StepSound | application/src/server/mod.rs:207-326 | Every step keeps the crash restarts spaced and each container within one start. |
| CrashWatcher.ExitAnswered | application/src/server/mod.rs:202-333 | Whatever follows an exit, its watcher has started the server in the end if and only if a restart had been asked for, or the exit was an unhandled, unclean one nobody asked for and the decision found the last crash the timeout ago; so a stop with no restart asked for is never followed by a start. |
| CrashWatcher.DecisionStarts | application/src/server/mod.rs:276-330 | In every state runs can reach, a decision starts the server exactly if no crash restart is on record or the last one is the timeout ago to the nanosecond, and records the restart exactly then. |
| CrashWatcher.CrashRestarted | application/src/server/mod.rs:202-333 | Whatever has happened before, the unclean exit of a new container that nobody asked to stop or restart is followed by a start exactly if no crash restart is on record or the last is the timeout ago; the first crash always is. |
| CrashWatcher.ExitClears | application/src/server/mod.rs:205-258 | An exit leaves neither the stop nor the restart flag set, takes the server offline, and counts as handled unless it is one to be ignored. |
| CrashWatcher.FlagsKept | application/src/server/mod.rs:433-1053 | No other step clears a stop or restart flag or sets one it does not ask for; `crash_handled` is cleared by a set-up or a settled attach of an online server and set by an attach. |
| CrashWatcher.ServerFlags.HandleExit | application/src/server/mod.rs:205-258 | The flags after an exit, and whether it starts the server or leaves a crash to decide. |
| CrashWatcher.ServerFlags.DecideRestart | application/src/server/mod.rs:276-330 | The decision on a crash: a start exactly when the last crash is the timeout ago, in whole seconds. |
| CrashWatcher.ServerFlags.SetupContainer | application/src/server/mod.rs:429-487 | `crash_handled` is cleared in any case; a new container takes the slot exactly if it is free and one can be created. |
| CrashWatcher.ServerFlags.DestroyContainer | application/src/server/mod.rs:1130 | The slot is free again. |
| JsonUpdate.UpdateJsonValue | application/src/server/configuration/process.rs:563-695 | The level-by-level update is the specification function on the whole document. |
| JsonUpdate.ProcessReplacements | application/src/server/configuration/process.rs:520-541 | The loop over the replacements is their fold. |
| JsonUpdate.ReadsBackCoerced | application/src/server/configuration/process.rs:583-660 | A value reads back coerced exactly when no non-object stood where its last part goes, or it is a text anyway. |
| JsonUpdate.CoerceExactly | application/src/server/configuration/process.rs:584-645 | What any text coerces to: a boolean from its spellings in any case and nothing else, a 64-bit integer from its decimal spellings and nothing else, of the rest a float from what reads as one, and otherwise the text itself. |
| JsonUpdate.ShownReadsBack | application/src/server/configuration/process.rs:583-660 | A boolean or 64-bit integer written out and put anywhere that nothing blocks reads back as itself. |
| JsonUpdate.ReadsBack | application/src/server/configuration/process.rs:583-695 | What exactly an update leaves at its path. |
| JsonUpdate.OthersUnchanged | application/src/server/configuration/process.rs:563-695 | A path neither above nor below the updated one reads as before, absent included. |
| JsonUpdate.UpdatesCommute | application/src/server/configuration/process.rs:563-695 | Two updates at such paths commute exactly unless they race for one non-object with a value that is no text. |
| JsonUpdate.FoldFrame | application/src/server/configuration/process.rs:520-541 | A path apart from every replacement's is unchanged by all of them. |
| JsonUpdate.FoldReadsBack | application/src/server/configuration/process.rs:520-541 | A replacement's value reads back coerced from the final document exactly when nothing blocks it in the input, or an earlier replacement goes below the same parent, or it is a text anyway. |
| JsonUpdate.FoldReads | application/src/server/configuration/process.rs:520-541 | What exactly each replacement leaves at its path in the final document. |
| JsonUpdate.OrderIrrelevant | application/src/server/configuration/process.rs:520-541 | For separate paths, every order of the replacements gives the same document if and only if no two of them race for a non-object. |
| JsonUpdate.UpdateTwice | application/src/server/configuration/process.rs:563-695 | An update made twice is the update exactly when its value read back coerced. |
| JsonUpdate.FoldTwice | application/src/server/configuration/process.rs:520-541 | For separate paths, processing the result again changes nothing if and only if every value reads back coerced. |
| Properties.ProcessPropertiesFile | application/src/server/configuration/process.rs:371-474 | The nested loops produce the specified text. |
| Properties.IdempotentExactly | application/src/server/configuration/process.rs:371-474 | The replacements leave each value they put in place alone if and only if processing is idempotent on exactly the texts of which no line, once read, ends in a carriage return and is not replaced. |
| Properties.IdempotentOn | application/src/server/configuration/process.rs:371-474 | For such replacements and any text at all, processing is idempotent if and only if the text has no such line. |
| Properties.ReturnDropped | application/src/server/configuration/process.rs:374 | The smallest text that has one: a carriage return on a last line without a newline is dropped at the second pass. |
| Properties.UnconditionalSettled | application/src/server/configuration/process.rs:410-442 | Unconditional replacements of distinct keys do. |
| Properties.ReadsBack | application/src/server/configuration/process.rs:400-466 | An unconditional replacement's key is in the result, and every line with that key carries its value. |
| Properties.LineDecided | application/src/server/configuration/process.rs:404-442 | A line with a key gets the value of the first replacement whose key, condition and value are there, and keeps every character if there is none. |
| Properties.ConditionDecides | application/src/server/configuration/process.rs:410-442 | For distinct keys, a conditional replacement changes a line exactly when the value found is the one it names, and an unconditional one always. |
| Properties.KeptLines | application/src/server/configuration/process.rs:377-398 | A blank line, one whose first visible character is `#`, and one without `=` keep every character. |
| Properties.PaddedReads | application/src/server/configuration/process.rs:388-401 | A key is read without the blanks around it, up to the first `=`, and its value is everything after that. |
| Properties.TailInOrder | application/src/server/configuration/process.rs:447-466 | Lines added at the end stand in the order of their replacements and carry their keys and values. |
| Properties.WhitespaceIs | application/src/server/configuration/process.rs:377 | The code points that trimming takes off. |
| Properties.OthersKept | application/src/server/configuration/process.rs:374-466 | Comments, blanks, lines without a key and lines with other keys keep content and order. |
| Properties.ResultLines | application/src/server/configuration/process.rs:474 | For any text, the result reads in again as the processed lines, each without a carriage return at its end. |
| Properties.EntryReads | application/src/server/configuration/process.rs:388-401 | What is written for a key and value reads as that key and value. |
| Properties.KeyGood | application/src/server/configuration/process.rs:377-401 | The key of any line can itself be written and read back. |
| Fingerprint.CurseforgeFingerprint | application/src/routes/api/servers/_server_/files/fingerprints.rs:184-237 | For any file and any cut into reads in either pass, the byte loop returns the word-by-word hash of the bytes that are not ignored. |
| Fingerprint.CountNormalized | application/src/routes/api/servers/_server_/files/fingerprints.rs:185-198 | The first pass counts the bytes that are not ignored modulo 2^32, which is all the seed uses. |
| Fingerprint.NextByte | application/src/routes/api/servers/_server_/files/fingerprints.rs:212-227 | One byte keeps the three variables the hash of the whole words, the pending lanes and the next lane's bit, which is at most 24. |
| Fingerprint.NextLane | application/src/routes/api/servers/_server_/files/fingerprints.rs:214-215 | The pending lanes stay below the next lane, so setting its bits adds the byte in its place. |
| Fingerprint.MixAllAppend | application/src/routes/api/servers/_server_/files/fingerprints.rs:217-224 | A fourth byte completes a word that the hash takes in last. |
| Fingerprint.IgnoredAnywhere | application/src/routes/api/servers/_server_/files/fingerprints.rs:178-180 | An ignored byte makes no difference wherever it is put. |
| Fingerprint.KnownAnswers | application/src/routes/api/servers/_server_/files/fingerprints.rs:176-237 | The hash of the empty file, of one letter, of one whole word, and of a word and a half with every ignored byte among it. |
| Fingerprint.NormalizedKeeps | application/src/routes/api/servers/_server_/files/fingerprints.rs:178-180 | Exactly tabs, line feeds, carriage returns and spaces are left out. |
| ContentSearch.SearchContent | application/src/routes/api/servers/_server_/files/search.rs:146-204 | The loop reports a file exactly when a window of one read and the one before it contains the query. |
| ContentSearch.ReportedContains | application/src/routes/api/servers/_server_/files/search.rs:161-203 | For any reads, a reported file contains the query. |
| ContentSearch.ExactlyWhen | application/src/routes/api/servers/_server_/files/search.rs:161-203 | With full reads, files of length n are searched exactly for queries of length m if and only if m is at most the buffer plus one, or n at most two buffers, or n less than m. |
| ContentSearch.BufferExact | application/src/routes/api/servers/_server_/files/search.rs:146-204 | With the 8192-byte buffer, queries of up to 8193 characters are reported exactly when they occur. |
| ContentSearch.BufferExactly | application/src/routes/api/servers/_server_/files/search.rs:146-204 | With that buffer, all files of n characters are searched exactly for queries of m if and only if m is at most 8193, n at most 16384, or n less than m. |
| ContentSearch.Missed | application/src/routes/api/servers/_server_/files/search.rs:161-203 | Outside that condition, a file and a query that occurs in it and is not reported. |
| ContentSearch.FullReadsFlatten | application/src/routes/api/servers/_server_/files/search.rs:195-202 | The full reads put together are the file. |
| PathResolve.ResolvePath | application/src/server/filesystem/mod.rs:278-302 | The loop that pushes and pops is the walk over the components. |
| PathResolve.ResolvePlain | application/src/server/filesystem/mod.rs:278-302 | A resolved path has no parent component, resolves to itself, and is absolute exactly when the original was. |
| PathResolve.ResolveJoin | application/src/server/filesystem/mod.rs:278-302 | Resolving a join is resolving the join with the first part resolved, exactly unless a leading "." appears, and always up to that ".". |
| PathResolve.ParentCancels | application/src/server/filesystem/mod.rs:281-294 | A name and a parent component after it cancel, wherever they stand among names and parents. |
| PathResolve.ParentAtEdge | application/src/server/filesystem/mod.rs:281-294 | A parent component has no effect at the start or at the root, and takes a leading "." off. |
| PathResolve.ParentsClimb | application/src/server/filesystem/mod.rs:281-294 | Parent components at the end take that many names off, from the last. |
| PathResolve.RelativeStaysBelow | application/src/server/filesystem/mod.rs:305-313 | A relative path is relative and without parents, is its own relative path, and stays below an absolute resolved base when joined to it. |
| PathResolve.RelativeOfBelow | application/src/server/filesystem/mod.rs:305-313 | Asking for a path below the base, with the base in front or without, gives the same path. |
| PathResolve.RootDropped | application/src/server/filesystem/mod.rs:305-313 | An absolute path that is not below the base is taken as one from the root of the base. |
| PathResolve.NamesCharged | application/src/server/filesystem/mod.rs:305-321 | Asked for below the base, below the root or from nowhere, a place given by its names is charged under those names. |
| PathResolve.SpellingsCharged | application/src/server/filesystem/mod.rs:305-321 | Two paths join to one place below the base exactly when their relative paths differ by a leading "." at most, and are then charged under the same names exactly when both or neither, without the base or root in front, start with "." and at no point have more parent components than names. |
| PathResolve.RelativeKeepsDot | application/src/server/filesystem/mod.rs:278-313 | A relative path begins with "." exactly for such paths. |
| PathResolve.LeadingDotCharged | application/src/server/filesystem/mod.rs:316-321 | "./x" and "x" are such a pair with different names. |

## Left out

- Integer overflow: release-build wrap-around is modelled where a cast or an atomic addition can wrap (the counter, the casts between signed and unsigned sizes, the batch counter); a debug build would panic instead. The throttle's line counter and the per-run byte counts are unbounded.
- DiskRuns.RunAgrees: the deltas are truthful, and the bytes recorded do not overflow an unsigned 64-bit number; a single file is shorter than 2^63 bytes, as on any file system; a delete of the base directory itself, whose size the index does not track, is not an operation of the runs.
- DiskRuns.StepSettles: the operation on the files succeeds; a rename or delete that fails after its accounting leaves the accounts changed, which is not modelled.
- File-system calls, symbolic links, permissions and lossy decoding of names: paths are sequences of names, lengths are parameters, and a failed lookup of metadata is an entry that is not there.
- The path conversion in a directory rename (application/src/server/filesystem/mod.rs:445-460) strips an absolute base from a canonical path; the move takes both paths as component lists.
- The removal of a file over SFTP (application/src/sftp/mod.rs:340-347) frees its bytes twice and is no truthful operation.
- DiskScan.Rescan: the scan and the swap are one step; allocations made while a scan walks the disk are not modelled.
- QuotaRace.OvershootBounded: only the counter is shared; the index update after it runs under a lock, and its order among callers does not matter to the bound.
- Writers.FileSystemWriter.Write: a writer whose file was taken away is one whose file answers with an error.
- AsyncWriter.RunBalanced: a buffer is at least one batch shorter than the largest signed 64-bit number, so that its length and what is gathered before it add up.
- AsyncWriter.AsyncFileSystemWriter.PollWrite: the allocation in flight is a number and the answers of its polls are parameters; a dropped writer's allocation in flight is lost.
- The console lines' decoding and trimming, the ready marker's search in a line, and the closing slice's bypass of the throttle.
- LineSplitter.LineSplitter.Feed: the send to subscribers and the throttle are not part of the splitter; the installer's two copies of the loop have no ready check, and the same slices.
- PowerLock.BodiesBounded: storing a state and broadcasting it is one step, and an action body that is cancelled midway is not modelled, nor is the conversion between states and bytes.
- CrashWatcher.ServerFlags.SetupContainer: creating a container and taking the slot is one step, and whether it can be created is a parameter; the start of its watcher and the abort of the one before, tasks that begin and end in their own time, are steps of their own.
- CrashWatcher.ServerFlags.DestroyContainer: so is the abort of the watcher.
- CrashWatcher.RestartsBounded: the watcher reads and stores the flags of one exit in one step, so races between a stop or restart and the watcher are left open; usage messages, disk-full stops and the start itself are not modelled.
- JsonUpdate.UpdateJsonValue: the document is a value that the method returns updated, where the program updates it through a reference; reading a float is a parameter, key order is not kept, and parsing and printing a document is not modelled.
- JSON and properties replacements carry their looked-up value; the lookup itself, and a lookup that changes between two passes, are not modelled.
- Properties.IdempotentExactly: keys are trimmed, free of `=` and newlines and do not start with `#`, and values have no newline and no carriage return at their end; the theorem says nothing of other replacements.
- Fingerprint.CurseforgeFingerprint: the file's reads are two lists of chunks, and it does not change between the passes; the other hash algorithms are library calls.
- ContentSearch.SearchContent: contents are characters, one per byte; a read error, the limit on results and the check of the first bytes for text are not modelled.
- PathResolve.ResolvePath: component sequences as the standard library yields them on Unix; drive prefixes are not modelled.
- The INI, XML and plain-file rewriters, memory overhead, archive size estimation, tokens, backups, disk limiters, and all HTTP, websocket, SFTP and Docker traffic.

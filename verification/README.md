# Verified models of the workspace engines

A Dafny model of the stateful engines behind the workspace server, the desktop shell and the
native backends, with proofs of what they promise.  `dafny verify dfyconfig.toml` checks all of it.

| modules | engine | main results |
|---|---|---|
| `VcsDiff`, `VcsStore`, `VcsHistory` | commit store | a diff algebra; `log` is a chain to a root; replaying it rebuilds the head |
| `BlobGc` | blob garbage collection | no reference ever dangles, exactly when the timing margins fit |
| `StringOrder`, `FsListing`, `FsStores` | file stores and paging | both SQL layouts refine a map; drains under change miss and repeat nothing |
| `Supervisor`, `SupervisorRuns`, `SupervisorHealth` | gateway supervisor | ready exactly by good health answers, child ownership, one child, nothing after `stop`, retry and delay bounds, over all interleavings |
| `Credentials`, `CredentialRaces`, `CredentialResolution` | credential store | one table refines a flat map, exactly when no provider extends another; nobody gets another user's connection |
| `ChangeJournal` | change feed | the ring refines the unbounded log; polling clients of the live tree stay in step, those of a staged session exactly when an if-and-only-if condition holds |
| `BundleManager`, `BundleHistory` | bundle updates | crash safety of an update; the boot automaton over whole runs |
| `VfsListing`, `VfsFiles` | memory file system | expanding directories gives the recursive listing; paging drains; conditional writes lose no update, up to one exact case |
| `ActionQueue`, `Segments`, `Grants` | approval queue, grants, dispatch | queue lifecycle; longest-prefix access; dispatch decided exactly, and narrowed safely |
| `AuthCache` | principal cache | the cache is its history; hits are current, or at most one lifetime old |

`Common` holds shared datatypes.  Objects that the program mutates are classes whose methods are
proved against specification functions; the results are lemmas about those functions and about
runs of them.  Two engines whose methods suspend at awaits (supervisor, interleaved sweeps) are
step relations: each step is the code between two awaits, and steps interleave freely.

Hashing is injective, generated ids are unused when generated, and clocks are parameters that do
not run backwards.  One store call or transaction is one step, and so is one whole operation of the
single-table credential store, except in `CredentialRaces`, which takes apart the two that read before
they write.

## Where the code and its promise differ

Each of these is proved, with the exact condition or a concrete run.

- A branch named like a commit id changes what `show` and `commit` take that id for: logs can be replayed
  through `show` exactly when no branch is named so (`VcsHistory.ReplaysIffPlainNames`,
  `VcsHistory.ShadowingBreaksReplay`), and `commit` may compare with another branch's snapshot
  (`VcsHistory.CommitsOnlyChanges`, `VcsHistory.ShadowingMisleadsCommit`).
- A safety age longer than the write gap and longer than the mark phase is not enough for blob
  collection: it must exceed their sum (`BlobGc.SafeIffMarginsFit`).
- `start` during a draining `stop` leaves two children running, without any reload
  (`SupervisorRuns.StartSafeIffNoneLive`, `SupervisorRuns.IdleWithLiveChild`).
  A `maxAttempts` below one still allows one spawn (`SupervisorRuns.SpawnsKeepToMaximum`).
- `removePrefix("")` empties the DSQL store and leaves the SQLite store as it was
  (`FsStores.EmptyPrefixDiverges`).
- The SQLite listing breaks ties of `updated_at` arbitrarily although `read` does not
  (`FsStores.ListingExact`, `FsStores.TieIsReached`).  An unversioned write leaves SQLite one
  hash-readable version and DSQL none (`FsStores.PinnedReadsExact`, `FsStores.LeftoverIsReached`).
- A provider that continues another past a `#` shares pointer rows with it, so one user's connection keeps
  another user from connecting; otherwise the table refines the map (`Credentials.ExtendedProviderIsBlocked`,
  `Credentials.RefinesIffApart`), and the provider query answers for the longer one too
  (`Credentials.ForProviderExact`).
- Credentials are promised to be tried in the order of their creation.  The SQLite store lists them so; the
  single table, which the resolver is not wired to, does exactly when the drawn ids ascend with the times
  (`CredentialResolution.TableOrderIsCreation`, `CredentialResolution.NewerListedFirst`).
- In the single table an update that writes after its record was deleted leaves a row that nothing leads to,
  and a delete that commits after its user has connected again takes the new connection's pointer; no other
  late write leaves the table inconsistent (`CredentialRaces.LatePutExact`, `CredentialRaces.LateDeleteExact`).
- The delta of a staged session's poll carries changes of the live tree, which its full listing never shows
  (`ChangeJournal.StagedClientSeesLiveChanges`, `ChangeJournal.ClientExact`,
  `ChangeJournal.ExactForEveryRun`).
- Re-applying a bundle version that is already linked is not crash safe
  (`BundleManager.CrashSafeIffUnlinked`) nor failure safe: if its promotion throws, `active` names nothing
  (`BundleManager.FailedReapplyLosesActive`, `BundleManager.FailureSafeIffUnlinked`).  An apply that fails
  while recording the boot state reports an error with the new version active
  (`BundleManager.FailureKeepsActiveExact`).
- A path that is both a file and a directory is listed twice, and breaks expansion and paging
  (`VfsListing.ExpansionExact`, `VfsListing.DrainsExactly`, `VfsListing.SharedPathNeverDrains`).
- An etag is the byte length and the millisecond, so a rewrite of the same length in the same millisecond
  goes unnoticed by a conditional write (`VfsFiles.ConditionalWriteExact`, `VfsFiles.SameMillisecondLosesUpdate`).
- The remembered pattern of a release can never open a call that has no resource
  (`Grants.RememberedPatternOpens`).
- Access to a path depends on the order of the grants as soon as two with one trimmed prefix differ
  (`Grants.OrderFreeIffUnambiguous`).

## Model

| member | source | states |
|---|---|---|
| `VcsDiff.DiffMaps` | packages/native/src/vcs.ts:121-138 | the two loops compute the diff of the two maps, whatever the enumeration order |
| `VcsDiff.PartsAreDisjoint` | packages/native/src/vcs.ts:121-138 | no path is in two parts of a diff, and together they hold exactly the paths at which the trees differ |
| `VcsDiff.EmptyIffEqual` | packages/native/src/vcs.ts:159-160 | a diff is empty if and only if the trees are equal, which is what lets `commit` skip |
| `VcsDiff.ApplyToOtherBase` | packages/native/src/vcs.ts:121-138 | a diff taken from one base also works on another tree exactly when that tree already agrees with the target wherever the base did |
| `VcsDiff.ApplyDiff` | packages/native/src/vcs.ts:121-138 | applying the diff of a and b to a gives b |
| `VcsDiff.SwapIsInverse` | packages/native/src/vcs.ts:121-138 | swapping the arguments gives the inverse diff, which undoes the first |
| `VcsDiff.ConsecutiveDiffsCompose` | packages/native/src/vcs.ts:121-138 | two consecutive diffs compose, from their contents alone, to the overall diff |
| `VcsDiff.FilterMap` | packages/native/src/vcs.ts:112-119 | the filtering loop keeps exactly the entries at or below the prefix |
| `VcsDiff.FilterByPrefixExact` | packages/native/src/vcs.ts:110-119 | the filter keeps a path if and only if its segments begin with those of the prefix, and everything for no prefix or the empty one |
| `VcsDiff.FilterCommutesWithDiff` | packages/native/src/vcs.ts:112-147 | filtering a diff by prefix equals diffing the filtered trees |
| `VcsStore.VcsBackend.Stage` | packages/native/src/vcs.ts:150-152 | staging puts one path and changes nothing else |
| `VcsStore.VcsBackend.Resolved` | packages/native/src/vcs.ts:97-108 | a name resolves by ref, then by the first commit it equals or begins, or is an error |
| `VcsStore.VcsBackend.Commit` | packages/native/src/vcs.ts:154-176 | a commit is the whole-state step of the specification: unchanged with the head when nothing differs, one new record otherwise |
| `VcsStore.VcsBackend.Log` | packages/native/src/vcs.ts:178-190 | the loop returns the walk along first parents, cut at the limit |
| `VcsStore.VcsBackend.Show` | packages/native/src/vcs.ts:192-204 | the commit, its files, and the diff against its parent |
| `VcsStore.VcsBackend.Diff` | packages/native/src/vcs.ts:206-212 | the filtered diff of the two resolved snapshots |
| `VcsStore.VcsBackend.Restore` | packages/native/src/vcs.ts:222-234 | exactly the selected files of the snapshot are staged over the tree, and nothing else changes |
| `VcsHistory.RunKeeps` | packages/native/src/vcs.ts:149-235 | over any run parents are recorded strictly earlier, ids stay unique, and commits and snapshots once recorded never change |
| `VcsHistory.WalkReachesRoot` | packages/native/src/vcs.ts:182-188 | with room for every commit the walk ends at a parentless root, over distinct commits, going strictly back in time |
| `VcsHistory.LogIsChainPrefix` | packages/native/src/vcs.ts:178-190 | for any limit, `log` is the first part of one such chain |
| `VcsHistory.ResolveExact` | packages/native/src/vcs.ts:97-108 | a full commit id resolves to its commit if and only if no branch of that name points elsewhere |
| `VcsHistory.BranchResolves` | packages/native/src/vcs.ts:98-99 | a branch name resolves to its head, which exists after any run |
| `VcsHistory.ResolveAnyName` | packages/native/src/vcs.ts:97-108 | any other name decided: HEAD is `main`, else the newest commit whose id begins with it, else which error |
| `VcsHistory.CommitsOnlyChanges` | packages/native/src/vcs.ts:154-176 | for every tree and prefix `commit` records something exactly when the selection differs from the head snapshot, if and only if the id of the head resolves to a commit with that snapshot |
| `VcsHistory.CommitExact` | packages/native/src/vcs.ts:154-176 | a commit never fails, records the selection in front or leaves everything, and compares with what the id of the head resolves to |
| `VcsHistory.LogReplaysToHead` | packages/native/src/vcs.ts:178-204 | applying the changes `show` gives for the logged commits, oldest first, rebuilds exactly the head snapshot, after any run |
| `VcsHistory.ShowExact` | packages/native/src/vcs.ts:192-204 | for an unshadowed commit `show` gives the commit, exactly the paths of its snapshot, and the changes that turn its parent snapshot into it |
| `VcsHistory.DiffTurnsOneIntoTheOther` | packages/native/src/vcs.ts:206-212 | applying the diff of two names to the first snapshot, within the prefix, gives the second, and it is empty if and only if they are equal there |
| `VcsHistory.RestoreExact` | packages/native/src/vcs.ts:222-234 | after a restore each selected path holds the hash of the snapshot and every other path what it held; no commit or branch changes |
| `VcsHistory.RestoreBringsBack` | packages/native/src/vcs.ts:222-234 | a full restore makes the tree the snapshot, if and only if the tree holds no path besides |
| `VcsHistory.PlainNamesShadowNothing` | packages/native/src/vcs.ts:95-98 | runs whose branch names never look like commit ids satisfy the condition of the replay theorem |
| `VcsHistory.ReplaysIffPlainNames` | packages/native/src/vcs.ts:97-99 | for any set of branches, every legal run on them can replay the log of any one, if and only if none is named like a commit |
| `VcsHistory.ShadowingBreaksReplay` | packages/native/src/vcs.ts:97-99 | for any name that is a commit id the store could draw and any branch, a legal run on the two on which replay of that branch is wrong |
| `VcsHistory.ShadowingMisleadsCommit` | packages/native/src/vcs.ts:154-162 | on that run, for any other branch, a commit that records a change although the tree is that of the head |
| `BlobGc.BlobStore.CollectLiveBlobKeys` | server/workspace/scripts/gc-blobs.ts:50-77 | the page loop collects exactly the blobs some index row refers to |
| `BlobGc.BlobStore.SweepBlobs` | server/workspace/scripts/gc-blobs.ts:80-116 | with no concurrent writer exactly the garbage is deleted, nothing in a dry run, and the report counts what was scanned, live and deleted |
| `BlobGc.TallyOfBucket` | server/workspace/scripts/gc-blobs.ts:90-109 | over a full listing the report holds the sizes of the bucket, of its referenced part and of its garbage |
| `BlobGc.ListingFindsGarbage` | server/workspace/scripts/gc-blobs.ts:93-113 | over a full listing the stale objects are exactly the unreferenced ones not newer than the cutoff |
| `BlobGc.RunKeeps` | server/workspace/scripts/gc-blobs.ts:50-116 | every interleaving of writes, row changes and any number of sweeps keeps the invariant under which each row has its blob |
| `BlobGc.SafeIffMarginsFit` | server/workspace/scripts/gc-blobs.ts:80-116 | no reachable state has a row without its blob, if and only if write gap plus mark time is below the safety age |
| `BlobGc.LostBlob` | server/workspace/scripts/gc-blobs.ts:87-110 | otherwise, the run that loses a blob |
| `BlobGc.QuietSweepIsSequential` | server/workspace/scripts/gc-blobs.ts:80-116 | an uninterrupted sweep of the interleaved machine leaves what the sequential loop leaves |
| `BlobGc.DroppedBlobIsReclaimed` | server/workspace/scripts/gc-blobs.ts:50-116 | after a row is dropped a quiet sweep removes its blob, if and only if the blob is old enough and no other row refers to it |
| `Supervisor.BackoffGrowsToCap` | desktop/src/gateway-supervisor.ts:112-119 | the backoff never shrinks with the attempt and never exceeds the cap |
| `SupervisorHealth.BackoffDoubles` | desktop/src/gateway-supervisor.ts:112-119 | the backoff starts at the initial delay and doubles with each attempt, both up to the cap |
| `SupervisorHealth.ReadyMeansHealthy` | desktop/src/gateway-supervisor.ts:325-328 | at every point of every run the status is ready only if the last health answer since the iteration began was a good one |
| `SupervisorHealth.GoodAnswerLeadsToReady` | desktop/src/gateway-supervisor.ts:447-449 | after a good answer, and whatever calls and child events other than a stop, becoming ready is the only thing the loop can do |
| `SupervisorHealth.BadAnswerPollsAgain` | desktop/src/gateway-supervisor.ts:443-457 | after a bad answer in time the loop can only come back to a check and the next poll, or give up a child seen to have exited |
| `SupervisorHealth.LateAnswerCleansUp` | desktop/src/gateway-supervisor.ts:453-455 | after a bad answer past the deadline the child is signalled and the loop waits for its end |
| `SupervisorHealth.ReadyUntilChildExits` | desktop/src/gateway-supervisor.ts:325-330 | once ready the loop goes on if and only if the child it then held has exited |
| `SupervisorHealth.IterationEnds` | desktop/src/gateway-supervisor.ts:332-370 | an iteration nobody stops ends in the next one if a reload is pending, else in failure if the attempts are used up, else in a wait of the backoff of its attempt |
| `SupervisorHealth.AttemptsLaunch` | desktop/src/gateway-supervisor.ts:298-325 | what an attempt goes through: counted, prepared, spawned and held, then checked, or cleaned up where it fails |
| `SupervisorHealth.StartTakesEffect` | desktop/src/gateway-supervisor.ts:239-246 | starting begins a loop only when idle, with the failures counted so far |
| `SupervisorHealth.StopTakesEffect` | desktop/src/gateway-supervisor.ts:277-285 | a stop signals the current child, cancels a pending reload and ends every wait |
| `SupervisorHealth.ReloadTakesEffect` | desktop/src/gateway-supervisor.ts:266-272 | a reload signals the current child and clears the failures, unless stopping or idle, when it does nothing |
| `SupervisorHealth.ReloadWakes` | desktop/src/gateway-supervisor.ts:270-271 | once the reloaded child is gone a sleeping loop is woken |
| `SupervisorHealth.StoppingWindsDown` | desktop/src/gateway-supervisor.ts:277-372 | once stopping the loop takes at most five more steps, counts no attempt and reports no status |
| `SupervisorRuns.EveryOrphanIsSignalled` | desktop/src/gateway-supervisor.ts:262-372 | at every point of every interleaving each live child other than the current one has been signalled |
| `SupervisorRuns.TidyRunsKeepOneChild` | desktop/src/gateway-supervisor.ts:238-372 | without reload, and starting only when no child is left, at most one child is ever live |
| `SupervisorRuns.StartSafeIffNoneLive` | desktop/src/gateway-supervisor.ts:239-246 | starting from an idle supervisor keeps a single child, whatever follows, if and only if no child is still live |
| `SupervisorRuns.IdleWithLiveChild` | desktop/src/gateway-supervisor.ts:277-285 | a run without reload that reaches an idle supervisor whose child still drains |
| `SupervisorRuns.NothingSpawnsAfterStop` | desktop/src/gateway-supervisor.ts:277-285 | after a `stop` call resolved, the loop it was called on, and every earlier one, never spawns again |
| `SupervisorRuns.SpawnsAreBounded` | desktop/src/gateway-supervisor.ts:295-372 | with n allowed attempts and r reloads at most n + r(n + 1) children are spawned, plus one for each start made with the budget spent |
| `SupervisorRuns.SpawnsKeepToMaximum` | desktop/src/gateway-supervisor.ts:298-357 | every run without reload and late start keeps to `maxAttempts` spawns, if and only if that is at least one |
| `SupervisorRuns.GivingUpHoldsFailed` | desktop/src/gateway-supervisor.ts:354-357 | with no reload, a loop that ended unasked has made its last allowed attempt and holds `failed` |
| `SupervisorRuns.DelaysAreBounded` | desktop/src/gateway-supervisor.ts:365-370 | between reloads the delays never decrease, never exceed the cap, and sum to at most the cap times one less than the attempts |
| `StringOrder.LessTotal` | server/workspace/src/fs-store.ts:229-232 | the path order of the listings is total |
| `StringOrder.LessExact` | server/workspace/src/fs-store.ts:229-232 | a path precedes those it begins, and else the first differing character decides |
| `StringOrder.SortedAscends` | server/workspace/src/fs-store.ts:229-231 | a set of paths has an ascending enumeration with exactly its elements |
| `StringOrder.AscendingUnique` | server/workspace/src/fs-store.ts:229-231 | and only one |
| `FsListing.ListByResumeKey` | server/workspace/src/fs-store.ts:437-476 | however the key query is cut into pages, the loop returns the resume-key page |
| `FsListing.FilteredQueryIsRemaining` | server/workspace/src/fs-store.ts:455-467 | dropping the rows that only share a partial segment leaves exactly what remains to be listed |
| `FsListing.BothSchemesPage` | server/workspace/src/fs-store.ts:215-250 | for any limit of at least one both schemes answer the first paths that remain: exactly the limit with the last as cursor, or all of them and none |
| `FsListing.DrainAscends` | server/workspace/src/fs-store.ts:156-169 | whatever is written or removed between pages, no path is returned twice and order is kept |
| `FsListing.DrainFindsSurvivors` | server/workspace/src/fs-store.ts:156-169 | a finished drain has every path that was stored throughout |
| `FsListing.DrainIsHonest` | server/workspace/src/fs-store.ts:156-169 | it has only paths that were stored when their page was read |
| `FsListing.QuietDrainEnds` | server/workspace/src/fs-store.ts:156-169 | once writes stop a drain ends within as many pages as paths are left |
| `FsListing.QuietDrainIsListing` | server/workspace/src/fs-store.ts:156-169 | and is then the whole listing |
| `FsListing.SchemesDrainAlike` | server/workspace/src/fs-store.ts:437-476 | over a quiet store both schemes drain to the same listing for any two limits |
| `FsStores.FsStoreSqlite.Write` | server/workspace/src/fs-store.ts:287-315 | one-table write: an unversioned one first drops the other versions |
| `FsStores.FsStoreSqlite.Remove` | server/workspace/src/fs-store.ts:317-322 | all versions of the path go, and the result says whether there were any |
| `FsStores.FsStoreSqlite.RemovePrefix` | server/workspace/src/fs-store.ts:324-336 | the path itself and everything below it go |
| `FsStores.FsStoreDsql.Write` | server/workspace/src/fs-store.ts:795-854 | two-table write: pointer row, then version row or clean-up |
| `FsStores.FsStoreDsql.Read` | server/workspace/src/fs-store.ts:771-793 | latest or hash-pinned read through the respective table |
| `FsStores.FsStoreDsql.Remove` | server/workspace/src/fs-store.ts:856-871 | both tables lose the path |
| `FsStores.FsStoreDsql.RemovePrefix` | server/workspace/src/fs-store.ts:873-896 | the batch loop removes exactly the listed paths from both tables |
| `FsStores.RunKeeps` | server/workspace/src/fs-store.ts:729-896 | over any run both layouts stay consistent with one map, and DSQL versions exist only for paths that have a pointer row |
| `FsStores.LatestReadsAreMapLookups` | server/workspace/src/fs-store.ts:265-285 | after any run the latest read of either layout is the map lookup of the last write |
| `FsStores.MapIsLastWrite` | server/workspace/src/fs-store.ts:287-336 | that map holds for each path exactly the content, type and time of the last write that no removal followed |
| `FsStores.ListingsAgree` | server/workspace/src/fs-store.ts:729-758 | every page shows the same paths for SQLite, DSQL and the map |
| `FsStores.ListingExact` | server/workspace/src/fs-store.ts:225-233 | the SQLite listing surely shows the last write if and only if no other version carries its time |
| `FsStores.TieIsReached` | server/workspace/src/fs-store.ts:225-233 | two versions written in one millisecond, after which it may show the first |
| `FsStores.PinnedReadsExact` | server/workspace/src/fs-store.ts:771-783 | hash-pinned reads agree if and only if the hash is not an unversioned leftover |
| `FsStores.LeftoverIsReached` | server/workspace/src/fs-store.ts:845-852 | one unversioned write after which they differ |
| `FsStores.VersionedPathsHaveNoResidue` | server/workspace/src/fs-store.ts:802-853 | a path only ever written versioned has no leftover |
| `FsStores.UnversionedWriteLeavesAtMostOne` | server/workspace/src/fs-store.ts:298-313 | after an unversioned write SQLite has one version of the path, DSQL none |
| `FsStores.EmptyPrefixDiverges` | server/workspace/src/fs-store.ts:324-336 | removing the empty prefix gives the same stores if and only if nothing is stored |
| `Credentials.RecordsAreConsistent` | server/workspace/src/credentials.ts:128-155 | after any run, whatever the providers, the table holds exactly the rows of some records, and each has a level that fits its payload type and, if a user connection, an owner |
| `Credentials.AcceptedLevels` | server/workspace/src/credentials.ts:128-155 | which level names a create accepts for each payload type and owner, and which error it gives otherwise |
| `Credentials.SplitAtLastHash` | server/workspace/src/credentials.ts:246-250 | what follows the last `#` of a joined key is recovered |
| `Credentials.OauthKeysExact` | server/workspace/src/credentials.ts:296-296 | pointer keys keep the owners of one provider apart, and two providers can share one if and only if one extends the other past a `#` |
| `Credentials.CredKeyInjective` | server/workspace/src/credentials.ts:246-250 | record keys are equal if and only if provider and id are, whatever the provider contains |
| `Credentials.CredentialStoreDynamodb.CreateCredential` | server/workspace/src/credentials.ts:244-312 | the conditional transaction writes all rows or none, and raises the first error that applies |
| `Credentials.CredentialStoreDynamodb.GetCredential` | server/workspace/src/credentials.ts:333-345 | lookup by id through the pointer row |
| `Credentials.CredentialStoreDynamodb.DeleteCredential` | server/workspace/src/credentials.ts:347-383 | record and pointers go in one transaction, or nothing and the answer is no |
| `Credentials.CredentialStoreDynamodb.ReplacePayload` | server/workspace/src/credentials.ts:441-462 | only the payload and the time of one record change |
| `Credentials.CreateKeeps` | server/workspace/src/credentials.ts:244-312 | a create adds the record with all its rows, or changes nothing and says why, whatever the provider |
| `Credentials.CreateRefines` | server/workspace/src/credentials.ts:244-312 | a create has on the table the effect and outcome it has on the flat map, if and only if no other connection has the pointer key it needs |
| `Credentials.DeleteRefines` | server/workspace/src/credentials.ts:347-383 | so has a delete |
| `Credentials.UpdateRefines` | server/workspace/src/credentials.ts:441-462 | and an update |
| `Credentials.CreatedIsFound` | server/workspace/src/credentials.ts:244-345 | a created credential is found under its id with everything it was created with, and no other lookup changes |
| `Credentials.UpdatedIsFound` | server/workspace/src/credentials.ts:385-462 | an updated one is found with the new payload and time and all else as before |
| `Credentials.DeletedIsGone` | server/workspace/src/credentials.ts:333-383 | a deleted one is not found, the answer says whether it was there, and no other lookup changes |
| `Credentials.NoDanglingRows` | server/workspace/src/credentials.ts:250-301 | every key of a reachable table is called for by a record, so pointers never dangle |
| `Credentials.OneConnectionPerOwner` | server/workspace/src/credentials.ts:290-302 | at most one user connection per provider and owner |
| `Credentials.ForProviderExact` | server/workspace/src/credentials.ts:408-427 | the provider query answers for that provider alone, if and only if no stored provider extends it |
| `Credentials.TableAnswersLikeMap` | server/workspace/src/credentials.ts:314-462 | after any run over providers that do not extend one another `get`, `list`, the provider query and lookups by id answer like the flat map |
| `Credentials.RefinesIffApart` | server/workspace/src/credentials.ts:244-462 | every run over a set of providers refines the flat map, if and only if none of them extends another |
| `Credentials.ReconnectAfterDelete` | server/workspace/src/credentials.ts:347-383 | deleting a connection and creating it again under any unused id always succeeds |
| `CredentialRaces.LatePutExact` | server/workspace/src/credentials.ts:441-462 | the put of an update leaves a consistent table, if and only if its record has not been deleted since it was read |
| `CredentialRaces.DeletedRecordReturns` | server/workspace/src/credentials.ts:441-462 | the run on which it was: nothing leads to the record it puts back |
| `CredentialRaces.LateDeleteExact` | server/workspace/src/credentials.ts:347-382 | the transaction of a delete leaves a consistent table, if and only if its record is still there or no connection has its pointer key |
| `CredentialRaces.ReconnectedUserIsRobbed` | server/workspace/src/credentials.ts:347-382 | the run on which another delete and a new connection came between |
| `Credentials.ExtendedProviderIsBlocked` | server/workspace/src/credentials.ts:290-309 | when one provider extends another, two creates of which the second is refused as already connected although its user has no connection |
| `CredentialResolution.UnpinnedByFind` | server/workspace/src/credentials.ts:1000-1014 | the unpinned answer by three searches: own connection, else first workspace row, else not connected |
| `CredentialResolution.UnpinnedExact` | server/workspace/src/credentials.ts:998-1014 | without a pin: the first listed connection of the user, else the first workspace credential, else an error if the provider has any record, else nothing |
| `CredentialResolution.PinIsHonoured` | server/workspace/src/credentials.ts:973-997 | a pin answers exactly the record with that id, if and only if it is of the provider and not another user's connection, whatever else is listed |
| `CredentialResolution.MissingPinIsRefused` | server/workspace/src/credentials.ts:961-979 | a pin is unknown if and only if no record has that id, and a bare profile name is always refused |
| `CredentialResolution.WorkspaceOnlyExact` | server/workspace/src/credentials.ts:1025-1038 | the workspace-only resolver answers the first workspace credential of the provider, without an owner |
| `CredentialResolution.NeverAnotherUsersConnection` | server/workspace/src/credentials.ts:953-1015 | no request, pinned or not, is ever handed another user's connection or another provider's credential |
| `CredentialResolution.ForeignRowsInvisible` | server/workspace/src/credentials.ts:1000-1011 | removing all foreign connections changes an unpinned answer only from not connected to nothing there, exactly when they are all there is |
| `CredentialResolution.WorkspaceResolverIsStranger` | server/workspace/src/credentials.ts:1025-1038 | the invoker-less resolver answers as for a user without connections, except that it never reports not connected |
| `CredentialResolution.CreationOrderPicksOldest` | server/workspace/src/credentials.ts:943-947 | over a listing in creation order the workspace row picked is one of the oldest |
| `CredentialResolution.TableListsById` | server/workspace/src/credentials.ts:314-331 | the single table lists exactly its records, those of one provider by ascending id |
| `CredentialResolution.TablePicksLeastId` | server/workspace/src/credentials.ts:314-331 | of a provider's workspace credentials the table lists the one with the least id first |
| `CredentialResolution.TableOrderIsCreation` | server/workspace/src/credentials.ts:314-331 | the table lists in creation order, if and only if within each provider the ids ascend with the times of creation |
| `CredentialResolution.NewerListedFirst` | server/workspace/src/credentials.ts:244-331 | two creates after which the newer credential is listed and found first |
| `ChangeJournal.Journals.RecordChange` | server/workspace/src/change-journal.ts:67-79 | the cursor advances by one and the ring keeps the newest entries up to its capacity |
| `ChangeJournal.Journals.CurrentCursor` | server/workspace/src/change-journal.ts:83-85 | the cursor of the workspace, zero before its first use |
| `ChangeJournal.Journals.ChangesSince` | server/workspace/src/change-journal.ts:100-118 | the loop answers as the specification does, and only ever adds an empty journal |
| `ChangeJournal.RecordAllRefines` | server/workspace/src/change-journal.ts:73-78 | ring cursors stay contiguous, end at the current cursor, and are the tail of the unbounded log |
| `ChangeJournal.RingRefinesLog` | server/workspace/src/change-journal.ts:100-118 | a non-reset answer is the visible log after the token, and reset happens if and only if the token is missing, not a number, negative or above the cursor, or a later entry is evicted |
| `ChangeJournal.CatchUp` | server/workspace/src/change-journal.ts:114-117 | a client that has seen more than its token says is handed changes twice and still ends on everything seen |
| `ChangeJournal.ListingIsFold` | server/workspace/src/vcs/chat-sessions.ts:313-376 | a session's base snapshot with its overlay is the snapshot with the session's own changes applied |
| `ChangeJournal.ClientExact` | server/workspace/src/routes/fs.ts:184-240 | over any run, for the live tree and staged sessions alike, a client that applies deltas and relists on reset holds the current listing of its scope, if and only if the last change of each path it was handed since its last full listing is the scope's own or agrees with the scope's own last change of it, else with its base |
| `ChangeJournal.ExactForEveryRun` | server/workspace/src/routes/fs.ts:184-240 | every run leaves a client exact, if and only if it watches the live tree |
| `ChangeJournal.LiveClientHoldsCurrentPaths` | server/workspace/src/routes/fs.ts:219-240 | a client of the live tree, whatever was stored before, always holds the paths of some moment of its last poll |
| `ChangeJournal.StagedClientSeesLiveChanges` | server/workspace/src/routes/fs.ts:201-217 | for any session and base, a run on which the session's client follows a change of the live tree that the session does not show |
| `BundleManager.Manager.ApplyVerified` | desktop/src/bundle-manager.ts:259-305 | from staging on, an apply that meets no error is the one-step update |
| `BundleManager.Manager.SwapActive` | desktop/src/bundle-manager.ts:416-422 | `previous` takes the old version unless it is the same, then `active` the new |
| `BundleManager.Manager.Rollback` | desktop/src/bundle-manager.ts:380-400 | the links swap, or nothing happens without a previous version |
| `BundleManager.Manager.HandleLaunch` | desktop/src/bundle-manager.ts:330-354 | counts a failed boot, stops watching, or rolls back, and says which |
| `BundleManager.LaunchReportsRollback` | desktop/src/bundle-manager.ts:330-354 | a launch reports a rollback if and only if it made one, to the version that was previous and is now active; otherwise the links stay |
| `BundleManager.Manager.ReportRendererReady` | desktop/src/bundle-manager.ts:360-374 | the ready report ends the watch |
| `BundleManager.CrashStages` | desktop/src/bundle-manager.ts:265-305 | the disk after every prefix of the operations of an apply |
| `BundleManager.ApplyCompletes` | desktop/src/bundle-manager.ts:265-305 | all of them together are the one-step update |
| `BundleManager.CrashSafeIffUnlinked` | desktop/src/bundle-manager.ts:265-305 | every crash point leaves `active` on the old or new version and both links on complete directories, if and only if the version was not already linked |
| `BundleManager.FailureKeepsActiveExact` | desktop/src/bundle-manager.ts:306-324 | for every failing operation, exactly when a failed apply leaves `active` and the bundle it names as they were |
| `BundleManager.FailureSafeIffUnlinked` | desktop/src/bundle-manager.ts:306-324 | wherever an apply fails both links stay on complete directories, if and only if the version was not already linked |
| `BundleManager.FailedReapplyLosesActive` | desktop/src/bundle-manager.ts:295-312 | re-applying the active version with a failing promotion leaves `active` naming no directory |
| `BundleHistory.LinksStayApart` | desktop/src/bundle-manager.ts:380-422 | over any run `previous` is set only beside a different `active`, both complete, and the failure counter is below the limit |
| `BundleHistory.DisturbedRunsKeepLinks` | desktop/src/bundle-manager.ts:265-400 | over runs with crashes and failures at any point of applies of unlinked versions, of rollbacks and of launches, both links stay on complete directories, and the next apply may be interrupted anywhere if and only if its version is unlinked |
| `BundleHistory.RollbackCompletes` | desktop/src/bundle-manager.ts:380-400 | the link swaps of a rollback amount to its one step |
| `BundleHistory.LaunchCompletes` | desktop/src/bundle-manager.ts:330-354 | and so do the operations of a launch |
| `BundleHistory.HalfRollbackMergesLinks` | desktop/src/bundle-manager.ts:389-393 | between its two swaps a rollback leaves both links on the previous version |
| `BundleHistory.TwoRollbacksRestore` | desktop/src/bundle-manager.ts:380-400 | two rollbacks restore both links |
| `BundleHistory.AutomaticRollbackExact` | desktop/src/bundle-manager.ts:330-374 | a launch rolls back automatically if and only if it is the `MAX_FAILED_BOOTS`-th since the last apply, unreported, with that version active at each |
| `BundleHistory.OneRollbackPerApply` | desktop/src/bundle-manager.ts:330-354 | between two automatic rollbacks lies an apply |
| `VfsListing.Collect` | packages/native/src/vfs.ts:150-169 | the loop sorts the stored paths under the prefix into listed files and directories |
| `VfsListing.ExpansionExact` | packages/native/src/vfs.ts:145-172 | expanding directory by directory meets exactly the stored files, and each once if and only if none is an ancestor of another |
| `VfsListing.SubtreeExpansion` | packages/native/src/vfs.ts:145-172 | expanding a directory meets what its recursive listing shows, each once, if and only if no path below it is an ancestor of another |
| `VfsListing.RootListsItselfIffAbsolute` | packages/native/src/vfs.ts:160-165 | the root lists itself as a directory, so that expanding it never ends, if and only if some path is absolute |
| `VfsListing.ResumesExactly` | packages/native/src/vfs.ts:175-182 | a cursor resumes right after its entry if and only if no earlier entry has its path |
| `VfsListing.DrainsExactly` | packages/native/src/vfs.ts:175-182 | following cursors over an unchanged listing ends with each entry once, in order, if and only if in front of every page boundary stands the first entry with its path |
| `VfsListing.DrainsForEveryLimit` | packages/native/src/vfs.ts:175-182 | it does for every limit if and only if every entry but the last is the first with its path |
| `VfsListing.ListingsDrain` | packages/native/src/vfs.ts:145-182 | both listings of a store drain for every limit: the recursive one always, a level when no path below it is an ancestor of another |
| `VfsListing.LevelDrainsExactly` | packages/native/src/vfs.ts:145-182 | a level drains for every limit, if and only if a path it lists twice can only be that of its last entry |
| `VfsListing.Drain` | packages/native/src/vfs.ts:175-182 | the drain as a loop, under exactly that condition |
| `VfsListing.SharedPathNeverDrains` | packages/native/src/vfs.ts:175-182 | the root of a store with a file that is also a directory, drained one entry at a time, never ends |
| `VfsListing.SharedPathsExact` | packages/native/src/vfs.ts:150-172 | a path is listed twice if and only if a stored file is also a directory at that level |
| `VfsFiles.MemoryVfs.Write` | packages/native/src/vfs.ts:128-141 | a write goes through if its condition holds of the stored file, and otherwise is an error that changes nothing |
| `VfsFiles.WriteExact` | packages/native/src/vfs.ts:128-141 | exactly when each kind of condition lets a write through, what it then stores, and which error it gives otherwise |
| `VfsFiles.WrittenIsFound` | packages/native/src/vfs.ts:104-141 | a written file is found with its size and the etag it was answered with, and no other file changes |
| `VfsFiles.MemoryVfs.Delete` | packages/native/src/vfs.ts:142-144 | the path goes, and the result says whether it was there |
| `VfsFiles.MemoryVfs.StatPath` | packages/native/src/vfs.ts:184-192 | the loop finds a file, else a directory if and only if some path lies below |
| `VfsFiles.StatAgreesWithListing` | packages/native/src/vfs.ts:145-192 | `stat` finds a file or a directory exactly where the listing of the parent shows one |
| `VfsFiles.ConditionalWriteExact` | packages/native/src/vfs.ts:128-141 | after any operations a write conditioned on an earlier etag goes through if and only if nothing touched the file since, or the last to do so made the same etag |
| `VfsFiles.NoLostUpdate` | packages/native/src/vfs.ts:130-139 | when others write in later milliseconds it replaces exactly the file that was read |
| `VfsFiles.SameMillisecondLosesUpdate` | packages/native/src/vfs.ts:137-137 | a run in which it overwrites an update unseen |
| `ActionQueue.Store.EnqueueQueuedAction` | server/workspace/src/action-queue.ts:128-146 | the record, the run index and the audit entry of a queued call |
| `ActionQueue.EnqueueExact` | server/workspace/src/action-queue.ts:128-146 | a call is stored as it came, queued, and open for exactly seven days; the index and the audit log gain one entry |
| `ActionQueue.ReleasableForSevenDays` | server/workspace/src/action-queue.ts:128-281 | whatever happens to other calls and however often it is read, a queued call can be released exactly until seven days later |
| `ActionQueue.Store.GetQueuedAction` | server/workspace/src/action-queue.ts:148-178 | a read expires a due record first and returns what is then stored |
| `ActionQueue.Store.ReleaseAction` | server/workspace/src/action-queue.ts:218-281 | expire if due, refuse unless queued, check the remembered pattern, execute, then settle |
| `ActionQueue.ReleaseExact` | server/workspace/src/action-queue.ts:218-281 | a release succeeds if and only if the action is stored, queued and not expired, no remembered pattern misses and the executor succeeds; then it is executed once and released, else nothing is executed and the error says what was missing |
| `ActionQueue.Store.DiscardAction` | server/workspace/src/action-queue.ts:284-306 | expire if due, refuse unless queued, then settle without executing |
| `ActionQueue.DiscardExact` | server/workspace/src/action-queue.ts:284-306 | a discard settles exactly the actions that are queued and not expired, as discarded, and executes nothing |
| `ActionQueue.Store.ExpireQueuedAction` | server/workspace/src/action-queue.ts:309-319 | settles a queued record without looking at the clock |
| `ActionQueue.ForceExpireExact` | server/workspace/src/action-queue.ts:309-319 | a forced expiry settles any queued action, whatever the time |
| `ActionQueue.TouchExact` | server/workspace/src/action-queue.ts:148-178 | reading expires an action if and only if it is queued and its time has come |
| `ActionQueue.Store.QueueForChain` | server/workspace/src/action-queue.ts:188-197 | the action last queued for the run according to the audit log, or not found if there is none, as long as the index is right |
| `ActionQueue.Store.CountQueuedForRun` | server/workspace/src/action-queue.ts:200-211 | the loop expires what is due and counts exactly the queued, not yet due actions of the run |
| `ActionQueue.CountedExact` | server/workspace/src/action-queue.ts:200-211 | which actions are counted |
| `ActionQueue.QueueLifecycle` | server/workspace/src/action-queue.ts:128-319 | after any run each action has one queued audit entry and at most one terminal entry matching its state, is executed once if released and never otherwise, strictly before it expires; a settled record never changes again |
| `ActionQueue.IndexRun` | server/workspace/src/action-queue.ts:128-146 | after any run the index names, for every run, the action last queued for it |
| `Segments.UnderIsSegmentPrefix` | server/workspace/src/grants.ts:67-74 | `base` or `base` plus separator covers exactly the names whose segments begin with those of the base |
| `Segments.CoversIsSegmentPrefix` | server/workspace/src/fs-store.ts:183-184 | path prefixes match whole segments only |
| `Segments.UnderIsChain` | server/workspace/src/grants.ts:98-101 | two prefixes of one name are ordered by length, and equal if equally long |
| `Grants.WildcardMatchesSegments` | server/workspace/src/grants.ts:67-74 | a wildcard covers its base and everything under it, by whole segments |
| `Grants.PatternExact` | server/workspace/src/grants.ts:67-74 | a pattern covers all calls, those under its base by whole segments, or one |
| `Grants.WidthIsInclusion` | server/workspace/src/grants.ts:67-74 | a check on two pattern texts that holds if and only if one covers every call the other does |
| `Grants.CallMatchesItself` | server/workspace/src/grants.ts:67-74 | every call is covered by the pattern spelled like it |
| `Grants.PathAccess` | server/workspace/src/grants.ts:95-106 | the loop returns the access of the first among the longest covering grants, none if and only if nothing covers |
| `Grants.TrimExact` | server/workspace/src/grants.ts:98-98 | trimming removes the slashes at the end of a prefix, all of them and nothing else |
| `Grants.GrantCoversExact` | server/workspace/src/grants.ts:98-100 | a grant covers a path if and only if its trimmed prefix is empty or begins the path by whole segments |
| `Grants.SaysOneThing` | server/workspace/src/grants.ts:95-106 | that determines the answer |
| `Grants.DecidingIsInnermost` | server/workspace/src/grants.ts:90-94 | the deciding grant is the innermost: every other covering grant covers its prefix |
| `Grants.OrderFreeIffUnambiguous` | server/workspace/src/grants.ts:95-106 | the order of grants never matters if and only if grants with one trimmed prefix agree on the access |
| `Grants.EvaluateDispatch` | server/workspace/src/grants.ts:280-391 | the decision is the one `DispatchExact` determines, and only a queue decision changes the queue, by one enqueued action |
| `Grants.DecisionExact` | server/workspace/src/grants.ts:280-391 | exactly when a call is allowed, queued, asked about or refused, in terms of which rows exist |
| `Grants.DispatchExact` | server/workspace/src/grants.ts:280-412 | each decision from what storage holds: the user's own connection, the four layers, and the rows that name the call and match its resource |
| `Grants.OthersConnectionsIgnored` | server/workspace/src/grants.ts:398-412 | adding or removing connections of other users never changes a dispatch |
| `Grants.NarrowingOnlyRefuses` | server/workspace/src/grants.ts:334-340 | narrowing any layer keeps the decision or turns it into a capability refusal |
| `Grants.PatternwiseNarrower` | server/workspace/src/grants.ts:185-192 | a list of narrower patterns is a narrower layer |
| `Grants.ObservationsIgnoreRows` | server/workspace/src/grants.ts:342-345 | observations are decided without resource rows and never queue |
| `Grants.AddingRows` | server/workspace/src/grants.ts:363-391 | added rows queue an allowed call exactly when none named its capability before and of the new ones some do but none opens it; without a credential level they never refuse it |
| `Grants.RememberedPatternOpens` | server/workspace/src/action-queue.ts:234-262 | a queued call released with a remembered pattern is allowed if and only if the pattern matches its resource and the connection and profile still hold, and is queued again when only the pattern fails |
| `AuthCache.CacheKeyInjective` | server/workspace/src/auth-cache.ts:43-45 | different pairs of token hash and workspace hint never share a key |
| `AuthCache.PrincipalCache.GetCachedPrincipal` | server/workspace/src/auth-cache.ts:48-60 | a fresh entry is a hit, an expired one is deleted |
| `AuthCache.PrincipalCache.SetCachedPrincipal` | server/workspace/src/auth-cache.ts:62-71 | one entry is set, to expire one lifetime later |
| `AuthCache.PrincipalCache.InvalidatePrincipal` | server/workspace/src/auth-cache.ts:81-90 | the loop keeps exactly the entries whose principal has the id neither as user nor as workspace |
| `AuthCache.InvalidatedExact` | server/workspace/src/auth-cache.ts:81-90 | an entry is kept, unchanged, if and only if its principal has the id neither as user nor as workspace |
| `AuthCache.CacheIsHistory` | server/workspace/src/auth-cache.ts:35-90 | after any run what a pair's key holds is the latest live fill of that pair |
| `AuthCache.HitIffFreshFill` | server/workspace/src/auth-cache.ts:48-90 | a read hits if and only if a fill of the same pair, not yet one lifetime old, has been neither replaced nor invalidated, invalidations missed or not |
| `AuthCache.HitsAreCurrent` | server/workspace/src/auth-cache.ts:73-90 | over any run in which each mutation invalidates an id carried by all it changes, every hit is the current resolution |
| `AuthCache.UnannouncedChangeIsServed` | server/workspace/src/auth-cache.ts:53-80 | after a mutation a stored pair is answered wrongly if and only if its principal does not carry the invalidated id although it changed |

## Left out

- Ordering of results by `localeCompare` (`diff`, `show`, `branches`, `restore`) and `branches` itself: the model gives the sets of entries.
- Hashing, encryption, signatures, archive extraction, manifest fetching, `minShell` and `compareSemver`: an injective hash and an already verified archive stand in for them.
- Other workspaces: each store model is one workspace's partition.
- The counts `removePrefix` returns, SQLite's case-insensitive `LIKE` and its treatment of backslashes.
- `FsStoreS3` reads, writes and removals outside the interleaved sweep model; `listVersions` ordering; presigned uploads and `completeUpload`, which appear only as a PUT whose row comes later.
- Page-by-page deletion inside one sweep page: listing a page and deleting its stale objects is one step, as is reading one page of the scan.
- A limit of zero: SQLite treats it as no limit and then fails to find its last entry, the S3 store as one; the paging results start at one.
- `FsStores.LatestReadsAreMapLookups`: a subtree removal names a non-empty prefix, because the stores differ on the empty one.
- `GatewaySupervisor.retry`, the spawn plan, the environment and key delivery; SIGKILL is taken to be effective. The supervisor is a step relation rather than a class, because its methods suspend at awaits.
- `SupervisorRuns.TidyRunsKeepOneChild`: supervision is started only when no child is live; `SupervisorRuns.StartSafeIffNoneLive` shows that this is needed.
- The SQLite and registry credential stores, the payload cipher, labels as names, pagination of `list`; the default level of a payload type is a parameter.
- `Credentials.TableAnswersLikeMap`: over providers none of which extends another past a `#`; `Credentials.RefinesIffApart` shows that this is needed. Record ids contain no `#`, being hexadecimal.
- `ChangeJournal.ClientExact`: every mutation is journaled. Discarding or applying a session's draft, which is not, is left out, and so are the filters a listing applies for mounts, hidden partitions and service paths.
- The run index of the action queue across a restart, which empties it.
- The change journal across a process restart, where cursors begin again at zero.
- The pending and failure records of the bundle manager and leftover staging directories.
- `VfsListing.ExpansionExact`: stored paths are not absolute (`VfsListing.RootListsItselfIffAbsolute` shows why); its bound is any length no stored path exceeds, and the result is the same for each.
- How the byte length of a content is computed from its encoding, which is a parameter; the final sort of a listing is a parameter of the paging results.
- Concurrent releases and failing writes in the action queue: every operation is atomic.
- Lookup of legacy permissions, profiles, apps and resource rows in storage, and the synthetic `*` of administrators: the patterns and rows found are parameters.
- `matchesResourcePattern` is not part of this model: it is an arbitrary relation in every result.
- `assertToolGranted`, `assertPathGranted` and `parseGrants`: thin wrappers and input validation.
- `AuthCache.HitsAreCurrent`: resolving and storing a principal is one step, and so is a mutation with its invalidation; a resolution begun before a mutation and stored after it is stale for at most the lifetime that `AuthCache.HitIffFreshFill` gives.
- Fractional cache lifetimes read from the environment.

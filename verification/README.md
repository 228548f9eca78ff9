# Verified model of the panel's stateful core

This project models the parts of the panel whose correctness rests on several functions agreeing with each other, and
proves what they promise over every input, every run and every interleaving:

- **Live devices in Redis** (`DeviceStore`, `DeviceFence`, `DeviceSummaries`, `SummaryInterleaving`, `SummarySpacing`,
  `DueQueue`, `DeviceMeaning`, `DeviceService`; the counterexamples in `DeviceLeftover` and `DeviceUnfenced`). The
  user hashes, the three redundant indexes, the key expiries and the generation fence are shown to agree at all times
  with a plain map from (node, user) to its last report, whatever replacements and clears overlap. The write-behind of summaries never loses
  a user, even with calls interleaved command by command, and its flushing ends. Its reservations are the throttle
  apart in every interleaving; its writes are so when calls come one at a time, and otherwise up to the lag of a write
  behind its reservation, and no more than that.
- **Diagnostic leases** (`DiagnosticLease`, `LeaseMeaning`, `LeaseService`). Sessions, revisions, snapshot bindings,
  acknowledgements and idempotency records, with the whole history of served snapshots as ghost state.
- **The encrypted archive format** (`EncryptedArchive`, `ArchiveMeaning`). Writer and reader undo each other, and the
  reader accepts nothing but what the writer wrote.
- **Attachments** (`KeyedLocks`, `ChunkUpload`, `UploadMeaning`, `LegacyImport`, `ReferenceScanner`,
  `ReferenceMeaning`). Reference-counted keyed mutexes,
  chunked uploads and their reassembly, the import of an older installation's chunks, and the scan for references.
- **Self-hosted deployment** (`Deployment`, `Numerals`). A sequence of writes behind a marker, cut off anywhere.

`Collections` and `Ordering` hold what several of these need. `dafny verify dfyconfig.toml` checks everything.

## How to read it

Each component has the same three layers. Specification functions say what one step does to a value (`ReplaceUser`,
`Notify`, `Started`, `Decode`, `Stored`, `Trail`). Where the code changes things step by step, a class or a looping
method does the same work imperatively, and its contract equates it with the specification. Main theorems are lemmas
about every sequence of specification steps: `DeviceFence.ListingExactOverRuns`, `DeviceFence.FencedReplacement`,
`DeviceSummaries.NoLostSummary`, `SummaryInterleaving.NoLostSummary`, `DeviceSummaries.ReportIsExactIff`,
`DeviceSummaries.WritesAreThrottled`, `SummarySpacing.ApartIff`, `DiagnosticLease.AckProvenance`,
`DiagnosticLease.SameVersionSameListing`, `DiagnosticLease.ReplayIsHarmless`, `EncryptedArchive.RoundTrip`,
`EncryptedArchive.ExactArchive`, `KeyedLocks.KeyedMutualExclusion`, `KeyedLocks.DeadlockFree`,
`ChunkUpload.Reassembled`, `ReferenceScanner.ScanIsIdempotent`, `Deployment.CrashSafety`.

The modules named `...Meaning` tie the specification functions down from outside: they say what a step does in terms of
what goes in and what a caller or a later reader sees, with constants and conditions written out, and do not name the
function that computes it. `DeviceMeaning.ReportObserved`, `LeaseMeaning.RecordedIsLastWord`,
`LeaseMeaning.StateFromReports`, `LeaseMeaning.StartIsListed`, `ArchiveMeaning.DecryptMeans` and
`UploadMeaning.StoreVerdict` are the ones to read first. `Deployment.FirstSettings` and `Deployment.RunMeans` do the
same for the deployment.

## What is assumed

- There is one clock that never goes back: milliseconds for Redis, nanoseconds for leases. The `now` of a call is its
  reading.
- A Redis key may vanish at any moment from its expiry on, and not before. A generation key does not expire while an
  operation on its node is under way (it lives 720 seconds).
- Lua scripts are atomic, and so are the deletions of one clean-up and those of one user clear. Two commands are not
  fenced although they act on what was read before. Of the clean-up that ends a listing
  (internal/devicestate/service.go:299-303) it is assumed that nothing it found stale has been reported again, which is
  exactly when it is harmless (`DeviceStore.LateCleanupIsSafeIff`). Of the index delete that ends `ClearNodeDevices`
  (internal/devicestate/service.go:365) it is assumed that no newer operation on the node has begun; it is harmless
  exactly while no report of the node is live (`DeviceStore.IndexDeleteIsSafeIff`), and `DeviceUnfenced.UnfencedDelete`
  is a run in which one is. A user clear may have read its nodes at any time before.
- In `SummaryInterleaving` every call is over before the clock reaches the time it was made for plus the throttle.
  `SummaryInterleaving.SlowCallIsLost` shows that the bound cannot be relaxed.
- A scan of a Redis set returns at least every member that was present throughout it; in `DeviceFence` it may also
  return others.
- Session identifiers are fresh.
- AES-GCM, SHA-256, the manifest's JSON form, IP parsing and lower-casing are function parameters. What is assumed of
  them is a named predicate: `EncryptedArchive.Correct` and `OnlyOwnChunks` (nothing in the file opens, under the header
  and the nonce prefix it carries itself, but what the writer sealed; of other headers and nonces nothing is assumed),
  `ChunkUpload.Injective`, `ReferenceScanner.KeepsPositions`. `EncryptedArchive.AssumptionsCanBeMet` shows that those on
  the archive do not contradict each other.

## What turned out otherwise than one might expect

- An empty or smaller report can leave old fields behind in a user's hash: the script removes only what the field index
  names, and that index can expire before the hash does. The user is then off the node's index, and later replace-alls
  pass over it. `DeviceLeftover.OldFieldStays` is such a history; `DeviceStore.ScriptIsExactIff` (one script),
  `DeviceSummaries.ScriptsAreExactIff` (the scripts of a report) and `DeviceSummaries.ReportIsExactIff` (a report with
  its notification) give the exact condition for every user, and `DeviceStore.ScriptLiveIsExact` shows why it does not
  matter for listings: what is left behind is never live.
- A node clear whose scan finds nobody has no script that could tell it that a newer report has overtaken it, and deletes
  the index that report has just written (`DeviceUnfenced.UnfencedDelete`). The delete is harmless if and only if the
  node has no live report (`DeviceStore.IndexDeleteIsSafeIff`).
- A report that takes as long as the throttle can have its summary forgotten: the pending entry it leaves is dated by its
  own beginning, and a flush under way takes it for the one it was given (`SummaryInterleaving.SlowCallIsLost`).
- Two writes of one user's summary can be closer than the throttle. The reservation and the write it allows are separate
  commands: a write that comes late after its reservation is followed by the next one as soon as the reservation has run
  out. They are at least the throttle less that lag apart (`SummarySpacing.WritesApart`), for every lag there is a run
  in which they are no further apart (`SummarySpacing.BoundIsAttained`), and so they are sure to be the throttle apart
  if and only if the first is made at the instant of its reservation (`SummarySpacing.ApartIff`).
- An explicitly stopped session that has targets stays in `stopping` for good, because no snapshot ever carries its new
  revision (`DiagnosticLease.StopIsNeverConfirmed`).
- An acknowledgement that is rejected keeps the entries before the bad one
  (`DiagnosticLease.RejectedKeepsPrefix`). The `expired` state is not final: a later acknowledgement recomputes it.
- At the very instant of expiry a session is still listed in snapshots and no longer counts against the limit of ten:
  `DiagnosticLease.Lists` has `<=` where `DiagnosticLease.Live` has `<`.
- The import of chunks accepts an upload that was completing and whose directory is lost
  (`LegacyImport.LostDirectoryIsImported`); it is sound exactly in all other cases (`LegacyImport.ImportIsSound`). The
  database import refuses the former later on (internal/store/legacy_knowledge_migration.go:570).
- Repeating a start finds the session again only for a day. The idempotency record is swept after 24 hours, the session
  stays in the table for 24 hours after its expiry: in the quarter of an hour between, the same start begins a new
  session (`DiagnosticLease.ReplayAfterADay`). `DiagnosticLease.ReplayIsHarmless` has the exact condition.
- A chunk file that a cut reset or a failed completion leaves behind shuts out every other content for its place until the
  upload expires (`ChunkUpload.LeftChunkBlocks`).
- Lower-casing can make a text longer or shorter. The scan's offset of a reference is right if and only if that comes to
  nothing in total for the text before it (`ReferenceScanner.OffsetMoves`); from sixty letters U+023A before a reference
  on, it is beyond the end of the text it slices (`ReferenceScanner.OffsetLeavesText`).
- A key listed twice would deadlock a single thread (`KeyedLocks.RepeatedKeyDeadlocks`), so the distinctness check of
  `CloneForDraft` is needed.

## Model

| member | source | states |
|---|---|---|
| DeviceFence.ListingExactOverRuns | internal/devicestate/service.go:243-318 | In every run of interleaved replacements, node clears, user clears, clean-ups, waits and key losses, an IP is live in a user's hash exactly when some node's last accepted report for that user names it and is less than 300 seconds old |
| DeviceFence.FencedReplacement | internal/devicestate/service.go:178-236 | From the moment a replace-all has nothing left to write until it is superseded, the live fields of its node are, for every user, exactly its snapshot, all with its time; for a node clear there are none. None of its scripts was refused, and the only users set apart are those cleared as users after their own script ran |
| DeviceFence.ReplacementArrives | internal/devicestate/service.go:195-229 | An accepted last script, and a scan of a current call that finds nobody to write, bring a replace-all to that moment |
| DeviceFence.ClearedNode | internal/devicestate/service.go:336-367 | When a node clear that is still current comes to its index delete, no report of the node is live |
| DeviceUnfenced.UnfencedDelete | internal/devicestate/service.go:331-367 | There is a run that leads a clear to its delete without a refusal although it is superseded, and deleting the index there would break the agreement |
| DeviceStore.IndexDeleteIsSafeIff | internal/devicestate/service.go:365-367 | Deleting the index of a node keeps the agreement if and only if the node has no live report |
| DeviceFence.StaleScriptsChangeNothing | internal/devicestate/service.go:37-40 | Once a node has a newer generation, every later script of the older call is refused and changes nothing |
| DeviceFence.SupersededStays | internal/devicestate/service.go:70-74 | A superseded call stays superseded for the rest of the run |
| DeviceFence.ScanFindsAll | internal/devicestate/service.go:715-747 | A scan by a call that is still current finds every user with a live report from the node, whatever ran during the scan |
| DeviceFence.StepSeenFenced | internal/devicestate/service.go:37-74 | While a call stays current, no step but its own and a clear of the user changes what its node last reported for a user |
| DeviceFence.StepAgrees | internal/devicestate/service.go:37-74 | Every step keeps the store in agreement with the last accepted reports |
| DeviceFence.StepInv | internal/devicestate/service.go:178-236 | Every step keeps the invariant: agreement, distinct generations of concurrent calls, and for every current replace-all the users already settled |
| DeviceFence.RunInv | internal/devicestate/service.go:178-236 | The invariant holds in every reachable state |
| DeviceStore.ListingIsExact | internal/devicestate/service.go:253-298 | Agreement makes the listing exact: live in the hash if and only if reported and still in the window |
| DeviceStore.ReplaceHash | internal/devicestate/service.go:37-68 | The script's effect on each field of the hash: reported ones carry the new time, other indexed ones of the node are gone, all the rest is as before |
| DeviceStore.ScriptIsExactIff | internal/devicestate/service.go:42-53 | After the script the node's raw fields are exactly the reported ones if and only if every other field of the node was in the field index |
| DeviceStore.ScriptLiveIsExact | internal/devicestate/service.go:42-53 | After the script the live fields of the node are exactly the reported ones: what it leaves behind is not live |
| DeviceSummaries.ScriptsAreExactIff | internal/devicestate/service.go:207-229 | After all scripts of a report the raw fields of the node are, for any user, exactly what was asked for if and only if the user was visited with its other fields indexed, or was not visited and had exactly that |
| DeviceSummaries.ReportIsExactIff | internal/devicestate/service.go:178-236 | The same for a whole report with its notification: in addition, exactly so for every user that is listed at once |
| DeviceSummaries.CleanupAllHash | internal/devicestate/service.go:299-303 | Listing users leaves them nothing but live fields, and other users what they had |
| DeviceLeftover.OldFieldStays | internal/devicestate/service.go:21-33 | There is a history in which a node replaces everything by nothing, twice, and a field of it that is no longer live is still in a hash |
| DeviceStore.ReplaceUserAgrees | internal/devicestate/service.go:37-68 | The script keeps agreement with the reports, the new one recorded in place of the old |
| DeviceStore.CleanupAgrees | internal/devicestate/service.go:689-713 | A clean-up at the moment of its listing keeps agreement and changes no user's live fields |
| DeviceStore.LateCleanupIsSafeIff | internal/devicestate/service.go:299-303 | A clean-up that comes later keeps agreement if and only if none of the fields it removes, and no report of the nodes it unlists for the user, has become live in the meantime |
| DeviceStore.ClearUserAgrees | internal/devicestate/service.go:378-423 | Clearing a user forgets exactly that user's reports and leaves nothing live, whatever nodes it has read before |
| DeviceStore.DropUsersAgrees | internal/devicestate/service.go:336-361 | The per-user scripts of a node clear forget exactly the node's reports for those users |
| DeviceStore.ClearNodeAgrees | internal/devicestate/service.go:320-376 | Clearing a node forgets exactly its reports, although only indexed users are visited: the index cannot miss a live one |
| DeviceStore.BumpAgrees | internal/devicestate/service.go:70-74 | A bump of the generation keeps agreement |
| DeviceStore.LapseAgrees | internal/devicestate/service.go:21-33 | A key lost after its 360 or 720 seconds takes no live observation with it and hides none from a later clear |
| DeviceStore.AdvanceAgrees | internal/devicestate/service.go:21-33 | The passing of time keeps agreement |
| DeviceSummaries.NoLostSummary | internal/devicestate/service.go:425-461 | After every operation that returns without error each user is pending, or due for expiry, or has the database count equal to the number of live IPs and, if that is not zero, an expiry entry after now and no later than the first lapse |
| SummaryInterleaving.NoLostSummary | internal/devicestate/service.go:425-461 | With any number of reports, clears and flushes interleaved command by command, at every moment a user is pending, or some call has yet to list or defer it, or the holder of its reservation is writing from a listing that is up to date, or its expiry entry is due, or the database has exactly the number of its live IPs and, if that is not zero, an expiry entry after now and no later than the first lapse |
| SummaryInterleaving.SlowCallIsLost | internal/devicestate/service.go:582-606 | The bound on the duration of calls is sharp: with a report, dated by its own time, that changes devices when the clock reaches that time plus the throttle, there is a run after which all calls are over, the count is wrong and no queue holds the user |
| SummaryInterleaving.StepInv | internal/devicestate/service.go:569-632 | Every command keeps the invariant: a holder of the reservation gets it right or is made up for, and what a flush is about to acknowledge is not needed |
| SummaryInterleaving.RunInv | internal/devicestate/service.go:569-632 | The invariant holds in every reachable state |
| SummaryInterleaving.KeptPromise | internal/devicestate/service.go:607-629 | A holder whose listing is still up to date when it ends leaves the right count, and an expiry entry that its own flush does not take away |
| SummaryInterleaving.DeferSafe | internal/devicestate/service.go:602-606 | A deferred user stays pending until after the time of every call under way |
| SummaryInterleaving.AckPendingSafe | internal/devicestate/service.go:445-456 | Taking away a pending entry leaves every user covered and every other flush harmless |
| SummaryInterleaving.AckExpirySafe | internal/devicestate/service.go:445-456 | So does taking away an expiry entry, even one that another call has just queued |
| SummarySpacing.ReservationsApart | internal/devicestate/service.go:577-583 | In every interleaving, however slow the calls, two reservations of one user are at least the throttle apart |
| SummarySpacing.WriteIsReserved | internal/devicestate/service.go:590-623 | Every write is made under a reservation that its own call got, before it runs out |
| SummarySpacing.WritesOutwait | internal/devicestate/service.go:577-626 | With prompt calls nothing is written again before the reservation of the write before has run out |
| SummarySpacing.WritesApart | internal/devicestate/service.go:577-626 | Two writes are at least the throttle apart, less the lag of the first behind its reservation |
| SummarySpacing.BoundIsAttained | internal/devicestate/service.go:577-626 | For every lag below the throttle there is a run of two prompt calls whose writes are exactly the throttle less the lag apart |
| SummarySpacing.ApartIff | internal/devicestate/service.go:577-626 | Writes with a given lag are the throttle apart in every run if and only if the lag is zero |
| DeviceSummaries.WritesAreThrottled | internal/devicestate/service.go:569-632 | With calls one at a time, over every history two summary writes for one user are at least the throttle apart |
| DeviceSummaries.FlushProgress | internal/devicestate/service.go:425-461 | A flush removes at least one due entry for each user it returns and adds none; it returns nobody exactly when nothing is due |
| DeviceSummaries.FlushingEnds | internal/devicestate/service.go:530-543 | At a fixed time there are no more nonempty flushes than due entries |
| DeviceSummaries.FlushOnlyRemoves | internal/devicestate/service.go:76-82 | After a flush the due users of each queue are among those due before and not acknowledged: deferred users and new expiries lie after now |
| DeviceSummaries.FlushCovers | internal/devicestate/service.go:425-461 | A flush keeps every user covered, those it acknowledges included |
| DeviceSummaries.NotifyCovers | internal/devicestate/service.go:569-632 | After notifying the changed users every user is covered, if the others were before |
| DeviceSummaries.NotifySpaced | internal/devicestate/service.go:577-601 | The reservation keys keep the writes apart |
| DeviceSummaries.NextLapseIsFirst | internal/devicestate/service.go:292-297 | The scheduled expiry is after now and no later than any live observation's lapse |
| DeviceSummaries.LapseIsExact | internal/devicestate/service.go:253-296 | An observation in whole seconds is live in milliseconds exactly before it is 300 seconds old |
| DeviceSummaries.DropUsersHash | internal/devicestate/service.go:336-361 | A node clear leaves the hash of every user it does not report as affected unchanged |
| DeviceSummaries.ClearNodesAgrees | internal/devicestate/service.go:320-376 | Clearing several nodes in order keeps agreement and changes live fields only of the users it notifies |
| DeviceSummaries.LapseKeepsLive | internal/devicestate/service.go:21-33 | Losing an expired key changes no live field |
| DeviceSummaries.WaitCovers | internal/devicestate/service.go:634-651 | A covered user stays covered as time passes: the count goes wrong only when the expiry entry falls due |
| DeviceSummaries.EventGood | internal/devicestate/service.go:178-461 | Every operation, wait and key loss keeps agreement, coverage and spacing |
| DeviceMeaning.ReportObserved | internal/devicestate/service.go:178-236 | After a report, told by the lists reported and the two states: for each reported user the live fields of the node are exactly the first 64 different addresses of the list, stamped with the second of the report; fields of other nodes are as they were; on replace-all every other user has no live field of the node, otherwise keeps its own; the node index names exactly who still has something there; and the visited users are notified |
| DeviceMeaning.ReportMeans | internal/devicestate/service.go:207-229 | The same for the store alone, from sets of addresses |
| DeviceMeaning.IndexAfterReport | internal/devicestate/service.go:195-229 | Whom a later replace-all of the node will visit: the reported users with an address, and unless all were replaced those named before |
| DeviceMeaning.ScriptIndexes | internal/devicestate/service.go:48-65 | Which entries of the three indexes one script adds, removes and leaves |
| DeviceMeaning.CleanupsIndex | internal/devicestate/service.go:689-713 | Cleaning up after some users takes each of them out of the index of exactly the nodes all of whose fields of that user are stale |
| DeviceMeaning.ClearObserved | internal/devicestate/service.go:378-423 | After a clear of users nothing of theirs is live, the others keep what they had, exactly the nodes in their own indexes no longer name them, and they are notified |
| DeviceMeaning.ClearNodesObserved | internal/devicestate/service.go:320-376 | After a clear of nodes no field of theirs is live for anybody, the live fields of other nodes are as they were, and exactly the users of whom something was removed are notified |
| DeviceMeaning.ClearNodesAffects | internal/devicestate/service.go:336-361 | Something is removed of exactly the users whom the index of one of the nodes names and who have a field that the field index names |
| DeviceMeaning.NotifyMeans | internal/devicestate/service.go:569-632 | Told by ledgers and live fields: a notified user with a reservation is pending one throttle from now and otherwise untouched; one without is reserved as long, its count is the number of its addresses, its expiry entry the first instant at which a live field is 300 seconds old, and one row is logged; all others are untouched |
| DeviceMeaning.FlushObserved | internal/devicestate/service.go:425-461 | Of the ranges read from both queues no entry of a returned user is due any more; a returned user is written or deferred as in a notification; nobody else is touched |
| DueQueue.ListDueSummaries | internal/devicestate/service.go:463-528 | From the first `limit` entries of each queue the selection is ordered and fair: no user left out has an earlier due score in either full queue; each user is marked with exactly the queues whose entries have it, at the smaller of their scores |
| DueQueue.CutIsFair | internal/devicestate/service.go:478-527 | Every user kept is due no later than any due user left out, even one whose smaller score lies beyond a queue's cut |
| DueQueue.BeyondTheCut | internal/devicestate/service.go:466-527 | A user beyond a queue's cut cannot precede any of the first `limit` merged users |
| DueQueue.RangeByScore | internal/devicestate/service.go:466-476 | The first `limit` due members of a queue by score |
| DueQueue.Merge | internal/devicestate/service.go:478-505 | Each user found once, with the smaller score found, and marked with exactly the queues it was found in |
| DueQueue.Sort | internal/devicestate/service.go:514-523 | The merged users in order of score and then identifier, none lost or added |
| DeviceService.RedisService.constructor | internal/devicestate/service.go:129-176 | An empty store, nothing queued and nothing written |
| DeviceService.RedisService.Elapse | internal/devicestate/service.go:21-33 | Time passes and expired keys go: the live fields are what they would be had only time passed |
| DeviceService.RedisService.ReplaceNodeDevices | internal/devicestate/service.go:178-236 | Refused exactly for a bad node, a bad user or too many users, then without effect; otherwise the report event for exactly the named users and, on replace-all, the indexed ones, with everything that ReportObserved says of the lists given, the fields live after it, the index and the ledger |
| DeviceService.RedisService.Report | internal/devicestate/service.go:191-236 | A valid report is one possible event of the history, and the new state is what the event says |
| DeviceService.RedisService.Affected | internal/devicestate/service.go:195-207 | The affected users in ascending order, each once |
| DeviceService.RedisService.RunScripts | internal/devicestate/service.go:208-229 | With a generation that is not the current one the first script is refused and nothing changes; with the current one no script is refused, and all users are replaced in order |
| DeviceService.RedisService.ReplaceNodeUser | internal/devicestate/service.go:37-68 | The script as loops over Redis commands has exactly the specified effect, and returns -1 if and only if the generation is not the current one, else the number of fields removed |
| DeviceService.RedisService.RemoveIndexed | internal/devicestate/service.go:42-47 | Deletes the indexed fields and counts those that were there |
| DeviceService.RedisService.WriteFields | internal/devicestate/service.go:48-59 | Writes the fields and all three indexes, and renews their expiries |
| DeviceService.RedisService.Bumped | internal/devicestate/service.go:552-554 | The generation is one more than it was, those of other nodes are unchanged, and from now on every script of an earlier generation is refused |
| DeviceService.RedisService.ListUserDevices | internal/devicestate/service.go:238-318 | Refused exactly for more than a million identifiers or one that is not positive; otherwise maps exactly the users asked for that have a live field to the addresses of their live fields, sorted and distinct; live fields stay, and users leave the index of nodes whose fields are all stale |
| DeviceService.RedisService.ListOne | internal/devicestate/service.go:266-315 | One user's live IPs, sorted and distinct, the first lapse, and the clean-up |
| DeviceService.ScanHash | internal/devicestate/service.go:272-298 | The loop over a hash splits it into live IPs, stale fields, active and all nodes, and finds the first lapse |
| DeviceService.CleanupShowsTheSame | internal/devicestate/service.go:299-303 | Cleaning up after one user does not change what is listed for the users after it |
| DeviceService.RedisService.Observe | internal/devicestate/service.go:610-622 | The rows and expiries for the users written now are those of the state before any clean-up |
| DeviceService.RedisService.NotifyUsers | internal/devicestate/service.go:569-632 | Splits the users by their reservation, writes those free and defers the others, with exactly the specified store and queues |
| DeviceService.RedisService.NotifyAny | internal/devicestate/service.go:230-234 | Notifying no one changes nothing |
| DeviceService.Reserve | internal/devicestate/service.go:577-601 | The users without a reservation get one and are written now; the others are deferred |
| DeviceService.ScheduleAll | internal/devicestate/service.go:675-687 | All given users are queued at the due time, no others are moved |
| DeviceService.WithExpiries | internal/devicestate/service.go:634-673 | The written users' expiry entries are the new ones or none; the others stay |
| DeviceService.WriteRows | internal/devicestate/service.go:619-626 | The database counts after the rows are written |
| DeviceService.WriteBehind | internal/devicestate/service.go:602-629 | Counts, expiries, pending queue and log after a batch |
| DeviceService.RedisService.ClearUserDevices | internal/devicestate/service.go:378-423 | Refused exactly for more than a million identifiers or one that is not positive; otherwise the clear-users event for each user once, with everything that ClearObserved says |
| DeviceService.RedisService.ClearNodeDevices | internal/devicestate/service.go:320-376 | Refused exactly for more than a million identifiers or one that is not positive; otherwise the clear-nodes event for exactly those nodes, returning the users that lost a field, with everything that ClearNodesObserved says |
| DeviceService.RedisService.ClearEachNode | internal/devicestate/service.go:325-368 | The nodes cleared in order; the affected users are those that lost a field to any of them |
| DeviceService.RedisService.ClearOneNode | internal/devicestate/service.go:327-367 | One node: bump, scan, a script per user, index delete |
| DeviceService.RedisService.DropNodeUsers | internal/devicestate/service.go:335-361 | Likewise for the scripts with empty snapshots; returns the users for whom one removed something |
| DeviceService.RedisService.FlushPending | internal/devicestate/service.go:425-461 | With the limit clamped to its range, the flush event: notify the selected due users, then acknowledge them; returns how many there were; each is marked with exactly the ranges that have it, and no entry of theirs in those ranges is due any more |
| DeviceService.Acknowledge | internal/devicestate/service.go:76-82 | Removes exactly the flagged members whose score is still due |
| DeviceService.DeleteFields | internal/devicestate/service.go:42-47 | Deletes the fields and counts those that were there, each once |
| DeviceService.Normalized | internal/devicestate/service.go:749-767 | At most the maximum, distinct, each the canonical form of some input, and all of them unless the maximum is reached |
| DeviceService.NormalizeIPs | internal/devicestate/service.go:749-767 | The loop that stops at the maximum gives the same addresses in first-use order |
| DeviceService.NormalizedIsFull | internal/devicestate/service.go:762-764 | Once the maximum is reached the remaining values do not matter |
| DeviceService.NormalizedIsFirst64 | internal/devicestate/service.go:749-767 | An address is in the result exactly when some value of the list names it before which the list names fewer than 64 different ones |
| DeviceService.NormalizeReport | internal/devicestate/service.go:182-190 | Refused exactly when some user identifier is not positive; otherwise the first 64 different addresses of every list |
| Ordering.SortIds | internal/devicestate/service.go:796-803 | The identifiers in ascending order, each once |
| Ordering.SortStrings | internal/devicestate/service.go:308-312 | The strings of a set in ascending order, each once |
| DiagnosticLease.StepInv | internal/diagnostics/lease.go:212-527 | Every call keeps the invariant over sessions, bindings, records and the history of snapshots |
| DiagnosticLease.RunInv | internal/diagnostics/lease.go:212-527 | The invariant holds in every reachable state |
| DiagnosticLease.CapOverRuns | internal/diagnostics/lease.go:234-293 | In every reachable state and at any later time at most ten sessions are live, each under its own customer, and all identifiers differ |
| DiagnosticLease.AckProvenance | internal/diagnostics/lease.go:420-468 | Every recorded acknowledgement is from a targeted node, at a revision listed for that session in a snapshot served to that node at most 60 seconds before |
| DiagnosticLease.DerivedState | internal/diagnostics/lease.go:470-505 | In every reachable state each session's state is the one its acknowledgements determine; `stopped` means disabled with a non-effective acknowledgement at the current revision or later from every target |
| DiagnosticLease.RecomputedAgrees | internal/diagnostics/lease.go:470-505 | Recomputing gives the state that the acknowledgements determine |
| DiagnosticLease.CountMeans | internal/diagnostics/lease.go:488-504 | The counter reaches the number of targets exactly when all are effective, and is zero exactly when none is |
| DiagnosticLease.RejectedKeepsPrefix | internal/diagnostics/lease.go:440-465 | A payload is applied up to its first inadmissible entry and accepted exactly when there is none |
| DiagnosticLease.NeverExtended | internal/diagnostics/lease.go:212-333 | As long as a session exists it keeps customer, targets and issue time, and expires 900 seconds after it was issued |
| DiagnosticLease.StopEnds | internal/diagnostics/lease.go:296-333 | After a successful stop the session is ended |
| DiagnosticLease.NeverListedAgain | internal/diagnostics/lease.go:348-417 | No snapshot after a stop lists the session or binds to it |
| DiagnosticLease.NeverListedLate | internal/diagnostics/lease.go:355-363 | No snapshot after a session's expiry lists it |
| DiagnosticLease.SameVersionSameListing | internal/diagnostics/lease.go:348-417 | Of two snapshots for a node with one control version, the later lists nothing new, and of the earlier exactly the sessions not expired between them |
| DiagnosticLease.StopIsNeverConfirmed | internal/diagnostics/lease.go:296-333 | From a stop on a session is disabled and in `stopping` if it has targets, in `stopped` if it has none |
| DiagnosticLease.RecordsHaveSessions | internal/diagnostics/lease.go:18-24 | In every reachable state each idempotency record's customer has a session in the table |
| DiagnosticLease.CleanedRecordsOk | internal/diagnostics/lease.go:507-527 | The sweep never removes a session before the records that point to its slot |
| DiagnosticLease.StartIsRemembered | internal/diagnostics/lease.go:234-293 | A successful start with a key leaves a record of the session it returned, which is in place |
| DiagnosticLease.RecordStays | internal/diagnostics/lease.go:221-248 | While its session is in place and 24 hours have not passed, no call removes or replaces a record |
| DiagnosticLease.OneRecord | internal/diagnostics/lease.go:221-248 | As long as its session is in place, a slot holds the record first made of it or none: no later start makes another |
| DiagnosticLease.RunDated | internal/diagnostics/lease.go:234-290 | In every reachable state a record is of an identifier given out, and no older than its session |
| DiagnosticLease.DeadAfterADay | internal/diagnostics/lease.go:18-24 | Past the 24 hours of its record a session is over |
| DiagnosticLease.ReplayIsHarmless | internal/diagnostics/lease.go:221-248 | Repeating a start with the same operator, key and customer while its session is in place, whatever ran in between, returns that session with no new session, version or extension, only the sweep that any start does, if and only if the record is at most 24 hours old; otherwise it begins a new session or is refused |
| DiagnosticLease.ReplayAfterADay | internal/diagnostics/lease.go:507-527 | The run in which it is not: one nanosecond after the 24 hours the session is in place and the same start begins another |
| DiagnosticLease.Ordered | internal/diagnostics/lease.go:265-266 | The targets in ascending order, the same ones as often |
| LeaseMeaning.StartVerdict | internal/diagnostics/lease.go:223-263 | A start is refused for another customer's key of the last day, or for want of room: ten sessions running and none to find; otherwise it opens a new session exactly when neither the key nor the customer leads to one |
| LeaseMeaning.StartMeans | internal/diagnostics/lease.go:265-293 | A new session has the identifier, customer and operator given, is enabled and pending at revision 1, issued now for 900 seconds, its targets those given in ascending order; the version goes up by one and no other session changes but by cleaning up |
| LeaseMeaning.FoundMeans | internal/diagnostics/lease.go:226-251 | A start that finds a session returns it as it stands and changes neither sessions nor version |
| LeaseMeaning.RefusedMeans | internal/diagnostics/lease.go:223-263 | A refused start opens nothing and remembers nothing: only cleaning up shows |
| LeaseMeaning.CleaningMeans | internal/diagnostics/lease.go:507-527 | A session leaves the table exactly when its expiry is more than a day past; one past its time is disabled and expired |
| LeaseMeaning.StopMeans | internal/diagnostics/lease.go:296-333 | A stop fails exactly for an unknown customer or another session; otherwise it disables the session at the next revision and touches nothing else |
| LeaseMeaning.SnapshotMeans | internal/diagnostics/lease.go:348-402 | A snapshot has exactly one entry, spelled out field by field, for each session of the table that is enabled, not past its expiry and targets the node, in ascending order of identifiers; versions stay, and nothing leaves the table but by cleaning up |
| LeaseMeaning.StartIsListed | internal/diagnostics/lease.go:265-387 | Over runs: every snapshot for a target of a start lists the new session, with its identifier, customer, first revision and times in seconds, until it expires or is stopped |
| LeaseMeaning.RunningStays | internal/diagnostics/lease.go:212-527 | Over runs: until it expires or is stopped, a session only changes its acknowledgements and state |
| LeaseMeaning.BindingIsLastServed | internal/diagnostics/lease.go:404-417 | Over runs: the binding of a node and request is the last snapshot served for them, with its listing, time and version, and is there at least for a minute |
| LeaseMeaning.RecognizedMeans | internal/diagnostics/lease.go:427-437 | Over runs: a payload is recognized exactly when it names epoch and version of the last snapshot served for its node and request at most a minute before |
| LeaseMeaning.AckVerdict | internal/diagnostics/lease.go:420-468 | Over runs: a payload is accepted exactly when, in addition, that snapshot lists every session reported at the revision reported; a payload that is not recognized changes nothing |
| LeaseMeaning.ReportedAcks | internal/diagnostics/lease.go:440-465 | One payload leaves its last report on each session on record, as reported, and touches no other node's acknowledgement |
| LeaseMeaning.RecordedIsLastWord | internal/diagnostics/lease.go:420-468 | Over runs: what is on record of a node for a session is, field by field, the last report about it that the snapshot answered bears out, and nothing if there is none |
| LeaseMeaning.StateFromReports | internal/diagnostics/lease.go:470-505 | Over runs: an enabled session with targets is active exactly when the last such report of every target says that it runs, and pending exactly when that of none does |
| LeaseService.MemoryLeaseService.constructor | internal/diagnostics/lease.go:188-196 | The initial state |
| LeaseService.MemoryLeaseService.StartSession | internal/diagnostics/lease.go:212-293 | Steps the model by a start and returns its result, errors included, and keeps the invariant |
| LeaseService.MemoryLeaseService.StartOrFind | internal/diagnostics/lease.go:221-293 | The same from any state |
| LeaseService.MemoryLeaseService.FindOrCreate | internal/diagnostics/lease.go:223-293 | On a table that has been swept: the recorded session, the running one, or a new one, with the record |
| LeaseService.MemoryLeaseService.Create | internal/diagnostics/lease.go:250-293 | Refuses at ten live sessions without effect, else places the new session and its record |
| LeaseService.MemoryLeaseService.StopSession | internal/diagnostics/lease.go:296-333 | Steps the model by a stop and returns its result, and keeps the invariant |
| LeaseService.MemoryLeaseService.BuildNodeSnapshot | internal/diagnostics/lease.go:348-417 | Serves a sorted listing of exactly the node's running sessions, binds it to the request, and keeps the invariant |
| LeaseService.MemoryLeaseService.ProcessNodeAck | internal/diagnostics/lease.go:420-468 | Steps the model by an acknowledgement and returns its result, and keeps the invariant |
| LeaseService.MemoryLeaseService.CleanupExpired | internal/diagnostics/lease.go:507-527 | Sessions, bindings and records after the sweep |
| LeaseService.SweepSessions | internal/diagnostics/lease.go:508-516 | Drops the buried sessions and expires those past their time |
| LeaseService.SweepBindings | internal/diagnostics/lease.go:517-521 | Drops exactly the bindings past their 60 seconds |
| LeaseService.SweepRecords | internal/diagnostics/lease.go:522-526 | Drops exactly the records past their 24 hours |
| LeaseService.CountLive | internal/diagnostics/lease.go:250-256 | The number of live sessions |
| LeaseService.UpdateSessionState | internal/diagnostics/lease.go:470-505 | The recomputed state |
| LeaseService.AllStopped | internal/diagnostics/lease.go:472-479 | Whether every target has a non-effective acknowledgement at the current revision or later |
| LeaseService.ApplyReport | internal/diagnostics/lease.go:447-464 | The acknowledgement is stored with the session it names and the state recomputed; no other session changes |
| LeaseService.ApplyReports | internal/diagnostics/lease.go:440-465 | The payload applied in order up to the first inadmissible entry |
| LeaseService.Listing | internal/diagnostics/lease.go:357-389 | Exactly one entry for each session running on the node, sorted, and the binding to their revisions |
| LeaseService.Targeted | internal/diagnostics/lease.go:364-371 | Whether the node is among the targets |
| EncryptedArchive.RoundTrip | internal/backup/encryption.go:159-323 | For every plaintext from one byte to 64 GiB whose header can be written, exact multiples of the chunk size included, decrypting the written archive gives back its manifest and the plaintext |
| EncryptedArchive.ExactArchive | internal/backup/encryption.go:230-323 | If nothing in a file opens under the header and the nonce prefix it carries itself but the writer's own chunks, and the reader accepts it, it is the written archive, byte for byte |
| EncryptedArchive.ExactBody | internal/backup/encryption.go:268-311 | If nothing in the file opens under the header and its counter nonces but the writer's own chunks: from any point on, an accepted rest is the rest of the writer's chunk sequence in order, nothing reordered, repeated, dropped or cut |
| EncryptedArchive.AcceptedIsOwn | internal/backup/encryption.go:285-296 | Under the same assumption, what opens as the k-th chunk is the writer's k-th chunk |
| EncryptedArchive.NonceInjective | internal/backup/encryption.go:440-445 | Different counters below 2^64 give different nonces |
| EncryptedArchive.ArchiveFits | internal/backup/encryption.go:22-31 | What the writer writes never exceeds the size the reader accepts |
| EncryptedArchive.EncodedSize | internal/backup/encryption.go:187-215 | The exact length of the body |
| EncryptedArchive.ChunksBound | internal/backup/encryption.go:22-31 | The number of chunks is within the bound behind the size limit |
| EncryptedArchive.DecodeOfEncode | internal/backup/encryption.go:268-311 | Reading from any chunk on what was written from that chunk on completes the plaintext |
| EncryptedArchive.HeaderReads | internal/backup/encryption.go:325-371 | A written header is read back with its manifest, and the rest is the body |
| EncryptedArchive.HeaderIsUnique | internal/backup/encryption.go:340-371 | A file whose header is read is the magic, that header framed, and the body |
| EncryptedArchive.ValueOfBigEndian | internal/backup/encryption.go:329-333 | A number that fits is read back from its big-endian bytes |
| EncryptedArchive.BigEndianOfValue | internal/backup/encryption.go:348-352 | Bytes are the big-endian form of their value |
| EncryptedArchive.UnhexOfHex | internal/backup/encryption.go:412-415 | The nonce prefix survives its hexadecimal form in the manifest |
| EncryptedArchive.SealChunk | internal/backup/encryption.go:199-211 | The frame has the right length in its prefix, and what follows opens to the piece under the chunk number |
| EncryptedArchive.WriteChunks | internal/backup/encryption.go:185-215 | The writer loop produces the specified chunk sequence of all it reads |
| EncryptedArchive.WriteEncryptedArchive | internal/backup/encryption.go:159-228 | Magic, header and all chunks |
| EncryptedArchive.ReadChunk | internal/backup/encryption.go:277-307 | One pass of the reader loop: the same verdict and rest as the specified decoder, with its error |
| EncryptedArchive.ReadChunks | internal/backup/encryption.go:268-311 | The reader loop computes the specified decoder, errors included |
| EncryptedArchive.DecryptToPath | internal/backup/encryption.go:230-323 | The whole reader: header, chunks, size and digest checks |
| EncryptedArchive.Encrypt | internal/backup/encryption.go:45-109 | Succeeds exactly for a plaintext within the limit whose header can be written, and then yields the archive |
| EncryptedArchive.AssumptionsCanBeMet | internal/backup/encryption.go:230-323 | There are a cipher, a hash, a manifest form, a plaintext and an accepted file that meet everything the exactness theorem assumes |
| ArchiveMeaning.DecryptMeans | internal/backup/encryption.go:230-323 | A file is accepted with a manifest and a plaintext exactly when it is the magic line, a framed header that decodes to that manifest, which says what it must, and framed chunks that open, each under its own number, to that plaintext, whose size and digest are those of the manifest |
| ArchiveMeaning.ChunkAt | internal/backup/encryption.go:185-215 | Chunk k stands 20 bytes a chunk further than in the plaintext: the length in four bytes, then bytes 4194304k to 4194304(k+1) of the plaintext, or up to its end, sealed under prefix and k; the last chunk ends the body |
| ArchiveMeaning.FrontOf | internal/backup/encryption.go:325-341 | An archive starts with the magic line, the length of the header in four bytes and the header, and the body is all the rest |
| ArchiveMeaning.LengthBytes | internal/backup/encryption.go:203-204 | A length is written in four bytes, the most significant first |
| ArchiveMeaning.NonceBytes | internal/backup/encryption.go:440-445 | A nonce is the four bytes of the prefix and the chunk number in eight bytes, the most significant first |
| ArchiveMeaning.HexDigits | internal/backup/encryption.go:80-83 | Two lower-case digits a byte, the high half first |
| KeyedLocks.KeyedMutualExclusion | internal/attachments/service.go:580-599 | For any number of threads and any interleaving, two threads holding one key are the same thread |
| KeyedLocks.HolderOwns | internal/attachments/service.go:580-599 | A thread that holds a key owns the mutex the table has for that key |
| KeyedLocks.TableIsExact | internal/attachments/service.go:89-97 | A mutex counts exactly the threads waiting for, holding or releasing it; it is in use for a key if and only if it is the table's entry for that key |
| KeyedLocks.StepInv | internal/attachments/service.go:580-599 | Every step of lock and unlock keeps the invariant |
| KeyedLocks.RunInv | internal/attachments/service.go:580-599 | The invariant holds in every reachable state |
| KeyedLocks.DeadlockFree | internal/attachments/clone.go:152-164 | While some thread is unfinished, some thread can step |
| KeyedLocks.OwnerWantsLater | internal/attachments/clone.go:152-164 | A blocked thread waits for an unfinished one, which is not blocked or wants a later key |
| KeyedLocks.RunsEnd | internal/attachments/clone.go:152-164 | No run is longer than the work its threads began with |
| KeyedLocks.StuckMeansReleased | internal/attachments/service.go:590-598 | A state in which nothing can step has every thread finished, everything released and the table empty |
| KeyedLocks.RepeatedKeyDeadlocks | internal/attachments/clone.go:33-44 | A thread given one key twice blocks itself |
| KeyedLocks.AcquisitionOrder | internal/attachments/clone.go:33-44 | Keys are accepted exactly when all are valid and distinct, and are then taken in ascending order |
| ChunkUpload.ChunkCount | internal/attachments/service.go:142 | The chunk count is the least that covers the declared size |
| ChunkUpload.Geometry | internal/attachments/service.go:197-200 | Every expected chunk size is positive and at most one chunk, they sum to the declared size, and the import's rule is the same |
| ChunkUpload.Session.constructor | internal/attachments/service.go:125-157 | A fresh upload agrees with every file of the declared size, so every reassembly theorem applies to it |
| ChunkUpload.Session.Look | internal/store/knowledge_attachments.go:426-442 | Only the status changes, only to expired, and exactly for an unfinished upload past its time; consistency is kept |
| ChunkUpload.Session.Record | internal/store/knowledge_attachments.go:695-740 | A row is added once; the same again is a repeat, another is a conflict without effect |
| ChunkUpload.Session.StoreChunk | internal/attachments/service.go:178-248 | The whole effect and verdict of a chunk upload, every refusal included |
| ChunkUpload.Session.Assemble | internal/attachments/service.go:285-309 | The published chunks in order, or nothing if one is missing |
| ChunkUpload.Session.Complete | internal/attachments/service.go:250-356 | The whole effect and verdict of a completion, the reset on a mismatch included |
| UploadMeaning.StoreVerdict | internal/attachments/service.go:178-248 | Condition by condition: a chunk is taken exactly when the upload is open, index and length fit, size and digest are those announced, a file or row in its place agrees and the database works; otherwise which error it gets |
| UploadMeaning.StoreLeaves | internal/attachments/service.go:178-248 | A chunk taken is on record, and on disk unless it was there; a refused one changes nothing but the status of an upload past its time |
| UploadMeaning.FinishVerdict | internal/attachments/service.go:250-356 | Condition by condition: a completion succeeds exactly when it has begun or all rows are there in time, all chunk files are there with the declared size and the promised digest, and nothing fails afterwards; otherwise which error it gets |
| UploadMeaning.FinishLeaves | internal/attachments/service.go:250-366 | Success leaves the attachment and no chunk files; wrong content leaves neither rows nor chunk files; another fault no rows but all files; a refusal everything as it was |
| ChunkUpload.AfterSane | internal/attachments/service.go:178-366 | Every call, and every cut in one, keeps rows, files and status consistent with each other and the declaration unchanged |
| ChunkUpload.SlicesAssemble | internal/attachments/service.go:285-309 | Concatenating the slices in order gives the file back |
| ChunkUpload.CompletionIsExact | internal/attachments/service.go:250-356 | If the rows are those of the file, a completion succeeds exactly under the stated conditions and then yields the file; a mismatch is only reported for a wrong expected digest |
| ChunkUpload.Reassembled | internal/attachments/service.go:286-320 | For every order of accepted, repeated and refused uploads, a completion that succeeds yields the original file |
| ChunkUpload.ReassembledFrom | internal/attachments/service.go:286-320 | The same from any state that matches the file |
| ChunkUpload.PublishedIsFinal | internal/attachments/service.go:226-239 | No call and no cut changes a published chunk; it goes only with a successful completion, or with a mismatch that has reset all rows, both possibly cut between the database and the files |
| ChunkUpload.LeftChunkBlocks | internal/attachments/service.go:226-231 | A chunk file with another digest refuses every upload for its place, without effect |
| ChunkUpload.PublishedStays | internal/attachments/service.go:226-239 | Over any run a chunk that stays published keeps its content |
| ChunkUpload.SendOne | internal/attachments/service.go:178-248 | Sending a slice adds exactly it and reports whether it was there |
| ChunkUpload.AnyOrderReassembles | internal/attachments/service.go:178-356 | Sending slices in any order, repeats allowed, completes with the file exactly when all were sent, else with a conflict |
| LegacyImport.Directory.CopyLegacyChunk | internal/attachments/migration.go:309-343 | Copies exactly a chunk of the wanted size to a name not taken, else leaves no trace |
| LegacyImport.Directory.ImportEntry | internal/attachments/migration.go:266-300 | One entry: imported exactly if its name, index and size fit and it is new, else without effect |
| LegacyImport.Directory.CopyAll | internal/attachments/migration.go:253-301 | All entries or none: a failure anywhere restores the directory |
| LegacyImport.Directory.Rollback | internal/attachments/migration.go:255-259 | Removing the created files in reverse restores the directory |
| LegacyImport.Directory.ImportLegacyUploadChunks | internal/attachments/migration.go:233-307 | Succeeds exactly when importable, and then with a piece per entry; otherwise the directory is as before |
| LegacyImport.IndexIsPrinted | internal/attachments/migration.go:266-273 | A file name is taken for an index exactly when it is that index printed |
| LegacyImport.ImportIsSound | internal/attachments/migration.go:209-307 | An imported upload whose chunks are slices of a file matches the file if and only if it is not a completing upload without a directory |
| LegacyImport.LostDirectoryIsImported | internal/attachments/migration.go:239-245 | A completing upload without a directory is imported with no chunk |
| LegacyImport.ImportedReassembles | internal/attachments/migration.go:233-307 | Whatever follows such an import, a completion that succeeds yields the original file |
| ReferenceScanner.ParseKnowledgeReferences | internal/attachments/markup.go:34-75 | On every text whose offsets the scan gets right: succeeds exactly when the maximum is positive, every occurrence of the scheme in any case is followed by a valid UUID and a terminator, and the distinct references are within the maximum; then yields the normalized text and the references in first-use order |
| ReferenceScanner.ScanIsIdempotent | internal/attachments/markup.go:34-75 | Scanning the result again succeeds with the same text and list |
| ReferenceScanner.NormalizedKeepsPositions | internal/attachments/markup.go:34-75 | The normalized text is one whose offsets the scan gets right, if the original was |
| ReferenceScanner.NoOccurrenceInside | internal/attachments/markup.go:46-73 | No occurrence starts inside a consumed reference |
| ReferenceScanner.FoundIffOccurs | internal/attachments/markup.go:34-46 | Searching the lowered text finds exactly the occurrences in any case in the original |
| ReferenceScanner.IndexFrom | internal/attachments/markup.go:40-46 | The first occurrence at or after the cursor, or none |
| ReferenceScanner.ReadReference | internal/attachments/markup.go:48-63 | The canonical identifier after an occurrence, exactly when it is well formed |
| ReferenceScanner.Canonical | internal/attachments/service.go:508-514 | Accepts exactly valid UUIDs and returns the lower-case form, again valid |
| ReferenceScanner.ReferenceIsLower | internal/attachments/markup.go:64-65 | In the normalized text every reference is the scheme and the canonical identifier |
| ReferenceScanner.LowerOfNormalized | internal/attachments/markup.go:43-75 | The normalized text differs from the original in case only, and has its occurrences at the same places |
| ReferenceScanner.OffsetMoves | internal/attachments/markup.go:34-47 | The offset found in the lowered text is the own offset plus the total growth of the text before it, so the right one if and only if that is zero |
| ReferenceScanner.OffsetLeavesText | internal/attachments/markup.go:41-47 | A well-formed text of letters U+023A before one reference: the offset found in the lowered text is beyond the end of the text if and only if there are at least sixty |
| ReferenceScanner.Distinct | internal/attachments/markup.go:66-72 | The same identifiers, each once |
| ReferenceScanner.ReferencesAreCanonical | internal/attachments/markup.go:53-72 | Every reference is a valid lower-case UUID |
| ReferenceMeaning.ReferencesMean | internal/attachments/markup.go:64-73 | The list has exactly the identifiers of the references in the text, each once, in the order of their first use |
| Deployment.CrashSafety | deploy/self-hosted/deploy.py:77-167 | After any sequence of runs cut off anywhere: with no marker and a recorded release, the environment file names the recorded image |
| Deployment.CrashSafetyInside | deploy/self-hosted/deploy.py:77-167 | The same in every state during a run |
| Deployment.TrailSound | deploy/self-hosted/deploy.py:77-167 | Every state of a run is sound, and its record is the old one or supersedes it |
| Deployment.BlockedForGood | deploy/self-hosted/deploy.py:84-98 | While the marker exists, and when an install was cut off, no sequence of runs changes anything |
| Deployment.VersionsIncrease | deploy/self-hosted/deploy.py:41-46 | Over any sequence of runs a recorded version is only replaced by a greater one of the same major version |
| Deployment.UpgradeMeans | deploy/self-hosted/deploy.py:41-46 | Exactly when an upgrade is allowed |
| Deployment.VersionRoundTrip | deploy/self-hosted/deploy.py:24-27 | A string is accepted as a version exactly when it is that version printed |
| Deployment.RewrittenSettings | deploy/self-hosted/deploy.py:130-133 | Rewriting changes the image setting and no other |
| Deployment.FirstSettings | deploy/self-hosted/deploy.py:143-148 | What each of the eight names is set to by the first environment file: project, image, panel URL, administrator e-mail and path, port, bind address, and secure cookies exactly for an https URL |
| Deployment.CompletedInstall | deploy/self-hosted/deploy.py:77-167 | An install that comes up leaves no marker, the target recorded, and an environment file that sets each of the eight names to its value |
| Deployment.CompletedUpdate | deploy/self-hosted/deploy.py:77-167 | An update that comes up leaves no marker, the target recorded and every other setting as it was |
| Deployment.RunMeans | deploy/self-hosted/deploy.py:80-167 | Condition by condition: exactly when a run changes anything, and exactly when it completes; otherwise the record is as before, and the marker is set if anything was changed |
| Deployment.SettingMeans | deploy/self-hosted/deploy.py:94 | A name has the value that the last line setting it gives, and none if no line sets it |
| Deployment.ImageLinesMeans | deploy/self-hosted/deploy.py:131 | The number of lines that set the image |
| Deployment.Installation.DeployInner | deploy/self-hosted/deploy.py:77-167 | Passes through exactly the specified states and ends in the last; reports success exactly when nothing stood in the way, and then the target is recorded and the marker gone, else the record is the old one |
| Deployment.Installation.FinishDeployment | deploy/self-hosted/deploy.py:149-164 | The common end of both modes, state by state |
| Numerals.NumberIsPrinted | deploy/self-hosted/deploy.py:24-27 | A string is read as a number exactly when it is that number in decimal without leading zeros |

## Left out

- Redis client errors, pipeline batches of 500, SSCAN cursors and the removal of malformed members by `scanSetIDs`: scripts are atomic steps and scans return sets; a database write that fails (users re-queued as pending) is not modelled.
- Malformed hash fields and values in a user's hash, which the code treats as stale: the model's fields are well formed.
- DeviceSummaries.WritesAreThrottled: takes each call as one step; with calls overlapping it is false, with its exact condition in SummarySpacing.ApartIff. It covers operations that return no error, as do both theorems on lost summaries; a superseded replacement returns before it notifies (internal/devicestate/service.go:225-227).
- DeviceSummaries.NoLostSummary: takes each call as one step, as do the class contracts; the interleavings are in DeviceFence and SummaryInterleaving.
- DeviceService.RedisService.ClearOneNode: the class runs one call at a time, so a clear is not superseded in it; that is in DeviceFence.
- SummaryInterleaving.NoLostSummary: one user, whose devices any call may change in any way; that reports change them as DeviceStore says is not carried over.
- DeviceService.RedisService.Affected: the limit of one million on a scanned index is not modelled.
- Fixed integer widths of identifiers, times and versions; the 32-bit and 64-bit fields of the archive format are modelled.
- Defaults for a zero `now`, `GetSession`, the deep copies made by `Session.Clone`, and the stored but never compared `runtimeID`.
- DeviceFence.FencedReplacement: speaks of live fields; for raw fields the property is false, with its exact condition in DeviceSummaries.ScriptsAreExactIff.
- KeyedLocks.StepInv: a state machine over values, one atomic step per critical section, instead of a class, because what is modelled is concurrency; the goroutines' scheduler is any choice of enabled step.
- EncryptedArchive.Encrypt: the inner backup manifest, the creation time, file-system checks, the key's format and the verification of the published file are not modelled; the JSON form of the manifest is a pair of functions.
- The file-system hardening, quotas, MIME detection, names, draft tokens and ownership checks of attachments, and the copying of files by `CloneForDraft`.
- `ImportLegacyFiles` and the quota of `ImportLegacySnapshotFiles`; only the chunks of uploads are imported here.
- ReferenceScanner.ParseKnowledgeReferences: the repair of nested links before the scan (at most four passes) and the UTF-8 check are not modelled. The text is one on which lower-casing makes no ASCII character out of another (not the Kelvin sign) and changes the length of what precedes an occurrence by nothing in total, which is when the code's offsets are right (OffsetMoves); what it makes of a text read at wrong offsets is not described beyond OffsetLeavesText. The same holds for ScanIsIdempotent and IndexFrom.
- Deployment.Installation.DeployInner: the checks of release and configuration, the lock, and all calls to docker are the parameter `Outside`; a cut inside the writing of a file leaves any content.
- Deployment.RewrittenSettings: the environment file is a sequence of lines; the separators other than a newline that only one of the two ways of splitting it knows are not modelled.
- Command-line programs, HTTP handlers, the scheduler, the rest of the store, backups other than the encrypted format, and the web interface: thin over databases and networks, or easy one-branch rules.

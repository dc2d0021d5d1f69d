# Crabinet, verified models

Crabinet serves directories ("shares") over HTTP. This project models the parts of it whose
correctness depends on many steps, many requests or arbitrary input, and proves what they promise.
`dafny verify dfyconfig.toml` checks everything.

## What is modelled

- **Staged publication** (`Publication`, `PublicationInvariant`, `PublicationSafety`,
  `PublicationSuccess`, `PendingWrites`). New files, replacements, extracted trees, deletions and
  moves as a step machine over two directories (the user's names and private staging). Any system
  call may fail, any request may be dropped, the process may crash between any two steps, startup
  recovery runs in any order, and other processes change user-visible names. The classes `Share` and
  `PendingWrite` are the code itself, call by call; each method says exactly when it succeeds, with
  which error it fails and what it leaves in the directories, and is proved to make calls with which
  any run of the machine can go on. A request that nothing disturbs succeeds in every run
  (`UndisturbedSucceeds`). Two promises do not hold of `publish_new`. It ignores whether its own
  withdrawal worked, so it can report Conflict and leave its file visible:
  `NewConflictCanLeaveAFile` gives the run, `NewLeavesAChangeIff` and `NewConflictIsCleanIffRemoved`
  say exactly when. And when it withdraws it unlinks whatever file is at the name by then:
  `NewConflictCanUnlinkAnothers` gives the run, `UnlinksAnothersFileIff` says exactly when.
- **Tree walks** (`Trees`, `SizeWalks`, `UsageWalks`, `ArchiveWalks`, `ArchiveOrder`,
  `EntryPolicies`). The three recursive walks and the check before a move, over arbitrary static
  trees with unreadable directories, faulty entries, hidden internal names, aliases and special
  files. Each is proved against a declarative condition, and then against the others; what counts is
  said of the entries themselves.
- **The depth limit** (`ShareMoves`, `DepthLimit`). Whole runs of creations, uploads, moves,
  deletions, moves to Trash and back, and extractions. Trash is `.crabinet/trash` below the share's
  root, so deleting and restoring are renames. The limit does not hold in every run: an upload opens
  its parent directory when it begins (src/mutations.rs:1515-1522) and publishes through that handle
  later, so a directory that is empty when it is moved to the limit can still receive the upload,
  one level too deep. `LimitCanBeExceeded` gives the run, `LimitHoldsIff` says exactly which
  publications do it, and `LimitHoldsWithoutRaces` that nothing else does.
- **Archive extraction** (`Extraction`, `ExtractionNames`, `ExtractionPlans`, `ExtractionTheory`,
  `ExtractionOrder`, `BoundedCopy`, `ExtractRun`, `ZipPreflight`, `ZipWriting`). The incremental
  checker against a condition on the whole archive and the paths that its names spell; independence
  of entry order; bounded copying under any chunking; disk space; and the ZIP preflight with the
  reader that hides file bodies from the ZIP library. Record layouts follow sections 4.3.12, 4.3.14,
  4.3.15 and 4.3.16 of the PKWARE APPNOTE.
- **Folder-size cache** (`FolderSizes`, `FolderSizeCoherence`). The class, and its coherence with a
  changing tree when slow walks race with commits and invalidations. A request invalidates only if
  it ends in success (src/mutations.rs:1726-1731), so an invalidation may never come; what holds
  then is stated too.
- **Rate limiter and sessions** (`RateLimits`, `Sessions`, `SessionRuns`). The pruned limiter
  against one that never forgets, and against the count of each minute's attempts; the session table
  with caps, rotation, expiry and interleaved validation.
- **Gates and single-flight locks** (`SubjectGates`, `SingleFlight`). Permit conservation and guard
  exclusion under every interleaving of single steps.
- **Listings and cursors** (`Orders`, `Cursors`, `Listings`). Paging over a sorted listing and the
  byte strings that are authenticated and hashed.
- **Client addresses** (`ClientAddresses`, `ForwardedClients`). Networks, the quote-aware splitter
  and the walk over the `Forwarded` header (section 4 of RFC 7239) or X-Forwarded-For.
- **Virtual paths** (`VirtualPaths`). Parsing, printing and prefixes.

## Assumptions

- A system call that reports failure has had no effect. Validator equality stands for "the same
  version" of a file, and an inode number is not used again while it is remembered.
- Other processes may change a user-visible name at any time except between the change of it by a
  replacement, deletion, move or tree publication and the decision to keep or undo that change. They
  may change the name of a new file at any time. They never touch private staging. Within Crabinet
  the commit lock of a share (src/mutations.rs:284-293) keeps these windows apart.
- Random staging names and session tokens are unused when they are chosen.
- Fewer than 2^64 invalidations happen, since the generation counter wraps.
- A byte string in memory has fewer than 2^63 bytes; `usize` has 64 bits.
- HMAC, SHA-256 and the address parsers of the standard library are parameters: the theorems hold
  for any functions in their place. The naming policy beyond "non-empty, no slash, at most 255
  bytes, neither `.` nor `..`" is a parameter too.

## Model

| member | source | states |
|---|---|---|
| VirtualPaths.ParseExactlyInvertsDisplay | src/filesystem.rs:283-295 | Parsing a text gives a path exactly when the text is that path printed, the path is not the root, its components are valid, and depth and length are within the limits |
| VirtualPaths.DisplayInjective | src/filesystem.rs:347-357 | Two paths, the root included, print alike only if they are equal |
| VirtualPaths.StartsWithIffTextual | src/filesystem.rs:342-345 | A component-wise prefix is a printed prefix that ends at a slash, or the whole text, and conversely |
| VirtualPaths.Print | src/filesystem.rs:347-357 | The printing loop produces the printed form that parsing inverts |
| PublicationInvariant.RunInv | src/filesystem.rs:428-544 | In every run with failures, cancellations, crashes, recoveries and foreign changes, each request's nodes are where its next step expects them, no private node is in two places, and all reports so far are correct |
| PublicationSuccess.UndisturbedSucceeds | src/filesystem.rs:428-544 | In every run, if a request's names hold what it expects when it begins and until its last call none of its calls fails and nobody else changes its names, then exactly that call, the third of a new file or a move, the second of a tree, the fifth of a replacement, the fourth of a deletion, reports success with the names as they should be |
| PublicationSuccess.LeftoverIsRemoved | src/filesystem.rs:1598-1623 | In every run, what a crash leaves of a request that has not renamed its staged node is one that startup recovery removes |
| PublicationSuccess.RetainedIsKept | src/filesystem.rs:1586-1592 | Startup recovery never removes a name under which a previous version or a deleted entry is kept |
| PublicationSafety.EarlyFailuresChangeNothing | src/filesystem.rs:428-544 | A call that fails before its rename has changed no name, whichever operation it is |
| PublicationSafety.OnlyExpectedVersionsAreUnlinked | src/filesystem.rs:456-544 | In every run, whatever was unlinked is a staged node that never reached the user, or exactly the version that a replacement or deletion had validated, or the file that `publish_new` found in place of its own; never the last if other processes leave new files alone while they are being published |
| PublicationSafety.UnlinksAnothersFileIff | src/filesystem.rs:440-447 | In every run, a step unlinks a file that is not the request's own exactly when `publish_new` withdraws, its removal works on a file, and another process has put that file there since the rename |
| PublicationSafety.NewConflictCanUnlinkAnothers | src/filesystem.rs:440-447 | For every file, name and other file there is a run from an empty share in which `publish_new` unlinks that other file, and it is gone |
| PublicationSafety.NothingOfTheUsersIsLost | src/filesystem.rs:1071-1202 | In every run, a node of the user's that was visible or retained is still visible or retained, or was unlinked as the expected version, or was taken away by another process, or was withdrawn by `publish_new` in place of its own file; never the last if other processes leave new files alone |
| PublicationSafety.ReportsAreCorrect | src/filesystem.rs:1071-1202 | In every run, each report is true of the names it concerns; a replacement, deletion, move or tree publication that fails with anything but Unavailable left them unchanged |
| PublicationSafety.NewLeavesAChangeIff | src/filesystem.rs:428-452 | In every run, a whole request for a new file fails and leaves its name changed exactly when it made all four of its calls and the last, the removal, left something at the name |
| PublicationSafety.NewConflictIsCleanIffRemoved | src/filesystem.rs:440-447 | In every run in which other processes leave new files alone, it does so exactly when its third and fourth calls, the validation and the removal, both failed |
| PublicationSafety.NewConflictCanLeaveAFile | src/filesystem.rs:440-447 | For every file and name there is a run from an empty share in which `publish_new` reports Conflict and its file stays visible |
| PendingWrites.AloneContinues | src/mutations.rs:284-293 | Any run that reaches a state with only the request of a method goes on with exactly that method's calls, so what is proved of every run holds of the methods |
| PendingWrites.PendingWrite.PublishNew | src/filesystem.rs:428-452 | Succeeds exactly when the sync, the rename and the validation work and the name is free; otherwise reports the exact error of the first that fails. It fails leaving the names changed exactly when the validation and the removal both fail. The staging name is gone unless the guard's removal fails |
| PendingWrites.PendingWrite.PublishReplacement | src/filesystem.rs:456-512 | Succeeds exactly when its five calls work, the retained name is unused and the destination is the expected version and a file; that version is then gone. Otherwise it reports the exact error of the first thing that fails, leaving every name as it was, or reports Unavailable with the previous version kept under a name that recovery retains |
| PendingWrites.PendingWrite.RollBack | src/filesystem.rs:514-536 | Exchanges back and reports the failure, or leaves the previous version under its retained name, disarms the guard and reports Unavailable |
| PendingWrites.PendingWrite.Drop | src/filesystem.rs:538-544 | The drop guard removes the staged name unless it was published or retained |
| PendingWrites.Share.DeleteEntry | src/filesystem.rs:1136-1202 | Succeeds exactly when its four calls work, the staging name is unused and the entry is the expected version and, if a directory, empty; it is then gone and nothing else. Otherwise it reports the exact error of the first thing that fails, with nothing changed, or Unavailable with the entry kept under a name that recovery retains |
| PendingWrites.Share.MoveEntry | src/filesystem.rs:1071-1134 | Succeeds exactly when its three calls work, the names differ, the source is the expected version and the destination is free; it is then there. Otherwise it reports the exact error of the first thing that fails, with nothing changed, or Unavailable with the entry at the destination |
| PendingWrites.Share.RecoverStaging | src/filesystem.rs:1569-1623 | The two-phase recovery loop changes recoverable names only, keeps every retained name, removes nothing if the scan is over its budget, and on success has removed all recoverable names and counts them |
| PendingWrites.Share.CleanTree | src/filesystem/archive.rs:152-164 | Cleaning a leftover tree removes it exactly when no call fails and its entries fit the budget, and otherwise leaves the rest of that tree and nothing else changed |
| Trees.HeightIsLongestPath | src/filesystem.rs:1670-1676 | A tree's height is within a bound exactly when every path in it is |
| SizeWalks.SizeWalk.Visit | src/filesystem.rs:1392-1434 | The recursive loop computes the walk function, stopping every caller once the budget is spent |
| SizeWalks.FolderSize | src/filesystem.rs:949-968 | A folder size is a lower bound of the true size, exact when marked complete, and marked complete exactly for a clean tree within the entry and time budget |
| SizeWalks.WalkIsExact | src/filesystem.rs:1389-1435 | The same of the walk function, for every tree, depth and budget |
| EntryPolicies.PlainTotals | src/filesystem.rs:1439-1466 | In a tree of listed directories and single-link files the folder size is the sum of all files, and the quota charges 4096 for every directory besides |
| EntryPolicies.UnservedAddNothing | src/filesystem.rs:1439-1466 | A file with other links, a special file or an unlisted entry, wherever it is, adds nothing to a folder's size, is never archived and is not descended into |
| EntryPolicies.ServedCount | src/filesystem.rs:1439-1466 | A listed single-link file adds its size and a listed directory what is in it |
| EntryPolicies.CleanIff | src/filesystem.rs:1392-1434 | Nothing keeps a walk from being complete exactly when every entry it comes to can be read, and every served one is within the depth limit and, if a directory, can be opened |
| EntryPolicies.EntryUsage | src/filesystem.rs:1643-1670 | Wherever an entry is, the quota charges a file its size whatever its links, a directory 4096 and what is in it, and nothing for special files and this process's own names |
| EntryPolicies.MeasurableIff | src/filesystem.rs:1643-1670 | A measurement can succeed exactly when every entry it comes to can be read and none that counts is too deep |
| UsageWalks.UsageScan.Measure | src/filesystem.rs:1643-1670 | The recursive loop computes the measurement function |
| UsageWalks.MeasureIsExact | src/filesystem.rs:1643-1670 | A measurement succeeds exactly when the tree is readable, not too deep and within both limits, and then returns every file's size plus 4096 for each directory |
| UsageWalks.UsageCoversSize | src/filesystem.rs:1625-1642 | The usage charged for a tree is at least its true folder size |
| UsageWalks.TooDeepIsDeep | src/filesystem.rs:1656-1658 | A measurement that reports depth has met a user's path beyond the limit |
| UsageWalks.EnsureSubtreeWithin | src/filesystem.rs:1676-1698 | The recursive loop computes the check function |
| UsageWalks.CheckIsExact | src/filesystem.rs:1676-1698 | The check passes exactly for a readable tree no higher than the allowance with no more entries than it may visit |
| UsageWalks.CheckFindsDepth | src/filesystem.rs:1684-1686 | The check reports depth only for a tree higher than the allowance |
| ArchiveWalks.ArchiveWalk.Visit | src/filesystem.rs:1286-1306 | The scan, the depth check, the sort and the recursive loop compute the walk function |
| ArchiveWalks.ArchiveWalk.Record | src/filesystem.rs:1320-1353 | Names and sizes are charged with saturation before the item is recorded |
| ArchiveWalks.VisitIsExact | src/filesystem.rs:1279-1360 | The walk from any state succeeds exactly when the tree is clean and the grown totals fit, and then adds exactly the directory's items |
| ArchiveOrder.ArchiveSucceedsIff | src/filesystem.rs:849-874 | An archive succeeds exactly when the tree is clean and its entries, sizes and names fit; its items' sizes then add up to the true size |
| ArchiveOrder.ArchiveAgreesWithFolderSize | src/filesystem.rs:1279-1435 | Whenever an archive succeeds, a folder-size walk with at least its entry budget and no deadline is complete and equals the sum of the archived sizes |
| ArchiveOrder.FolderSizeAgreesWithArchive | src/filesystem.rs:1279-1435 | Whenever a folder size is complete, an archive with as large an entry budget succeeds exactly when that size and the names fit |
| ArchiveOrder.QuotaCoversFolderSize | src/filesystem.rs:1207-1219 | A reported folder size never exceeds the quota charged for the same tree |
| ArchiveOrder.ItemsAreInOrder | src/filesystem.rs:1301-1304 | Archived items are strictly increasing in component-wise order |
| ArchiveOrder.ParentsComeFirst | src/filesystem.rs:1354-1357 | Every archived item below the top has its directory earlier in the archive |
| ArchiveOrder.ItemIsReached | src/filesystem.rs:1312-1360 | Every item is at a path through listed, readable directories to a listed directory or single-link file, with that entry's kind and size |
| ArchiveOrder.ReachedIsItem | src/filesystem.rs:1312-1360 | Every listed directory or single-link file that such a path leads to is archived there |
| ArchiveOrder.TooDeepIsDeep | src/filesystem.rs:1298-1300 | An archive that reports depth has met a supported path beyond the limit |
| ShareMoves.MoveKeepsLimit | src/filesystem.rs:1085-1098 | A successful move keeps every shown path within 64 components, although a move to the same or a smaller depth checks nothing |
| ShareMoves.MoveSucceedsIff | src/filesystem.rs:1071-1115 | A move succeeds exactly when the source is there, the destination is free, in a directory and not inside the source, and a directory that goes deeper can be read, is small enough and fits |
| ShareMoves.MoveBackRestores | src/filesystem.rs:1117-1131 | Moving an entry back to where it came from restores the share exactly |
| DepthLimit.ExtractionFits | src/archives.rs:325-329 | Everything in an accepted archive's tree fits the limit below its destination and lies in a directory |
| DepthLimit.RestoreKeeps | src/filesystem/trash.rs:591-609 | Restoring an item, to where it was or elsewhere, leaves a share, and keeps it within the limit |
| DepthLimit.RestoreUndoesDiscard | src/filesystem/trash.rs:566-637 | An entry that was moved to Trash and is restored to its original place leaves the share and the list of items exactly as they were |
| DepthLimit.StepKeepsLimitIff | src/filesystem.rs:1037-1069 | A step from a share within the limit leaves it within the limit exactly when it is not an upload published into a directory that is by then 64 deep |
| DepthLimit.LimitHoldsIff | src/mutations.rs:1579-1612 | A whole run, Trash included, stays within the limit exactly when no upload is published into a directory that deep |
| DepthLimit.LimitHoldsWithoutRaces | src/filesystem.rs:1071-1098 | Every run in which no directory goes deeper, or comes back from Trash deeper than it was, under an open upload stays within the limit |
| DepthLimit.LimitCanBeExceeded | src/mutations.rs:1515-1522 | A concrete run of an upload and a move that ends with a path of 65 components |
| DepthLimit.UsageIsNotTooDeep | src/filesystem.rs:1656-1658 | Measuring a share within the limit never reports depth |
| DepthLimit.ArchiveIsNotTooDeep | src/filesystem.rs:1298-1300 | Archiving any shown directory of a share within the limit never reports depth |
| ExtractionNames.PlaceIff | src/archives.rs:310-331 | An entry has its place at a path exactly when its name is well-formed text that spells that path, after any number of `./` and for a directory perhaps before one slash, the components are valid and may be created, and depth and length fit below the destination |
| ExtractionNames.NoPlaceIff | src/archives.rs:310-331 | A directory is passed over exactly when its name spells the top of the tree; Invalid and Depth are reported exactly for ill-formed text and for a good name that lies too deep; the rest is refused as a name |
| Extraction.LocatedIsValid | src/archives.rs:310-331 | A located entry is a valid path whose depth and printed length fit below the destination |
| ExtractionTheory.FoldExact | src/archives.rs:309-404 | An archive is accepted exactly when every entry's name spells a place (or the top), declared sizes match, no two explicit entries share a path, no file is above another entry and the totals over explicit entries and implied directories fit every budget; the state is then the one that those items call for, with charge 4096 * (1 + directories) + file bytes |
| ExtractionOrder.OrderDoesNotMatter | src/archives.rs:360-404 | Rearranging an archive's entries changes neither its acceptance nor the resulting tree and totals |
| ExtractionPlans.AdmitExact | src/archives.rs:360-404 | One located entry is taken exactly when its declared size is right, no file is above it, nothing explicit is at its path and for a file nothing at all, and the totals with its new parents fit; the state then records exactly that |
| ExtractRun.Extractor.AddEntry | src/archives.rs:332-359 | Updates the fields in place as the pure checker says; disk use never shrinks and stays within the charge limit even on failure |
| ExtractRun.Extractor.Entry | src/archives.rs:360-404 | One entry in place: the pure checker's state or its error; disk use never shrinks and stays within the limit on every outcome |
| ExtractRun.Extractor.Entries | src/archives.rs:473-503 | A whole archive in place equals the fold; disk use never shrinks and stays within the limit on every outcome |
| ExtractRun.Extractor.Gunzip | src/archives.rs:505-522 | Stages exactly one file at the top with the decoded bytes, or returns the error of the first check that its name or size fails; disk use never shrinks and stays within the limit on every outcome |
| ExtractRun.Extract | src/archives.rs:406-553 | For every format and outcome, snapshot bytes plus staged directories and files never exceed the caller's charge limit; a source that does not fit gives Limit, and otherwise the result is the checker's tree or error under the charge that the snapshot leaves |
| BoundedCopy.Input.Read | src/archives.rs:143-162 | A bounded read takes at most one byte beyond its bound from the source, fails exactly when it takes that byte, and otherwise delivers the next bytes and lowers the bound by their number |
| BoundedCopy.Copy | src/archives.rs:189-204 | Whatever the chunking, a copy delivers the input unchanged, and fails exactly when the input is longer than the smaller bound |
| ZipPreflight.Preflight | src/archives.rs:643-751 | Succeeds exactly for a file whose end records, ZIP64 records and central directory are well formed; the directory is then tiled by exactly the returned number of headers, within the limits |
| ZipWriting.WrittenIsAccepted | src/archives.rs:643-751 | An archive as it is written, with headers of any names, extra fields and comments and right after them its end records, with or without ZIP64, is accepted with its directory's offset and count if no other end-record signature occurs from the directory on |
| ZipPreflight.SaysUnique | src/archives.rs:643-700 | The end records of a file describe at most one directory |
| ZipPreflight.CheckHeaders | src/archives.rs:707-733 | The header loop succeeds exactly when well-formed headers fill the directory region and fit the entry and name limits |
| ZipPreflight.MaskedEnds | src/archives.rs:64-87 | In the masked view of an accepted file, end-record signatures occur at the validated positions and nowhere else |
| ZipPreflight.ZipInput.Read | src/archives.rs:69-82 | A read shows the masked file, advancing the position by what it returns |
| ZipPreflight.Discover | src/archives.rs:64-87 | Whatever the ZIP library seeks and reads while it looks for metadata, each end-record signature it sees is a validated one |
| FolderSizes.FolderSizeCache.GetAt | src/folder_sizes.rs:70-80 | Returns the stored size until its time to live is over, and never an expired one |
| FolderSizes.FolderSizeCache.InsertAt | src/folder_sizes.rs:97-130 | Stores only results no invalidation has overtaken; evicts only for a new key in a full cache, expired entries first, then one of the oldest; keeps the capacity |
| FolderSizes.FolderSizeCache.Invalidate | src/folder_sizes.rs:132-140 | Removes exactly the entries above or below the path and moves the generation on |
| FolderSizes.FolderSizeCache.InvalidateShare | src/folder_sizes.rs:142-144 | Removes exactly the share's entries and moves the generation on |
| FolderSizeCoherence.FinishedIsExact | src/browse.rs:1136-1153 | A walk finished over a tree that did not change under it has the exact size, in whatever order it went |
| FolderSizeCoherence.CacheIsCoherent | src/folder_sizes.rs:66-144 | In every interleaving of walks, stores, evictions, commits and invalidations, each complete cached size is the folder's size now unless a change above or below it was committed since its walk started and still awaits its invalidation |
| FolderSizeCoherence.WrongSizesExpire | src/mutations.rs:1719-1735 | Even if an invalidation never runs, a wrong complete size is served only before its stored time plus the time to live, and only if its walk had started before the change |
| FolderSizeCoherence.LaterWalksAreExact | src/folder_sizes.rs:96-128 | A walk with no related change and no invalidation in its time is stored, and right if complete, whatever invalidations of earlier changes are still due |
| RateLimits.RateLimiter.Allow | src/auth.rs:1450-1489 | One attempt in place: prunes, makes room by evicting an unexhausted window that is longest unseen, and counts, as the specification relation says |
| RateLimits.SizeBounded | src/auth.rs:1450-1489 | In every run the map stays within its bound |
| RateLimits.AttemptsAreCounted | src/auth.rs:1449-1494 | With a clock that does not go back, as long as the key is neither cleared nor evicted, exactly the first so many attempts of each minute are allowed |
| RateLimits.MinutesAreShared | src/auth.rs:1476-1483 | The attempts less than 60 seconds after the one that began a minute belong to it, and the next one begins another |
| RateLimits.EvictedIsLongestUnseen | src/auth.rs:1454-1470 | A key is evicted only from a full map, is not exhausted, and was last seen no later than any other such key |
| RateLimits.PruningIsInvisible | src/auth.rs:1449-1494 | With a clock that does not go back and no attempt meeting a full map, every answer is that of a limiter that keeps all windows for ever |
| RateLimits.FloodCannotReopen | src/auth.rs:1450-1489 | Once a key's window is exhausted, the key is refused until a minute after the window began, whatever other keys do and however many they are |
| Sessions.SessionStore.Rotate | src/auth.rs:1353-1405 | The transaction's statements, in order, produce the rotated table, or leave the old one when the key is taken |
| Sessions.FirstCount | src/auth.rs:1377-1396 | Ordering by last use, creation and key and skipping n rows keeps exactly n rows of a scope, or all of them |
| Sessions.RotationKeepsCaps | src/auth.rs:1353-1405 | A rotation keeps the caps per user and overall |
| Sessions.RotationRemoves | src/auth.rs:1366-1402 | After a rotation the new session is there, the one it replaces is not, nor any that had expired or been idle too long, and what is left is unchanged |
| Sessions.WhyASessionLeaves | src/auth.rs:1366-1395 | A session that a rotation removes was replaced, had expired or been idle too long, or a cap was full and it was last seen no later than every session kept that it competed with, ties broken by creation and key |
| Sessions.PurgeAgreesIff | src/auth.rs:1373-1376 | The purge removes only rows that validation would refuse exactly when its cutoff does not saturate; otherwise some good row is lost |
| SessionRuns.ValidationIsTimely | src/auth.rs:860-886 | In every interleaving a session validates only from its creation until the absolute timeout, and less than the idle timeout after its creation or an earlier success |
| SessionRuns.ValidatesIff | src/auth.rs:860-886 | In every interleaving a lookup succeeds exactly when the session's row is there, the user is active, the time is from its creation until the absolute timeout, and it was last seen less than the idle timeout ago |
| SessionRuns.SuccessExtends | src/auth.rs:1429-1438 | A successful lookup that may extend its session goes on to make its time the one at which it was last seen |
| SessionRuns.WhyARowGoes | src/auth.rs:879-895 | A session's row goes only by logout, by a request that found it expired or its user inactive, or by a rotation |
| SessionRuns.OnlyFailuresDelete | src/auth.rs:879-884 | A request comes to delete a row only by a lookup that does not succeed |
| SessionRuns.GoneForGood | src/auth.rs:1429-1446 | Once an issued session's row is gone it never returns, even if an older touch lands later |
| SessionRuns.NeverValidatesAgain | src/auth.rs:838-886 | After that no lookup of it succeeds |
| SessionRuns.CapsHold | src/auth.rs:1353-1446 | From the empty store, every run of rotations, touches and deletions keeps both caps |
| SessionRuns.NewSessionSurvives | src/auth.rs:803-836 | In every run a rotation's own session is stored right after it, even when all timestamps tie |
| SingleFlight.ThumbnailService.InFlight | src/thumbnail.rs:160-163 | Returns the lock that the map names for the key, adding a new one only if there is none |
| SingleFlight.ThumbnailService.ReleaseInFlight | src/thumbnail.rs:166-172 | Removes the entry exactly when the count is at most two, as the machine's steps do |
| SingleFlight.HandlesInUseAreNamed | src/thumbnail.rs:160-172 | In every interleaving, the handle of a request that may still use it is the one the map names for its key |
| SingleFlight.GuardsExclude | src/thumbnail.rs:431-461 | In every interleaving, two guards held at once are for different keys |
| SingleFlight.RemovalIsByTheLast | src/thumbnail.rs:166-172 | In every interleaving, an entry is removed only by the last request that has its lock |
| SubjectGates.SubjectGate.TryAcquire | src/browse.rs:323-338 | Takes a permit and consults the map, or changes nothing; a refusal returns the permit |
| SubjectGates.SubjectGate.Drop | src/browse.rs:346-358 | Leaves the map, then returns the permit |
| SubjectGates.PermitsAreConserved | src/browse.rs:313-358 | In every interleaving, free permits, live leases, attempts and returns in progress add up to the capacity |
| SubjectGates.SubjectCapHolds | src/browse.rs:323-338 | In every interleaving no subject holds more leases than its cap, and one is refused by the map exactly when it holds that many |
| SubjectGates.QuietGateIsFull | src/browse.rs:346-358 | When nobody is left, every permit is back, and the map is empty if the cap is positive |
| SubjectGates.MapEmptiesIff | src/browse.rs:323-358 | The map empties with the gate in every run exactly when the cap is positive or there are no permits |
| Cursors.MacInputInjective | src/browse.rs:1878-1901 | Two cursors are authenticated by the same bytes only if subject, share, path, access, offset and fingerprint all agree |
| Cursors.DecodeExactlyInvertsEncode | src/browse.rs:1799-1854 | Decoding accepts exactly the cursor that encoding makes for the same context and listing, and returns its offset |
| Cursors.CursorsAreBound | src/browse.rs:1818-1876 | A cursor is refused for any other context or listing, unless the MAC gives two different inputs the same tag |
| Listings.FingerprintInputExact | src/browse.rs:1787-1797 | Two listings are hashed as the same bytes exactly when their kinds, names and identities agree in order |
| Listings.ListingIgnoresReadOrder | src/browse.rs:797-804 | The order in which a directory is read does not change its listing |
| Listings.ListingOrder | src/browse.rs:797-804 | Directories come before files and names rise within each kind; an entry is listed exactly when hidden entries are shown or its name does not begin with a dot |
| Orders.NameBeforeIff | src/browse.rs:797-804 | A name comes before another exactly if it is a proper beginning of it or has the smaller byte where they first differ |
| Listings.WalkIsComplete | src/browse.rs:797-832 | Following cursors to the end yields every shown entry exactly once in strict order, for any page limits |
| Listings.WalkTerminates | src/browse.rs:818-832 | That takes no more pages than there are entries, or one |
| Listings.WalkGoesOn | src/browse.rs:805-832 | Until the end, the next request succeeds for any allowed limit, however the directory is read |
| ClientAddresses.ContainsIffSharesPrefix | src/client_address.rs:75-105 | A network contains exactly the addresses of its family whose leading bits agree with it, IPv4-mapped ones as IPv4 |
| ClientAddresses.SplitOutsideQuotes | src/client_address.rs:179-202 | The index loop returns the parts between separators outside quoted strings, or nothing if a quoted string does not end |
| ClientAddresses.SplitBeside | src/client_address.rs:179-202 | A separator before quote-free text splits there whatever precedes it, unless the text before it ends within quotes, and then there is no result |
| ClientAddresses.FindFor | src/client_address.rs:206-250 | Returns an address exactly when every pair has a name and exactly one is `for`, with that address as its value |
| ClientAddresses.FindNearest | src/client_address.rs:161-174 | The loop from the right returns an address exactly when some entry names it, it lies in no configured network, and every entry to its right names an address inside one |
| ClientAddresses.ClientAddress | src/client_address.rs:131-174 | The result is the peer, or the peer is a proxy and the result lies in no configured network; and it is what the walk over the combined header names |
| ClientAddresses.CanonicalIff | src/client_address.rs:131-136 | Exactly the IPv4-mapped addresses become IPv4, and every other stays as it is |
| ForwardedClients.ParseNodeIff | src/client_address.rs:234-257 | A node is an IPv6 address in brackets with or without a valid port, a plain address, or an IPv4 address with a valid port, and nothing else |
| ForwardedClients.ReadIff | src/client_address.rs:206-231 | A pair names an address exactly when its name is `for` and its value, quoted or not, is a node of that address |
| ForwardedClients.TrimIsExact | src/client_address.rs:161-170 | Trimming takes the space around a text and nothing else |
| ForwardedClients.LeftPartCannotRename | src/client_address.rs:139-202 | Entries without quotes appended to any text name the address that they name by themselves exactly when the text does not end within quotes and the entries are not too many, and otherwise none |
| ForwardedClients.ClientCannotChoose | src/client_address.rs:131-174 | If one of the entries that the proxy appends names an address outside every network and those to its right name proxies, then whatever the client sent before them the result is that address or the peer |
| ForwardedClients.ClientIsNamed | src/client_address.rs:131-174 | And it is that address if the peer is a proxy, the header is short enough, and what the client wrote neither ends within quotes nor has too many entries |

## Left out

- HTTP routing, handlers, headers, error envelopes, assets, audit logging and configuration: one-branch plumbing.
- Cryptography, base64, and decoding of ZIP, TAR, Zstandard, DEFLATE and images: library code. ZIP and TAR entries reach the extraction model as names, kinds, declared sizes and bodies, so TAR extension records are not modelled.
- Unicode normalisation, device names and spoofing characters in names: a parameter.
- Trash: its sidecar states, listing, expiry and crash recovery; purging appears as removal, and Trash is not part of the measured usage.
- Selection archives (`archive_selection`): the same walk started from several names.
- Directory synchronisation, permissions, inotify, device numbers and the resolution of links.
- Trees that change during a size, usage or archive walk, except in the folder-size coherence model; entries that vanish between scan and open.
- Cancellation checks and I/O errors inside `copy` and `extract`, which only end an extraction early.
- Leftover entries of the single-flight map, and poisoned mutexes.
- Session picture URLs, and the user preferences kept in the same database.
- The text form of networks (`IpNetwork::parse`): taken as "host bits cleared".
- ExtractRun.Extractor.Entries: takes the entries as a sequence; how each format enumerates them is not modelled.
- RateLimits.PruningIsInvisible: supposes that no attempt meets a full map, as the eviction then forgets an unexhausted window on purpose.
- RateLimits.AttemptsAreCounted: supposes that the key is neither cleared nor evicted, as both forget its window on purpose; `EvictedIsLongestUnseen` says when a key is evicted.

# Quire server: a verified model of its reading data, files and feeds

This Dafny project models the parts of the Quire server (Go, `internal/server`) that keep reading data
consistent between devices and on disk, and proves what those parts promise. To check it, run
`dafny verify dfyconfig.toml`.

What is modelled, hardest first:

- **Record sync.** `Accounts`, `Operations`, `Sync`, `Seeds`: the four tables of an account (records,
  numbered changes, cursor, replayed operations), a transaction of `Sync`, and the two automatic writers of
  the same log: `seedBook`, and the read-then-recheck upgrade of shared seeds. `SyncRuns` proves what holds
  after any sequence of events of all three, including any events between the two phases of an upgrade;
  `KeptEdits` what becomes of the edits of clients, `CanonicalBooks` what of book values, `Answers` what
  the server answers, `SeedContents` what a seeded record says and `StoredPositions` what every stored position does.
  `Convergence` adds a client that pulls pages while others write.
- **Folder memberships.** `Folders` and `Json`: how legacy and modern client values are rewritten, on JSON
  objects with duplicate keys and with keys that differ by case.
- **The metadata cache.** `CacheModel`, `CacheHits` and `MetadataCache`: single-flight loading with an LRU list, as the
  critical sections of any number of concurrent callers, on an explicit memory for the one pointer that a
  value carries.
- **Files, backup and restore.** `BookFiles`, `Scans`: rows and objects through uploads, scans, removals and
  a crash after any single effect, and the transaction of a scan, which replaces rows and seeds records together.
  `Archives`, `Backups`, `BackupRoundTrip`, `ManifestText`, `RefusedBackup`: exactly which archives restore accepts, what an
  accepted one means, and when a backup is accepted.
- **Progress tracking.** `Tracking`, `TrackingRuns`, `TrackedPositions`: exchanges with a remote provider over a network
  that refuses calls or loses answers, with manual edits and reading in between, and what a reader's positions may change.
- **Smaller algorithms.** `Avif` (box walk), `Comics`, `Cbz` and `ComicRecords` (archive inspection), `Opds`, `VisibleBooks`, `OpdsFeeds`,
  `FeedNavigation` and `Sorting` (visibility, filters, order, paging, and where following links leads), `Catalog` (compare-and-swap of sources and their secrets),
  `Statistics` and `StatisticsSync` (immutable activity history).

Shape of the model. An object whose methods update fields is a class, and each method's `ensures` equates its
new state with a specification function of the old one (or states the property outright); the lemmas are about
those functions. A transaction is one atomic step because the server has a single database connection
(`internal/server/store.go:44`), so a method computes on local copies and assigns the tables once. Times, random
identifiers, the results of the network and of foreign decoders are inputs. A digest stands for the digested
value where SHA-256 is taken to be injective.

Findings, each stated and proved below rather than argued around:

- The canonical form of a book's folders is **not** guaranteed for every accepted edit. The validator decodes
  into a struct, which matches keys without regard to case; canonicalisation reads exact keys. With
  `{"title":"T","folder":"..","Folder":""}` an invalid path becomes a membership
  (`Operations.CaseVariantBreaksCanonical`). The exact condition is that the folder checks pass on the exact
  keys, and it always holds when no key is a case variant (`Operations.AcceptedBookCanonicalIff`,
  `Operations.PlainKeysAreExact`, `CanonicalBooks.ApplyCanonicalIff`).
- A scan can replace a client's edit: seeding recognises its own values by a 64-character operation
  identifier, the file's name as title and no author. `KeptEdits.ScanReplacesEditIff` says exactly when, for every
  accepted edit, and `KeptEdits.ScanReplacesEdit` is a run in which it happens; over whole runs an edit with an author, or
  with a title that is no scanned file's name, is safe (`KeptEdits.EditOutlivesScans`).
- `Backup` does not count the manifest in its 100 GiB and restore does, so an archive that `Backup` makes is refused
  exactly when the two together pass the limit (`BackupRoundTrip.BackupAcceptedIff`,
  `RefusedBackup.UploadsRefusedIff`). The manifest's own limit of 32 MiB is never the cause.
- A tracking write carries no condition, so what somebody else sets between its reading and its writing can be made
  worse: a volume or a chapter that passed the one sent is lowered, a paused or dropped entry is put back to reading
  or completed, and a completed one is put back to reading. `Tracking.RaceIff` gives the exact condition of each, and
  `Tracking.RaceWitnesses` the states; without an edit in between none of it happens (`Tracking.ExchangeDelivers`).
- CBZ keeps the last `ComicInfo.xml` that parses, CBR and CB7 the one with the least name; they show the same
  exactly when the first and the last are alike (`Cbz.RecordsAgreeIff`; `ComicRecords.RecordsDiffer` is an archive with
  two). The covers always agree.
- A 64-bit AVIF box size of 0 is read as "to the end", which section 4.2 of ISO/IEC 14496-12 says of the 32-bit
  size only. The model follows the code (`Avif.Form`).

## Model

| member | source | states |
|---|---|---|
| Sync.AccountStore.Sync | internal/server/sync.go:174-307 | a request commits as a whole with its page, or fails with its error and leaves all four tables as they were; `Answers.ResultsTell` says what each result is |
| Sync.ApplyOperation | internal/server/sync.go:195-275 | one operation, branch by branch: replay, reused identifier, future base, conflict, resolution, 17th candidate; its result is the one that `Answers.ResultsTell` describes |
| Sync.CheckRequest | internal/server/sync.go:174-181 | the loop accepts exactly the requests whose every operation is valid and whose limits hold |
| Sync.RunBatch | internal/server/sync.go:195-275 | the loop over a batch gives the state and the results of all its operations, or the error of the first that fails |
| Sync.ReadPage | internal/server/sync.go:279-302 | from the rows in any order: at most 100 changes above the client's cursor, in increasing order, none left out before the last, and all of them on a short page |
| Sync.BatchFailsAt | internal/server/sync.go:195-228 | a failing operation fails the whole batch with its own error |
| Answers.ResultsTell | internal/server/sync.go:252-275 | every operation of an accepted request that takes effect is answered at its place with its identifier, the number of changes that the log then has for its record, one more than before, and a conflict if and only if its base was older, which is when the earlier candidates stayed |
| Answers.ResultStays | internal/server/sync.go:195-275 | the answer of a batch at a place is the one its operation got when it was applied |
| Answers.EditCarriesOver | internal/server/sync.go:231-251 | a current book edit keeps the record's format and library flag unless it sends its own; a stale one keeps the flag |
| StoredPositions.TrackedPositionInRange | internal/server/sync.go:136-151 | over any run from the empty account, the position that tracking reads is between 0 and 1, in a chapter within bounds or none, with a place in the book except at its end |
| StoredPositions.TrackedChapter | internal/server/tracking.go:247-254 | so a link without a volume has a chapter exactly when the position names one |
| SyncRuns.RefusedIff | internal/server/sync.go:199-228 | the only refusals: reused identifier with other content, future base, stale with 16 candidates; a fresh current operation is always accepted |
| Accounts.RecordFacts | internal/server/sync.go:252-268 | a record's revision is its number of changes in the log, and it has 1 to 16 candidates |
| Accounts.AppendConsistent | internal/server/sync.go:258-268 | whoever bumps the revision by one and logs the row keeps log and table in agreement |
| Accounts.SameRevisionSameRecord | internal/server/libraries.go:78-78 | revisions only grow, and an equal revision means unchanged candidates, which is what the recheck relies on |
| SyncRuns.ReachableLogAgrees | internal/server/sync.go:252-278 | in every reachable state of all three writers cursors are exactly 1..cursor, replaying the log gives the table, revisions count changes |
| SyncRuns.RunOk | internal/server/sync.go:252-278 | the same as an invariant from any consistent state, with the log and the replay table only growing |
| SyncRuns.ExactlyOnce | internal/server/sync.go:195-211 | in any run, duplicates in one batch included, an operation identifier takes effect at most once |
| SyncRuns.RetryGetsFirstResult | internal/server/sync.go:200-211 | after any events, a request made of operations that were accepted before, in any order, is accepted, changes nothing, and gets their first results |
| SyncRuns.IdenticalRetry | internal/server/sync.go:200-211 | so does the very request, with whatever cursor the client has by then |
| SyncRuns.IdentifierNamesContent | internal/server/sync.go:202-204 | no later accepted request uses one of its identifiers for another content |
| SyncRuns.FreshAtMostOnce | internal/server/sync.go:195-211 | the same inside one batch |
| KeptEdits.AcceptedIsStored | internal/server/sync.go:229-260 | an accepted operation is the last candidate; the old candidates stay before it exactly when it was stale; no other record changes |
| KeptEdits.NoEditLost | internal/server/sync.go:226-263 | over any run the candidates of a client's record stay in front, tombstones included, until an operation on the current revision resolves it |
| KeptEdits.NoEditLostUntilReseeded | internal/server/libraries.go:69-88 | the same for every record a client wrote last, under whatever identifier: until resolved or taken for a seed by a scan; the upgrade never touches it |
| KeptEdits.AcceptedEditIsKept | internal/server/sync.go:195-275 | from the moment an operation takes effect, anywhere in a batch, its candidate is in its record with its content, through the rest of the batch and any later events, until resolved or taken for a seed |
| KeptEdits.EditOutlivesScans | internal/server/files.go:533-545 | what a client wrote stays in front over any run until resolved, scans included, unless one of its book's scanned files has a name for which it looks like a seed |
| KeptEdits.AuthoredEditIsKept | internal/server/files.go:539-541 | so it does whenever it names an author or leaves the member out |
| KeptEdits.RetitledEditIsKept | internal/server/files.go:539-541 | and whenever its title is the name of no scanned file of the book |
| KeptEdits.StoredHolds | internal/server/sync.go:231-251 | the content: every member of a book as sent but the folder members, a sent list of folders as sent, and at most a carried flag and format besides |
| KeptEdits.ScanReplacesEditIff | internal/server/files.go:533-578 | seeding after an accepted edit replaces it if and only if it was current, has a 64-character identifier, the seeded title and no author, and the scan found another value with a title or an author; otherwise nothing changes |
| KeptEdits.ScanReplacesEdit | internal/server/files.go:535-544 | a run from the empty account in which that happens to a valid edit |
| CanonicalBooks.ApplyCanonicalIff | internal/server/sync.go:231-254 | applying an operation keeps all settled books canonical if and only if it is replayed, stale or passes the folder checks on exact keys |
| CanonicalBooks.LegacyEditThroughSync | internal/server/sync.go:231-251 | through `Sync`, a current edit without `folders` keeps all memberships, or with `folder` replaces only the primary one |
| CanonicalBooks.StoredCurrentEdit | internal/server/sync.go:231-251 | a current edit stores the canonical form over the previous value, the carried library flag notwithstanding |
| CanonicalBooks.RunCanonical | internal/server/sync.go:231-254 | over runs of all writers whose inputs pass the exact-key checks every settled book stays canonical |
| SyncRuns.InterleavedUpgradeActsAtOnce | internal/server/libraries.go:28-98 | with any events between its read and its write the upgrade equals one atomic step, on the books nobody changed in between |
| Seeds.SeedBook | internal/server/files.go:527-590 | `seedBook` writes exactly when the book is new or a replaceable seed with other, better metadata is known; `SeedContents` says what it leaves |
| SeedContents.SeedIsRead | internal/server/files.go:548-588 | a seed that writes is the only candidate, under its identifier and time, and reads back member by member as the metadata, with the file's name for a missing title, and with the scan's folder, or else the list or folder of the metadata as far as it is valid; it holds nothing else |
| SeedContents.SeedsAreRead | internal/server/files.go:510-524 | after any seeds every record is as it was or what one of the seeds of its book says, and every seeded book has one |
| SeedContents.SharedSeedIsRead | internal/server/libraries.go:140-152 | a shared seed reads back as the metadata outside the library, `Untitled` without a title |
| Seeds.SeedShared | internal/server/libraries.go:128-156 | the transaction of shared seeds: the items still available are seeded in order, as `Untitled` and outside the library |
| Seeds.ReadUpgrades | internal/server/libraries.go:33-58 | the read phase collects exactly the settled seeds without a library flag, with their next revision |
| Seeds.WriteUpgrades | internal/server/libraries.go:69-97 | the write phase applies an upgrade only at the revision it was read at and if no client used the identifier |
| Seeds.TwoPhasesActAtOnce | internal/server/libraries.go:28-98 | reading in one state and writing in a later one is upgrading at once, there, the records still unchanged |
| Seeds.UpgradeOnlyAddsFlag | internal/server/libraries.go:45-53 | an upgrade of any books adds `inLibrary` false to exactly the settled seeds of these books without the flag whose identifier no client used, and leaves every other record as it is |
| Seeds.SeedIdempotent | internal/server/files.go:571-578 | seeding the same metadata again changes nothing |
| CanonicalBooks.SeedCanonical | internal/server/files.go:552-572 | a seeded value is canonical when the scan's folder is valid |
| Convergence.PullKeepsStep | internal/server/sync.go:279-302 | a pull takes a client from one log prefix to a later one; without more to come it holds the table as committed |
| Convergence.ClientAlwaysInStep | internal/server/sync.go:279-302 | whatever others write, a pulling client always holds the fold of a log prefix |
| Convergence.QuietPull | internal/server/sync.go:187-302 | a pull without operations is never refused and moves a client in step a page on |
| Convergence.QuietPullsConverge | internal/server/sync.go:279-302 | without writes, n pulls advance min(100 n, remaining), so ceil(remaining/100) suffice |
| Convergence.PageIsNextChanges | internal/server/sync.go:279-279 | on a gapless log a page is the next changes one by one |
| Folders.ValidFolders | internal/server/folders.go:6-18 | the one-pass check with a `seen` map accepts exactly lists of at most 32 different, valid, non-empty paths |
| Folders.CanonicalBookFolders | internal/server/folders.go:32-79 | canonicalisation branch by branch: modern list, legacy edit, absence, carried format |
| Folders.ReplacePrimary | internal/server/folders.go:49-63 | the loop of a legacy edit gives the new primary and the other memberships in order |
| Folders.LegacyEditReplacesOnlyPrimary | internal/server/folders.go:49-63 | a legacy edit yields a valid list, replaces only the old primary, keeps every other membership and adds nothing else |
| Folders.LegacyEditOrder | internal/server/folders.go:49-63 | a path already held moves to the front and the others keep their order |
| Folders.CanonicalIdempotent | internal/server/folders.go:65-79 | canonicalising a canonical value again changes nothing |
| Folders.CanonicalIffValidList | internal/server/folders.go:65-79 | the result is canonical exactly when the memberships are a valid list |
| Operations.AcceptedBookCanonicalIff | internal/server/sync.go:107-130 | an accepted value canonicalises to a canonical one if and only if the folder checks pass on exact keys |
| Operations.PlainKeysAreExact | internal/server/sync.go:107-130 | without case variants of the folder keys, the validator's checks are those checks |
| Operations.CaseVariantBreaksCanonical | internal/server/sync.go:97-130 | a concrete accepted value whose stored form is not canonical |
| CacheModel.EveryGetReturnsLoad | internal/server/metadata_cache.go:42-77 | for every interleaving each call returns what `load` says, whatever other callers write through their pointers; one load per key; never both cached and in flight; limits hold |
| CacheModel.StepOk | internal/server/metadata_cache.go:42-77 | every critical section keeps: map and list agree, bytes are the sum of sizes, within limits, list in order of use |
| CacheModel.EvictionNeedsEntry | internal/server/metadata_cache.go:62-63 | the eviction loop never reaches an empty list |
| CacheModel.EvictsNoMoreThanNeeded | internal/server/metadata_cache.go:62-68 | eviction keeps the longest front of the list that leaves room |
| CacheModel.EvictsLeastRecent | internal/server/metadata_cache.go:44-45 | what is evicted was used less recently than all that is kept |
| CacheHits.LoadIsStored | internal/server/metadata_cache.go:60-72 | a finished load is stored at the front if and only if caching is on and its texts fit; otherwise the cache stays as it was |
| CacheHits.HitIff | internal/server/metadata_cache.go:43-58 | a call returns at once with the book exactly when its key is stored, and leads a load exactly when it is neither stored nor in flight |
| CacheHits.NextCallHits | internal/server/metadata_cache.go:42-77 | so the next call for a book just loaded hits if and only if the book fits |
| CacheHits.KeptTextsFit | internal/server/metadata_cache.go:60-71 | in every run the counted bytes are those of the kept books' texts and keys, within the limit |
| CacheHits.StoredStays | internal/server/metadata_cache.go:62-68 | a stored book stays until a finished load has no room for one more |
| MetadataCache.MetadataCache.Lookup | internal/server/metadata_cache.go:43-57 | the first critical section: hit with a copy, join, or lead |
| MetadataCache.MetadataCache.EvictFor | internal/server/metadata_cache.go:62-68 | the eviction loop terminates with the specified state |
| MetadataCache.MetadataCache.Complete | internal/server/metadata_cache.go:59-76 | the leader's second critical section: evict, cache a copy, finish the flight with another, return its own |
| MetadataCache.MetadataCache.Receive | internal/server/metadata_cache.go:50-53 | a waiter gets a copy of the flight's value |
| MetadataCache.MetadataCache.CopyMetadata | internal/server/metadata_cache.go:32-38 | a copy has the same content in a cell of its own |
| BookFiles.RunBacked | internal/server/files.go:129-171 | after any sequence of single effects, crashes anywhere, every row has its object and every object is named by its digest and format |
| BookFiles.EffectOk | internal/server/library_management.go:78-97 | the same for each effect of upload, delete, scan, watch and library creation and removal |
| BookFiles.OneFormatPerBook | internal/server/files.go:81-89 | no book has objects of two formats, so the first one found is the only one |
| BookFiles.PathIsObject | internal/server/files.go:81-89 | the path of a book that has an object is one of its objects |
| BookFiles.RowsComeFromContent | internal/server/files.go:129-171 | in every run each row was there at the start, or content of that digest and size, within the limit and of a known format, was offered: by an upload that expected no other digest, or by a scan |
| BookFiles.FileStore.StageObject | internal/server/files.go:129-171 | accepted exactly when within the limit, of a known format and of the expected digest if one is given, too large or invalid otherwise; its object is put in place unless it is there |
| BookFiles.FileStore.UploadFile | internal/server/files.go:212-234 | an upload is accepted exactly when within the limit, of a known format and of the expected digest if one is given, and says which check refused it; then the object is there, the row holds the size, and nothing else changes; a failed one changes nothing |
| BookFiles.FileStore.DeleteUpload | internal/server/files.go:188-211 | deleting an upload never changes watch rows, tells watched books apart, and removes the object only when no row is left |
| BookFiles.FileStore.AddWatchedRoot | internal/server/files.go:366-368 | a watch is added under an unused identifier |
| BookFiles.FileStore.CreateLibrary | internal/server/libraries.go:309-309 | so is a library |
| BookFiles.FileStore.RemoveWatch | internal/server/files.go:618-647 | removing a watch removes it and exactly its rows |
| BookFiles.FileStore.DeleteLibrary | internal/server/library_management.go:48-99 | rows first in one commit, then the objects one by one: nothing of the owner is left in the tables, everything of others stays, and only objects of the named books go |
| Scans.ScanDiagnostics.Add | internal/server/files.go:36-49 | skipped = listed + omitted, within both bounds, and a listed file is only dropped for a bound |
| Scans.Walk | internal/server/files.go:411-469 | the walk stages and collects every file found, reports every skipped one, changes no row, and goes to its end exactly when every entry can be read and every file is stable and acceptable, at most 10000 of them |
| Scans.ItemsAreVisits | internal/server/files.go:411-469 | what the walk collects is one item for each file found, in order, with its digest, path, name and size |
| Scans.CountBooks | internal/server/files.go:491-506 | imported + existing is the number of distinct books, existing those with a row before |
| Scans.ScanWatch | internal/server/files.go:374-526 | a scan succeeds exactly when the root stays the same, the walk goes to its end, and the files are different and in valid folders; then the watch's rows are exactly the files found, all others stay, every book found has a record, and each record that changed holds the metadata and the folder of one of its book's files; failure, at whatever item, changes no row, record or change; either way the files go through single effects |
| Scans.ReplaceRows | internal/server/files.go:486-525 | the transaction: rows and records are replaced and seeded together, or not at all |
| Scans.InsertAndSeed | internal/server/files.go:510-524 | its loop: insert, folder check and seed for each item, or the first error |
| Scans.ScanSeedsExact | internal/server/files.go:514-521 | the seeds of a scan that commits pass the folder checks that keep book values canonical |
| Scans.ScanRead | internal/server/files.go:510-588 | after the seeds of a scan every record is as before or reads back as what one file of its book says |
| Scans.InsertsOkIff | internal/server/files.go:510-521 | the inserts of a scan fail only for a repeated file or an invalid folder |
| Scans.FolderOfFile | internal/server/files.go:514-518 | the folder is what stands before the last slash of the path |
| Archives.ReadEntries | internal/server/backup.go:276-287 | the pass accepts exactly distinct, regular, well-named entries whose true sum fits 100 GiB |
| Archives.NameDeterminesReference | internal/server/backup.go:25-25 | an object name can be read in one way only |
| Archives.NamesAreReferences | internal/server/backup.go:393-419 | pigeonhole: each reference found once and equal counts make every object name a reference's |
| Archives.CountFormats | internal/server/backup.go:400-405 | the count is the number of formats under which the list has the reference |
| Backups.Restore | internal/server/backup.go:260-370 | restore accepts exactly the archives that `Accepts` describes, and yields the described database and objects |
| Backups.CheckInventory | internal/server/backup.go:302-316 | the loop over the manifest, in any order, is the inventory check |
| Backups.CopyFiles | internal/server/backup.go:326-363 | all listed files have their size and digest, and objects their digest and format as name, or nothing is restored |
| Backups.PrepareDatabase | internal/server/backup.go:372-432 | the version, integrity and reference checks, and what is stripped |
| Backups.AcceptedEntriesAreManifest | internal/server/backup.go:302-309 | the entries of an accepted archive are exactly the manifest's files and the manifest |
| Backups.AcceptedObjectsAreReferences | internal/server/backup.go:350-419 | objects and distinct (owner, book) rows are in bijection, and every object's digest and format are its name |
| Backups.RestoredByVersion | internal/server/backup.go:378-432 | whatever the version, accounts, rows and links come back and no session does; tracking accounts go from version 7 on, catalog secrets and passwords from version 14 on, and stay before |
| Backups.AcceptedSizesAreTrue | internal/server/backup.go:302-363 | every entry that an accepted archive restores holds as many bytes as it declares and as the manifest lists, with the listed digest, within the limit of its kind |
| Backups.WrittenWithinLimit | internal/server/backup.go:276-287 | so what restore writes out never passes 100 GiB |
| Backups.ManifestDecides | internal/server/backup.go:326-363 | of two accepted archives with one manifest the same is restored |
| BackupRoundTrip.ReferencedNames | internal/server/backup.go:39-72 | names of all references in order, or a refusal for too many or a malformed one |
| BackupRoundTrip.Backup | internal/server/backup.go:147-256 | the archive is the scrubbed database, every referenced object and a manifest of both, exactly when all checks pass |
| BackupRoundTrip.ConsistentBackUpIff | internal/server/backup.go:147-241 | from a consistent store a backup succeeds if and only if owners are digests and the limits hold |
| ManifestText.JsonIsCompact | internal/server/backup.go:246-248 | an encoder that writes the JSON text of a manifest, of a time, archive names, sizes and hexadecimal digests, needs at most 256 bytes to an entry |
| BackupRoundTrip.ManifestFits | internal/server/backup.go:289-291 | so no manifest that `Backup` writes exceeds 32 MiB |
| BackupRoundTrip.BackupAcceptedIff | internal/server/backup.go:278-291 | a backup is accepted by restore if and only if it is within 100 GiB together with its manifest |
| RefusedBackup.UploadsRefusedIff | internal/server/backup.go:209-212 | uploads of any contents by different readers, with any digest, database engine and encoder, leave a store that is backed up, and refused if and only if sizes, database and manifest together pass 100 GiB |
| RefusedBackup.FullBackupIsRefused | internal/server/backup.go:209-212 | so it is for books of one size and one that fills what the database leaves of the limit |
| BackupRoundTrip.BackupRestores | internal/server/backup.go:168-431 | an accepted backup restores the same accounts, rows and objects, and drops exactly the device-local parts |
| Tracking.ExchangeDelivers | internal/server/tracking.go:43-57 | without such an edit an exchange never lowers volume or chapter nor leaves paused, dropped or completed, whatever calls fail; a successful one has delivered the reading |
| Tracking.RaceIff | internal/server/tracking.go:271-287 | with somebody else's edit in between, whatever is read, opened or lost: exactly when the write lowers a number and when it changes a paused, dropped or completed state |
| Tracking.RaceWorsensIff | internal/server/tracking.go:271-287 | a race makes something worse in exactly those cases |
| Tracking.RaceWitnesses | internal/server/tracking.go:43-57 | a paused entry is completed, and a dropped and a completed one are put back to reading |
| Tracking.Tracker.Send | internal/server/tracking.go:270-288 | the calls of one exchange in order, with every fate of each |
| Tracking.Tracker.RunTracking | internal/server/tracking.go:211-300 | a pass: skips, the note on chapters over 10000, at most one exchange, and the stop at the second; `TrackedPositions` says what that means for the positions |
| Tracking.Tracker.Snapshot | internal/server/tracking_entries.go:108-150 | the acknowledgements say of each link of the entry whether its position is started (above 0), finished (at least 0.999) and in which chapter, and none is left out |
| Tracking.Tracker.Acknowledge | internal/server/tracking_entries.go:152-169 | each acknowledgement raises its link and clears the error |
| Tracking.EditAcknowledgesSnapshot | internal/server/tracking_entries.go:107-169 | after a manual edit a link is pending if and only if it was read past the snapshot and past what was acknowledged |
| TrackingRuns.AutomaticRunDelivers | internal/server/tracking.go:211-298 | over any automatic run no remote entry gets worse and everything acknowledged has arrived |
| TrackingRuns.RunKeepsAcknowledgements | internal/server/tracking.go:289-295 | acknowledged steps and chapters never fall between relinkings, manual edits included |
| TrackingRuns.PassMakesNothingPending | internal/server/tracking.go:255-257 | a pass leaves no link pending that was not |
| TrackingRuns.QuietPassDrains | internal/server/tracking.go:211-298 | with working calls a pass takes exactly one sendable link off the backlog |
| TrackingRuns.QuietPassesDrain | internal/server/tracking.go:211-298 | k passes at any times drain k sendable links |
| TrackedPositions.PassTold | internal/server/tracking.go:240-298 | in one pass, whatever calls fail: a volume rises only to that of a link whose position is at least 0.999, `completed` needs such a one that completes the series, an entry leaves the plan only for one above 0, a chapter is the current one or else the completed one of a link without a volume; acknowledgements rise to no more |
| TrackedPositions.AutomaticRunTold | internal/server/tracking.go:211-298 | so it is for every change of an entry over an automatic run, from the links and positions that its passes read |
| TrackedPositions.PassSends | internal/server/tracking.go:212-298 | a pass sends the first link that waits and can be sent, and no other: with working calls all that its position says has arrived and is acknowledged, and when the provider cannot be asked nothing is, and it waits a minute |
| TrackedPositions.ExchangeTold | internal/server/tracking.go:270-288 | the same of one exchange: it changes only what the position says, and leaves all of it when it succeeds |
| TrackedPositions.EditRaises | internal/server/tracking_entries.go:108-169 | a manual edit raises the acknowledgements of the entry's links to exactly what their positions said, and no others |
| TrackedPositions.PendingIff | internal/server/tracking.go:255-257 | a link is pending exactly when its position is started, finished or in a chapter beyond what was acknowledged |
| Avif.ValidAvif | internal/server/formats.go:92-133 | the walk ends and accepts exactly the buffers that are boxes with a brand, large enough `ftyp`s, last `meta` and last `mdat` |
| Avif.BoxesTile | internal/server/formats.go:94-131 | the boxes of a walked buffer tile it: serialising them gives the buffer back |
| Avif.SerializedBoxesAreRead | internal/server/formats.go:98-114 | serialising any list of boxes with 32-bit, 64-bit or open sizes and walking it recovers the list |
| Avif.FindBrand | internal/server/formats.go:120-124 | the loop finds a brand at any place but the minor version's |
| Comics.InspectCbr | internal/server/comic_archives.go:145-203 | the interleaved loop accepts exactly acceptable archives, with the metadata of the least names |
| Comics.InspectCb7 | internal/server/comic_archives.go:166-203 | headers first and contents second have the same outcome |
| Comics.InspectComicArchive | internal/server/comic_archives.go:135-204 | both with the program's rules on names; other formats are refused |
| Comics.Inspection.TakeHeader | internal/server/comic_archives.go:72-86 | a member is admitted exactly when its header is well formed, new, and the true sum fits the budget |
| Comics.Inspection.TakeContent | internal/server/comic_archives.go:88-131 | content checks, and the one-pass minimum for cover and record |
| Comics.KeptIsLeast | internal/server/comic_archives.go:114-127 | what the pass keeps is the candidate with the least name |
| Comics.InspectionOrderFree | internal/server/comic_archives.go:72-131 | every permutation of an archive has the same outcome and metadata |
| Cbz.ValidateArchive | internal/server/formats.go:149-169 | the ZIP loop accepts exactly different names that its own rule allows and whose true sum fits the budget |
| Cbz.CbzMetadata | internal/server/formats.go:588-612 | the sorted loop takes the first usable cover and the last usable record |
| Cbz.SortedCoverIsMinimum | internal/server/formats.go:587-601 | sorting and taking the first cover equals the one-pass minimum over any order |
| Cbz.RecordsAgreeIff | internal/server/formats.go:602-611 | on any archive the two paths show the same record if and only if the first and the last one by name that parse are alike |
| ComicRecords.TwoRecordsShown | internal/server/formats.go:602-611 | a page and two records, under any rules on names: accepted by both paths, the inspection shows the first record and the sorted pass the second |
| ComicRecords.RecordsDiffer | internal/server/comic_archives.go:121-127 | such an archive under the program's rules: `1.jpg`, `a/ComicInfo.xml` and `b/ComicInfo.xml` |
| Opds.OpdsBooks | internal/server/opds.go:37-97 | the first row of each book that no privacy setting hides and whose record, the reader's or else the owner's, is settled and readable; and of those the ones with an object |
| Opds.KeepAvailable | internal/server/opds.go:79-95 | the in-place filter over the array it reads equals the functional one |
| Opds.ListedDistinct | internal/server/opds.go:48-73 | each visible book comes once, and every book that a row may show comes |
| Opds.ListedFirst | internal/server/opds.go:55-72 | it comes from the first such row |
| Opds.AvailableDistinct | internal/server/opds.go:79-95 | the filter keeps identifiers distinct and adds none |
| VisibleBooks.CatalogShows | internal/server/opds.go:48-96 | the catalog lists exactly the books that the first row to show them says, as the directory completes them: arrival time, format, a title in any case |
| VisibleBooks.ShowsIff | internal/server/opds.go:55-70 | a row shows its book exactly when neither reader nor owner gives it a mode and the reader's record, or the owner's when there is none, is single, live and readable; and then as that record says |
| VisibleBooks.PrivateIsHidden | internal/server/opds.go:55-57 | no row shows a book with a mode, or under settings that cannot be read |
| Opds.FolderView | internal/server/opds.go:268-306 | one loop finds a path's books and its children |
| Opds.InsideIff | internal/server/opds.go:274-292 | a book is listed at a path exactly when the path is one of its memberships |
| Opds.NavigationReachesPrefixes | internal/server/opds.go:268-309 | following navigation from the root reaches exactly the paths without an empty part that are first parts of a membership, well formed or not, at their depth |
| OpdsFeeds.FilterInPlace | internal/server/opds.go:344-352 | `books[:0]` with appends equals a copying filter |
| OpdsFeeds.SortUnique | internal/server/opds.go:353-361 | the sort has one result |
| OpdsFeeds.SortOfSorts | internal/server/opds.go:353-361 | and it exists: a sorted permutation |
| OpdsFeeds.EntriesAre | internal/server/opds.go:263-361 | the entries are the visible books of the view that match, each once, in order |
| OpdsFeeds.EntriesOrderFree | internal/server/opds.go:353-361 | the order of the input does not matter |
| OpdsFeeds.FollowGivesAll | internal/server/opds.go:362-392 | following `next` gives the whole list, each book once, if and only if there are at most 50 million |
| OpdsFeeds.Select | internal/server/opds.go:263-338 | the books of a view, and its links: the fixed ones of the root, or one to each child folder or series, in order; `FeedNavigation` says where they lead |
| OpdsFeeds.SortedNames | internal/server/opds.go:294-298 | the names of a set, each once, sorted |
| OpdsFeeds.ServeFeed | internal/server/opds.go:253-392 | the request: links, selection, search, order, the page and its neighbours, or a refusal; `FeedNavigation` says what following its links and pages gives |
| FeedNavigation.VisitedIff | internal/server/opds.go:260-338 | following the links of the feeds as they are served, from the root, reaches exactly its four views, the series of visible books, and the folders on the way to a visible membership, each at its depth |
| FeedNavigation.FolderLinks | internal/server/opds.go:294-306 | a folder's link leads to the path of its title below the view's own, and there is one for each next part of a membership |
| FeedNavigation.SeriesLinks | internal/server/opds.go:307-338 | the link named for a series leads to that series, and there is one for each series of a visible book |
| FeedNavigation.RootLinks | internal/server/opds.go:263-266 | the links of the root lead to the views they name |
| FeedNavigation.PagesList | internal/server/opds.go:263-392 | the pages of a view list exactly its books, each once: all of them, those with the membership, or those of the series; recent ones newest first, others by title; each page says how many there are |
| Catalog.CatalogStore.Write | internal/server/opds_sources.go:42-129 | the whole write: checks, replay, compare-and-swap, limit, carried secret |
| Catalog.RunOk | internal/server/opds_sources.go:78-128 | in every run revisions count accepted writes, at most 500 sources, and each secret was supplied by an earlier write that no later one moved to another origin, cleared or deleted |
| Catalog.SecretAfterWrite | internal/server/opds_sources.go:110-118 | the same for one write |
| Catalog.RetryReplays | internal/server/opds_sources.go:80-87 | an identical retry at any later time gets the stored result and changes nothing; other content is refused |
| Catalog.RefusedChangesNothing | internal/server/opds_sources.go:98-109 | a refused write, one with a stale base among them, changes nothing |
| Catalog.AcceptedWrite | internal/server/opds_sources.go:98-128 | what an accepted write leaves and answers: its trimmed name, its address, the next revision, and every other source as it was |
| Catalog.SecretIff | internal/server/opds_sources.go:60-118 | a secret is replaced by given credentials, cleared by empty ones and by deletion, and kept exactly when the address stays on its site |
| Catalog.OriginIff | internal/server/opds_proxy.go:22-32 | two addresses have one origin exactly when scheme and host agree but for case and the ports agree, a missing one being that of the scheme |
| Catalog.SecretIsKept | internal/server/opds_sources.go:110-118 | in every run a secret stays as long as the accepted writes stay with its origin and say nothing of credentials |
| Statistics.CanonicalActivity | internal/server/statistics.go:69-93 | the check of the sorted copy is the check of the chapters in any order |
| Statistics.CanonicalIffReordered | internal/server/statistics.go:85-92 | two activities have one canonical form if and only if they differ only in the order of chapters |
| Statistics.CanonicalIdempotent | internal/server/statistics.go:85-92 | the canonical form is its own |
| Statistics.MergeAppends | internal/server/statistics.go:120-140 | merging only appends, keeps identities unique, and takes in exactly the batch |
| Statistics.MergeFailsIff | internal/server/statistics.go:127-132 | a batch fails exactly when two different activities with one identity meet |
| StatisticsSync.ActivityStore.Sync | internal/server/statistics.go:95-169 | a request merges all of its batch or nothing and answers the page after its cursor; cursors are exactly 1..n |
| StatisticsSync.RunAppends | internal/server/statistics.go:113-140 | in every run the history only grows at its end and stays canonical |
| StatisticsSync.RetryAddsNothing | internal/server/statistics.go:113-140 | an accepted batch sent again later, reordered in any way, is accepted and adds nothing |
| StatisticsSync.PullKeepsPrefix | internal/server/statistics.go:141-164 | a client that holds a prefix holds a longer one after each pull, and everything when nothing more is announced |

## Left out

- Database, file-system and encoder errors, and cancelled requests: every table, directory and codec operation
  succeeds, except where an error is part of the protocol (missing object, malformed archive, network fault).
- HTTP routing, sessions, log-in limits, cross-origin rules, the web client, update checks, invitations, server
  settings and the privacy and folder-catalog registers: single registers and single branches.
- JSON text: values are parsed trees with ordered fields. Number syntax (`1.0` for an integer field),
  floating-point rounding and nulls inside repeated case variants of `folders` are not modelled. Two spellings of one
  string (`"T"` and `"\u0054"`) are one value here; in the program their bytes differ, both for the digest of an
  operation and where `seedBook` compares values.
- SHA-256 is injective and `Digest` stands for its value; an absent and a null `value` marshal alike, so they
  have one digest here as in the program.
- 64-bit overflow of cursors and revisions, which no run of realistic length reaches. Unsigned arithmetic is
  modelled where a check depends on it (`Comics`).
- The prelude of `Sync` (`sharedSeeds`) commits by itself before the request: in a run it is the events `ReadShared`,
  `WroteShared` and `Seeded` that precede a `Synced`.
- Accounts without a row in the cursors table.
- Which books the queries of `sharedSeeds` and `migrateSharedMembership` return: any list of books. A shared item's
  metadata, with what the owner's record overlays, is an input.
- Volume inference from titles: a seed's metadata is the one after it.
- CacheModel: pointers other than the volume (folder lists, the library flag) are not part of cached values, which
  `load` never sets; and `load` is a function, as object paths are immutable.
- Directory walks: links, identities, modification times and the reasons to skip are the kinds of a visit and
  two flags. In the runs of `SyncRuns` the seeds of a scan are one `Seeded` event, as `Scans.ScanWatch` shows.
- Backup status estimates and the browser limit, and the ZIP layout beyond names, sizes and contents; SQLite and
  the manifest codec are functions that round-trip.
- BackupRoundTrip.BackupAcceptedIff: assumes that the manifest is read back as written, and at most 256 bytes to an
  entry, which `ManifestText.JsonIsCompact` proves of its JSON text.
- The order of names in a backup is that of the rows a query returns; any order is allowed.
- Tracking.Tracker.RunTracking: tokens and OAuth, the lock that skips a pass while another runs, and private flags.
  A position is the decoded one of a single live candidate; other records are absent.
- Tracking.RaceIff: an entry that somebody creates between the reading that misses it and the POST that opens it; what
  the provider does with a POST of an entry that exists is its own.
- Comics.InspectCbr: dictionary limits, multipart volumes and the CB7 header bound. Image, thumbnail and XML decoders
  are functions. The rules on names are parameters, for which `Comics.InspectComicArchive` and `Cbz.ValidateArchive`
  put in the program's.
- EPUB, MOBI, FB2 and PDF validation and metadata.
- OpdsFeeds.ServeFeed: the case-folding search is a predicate on books, and the view of a search without one is resolved
  before; addresses of links, XML and covers. How a candidate's value decodes into metadata is a function (`Opds.Decoder`).
- Catalog.CatalogStore.Write: encryption of secrets and the network checks of the proxy; addresses are parsed by a
  function, and case folding of hosts is that of characters whose lower case is in ASCII.
- Statistics: NaN and infinite volumes.

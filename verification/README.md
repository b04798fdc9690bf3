# Senat-Digit backend: audit chain, cascading deletes, migrations and agenda

This project models four stateful parts of the backend in Dafny and proves what they
keep. `dafny verify dfyconfig.toml` checks it.

**Audit chain.** `TextOrder`, `Json`, `JsonReader` and `JsonCanonical` hold the canonical
JSON printer (sorted keys, compact separators, the escapes of section 7 of RFC 8259 without
ASCII folding) and a reader that undoes it. `AuditRow` and `AuditHash` hold the payload and
the hashed text. The hash is a parameter with 64 hexadecimal characters as result and is
never assumed injective: tamper theorems end in "or these two rows, whose texts differ,
have the same digest". `AuditChain` is the concurrent protocol as a step system;
`AuditService` is `emit` as the retry loop it is in the source, shown to be one emitter of
that system. `AuditVerify` and `AuditTamper` treat `verify_chain`.

**Deletion.** `CascadeGraph` has the document graph and the notions of being gone, reached,
closed and unblocked; `CascadeDelete` has `delete` and `soft_delete` as mutually recursive
methods over a mutable collection, with Python's recursion limit and a connection that is
never lost or is lost before any chosen database call; `CascadeTheorems` draws the conclusions. `CascadeConfig`
parses the configuration strings. `UpdateHistory` has the diff and what its entries are
worth. The database and the history recorder are there as two functions that say what a
value reads back as.

**Migrations.** `MigrationUpdates` has the guarded updates of the generated files,
`Migrations` the runner, its ledger and rollback, `SchemaDetection` the detector, the
generated updates and the numbering of files. A process may die before any document or
ledger write; how many writes a run needs is counted, so that completion is an equivalence.

**Agenda.** `AgendaActivation` has `activate` as separate steps, so that calls interleave;
`AgendaService` has `activate` and `reorder` as single calls.

Where the code and its documentation disagree, the model follows the code:

- `verify_chain` does not compare the first link with GENESIS, although the comment at
  app/modules/audit_security/services/audit_chain_service.py:297-299 says it must be
  (`AuditTamper.AcceptanceIsRelative`). The guarantee that does hold is relative to the
  last hash (`AuditTamper.AcceptedIsSuffix`).
- Overlapping activations need not converge to one winner, although the docstring at
  app/modules/agenda/services/agenda_service.py:34-38 says so (`AgendaActivation.TwoWinners`;
  `AgendaActivation.BothActiveIff` says exactly when two items stay active, and
  `AgendaActivation.LastSavedIsActiveIff` when the last one does).
- `reorder` is documented as atomic at app/modules/agenda/services/agenda_service.py:4; it
  saves item by item, so a failing save leaves it part-way; what then holds is in
  `AgendaService.AgendaItems.Reorder`.
- The restrict check at app/db/dao.py:1059-1070 looks in the field named after the referring
  collection (`<referring collection>_id`), not after the one being deleted from; the model
  does the same.
- The update history keeps datetimes as `isoformat` text
  (app/modules/core/services/history/ops_history_service.py:71-72, 619-632), which need not
  compare like the stored datetime. `UpdateHistory.ReplayIff` and `UpdateHistory.RewindIff`
  say exactly when replaying and rewinding are right, and
  `UpdateHistory.UtcWriteReplaysUnequal`, `UpdateHistory.NestedDatetimeRewindsUnequal` and
  `UpdateHistory.SameWallClockGoesUnrecorded` give inputs on which they are not.

## Model

| member | source | states |
|---|---|---|
| JsonReader.ReadEmitted | app/modules/audit_security/services/audit_chain_service.py:50-57 | A reader exists that, on the printed text of any well-formed JSON value followed by nothing or by a delimiter, gives back the value and the rest: no text is lost or merged at any nesting depth, and every escape can be undone. |
| TextOrder.LessIff | app/modules/audit_security/services/audit_chain_service.py:57 | One key comes before another exactly when it is a proper prefix of it or smaller at the first character where they differ. |
| JsonCanonical.CanonicalRoundTrip | app/modules/audit_security/services/audit_chain_service.py:50-57 | Reading a canonical text gives back the value with the keys of every dict, at every depth, in strictly ascending order, and that value is the original up to dict order, JSON types kept. |
| JsonCanonical.CanonicalIff | app/modules/audit_security/services/audit_chain_service.py:50-57 | Two values have the same canonical text exactly when they are equal up to dict order at every depth, JSON types kept (so 1, 1.0 and true print differently). |
| AuditRow.IsoUtcIff | app/modules/audit_security/services/audit_chain_service.py:97-101 | Two timestamps print alike exactly when they are the same instant, naive read as UTC. |
| AuditRow.IsoUtcReads | app/modules/audit_security/services/audit_chain_service.py:97-101 | The text reads back, position by position, as the year, month, day, hour, minute and second of the timestamp, its microseconds in six digits unless they are zero, and the UTC offset. |
| AuditRow.StoredTimeHashesAlikeIff | app/modules/audit_security/services/audit_chain_service.py:208-213 | A timestamp read back in millisecond precision, naive or UTC, prints as it did at emit time exactly when it was truncated to milliseconds before hashing. |
| AuditRow.SamePayloadIff | app/modules/audit_security/services/audit_chain_service.py:69-129 | The emit-time and verify-time payload dicts of two rows are equal exactly when every hashed field of the rows agrees (details up to dict order). |
| AuditHash.MaterialIff | app/modules/audit_security/services/audit_chain_service.py:60-66 | The text of the link, a bar and the canonical payload determines link and payload: two rows hash the same text exactly when they carry the same link and record the same event, even if link texts contain the separator. |
| AuditHash.MaterialReads | app/modules/audit_security/services/audit_chain_service.py:60-129 | What is hashed for a row is its link, a bar and a text that reads as an object with exactly twelve members, each under its own name: the organisation under `sys_organization_id`, the number under `sequence_number`, the actor or null under `actor_user_id`, and so on to `details`; the keys ascend. |
| AuditTamper.ClashIsCollision | app/modules/audit_security/services/audit_chain_service.py:60-66 | For the source's hash construction, two rows that differ in link or recorded event but share the digest are exactly two distinct texts with the same hash. |
| AuditTamper.SourceDigestIsFaithful | app/modules/audit_security/services/audit_chain_service.py:60-66 | The source's digest depends on nothing but the link and the recorded event, whatever hash function is plugged in. |
| AuditTamper.HonestHashes | app/modules/audit_security/services/audit_chain_service.py:60-66 | On an honest chain every stored hash is the hash of the row's link, a bar and its canonical payload; row 0 links to the word GENESIS, row i to the hash of row i-1. |
| AuditChain.NextKeepsInv | app/modules/audit_security/services/audit_chain_service.py:189-261 | One step of any emitter keeps every chain consecutive, linked and hashed, keeps every committed row, and keeps each row owned by exactly one successful call. |
| AuditChain.RunKeepsInv | app/modules/audit_security/services/audit_chain_service.py:189-270 | The same over any interleaving of any number of emitters, with the lock granted, refused or expired and with tail reads of any age: the unique index alone suffices. |
| AuditChain.StepTouchesOneChain | app/modules/audit_security/services/audit_chain_service.py:204-256 | A step adds at most one row, to the acting emitter's organisation, directly after a row already there; other organisations' chains are untouched. |
| AuditChain.NoGaps | app/modules/audit_security/services/audit_chain_service.py:205-207 | If a sequence number is present, so is every smaller one of the same organisation. |
| AuditChain.ReachableChainIsHonest | app/modules/audit_security/services/audit_chain_service.py:189-261 | In every reachable state each organisation's rows are numbered 0 to n-1, row 0 links to GENESIS, every other row links to its predecessor's hash, and every hash is that of its own link and payload. |
| AuditChain.FailureNeedsContention | app/modules/audit_security/services/audit_chain_service.py:203-270 | An emit with fresh tail reads fails only if at least `max_retries` rows of its organisation, all committed by other calls, appeared during its own run. |
| AuditChain.StaleReadsFailAlone | app/modules/audit_security/services/audit_chain_service.py:136-141 | Freshness is needed: whatever max_retries is, an emit all of whose tail reads are outdated fails, and leaves the rows as they were, although nobody else does anything. |
| AuditService.AuditCollection.LastRow | app/modules/audit_security/services/audit_chain_service.py:136-141 | The tail read returns the organisation's row with the highest sequence number, or nothing exactly when there is no row. |
| AuditService.AuditCollection.ReadAndBuild | app/modules/audit_security/services/audit_chain_service.py:205-246 | The first half of an attempt is exactly one tail-read step of the step system; the row it leaves carries that sequence number and the attempt's clock reading in the same second with its microseconds cut to whole milliseconds. |
| AuditService.AuditCollection.TryInsert | app/modules/audit_security/services/audit_chain_service.py:248-261 | The second half is exactly one insert step: success exactly when the sequence number was free, otherwise the next attempt or failure. |
| AuditService.AuditCollection.Emit | app/modules/audit_security/services/audit_chain_service.py:143-270 | The retry loop, with arbitrary steps of others between its awaits, is a run of the step system with fresh reads that starts with this call. It returns a row exactly when that run commits it; the row carries the event, the organisation and, for one of its attempts, that attempt's clock reading in UTC cut to whole milliseconds, and is numbered after and linked to the tail, or is number 0 linked to GENESIS. It fails only after all max_retries attempts, each between its own two gaps of others' steps, and then at least max_retries new rows of the organisation belong to other calls. |
| AuditVerify.VerifyChain | app/modules/audit_security/services/audit_chain_service.py:287-334 | The verdict is exact: valid exactly when every row carries its own digest and every row after the first links to its predecessor's hash, with count and end points; otherwise the least wrong position with its reason and the expected and actual hashes. |
| AuditVerify.ReachableVerifies | app/modules/audit_security/services/audit_chain_service.py:272-334 | In every state reachable by emits, any window `[from, to]` as read back from the database is accepted, and holds exactly the sequence numbers of the chain that lie in the window, consecutively. |
| AuditVerify.SelfTestSucceeds | app/modules/audit_security/services/audit_chain_service.py:336-349 | `self_test` answers true whenever its emit succeeded, whatever other emitters did in between. |
| AuditTamper.BackwardAgreement | app/modules/audit_security/services/audit_chain_service.py:300-324 | Walking back from a shared last hash, an accepted list and an honest chain agree row by row, or a pair of rows collides. |
| AuditTamper.AcceptedIsSuffix | app/modules/audit_security/services/audit_chain_service.py:297-334 | An accepted list ending in the last hash of an honest chain is exactly a suffix of it, all of it if it starts at sequence 0, or else two distinct hash inputs with the same digest are exhibited. |
| AuditTamper.AcceptedHistoryIsComplete | app/modules/audit_security/services/audit_chain_service.py:297-334 | The same against the stored collection: length and every row agree with what was emitted. |
| AuditTamper.EditBreaksThere | app/modules/audit_security/services/audit_chain_service.py:313-323 | Editing what is hashed in one accepted row is reported exactly at that row, up to a collision. |
| AuditTamper.RehashBreaksNext | app/modules/audit_security/services/audit_chain_service.py:302-312 | Editing a non-last row and re-hashing it is reported exactly at its successor, and goes through exactly when the old and the new row collide. |
| AuditTamper.RehashedLastRowIsAccepted | app/modules/audit_security/services/audit_chain_service.py:300-334 | A re-hashed last row is accepted: nothing follows it. |
| AuditTamper.RemovalBreaksAtSuccessor | app/modules/audit_security/services/audit_chain_service.py:300-312 | Removing an interior row is reported exactly at its successor, up to a collision of the removed row with its predecessor; removing the first or the last row of the window is accepted. |
| AuditTamper.AcceptanceIsRelative | app/modules/audit_security/services/audit_chain_service.py:297-304 | The comment that a window from sequence 0 must start at GENESIS is not enforced: rows linked and hashed from any first link are accepted. |
| CascadeDelete.Database.CheckRestricts | app/db/dao.py:1042-1090 | The restrict checks of one level change nothing; they pass only if every key is known and no approved live document of a restrict collection refers to the document, and raise only with the matching reason; with a connection that is never lost, no other reason exists. |
| CascadeDelete.Database.Cascade | app/db/dao.py:1094-1142 | The cascade loops leave, on success, no live child; on an exception at any depth, a state in which only reached documents are gone and nothing dangles; a connection that is never lost gives no database error. |
| CascadeDelete.Database.RemoveItself | app/db/dao.py:1018-1026 | A level's own removal keeps the set removed closed and logs the document once; it raises only when the connection is lost. |
| CascadeDelete.Database.Remove | app/db/dao.py:1038-1191 | Hard and soft delete, on every outcome: no live document points through a cascade field to a removed one, no approved live document of a restrict collection refers to a removed one, only the root and what it reaches is removed, children before parents, everything else untouched; each removed document of a watched collection is handed to the history once, with its prior content; every exception has its own reason in the documents the call started from, or in a connection that can be lost; a blocked root raises and changes nothing. |
| CascadeTheorems.RemovedExactly | app/db/dao.py:986-1025 | A successful call removes exactly the root and the live documents reachable from it through live cascade edges, diamonds included. |
| CascadeTheorems.BlockersGoToo | app/db/dao.py:1042-1090 | A call succeeds only if everything it has to remove has known restrict collections only, and every document that restricts one of them, at any depth, is itself the root or reached: a blocker outside that reach makes the call raise. |
| CascadeTheorems.SuccessNeedsAcyclic | app/db/dao.py:1111-1164 | A call succeeds only if no cascade cycle is reachable from the root: documents go only after their children. |
| CascadeTheorems.ChainsAreShort | app/db/dao.py:1128-1137 | Without a reachable cycle no cascade chain is longer than the number of documents plus the root, so the recursion ends. |
| CascadeTheorems.RemoveReturnsIffAcyclic | app/db/dao.py:1038-1191 | With a recursion limit above the number of documents, a connection that is never lost and nothing blocking, `delete` and `soft_delete` return exactly when no cascade cycle is reachable. In every case a return means no cycle, no blocker outside the reach and exactly the reachable set removed, and each exception means its own cause. |
| CascadeTheorems.SoundMeans | app/db/dao.py:1038-1191 | On every outcome, said of the documents themselves: nothing but soft-deletion timestamps changes in what is left, the log has exactly the gone documents once each, no live document of a cascade collection holds a gone one's id in the cascade field, no approved live document of a restrict collection holds it in `<its collection>_id`, and no gone document had an unknown restrict collection. |
| CascadeTheorems.CascadeChildIff | app/db/dao.py:1109-1137 | A document goes with another exactly when it is not soft-deleted and a cascade entry of the other's collection names its collection and a field in which it holds the other's id. |
| CascadeTheorems.RestrictedByIff | app/db/dao.py:1042-1090 | A document blocks another exactly when it is approved, not soft-deleted, of a collection that a restrict entry names, and holds the other's id in the field named after its own collection. |
| CascadeTheorems.ReachesIff | app/db/dao.py:1109-1164 | What a removal reaches is its cascade children and what they reach. |
| CascadeDelete.HistoryMeans | app/db/dao.py:986-1016 | The deletion history holds exactly the removed documents of watched collections, each with what was in it. |
| CascadeConfig.ParseCascades | app/db/dao.py:1100-1107 | The parsing loop collects, piece by piece in order, the pairs that the pieces of the text between `>,<` give; on every printed list of clean pairs it returns that list. |
| CascadeConfig.ParseUndoesPrint | app/db/dao.py:974-981 | Printing a non-empty list of (collection, field) pairs as `<c,f>` joined by commas and parsing it gives the list back in order, for names without angle brackets and surrounding whitespace and collections without commas. |
| CascadeConfig.SplitMeans | app/db/dao.py:1103 | Of any text the first piece ends at the leftmost separator, and the rest is split likewise; a text without separator is one piece. |
| CascadeConfig.PieceMeans | app/db/dao.py:1104-1107 | Any piece without a comma is ignored. Any other gives one pair: trimmed of angle brackets, then of whitespace, cut at its first comma, both halves trimmed. |
| UpdateHistory.NaiveIsoIff | app/db/dao.py:31-39 | Two datetimes compare equal in the diff exactly when their wall clocks are equal. |
| UpdateHistory.ComputeDiff | app/db/dao.py:42-54 | The two maps hold exactly the written fields other than `updated_at`, `created_at`, `_id` and `id` whose comparison text changed, with the old value (None if absent) and the new one. |
| UpdateHistory.ComparesAlikeIff | app/db/dao.py:31-39 | No value but None compares like None; two dicts or lists without datetimes compare alike exactly when their `json.dumps` texts are equal, and two other values exactly when their `str` texts are. |
| UpdateHistory.SlotShows | app/db/dao.py:31-39 | Two dicts or lists that differ in one datetime inside compare differently, and so do two that differ in what follows one. |
| UpdateHistory.DifferenceIsRecorded | app/db/dao.py:42-54 | A write of a different value (a different text, wall clock, dict or list, or one of them None) to a field other than the four skipped ones is recorded, with the old and the new value of that field. |
| UpdateHistory.WatchedDocument.Write | app/db/dao.py:1416-1447 | A write sets exactly its fields. In a watched collection it appends an entry exactly when some field other than `updated_at`, `created_at`, `_id` and `id` changed in the comparison, holding exactly those fields with old and new value in the form the history keeps; otherwise the history stays as it is, and it stays the one of the updates made. |
| UpdateHistory.WatchedDocument.Update | app/db/dao.py:592-665 | An absent document or an empty update changes nothing; any other update sets exactly its fields, appends the entry of the changed ones, and the history stays the one of the updates made. |
| UpdateHistory.WatchedDocument.Upsert | app/db/dao.py:1388-1447 | A missing document is created with both timestamps and no update history; an existing one is updated with exactly the given fields and a fresh `updated_at`, appends the entry of the changed ones, and its history stays the one of the updates made. |
| UpdateHistory.ReplayIff | app/db/dao.py:605-650 | Over any run of updates by one writer and whatever form the history keeps values in, replaying the recorded `diff_after` maps reproduces the document at every point, up to the comparison and with absent read as None, exactly when in each update the recorded form of every changed field, and the value written to every unchanged one, compares like what was stored. |
| UpdateHistory.RewindIff | app/db/dao.py:605-650 | Applying the `diff_before` maps backwards from the last document leads through every earlier state exactly when in each update the former value of every changed field compares alike in its recorded form and every unchanged field is unchanged once stored. |
| UpdateHistory.ReplayMeans | app/db/dao.py:605-650 | Replaying gives every field the `diff_after` value of the newest entry that has one, and leaves the fields of no entry. |
| UpdateHistory.RewindMeans | app/db/dao.py:605-650 | Rewinding gives every field the `diff_before` value of the oldest entry that has one, and leaves the fields of no entry. |
| UpdateHistory.MomentReplaysIff | app/modules/core/services/history/ops_history_service.py:619-627 | A naive or UTC datetime compares alike in its recorded form (`isoformat` text) and its stored form exactly when it is naive and in whole milliseconds. |
| UpdateHistory.AbroadNeverReplays | app/modules/core/services/history/ops_history_service.py:619-627 | A datetime of any other zone never does: the recorded text carries the offset. |
| UpdateHistory.SanitizedIff | app/modules/core/services/history/ops_history_service.py:628-631 | A dict or a list compares alike in its recorded and its stored form exactly when no datetime is inside: the diff prints one with a space, the history keeps a T. |
| UpdateHistory.SanitizedIsDump | app/modules/core/services/history/ops_history_service.py:628-631 | The recorded text of a dict or a list is the compared one except that some spaces became a T. |
| UpdateHistory.PlainReplaysIff | app/modules/core/services/history/ops_history_service.py:71-72 | For plain values (no other zones, scalars kept as they compare) an update replays exactly when every changed field is set neither to a UTC or sub-millisecond datetime nor to a dict or list with a datetime inside. |
| UpdateHistory.PlainRewindsIff | app/modules/core/services/history/ops_history_service.py:71-72 | Under the same terms an update rewinds exactly when no changed field held a dict or a list with a datetime inside. |
| UpdateHistory.UtcWriteReplaysUnequal | app/modules/core/services/history/ops_history_service.py:619-627 | Setting an empty field to noon UTC: replaying its entry gives a document that compares unequal to the real one, while rewinding is right. |
| UpdateHistory.NestedDatetimeRewindsUnequal | app/modules/core/services/history/ops_history_service.py:628-631 | Clearing a field that held a dict or a list with a datetime inside: rewinding gives a value that compares unequal to the former one. |
| UpdateHistory.SameWallClockGoesUnrecorded | app/db/dao.py:37-38 | Noon at +02:00 written over a stored naive noon changes the document while the diff sees no change and nothing is recorded. |
| Migrations.FilesAreSorted | bash/migration/run_migrations.py:34-35 | The runner's list holds exactly the migration files, in strictly ascending name order, with distinct ledger names. |
| Migrations.FilesMean | bash/migration/run_migrations.py:34-35 | A directory entry is a migration exactly when its name ends in `.py` and does not start with two underscores. |
| Migrations.RunMeans | bash/migration/run_migrations.py:17-108 | After a complete run a name n is newly recorded exactly when `n.py` is a migration file of the directory; after one that stopped, exactly when it is one before the file that failed. The count is the number of migration files whose `n.py` has no recorded n, and the documents are those after the updates of these files. |
| Migrations.PendingUpdatesAt | bash/migration/run_migrations.py:80-103 | The updates of a run are those of the pending files in the order of the files. |
| Migrations.MigrationDatabase.UpdateMany | bash/migration/migrations/002_update_bank_model_with_defaults_20250619170646.py:16-24 | A guarded update completes exactly when its document writes fit; interrupted, it leaves exactly the rest of them, and repeating it gives the same final documents. |
| Migrations.MigrationDatabase.MigrateUp | bash/migration/migrations/002_update_bank_model_with_defaults_20250619170646.py:4-84 | A whole `migrate_up` completes exactly when its writes fit; interrupted anywhere it leaves exactly the rest of them, and repeated it ends as one uninterrupted one. |
| Migrations.MigrationDatabase.RunFiles | bash/migration/run_migrations.py:80-108 | The pending loop completes exactly when its document and ledger writes fit; otherwise exactly the pending files before the failure are recorded, and running to the end later costs the remaining writes and leads where an undisturbed run would have led. |
| Migrations.MigrationDatabase.RunMigrations | bash/migration/run_migrations.py:17-108 | The same for a whole run over the sorted directory listing, in terms of the file names: a completed run records n, beside what was recorded, exactly if `n.py` is a migration file, counts the files `n.py` of unrecorded n, and leaves the documents after exactly their updates; a stopped one records exactly those sorted before the file that failed. Ups minus downs per migration stay 1 or 0 as the ledger says. |
| Migrations.MigrationDatabase.RestartUntilDone | bash/migration/run_migrations.py:80-103 | A run interrupted after any write and restarted any number of times ends with the documents and the ledger of one undisturbed run (every n whose `n.py` is a migration file is recorded, and nothing else new), exactly when the attempts together make as many writes as that run needs. |
| Migrations.MigrationDatabase.Rollback | bash/migration/run_migrations.py:53-78 | A rollback of n succeeds exactly when n is recorded, the file `n.py` exists and its writes fit; success undoes its updates and removes n, an interrupted one stays recorded and ends, when repeated, where it would have ended; ups minus downs stays in step with the ledger. |
| Migrations.MigrationDatabase.MigrateDown | bash/migration/migrations/004_add_multiple_fields_20250703103234.py:36-61 | A `migrate_down` completes exactly when its writes fit, and repeated after an interruption ends as one uninterrupted one. |
| MigrationUpdates.AllSettledUp | bash/migration/migrations/004_add_multiple_fields_20250703103234.py:16-35 | Running a migration again where every target document has its fields changes nothing. |
| MigrationUpdates.UpShape | bash/migration/migrations/004_add_multiple_fields_20250703103234.py:16-35 | A `migrate_up` keeps every existing field and its value and adds only fields it names. |
| MigrationUpdates.UpValue | bash/migration/migrations/004_add_multiple_fields_20250703103234.py:16-35 | A document that lacks a field gets the value of the first update that names the field. |
| MigrationUpdates.Migration002Fills | bash/migration/migrations/002_update_bank_model_with_defaults_20250619170646.py:16-84 | The seven fields of migration 002 and the value each gets in every document that lacks it; it touches no other collection than the two. |
| MigrationUpdates.Migrations003And004Fill | bash/migration/migrations/004_add_multiple_fields_20250703103234.py:16-35 | The same for the field of migration 003 and the two of migration 004. |
| MigrationUpdates.DownShape | bash/migration/migrations/004_add_multiple_fields_20250703103234.py:36-61 | A `migrate_down` removes exactly the fields it names and leaves every other value. |
| MigrationUpdates.RollbackRestoresIff | bash/migration/migrations/004_add_multiple_fields_20250703103234.py:4-61 | Rolling back right after an up restores the documents exactly when no document of the target collections had any of the added fields. |
| MigrationUpdates.RepositoryUpdatesCommute | bash/migration/migrations/002_update_bank_model_with_defaults_20250619170646.py:16-84 | No two updates of the three migrations interfere: any two of them commute on every database. |
| SchemaDetection.DetectMissingFields | bash/migration/detect_db_changes.py:52-117 | The loops report exactly the model's collections that exist, are not `system.` ones and whose first document lacks a model field other than `id`, with exactly the fields it lacks. |
| SchemaDetection.GenerateUpdates | bash/migration/detect_db_changes.py:192-214 | The generated file adds exactly the detected fields except `id`, each once: with the model's default, an empty list for a list, an empty dict for a dict, and None where the model has no such field or no default. |
| SchemaDetection.DetectsNothingIff | bash/migration/detect_db_changes.py:52-117 | A detection finds nothing exactly when in every existing model collection the first document has every model field; the documents behind it are not looked at. |
| SchemaDetection.DetectionSettles | bash/migration/detect_db_changes.py:119-214 | After running the updates generated from a detection the next detection finds nothing. |
| SchemaDetection.NextNumber | bash/migration/detect_db_changes.py:161-170 | The new number is 1 in an empty directory, otherwise one more than the greatest existing number; it is undefined exactly when no file has a number. |
| SchemaDetection.FileNumberIff | bash/migration/detect_db_changes.py:165-169 | A file has the number n exactly when what stands before its first underscore (the whole name if there is none) is a non-empty row of digits that reads as n. |
| SchemaDetection.NumberTextReads | bash/migration/detect_db_changes.py:172 | The number is written as at least three digits that read as it, with a leading zero only when there are exactly three. |
| SchemaDetection.NewFileSortsLastIff | bash/migration/detect_db_changes.py:172-174 | The new file runs after an existing zero-padded file exactly when the new number, cut to as many digits, is still greater. |
| SchemaDetection.ThreeDigitsSortLast | bash/migration/detect_db_changes.py:172-174 | With consecutive numbering up to 1000 the new file runs last exactly when its number is at most 999. |
| AgendaActivation.NextKeepsInv | app/modules/agenda/services/agenda_service.py:41-52 | One step of any activation (load, deactivate one sibling, save, crash) keeps: an item is active exactly by its last write; jointly active items of a session of which one was saved were both saved, in overlapping windows; every deactivation is remembered by a call under way or crashed, or followed by its save. |
| AgendaActivation.RunKeepsInv | app/modules/agenda/services/agenda_service.py:41-52 | The same over any interleaving of any number of activations, from any collection, also one with several active items in a session. |
| AgendaActivation.BothActiveIff | app/modules/agenda/services/agenda_service.py:31-52 | From any collection, two items of a session are both active exactly when their last activations' deactivate-to-save windows overlapped and no deactivation reached either after its save, or when both were active at the start and neither was ever written. |
| AgendaActivation.LastSavedIsActiveIff | app/modules/agenda/services/agenda_service.py:31-52 | When no call is deactivating in a session, the item saved last is active exactly unless a call that crashed deactivated it after that save. |
| AgendaActivation.SomethingIsActiveAtRest | app/modules/agenda/services/agenda_service.py:31-52 | When no call is deactivating in a session, and some activation there was saved after everything that crashed calls deactivated there, the session has an active item. |
| AgendaActivation.TwoWinners | app/modules/agenda/services/agenda_service.py:34-38 | The documented convergence to one winner fails in every collection: for any two items of a session there is a run of two overlapping activations that both finish and leave both items active. |
| AgendaService.AgendaItems.Activate | app/modules/agenda/services/agenda_service.py:31-52 | A call that runs alone, from any state, leaves exactly its target active in its session and other sessions unchanged; an unknown id changes nothing. |
| AgendaService.OrderMapMeans | app/modules/agenda/services/agenda_service.py:80-84 | The request maps exactly the ids of its entries, each to the index of its last entry. |
| AgendaService.AgendaItems.Reorder | app/modules/agenda/services/agenda_service.py:74-105 | Refuses exactly when some entry's id is not an item of the session, naming exactly those ids, with nothing changed; or puts every listed item at the index of its last entry, leaves all others and returns how many items moved, exactly when that many saves succeed. When a save fails part-way, exactly the saved part is done, nothing else has changed, and repeating the call completes it. |
| AgendaService.ReorderTwiceMovesNothing | app/modules/agenda/services/agenda_service.py:97-105 | Repeating a reorder moves nothing and returns 0. |
| AgendaService.ReorderCounts | app/modules/agenda/services/agenda_service.py:97-105 | A reorder changes how many items of a session stand at an index by exactly those sent there minus those listed that were there. |
| AgendaService.IndicesPreservedIff | app/modules/agenda/services/agenda_service.py:97-105 | The session keeps its multiset of indices exactly when the requested indices permute the listed items' old ones. |

## Left out

- SHA-256 and UTF-8 encoding: the hash is any function from text to 64 hexadecimal characters.
- JSON details: a float enters as its `repr` text, and details that the database would not give back equal (integers beyond 64 bits, say) are outside the model.
- Timestamps in zones other than UTC in audit rows: `emit` only produces UTC, and the database returns naive or UTC.
- The audit lock's own records and its release: the protocol never depends on them, so a lock attempt is only an arbitrary answer.
- Read errors, lost acknowledgements and process death inside `emit`: an emitter may simply take no further step, and what a dying caller is told is not modelled.
- `by_pass_exception=True` in deletes: a blocked child then returns False and its parent is still removed, so the closure properties are stated for the default only.
- Other requests that write documents while a delete runs: deletion is one call at a time, with failures anywhere.
- `delete_with_query`, `delete_many` and `_remove_from_view`: variants of the same walk, and view maintenance.
- Comma-separated restrict configuration text: the model starts from the list of collection keys, in field order.
- Failing history writes, ops logs, pre- and post-hooks: history writes are taken to succeed, the others change nothing modelled.
- Dotted keys in `$set`, enum and ObjectId conversion before an update: an update is the map of top-level fields that reaches `$set`.
- `json.dumps` and `str` inside `_diff_cmp`: a dict or a list enters as its `json.dumps` text cut at the datetimes inside, any other value than None and datetimes as its `str` text, which two values may share.
- Datetimes of other zones inside dicts and lists: those inside are naive or UTC.
- The form in which the delete history keeps a document (ids and datetimes as text): the entry is modelled as it is handed over.
- `restore_from_update_history` (app/modules/core/services/history/ops_history_service.py:249-325): only its core, setting the recorded `data_before` again, appears, as one step of `Rewind`; the texts it leaves in place of datetimes are compared, not converted back.
- `update_many`, which records the history of one representative document.
- The `--list` flag, import errors other than a missing module, and the timestamps in the ledger.
- The text of generated migration files and their names: the model has the updates they make and the number they start with.
- Quoting of string defaults in generated files: a default is the value, not Python source.
- Concurrent migration runs.
- `publish`, notifications and request schemas of the agenda.
- `reorder` interleaved with other calls: its saves write whole documents back, which the model shows for `activate` only.

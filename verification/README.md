# Darkhold: models and proofs

Dafny models of the parts of Darkhold whose correctness depends on state, order or offsets, with proofs about them.
Every module follows one component of the repository. Code that changes things step by step is an imperative method,
proved equal to a specification function; the properties are lemmas about that function. Where a promise in the code
or its comments does not hold, the model keeps the code, a lemma exhibits inputs that break the promise, and another
says exactly when it is kept.

* `Zip.dfy`: the stored-method archive writer, against a reader written from PKWARE APPNOTE.TXT sections 4.3.7, 4.3.12
  and 4.3.16, and `BulkWalk.dfy`: the keyset listing and the bulk export that walks it, with its audit rows, manifest
  and archive.
* `Exports.dfy`: export deliveries, retention sweeps, readers' deletions, the cancelling and the cascaded deletion of
  rows by account erasure and job purges, and other features' writes, as interleaved single statements over rows, blob
  rows, files and references, any of which a crash may cut off. `ExportService.dfy`: the same operations as methods of
  one instance, shown to be runs of those statements, and what a sweep collects. `ExportHazards.dfy`: interleavings that go wrong, each from every state that allows it.
* `Imports.dfy`: storing a work's units over any number of attempts, each cut off anywhere.
* `Narration.dfy` and `Utf8.dfy`: cutting narration text at natural places within a byte limit (RFC 3629 section 3).
* `Cursor.dfy`: page cursors in unpadded, canonical base64url (RFC 4648 sections 3.2, 3.5 and 5).
* `CsvLine.dfy`: the one-row editor of the requirements table (RFC 4180 section 2); `CsvTable.dfy`, `Ledger.dfy`,
  `LedgerHeaders.dfy` and `LedgerRows.dfy`: the `csv` module's tables, the keyed ledger built on them, what its two
  headers cost it, and what it makes of a file it did not write.
* `Html.dfy`: the escaping page builder, read back by a tokenizer (HTML Standard sections 13.1.2.3 and 13.1.4).
* `Placeholders.dfy` and `PlaceholderGate.dfy`: renumbering placeholders, and the gate that judges a statement with its
  literals blanked. `CastEdits.dfy`, `ValuesList.dfy`: splicing casts by offset, splitting a VALUES list.
* `SchemaReplay.dfy`: three replays of the migrations that should agree.
* `RoadmapSeed.dfy`: seeding the roadmap board.
* `Wrappers.dfy` and `Decimal.dfy` hold what the others share.

`dafny verify dfyconfig.toml` checks all of it.

## Model

| member | source | states |
|---|---|---|
| Zip.ReadBack | crates/app/src/bulk_export.rs:403-470 | reading an archive from its end record through the directory to each local header gives back exactly the items, in order, when every count, size and offset fits its field |
| Zip.RoundTripIff | crates/app/src/bulk_export.rs:403-470 | for every item list, 4 GiB and more included, it does so if and only if every count, length and offset fits its field |
| Zip.SmallRoundTripIff | crates/app/src/bulk_export.rs:403-470 | below 2^32 bytes in all, that is fewer than 2^16 items and every name shorter than 2^16 bytes |
| Zip.WriterIsInjective | crates/app/src/bulk_export.rs:403-470 | two item lists that fit and give the same bytes are the same list |
| Zip.ArchiveLength | crates/app/src/bulk_export.rs:403-470 | the length is 22 plus 76 + 2·name + data for each item |
| Zip.SmallTotalFits | crates/app/src/bulk_export.rs:413-468 | a total below 2^32 with short names and few items means no narrowing cast or addition loses anything |
| Zip.LocalsHold | crates/app/src/bulk_export.rs:415-432 | local header k, its name and its data stand where the first k items end |
| Zip.CentralHolds | crates/app/src/bulk_export.rs:434-454 | central entry k points at local header k |
| Zip.FixedFields | crates/app/src/bulk_export.rs:420-467 | signatures, versions, flags, method, times, extra fields, comments and attributes are the bytes APPNOTE.TXT gives them |
| Zip.BuildZipStored | crates/app/src/bulk_export.rs:410-470 | the loop over two buffers and a wrapping 32-bit offset appends exactly the archive, with the offset equal to the buffer's growth at each turn |
| Zip.BuildZip | crates/app/src/bulk_export.rs:403-407 | what it returns reads back as its items if and only if they fit |
| Listing.CursorRoundTripIff | crates/db/src/media.rs:379-400 | a listing cursor reads back as its row if and only if the row's id holds no bar |
| Listing.AfterIsPositional | crates/db/src/media.rs:385-400 | in a sorted listing the rows after the cursor by comparison are the rows after it by position |
| Listing.PageContinues | crates/db/src/media.rs:511-519 | each page continues where the one before ended, so none is repeated and none is missed |
| BulkWalk.AuditTable.ProduceBulk | crates/app/src/bulk_export.rs:163-327 | the whole walk terminates, only adds audit rows, refuses an empty or over-large query before it starts, and on success returns an archive that reads back if and only if the members fit its fields: each work included under its name with its bytes, then the manifest's JSON, and no other |
| BulkWalk.FinishedBundleFits | crates/app/src/bulk_export.rs:219-327 | they do whenever the caps on works and bytes, the longest name and the manifest keep 22 + (works + 1)(76 + 2 name) + bytes below 4 GiB and the counts below 2^16 |
| BulkWalk.AuditTable.VisitPage | crates/app/src/bulk_export.rs:242-298 | the inner loop makes one decision per work and stops at the byte cap or at a decision it cannot record |
| BulkWalk.VisitAllIff | crates/app/src/bulk_export.rs:246-296 | a walk finishes if and only if what renders stays within the byte cap and every decision can be recorded |
| BulkWalk.VisitAllRecords | crates/app/src/bulk_export.rs:246-296 | a stopped walk has recorded the decisions of its first works, and for the one over the cap a refusal |
| BulkWalk.WalkedIsAPrefix | crates/app/src/bulk_export.rs:224-304 | the pages come to one walk over a prefix of the listing, and works are left out only when it was stopped or already holds the limit |
| BulkWalk.WalkIsComplete | crates/app/src/bulk_export.rs:219-304 | when the listing is no longer than the preflight count, paging and the early exit make no difference |
| BulkWalk.EveryWorkDecidedOnce | crates/app/src/bulk_export.rs:215-304 | then a finished walk has recorded one decision for each work, in order, the rendered size or the refusal's reason, and its bundle is what rendered, within the byte cap |
| BulkWalk.EveryRenderedWorkIsBundled | crates/app/src/bulk_export.rs:242-321 | and every listed work that renders is in the bundle, in order, as its id and `.html` with exactly the bytes it rendered to, and nothing else but the manifest |
| BulkWalk.AllDecidedIff | crates/app/src/bulk_export.rs:219-304 | a finished walk has decided every work, however long the listing, if and only if at no page boundary inside it the limit of rendered works was reached |
| BulkWalk.GrownListingIsCutOff | crates/app/src/bulk_export.rs:300-303 | otherwise it has decided the works up to the first such boundary and no other |
| BulkWalk.RedeliveryDecidesTwice | crates/app/src/bulk_export.rs:83-140 | after an attempt that died part-way, or recorded everything and could not store its archive, a complete second one leaves two decisions for exactly the works the first had decided |
| BulkWalk.ManifestMirrorsAuditIff | crates/app/src/bulk_export.rs:359-399 | the manifest equals what the audit rows say if and only if no included work's own id ends in `.html` |
| Exports.RunKeepsInv | crates/app/src/exports.rs:632-719 | every run of interleaved statements and crashes keeps the invariant over rows, references, blobs and running tasks |
| Exports.OutputsStayReferenced | crates/app/src/exports.rs:693-716 | after any run every reference has its blob, and every row with an output has its own reference and an existing blob unless its reader's deletion has dropped that reference |
| Exports.StepIsSafeIff | crates/app/src/routes/exports.rs:303-318 | from a state in which every output has its reference, a step keeps it so if and only if it is neither a reader's deletion dropping the reference of a standing row nor a delivery recording an output whose reference has gone |
| Exports.RunIsSafeIff | crates/app/src/exports.rs:693-716 | every state of a run has every output referenced and held if and only if no statement of the run is one of those two |
| Exports.OutputsSafeWithoutDeletions | crates/app/src/exports.rs:932-966 | deliveries, redeliveries, crashes, sweeps and other writes alone never leave an output without reference and blob |
| Exports.OthersAreNeverCollected | crates/db/src/storage.rs:344-391 | no sweep, delivery or deletion takes a blob that another feature references |
| Exports.OtherStepsStayOnDisk | crates/db/src/storage.rs:130-206 | only a collector's file removal can part a blob row from its file |
| Exports.RemovalStaysOnDiskIff | crates/db/src/storage.rs:337-391 | that removal is harmless if and only if nobody has put the same bytes back, or is about to insert their row |
| Exports.FinishedStepIff | crates/app/src/exports.rs:663-716 | a step that does not delete a finished row leaves it as it is if and only if it is not the `Mark`, changing `Fail` or changing `Record` of a delivery that read the row earlier |
| Exports.FinishedStaysIff | crates/app/src/exports.rs:663-716 | through a whole run a finished row is unchanged for as long as it stands if and only if no statement of the run is one of those |
| Exports.FinishedStays | crates/app/src/exports.rs:663-668 | once no delivery that read it before it was finished is still at work, a finished export keeps its state and output through any deliveries, sweeps and crashes; its row can only go |
| Exports.GoneStays | crates/app/src/exports.rs:755-800 | a deleted export's row never comes back |
| Exports.DeletionEnds | crates/app/src/routes/exports.rs:303-318 | a reader's deletion that comes to its last statement deletes the row and no other, whatever has happened in between |
| Exports.FailureIsFinal | crates/app/src/exports.rs:674-690 | a failure that is to be retried is recorded as `failed` too, so no redelivery makes that export ready, unless another delivery of it has already got past its first read |
| Exports.FailureIsFinalIff | crates/app/src/exports.rs:674-690 | whatever else is under way, the failure stays recorded through a run if and only if no overlapping delivery overwrites it |
| Exports.NeverCollectedIff | crates/db/src/exports.rs:493-499 | a reference whose row is gone stays through every possible later run if and only if no task still has the statement that drops it before it, against the comment that the next sweep collects it |
| Exports.OrphansAreForever | crates/db/src/exports.rs:576-633 | such a reference then keeps its blob too in every later state |
| Exports.LateReferenceIff | crates/app/src/exports.rs:693-705 | a reference for an export whose row is gone comes into being if and only if a delivery of it writes one just then |
| ExportService.RanIsARun | crates/app/src/exports.rs:632-719 | one undisturbed delivery is a run of one task's statements |
| ExportService.DeliveryLeaves | crates/app/src/exports.rs:650-719 | what it leaves of row, reference, blob and file, for each way it can go |
| ExportService.SweptIsARun | crates/app/src/exports.rs:932-966 | so is one undisturbed sweep |
| ExportService.SweepCollects | crates/app/src/exports.rs:932-966 | a sweep deletes the expired rows and their references, no other row or reference, and exactly those of their outputs that nothing else references, no other blob |
| ExportService.ForgotIsARun | crates/app/src/routes/exports.rs:295-320 | one undisturbed deletion by the export's reader is a run of one task's statements |
| ExportService.ForgetCollects | crates/app/src/routes/exports.rs:295-320 | it takes the row, its reference, and its output, blob and file, if and only if nothing else references it; no other row, reference, blob or file |
| ExportService.Instance.Request | crates/app/src/exports.rs:755-800 | the queue row is written first, then the export's own |
| ExportService.Instance.Put | crates/db/src/storage.rs:130-206 | afterwards the bytes are held, row and file, and nothing else has changed |
| ExportService.Instance.DeleteIfUnreferenced | crates/db/src/storage.rs:344-391 | the blob goes, row and file, if and only if it was there unreferenced, and the answer says so |
| ExportService.Instance.Run | crates/app/src/exports.rs:632-719 | the whole new state of a delivery and what the queue is told, case by case |
| ExportService.Instance.Delete | crates/app/src/routes/exports.rs:295-320 | the whole new state of a deletion by the reader |
| ExportService.Instance.PurgeExpired | crates/db/src/exports.rs:576-633 | it returns what it read before deleting it |
| ExportService.Instance.Sweep | crates/app/src/exports.rs:932-966 | the whole new state of a sweep and its count; without retention nothing happens |
| ExportHazards.MissingFile | crates/db/src/storage.rs:337-391 | a sweep and a delivery of the same bytes, with no crash, can leave a ready export whose file is gone |
| ExportHazards.LateReferenceLeaks | crates/app/src/exports.rs:693-716 | a delivery that writes its reference after a sweep has deleted its row leaves bytes that nothing will ever collect, with no crash |
| ExportHazards.OverlapFailsReady | crates/app/src/exports.rs:663-690 | of two overlapping deliveries, one can turn into `failed` the export the other has made ready |
| ExportHazards.OverlapRevivesFailed | crates/app/src/exports.rs:663-716 | and one can make ready the export the other has failed |
| ExportHazards.InterruptedSweepLeaks | crates/db/src/exports.rs:569-633 | a sweep cut off between deleting rows and dropping references leaves bytes that nothing will ever collect |
| ExportHazards.StaleReferenceLeaks | crates/app/src/exports.rs:693-716 | so does a delivery cut off between its reference and its row, when the redelivery renders other bytes: the sweep drops the second reference alone |
| ExportHazards.CascadeLeaksIff | crates/db/src/erasure.rs:389-392 | a row deleted with its account or its job leaves its output referenced for good if and only if no task that read it before is about to drop the reference |
| ExportHazards.CancelledIsDelivered | crates/db/src/erasure.rs:363-388 | an open export an erasure has cancelled is delivered all the same, and becomes ready, against the comment that cancelling prevents it |
| ExportHazards.InterruptedDeletionBreaks | crates/app/src/routes/exports.rs:295-320 | a reader's deletion cut off before its last statement leaves a ready row whose blob is gone |
| ExportHazards.SoundStart | crates/app/src/exports.rs:731-800 | the states all of these start from are reached by two requests and one delivery |
| Imports.StoredSurvivesIff | crates/app/src/imports.rs:1052-1143 | a unit stored when an attempt begins keeps its row, however the attempt ends, if and only if no unit that cannot be read again is recorded under its very key |
| Imports.StoredForever | crates/app/src/imports.rs:991-1222 | over any attempts a stored unit whose key is not of the form `ordinal-N` is neither rewritten nor lost |
| Imports.LastOneWins | crates/db/src/imports.rs:1417-1484 | of fetched units that share a key the last one decides the row |
| Imports.BulkOkStoresAll | crates/app/src/imports.rs:1107-1222 | on the bulk path `Ok` means every unit the source gave is stored, repeated keys or not |
| Imports.AnswersIff | crates/app/src/imports.rs:1014-1222 | when an attempt gives which answer, for every table and world: `Ok` untouched for a refused body, the fetch error if and only if everything was asked for and nothing came, cut off if and only if that falls inside its steps, and else `Ok` or the count of those neither held nor taken |
| Imports.RowsMatchOutcomesIff | crates/app/src/imports.rs:1120-1206 | after a whole pass the table says of every fetched unit what its outcome says if and only if no two units with one key, not stored already, fared differently |
| Imports.CountIsExactIff | crates/app/src/imports.rs:1120-1222 | the answer of a pass counts exactly the fetched units recorded as failed if and only if as many units fail whose key's last unit succeeds as succeed whose key's last unit fails; when no two units with one key fare differently there are none of either |
| Imports.AttemptCountIsExactIff | crates/app/src/imports.rs:1052-1222 | the same for a whole attempt, bulk or unit by unit: every fetched unit is recorded stored or failed, `Ok` means none failed, and the reported number is theirs under exactly that condition |
| Imports.RepeatedKeysMiscount | crates/app/src/imports.rs:1176-1219 | two units with one key that fare differently are miscounted, whichever comes first |
| Imports.RetryOkStoresIff | crates/app/src/imports.rs:1072-1106 | after a unit-by-unit retry answers `Ok`, the stored units are exactly those stored before and those it could read again |
| Imports.NeverFetchedAgain | crates/app/src/imports.rs:1067-1106 | once a unit has been recorded under a made-up key, a unit the table does not speak of is never stored, however many attempts follow |
| Imports.TwoAttemptsForget | crates/app/src/imports.rs:1067-1106 | two attempts from an empty table get there, and the second answers `Ok` |
| Imports.ChecksumsStay | crates/db/src/imports.rs:1443-1444 | over any attempts, a row that has had a body's checksum keeps naming one, failed again or not |
| Imports.ProgressIsHonest | crates/app/src/imports.rs:1208-1210 | progress is 50 and the share of 950 that is done, rounded down; it stays within 50 to 1000, so the clamp never acts, never goes back, and is 1000 exactly after the last unit |
| Imports.LogIsHonest | crates/app/src/imports.rs:1120-1211 | so do the reports of a whole pass, units already held being passed over in silence |
| Imports.LogIsComplete | crates/app/src/imports.rs:1120-1211 | and every unit not held already is reported, in order, with the share it completes |
| Imports.UnitTable.UpsertUnit | crates/db/src/imports.rs:1417-1484 | a row is inserted or replaced, and one without a checksum keeps the old checksum |
| Imports.UnitTable.StoreUnits | crates/app/src/imports.rs:1000-1222 | the whole attempt leaves the table, gives the answer and makes the reports the specification says, wherever it is cut off |
| Imports.UnitTable.FetchAgain | crates/app/src/imports.rs:1073-1106 | each failed ordinal is read again or recorded as failed under its made-up key |
| Imports.UnitTable.StoreFetched | crates/app/src/imports.rs:1115-1222 | each unit is skipped, stored or recorded as failed, progress is reported for it, and the answer counts the failures |
| Utf8.DecodeEncode | crates/app/src/narration.rs:199-222 | decoding the UTF-8 bytes of a text gives the text |
| Utf8.EncodeDecode | crates/app/src/cursor.rs:44-47 | bytes that decode are the encoding of what they decode to |
| Narration.BoundaryIff | crates/app/src/narration.rs:203-206 | the byte test finds exactly the offsets between characters |
| Narration.ChunksCover | crates/app/src/narration.rs:190-232 | the chunks are non-empty, join to the text, and each is within the limit or a single wider character |
| Narration.ChunkingUnique | crates/app/src/narration.rs:207-223 | last sentence end, else last white space, else the window's edge: these rules leave one way to cut a text |
| Narration.CutIs | crates/app/src/narration.rs:207-223 | the rules spelled out: past the last `.`, `!`, `?` or line feed of the window, else past its last white space, else at its edge |
| Narration.AllWithinLimitIff | crates/app/src/narration.rs:190-193 | every chunk is within the limit, as the comment claims, if and only if no character alone is wider than it |
| Narration.WindowLen | crates/app/src/narration.rs:203-206 | backing up finds the last character boundary within the limit |
| Narration.SplitAt | crates/app/src/narration.rs:207-223 | the cut is the one the rules say |
| Narration.ChunkText | crates/app/src/narration.rs:194-232 | the loop terminates with the chunking the rules define |
| Base64Url.DecodeEncode | crates/app/src/cursor.rs:33-35 | decoding undoes encoding for all bytes |
| Base64Url.EncodeDecode | crates/app/src/cursor.rs:44-46 | every text that decodes is the encoding of what it decodes to, padding bits included |
| Base64Url.KnownEncodings | crates/app/src/cursor.rs:33-35 | two encodings that use every part of the alphabet |
| Base64Url.GroupIsOneNumber | crates/app/src/cursor.rs:33-35 | a group's bytes and digits are the same 24-bit number, highest first |
| Cursor.RoundTripIff | crates/app/src/cursor.rs:33-61 | a cursor decodes to the pair it was made from if and only if the timestamp holds no bar |
| Cursor.AcceptedIsCanonical | crates/app/src/cursor.rs:43-61 | every accepted cursor encodes back to itself |
| Cursor.AcceptedIffIssued | crates/app/src/cursor.rs:37-61 | the accepted texts are exactly those that can be issued |
| CsvLine.SplitFields | scripts/update-m45-22-row.py:35-64 | the index loop computes the split |
| CsvLine.SplitJoin | scripts/update-m45-22-row.py:35-71 | splitting the comma-join of quoted fields gives the fields, whatever characters they hold |
| CsvLine.JoinSplit | scripts/update-m45-22-row.py:67-71 | a line without quotes and line ends is what its fields join to, so nothing is quoted that need not be |
| CsvLine.Run | scripts/update-m45-22-row.py:74-105 | the edit's outcome and the new file |
| CsvLine.OutcomeIff | scripts/update-m45-22-row.py:79-105 | no row, too few fields, up to date: when the run says which |
| CsvLine.EditIsLocal | scripts/update-m45-22-row.py:75-104 | an edit replaces one line, the first that belongs to the row, every other line and every byte before and after it staying as it was, and the new line splits into the old fields with the new status, evidence and notes in the fifth to seventh |
| CsvLine.SecondRunChangesNothing | scripts/update-m45-22-row.py:75-104 | a second run leaves the file as the first one left it |
| CsvTable.ReadBack | scripts/ledger.py:116-154 | every list of records reads back as it was written, empty records and single empty fields included |
| CsvTable.ReadBackAs | scripts/ledger.py:124-133 | so it does whichever of CRLF, LF and CR ends each record |
| CsvTable.BaldRecordReads | scripts/ledger.py:124-133 | and fields joined by hand are read as they stand, quotes in their middle included |
| CsvTable.QuotedThenBare | scripts/ledger.py:124-133 | what follows a closing quote up to the end of the field is taken as it stands |
| CsvTable.LastReads | scripts/ledger.py:124-133 | the last record needs no line end |
| CsvTable.WriterIsInjective | scripts/ledger.py:136-154 | two tables that give the same text are the same table |
| LedgerHeaders.HeaderReadBackIff | scripts/ledger.py:92-113 | a written ledger's header reads back, from the first CRLF-ended line alone, if and only if the file is not blank and no name holds a CRLF |
| LedgerHeaders.HeadersAgreeIff | scripts/ledger.py:92-133 | in any file with a header, the one it is written under is the one its rows are read under if and only if no name in the first record holds a CRLF |
| LedgerHeaders.UpsertKeepsIff | scripts/ledger.py:157-181 | row by row, after an upsert a row has every value it should, under whatever column, if and only if the header written has a column for each |
| LedgerHeaders.PlainLedgerKeepsRows | scripts/ledger.py:157-181 | so every other row is kept whole when no name in the first record holds a CRLF |
| LedgerHeaders.AddColumnsKeepsIff | scripts/ledger.py:184-215 | adding columns keeps a row whole if and only if the header found or the columns asked for have one for each of its values |
| LedgerHeaders.CutHeaderLosesAColumn | scripts/ledger.py:92-113 | a ledger with a CRLF in a name, in which adding one row empties another row's column |
| Ledger.RowsReadBack | scripts/ledger.py:116-154 | a written ledger's rows read back as the header shows them |
| Ledger.HeaderHasNoCrlf | scripts/ledger.py:92-113 | no header taken from a file has a CRLF inside a name |
| Ledger.UpsertChangesOneRow | scripts/ledger.py:157-181 | with an `id` column, an upsert keeps the header found and, under its columns, every other row in place and order, and exactly one row is merged value by value or appended |
| Ledger.UpsertTwice | scripts/ledger.py:157-181 | upserting the same row twice gives the same bytes as once, for every file with an `id` column |
| Ledger.UpsertTwiceIff | scripts/ledger.py:157-181 | for every file an upsert succeeds on, doing it twice leaves the bytes of doing it once if and only if the file's header has the `id` column |
| Ledger.AddColumnsKeepsRows | scripts/ledger.py:184-215 | for every file, columns are appended once to the header found, every row keeps its values under that header and the new columns, and a second time nothing is left to add |
| Ledger.LedgerFile.Read | scripts/ledger.py:116-133 | the loop computes the rows or the refusal that the lemmas on reading describe |
| LedgerRows.ReadRefusesIff | scripts/ledger.py:116-133 | a file is refused if and only if it is not blank and some record after the first is longer than the first |
| LedgerRows.ReadRowsAre | scripts/ledger.py:116-133 | else there is one row for each later record but the empty ones, in order, each field under its column |
| LedgerRows.NoFieldIsLost | scripts/ledger.py:126-133 | so with distinct names every field of the file is in a row |
| LedgerRows.HeaderRefusedIff | scripts/ledger.py:109-113 | a header is refused if and only if the first CRLF-ended line holds a second record |
| LedgerRows.UpsertRefusesIff | scripts/ledger.py:157-181 | the four refusals of an upsert, in their order, and that there is no other |
| LedgerRows.AddColumnsRefusesIff | scripts/ledger.py:184-215 | those of adding columns; a long row is one only when there is something to add |
| Ledger.LedgerFile.UpsertRow | scripts/ledger.py:157-181 | the file becomes what the specification says, and a refused row changes nothing |
| Ledger.LedgerFile.AddColumns | scripts/ledger.py:184-215 | likewise for new columns |
| Html.EscapeText | crates/app/src/html.rs:46-59 | the loop computes the escaped text |
| Html.EscapesAre | crates/app/src/html.rs:46-59 | which reference each of the five characters becomes |
| Html.OthersStand | crates/app/src/html.rs:46-59 | every other character stands for itself |
| Html.EscapeConcat | crates/app/src/html.rs:46-59 | escaping two texts joined is joining them escaped |
| Html.EscapeRoundTrip | crates/app/src/html.rs:46-59 | resolving character references undoes escaping |
| Html.EscapedIsInert | crates/app/src/html.rs:46-59 | no markup character survives escaping |
| Html.Page.Text | crates/app/src/html.rs:78-81 | appends the escaped text and nothing else |
| Html.Page.Open | crates/app/src/html.rs:94-101 | appends the start tag with its attributes in order |
| Html.Page.OpenOpt | crates/app/src/html.rs:105-114 | appends the start tag with the attributes that have a value |
| Html.Page.Void | crates/app/src/html.rs:117-124 | appends the tag of an element without content |
| Html.Page.Close | crates/app/src/html.rs:127-132 | appends the end tag |
| Html.Page.Raw | crates/app/src/html.rs:88-91 | appends markup as it is |
| Html.PageReadsBack | crates/app/src/html.rs:78-162 | a page built with plain names and without raw markup tokenizes to exactly its elements, attribute values and texts, neighbouring texts joined |
| Placeholders.MaskStringLiterals | scripts/check-pg-placeholder-mixing.py:65-89 | the nested loops blank a character exactly when it is no quote and an odd number of quotes precede it |
| Placeholders.MaskIsIdempotent | scripts/check-pg-placeholder-mixing.py:65-89 | masking twice is masking once, doubled quotes and unterminated literals included |
| Placeholders.NumberedQuestionIff | scripts/check-pg-placeholder-mixing.py:222-242 | the first rule is a `?`, white space, a digit |
| Placeholders.IsBindIff | scripts/check-pg-placeholder-mixing.py:92-107 | a `?` is no bind if and only if past blanks a quote, a bar or an ampersand follows |
| Placeholders.Rewrite | scripts/check-pg-placeholder-mixing.py:118-128 | the counting loop computes the renumbered text |
| Placeholders.RenumberedReadsBack | scripts/check-pg-placeholder-mixing.py:113-128 | which numbers any rewritten statement names, position by position |
| Placeholders.NumberedInOrderIff | scripts/check-pg-placeholder-mixing.py:113-128 | they are 1 to k in order if and only if there was no `$n` and no digit right after a `?` |
| Placeholders.RewriteIsIdentityIff | scripts/check-pg-placeholder-mixing.py:118-128 | the rewrite changes nothing if and only if there is no `?` |
| Placeholders.RewriteMerges | scripts/check-pg-placeholder-mixing.py:118-128 | with no digit right after a `?`, each of 1 to k is named once more than before, and every other number as often as before |
| PlaceholderGate.MaskedFrontToBack | scripts/check-pg-placeholder-mixing.py:65-89 | the mask equals the one that carries the quote state from the front |
| PlaceholderGate.OutsideReadsBack | scripts/check-pg-placeholder-mixing.py:65-128 | which numbers any rewritten statement names outside its literals, position by position |
| PlaceholderGate.RightlyNumberedIff | scripts/check-pg-placeholder-mixing.py:222-242 | for every statement, the rewrite of the raw text is right outside its literals if and only if there is no `?` there, or else no `$n` and no `?` with a digit right after it there, and no `?` inside a literal before one outside |
| PlaceholderGate.GateGoesWrongIff | scripts/check-pg-placeholder-mixing.py:222-242 | a statement whose mask the gate lets through goes wrong exactly when a `?` inside a literal stands before one outside, or its outside `?` are all operators beside a `$n` |
| PlaceholderGate.GateIsSoundIff | scripts/check-pg-placeholder-mixing.py:222-242 | when every `?` outside literals is a bind, being let through means being rightly numbered if and only if no `?` inside a literal stands before one outside |
| PlaceholderGate.LiteralsStayIff | scripts/check-pg-placeholder-mixing.py:118-128 | the rewrite leaves a statement's literals as they are if and only if no `?` stands inside one |
| PlaceholderGate.QuotedQuestionShiftsBind | scripts/check-pg-placeholder-mixing.py:65-128 | a statement the gate lets through whose one bind becomes `$2` |
| Placeholders.AnOperatorBecomesABind | scripts/check-pg-placeholder-mixing.py:92-128 | a statement the gate lets through whose operator and parameter both become `$1` |
| Placeholders.CollisionIsDuplication | scripts/check-pg-placeholder-mixing.py:243-255 | a `$m` from 1 on that the `?`s reach always names two columns, so the report of a mere collision is left for `$0` |
| ValuesList.ValuesExpressions | scripts/check-uncast-pg-placeholders.py:380-413 | the index loop computes the split |
| ValuesList.SplitExplains | scripts/check-uncast-pg-placeholders.py:380-413 | a closed list is its pieces joined with commas; in each, counting what stands outside quotes, as many parentheses are closed as opened and at no point more, every comma stands inside some, and no quote is left open; an unclosed list drops what follows its last comma |
| ValuesList.SplitIsUnique | scripts/check-uncast-pg-placeholders.py:380-413 | a list closes with given pieces and rest if and only if they are such pieces by those counts and the text is their join, the parenthesis and the rest |
| ValuesList.WholeIff | scripts/check-uncast-pg-placeholders.py:393-412 | reading depth and quote character by character says of a piece exactly what the counts say |
| SchemaReplay.LoadSchema | scripts/check-uncast-pg-placeholders.py:153-206 | the loop computes the replay into dictionaries of dictionaries |
| SchemaReplay.ParseInventory | scripts/check-snapshot-pii.py:196-248 | the loop computes the replay into sets |
| SchemaReplay.ColumnTypes | scripts/check-pg-uuid-casts.py:106-145 | the loop computes the replay into one flat dictionary |
| SchemaReplay.InventoryAgrees | scripts/check-snapshot-pii.py:181-248 | the first two hold the same columns per table after every list of events |
| SchemaReplay.DeclaredIs | scripts/check-uncast-pg-placeholders.py:153-206 | a created table has each column with the type of its last declaration and keeps the others |
| SchemaReplay.AddedIsDeclared | scripts/check-uncast-pg-placeholders.py:153-206 | creating a table and adding a column is creating it with the column and its type, for the first two |
| SchemaReplay.FlatStepAgreesIff | scripts/check-pg-uuid-casts.py:115-145 | from agreement, the flat one stays in agreement with an event if and only if it adds no new column and renames over no column of its own |
| SchemaReplay.HistoryAgreesIff | scripts/check-pg-uuid-casts.py:106-145 | over a whole history the flat one agrees after every event if and only if each event is of that kind in the schema it meets |
| SchemaReplay.PlainHistoriesAgree | scripts/check-pg-uuid-casts.py:82-145 | without added columns and with rename targets absent, all three agree on every column and type |
| SchemaReplay.RenameOverMerges | scripts/check-pg-uuid-casts.py:123-133 | a rename over another table keeps that table's column in the flat dictionary and in no other |
| SchemaReplay.RenamedBack | scripts/check-uncast-pg-placeholders.py:196-203 | a column renamed to a free name keeps its type, and renamed back restores the schema |
| SchemaReplay.RebuildNested | scripts/check-uncast-pg-placeholders.py:147-206 | rename away, create anew, drop: exactly the new definition is left and nothing else is touched |
| SchemaReplay.RebuildSets | scripts/check-snapshot-pii.py:207-248 | the same for the sets |
| SchemaReplay.RebuildFlat | scripts/check-pg-uuid-casts.py:98-145 | the same for the flat dictionary |
| RoadmapSeed.LoadCsv | scripts/seed_roadmap.py:106-120 | one unknown status refuses the file; otherwise every row gets its stage, and the only unprotected one is `idea` |
| RoadmapSeed.StagesAre | scripts/seed_roadmap.py:58-82 | whatever is implemented is shipped, only what is planned is an idea, the rest one by one; and every stage but idea, medium and long term is protected |
| RoadmapSeed.Database.SeedSqlite | scripts/seed_roadmap.py:126-187 | the board and the report after a run or a dry run; a dry run changes nothing; the counts sum to the rows |
| RoadmapSeed.WhereCardsEndUp | scripts/seed_roadmap.py:147-178 | each card's final stage from its old one and the stages its rows give it |
| RoadmapSeed.RunsSettle | scripts/seed_roadmap.py:159-178 | after a run every card has the category of the last of its rows that gives its stage |
| RoadmapSeed.QuietRun | scripts/seed_roadmap.py:159-178 | a run over a board it need not move changes categories only, each to the last one its rows give |
| RoadmapSeed.ProtectedStays | scripts/seed_roadmap.py:81-82 | no run moves a card out of a protected stage |
| RoadmapSeed.OthersAreLeft | scripts/seed_roadmap.py:147-178 | cards no row names are left alone |
| RoadmapSeed.CountsSum | scripts/seed_roadmap.py:127-179 | every row is counted once |
| RoadmapSeed.ReportCounts | scripts/seed_roadmap.py:147-179 | each of the four numbers counts the rows whose card was missing, in its stage, kept where it was, or moved, judged against the board each row met |
| RoadmapSeed.NoneAlikeIff | scripts/seed_roadmap.py:15-17 | whatever the normal form of a title, after a run no two cards share one if and only if none did before, no row shares one with a card of another title, and no two rows with different titles share one |
| RoadmapSeed.SecondRunChangesNothing | scripts/seed_roadmap.py:147-178 | a second run over the same rows, repeated titles included, inserts and updates nothing and leaves the board as it was |
| RoadmapSeed.TwoOpenStagesFlap | scripts/seed_roadmap.py:58-82 | with two unprotected stages in reach this would fail |
| RoadmapSeed.DryRunForetellsIff | scripts/seed_roadmap.py:147-187 | a dry run foretells the report if and only if any two rows with one title find its card on the board, and there either protected or left an idea by the first with no difference to the second |
| RoadmapSeed.DryRunForetells | scripts/seed_roadmap.py:147-187 | so it does when no title is repeated, whatever stages the rows give |
| RoadmapSeed.DryRunOvercounts | scripts/seed_roadmap.py:147-187 | a repeated new title it counts as two insertions |
| CastEdits.CastSql | scripts/fix-timestamptz-binds.py:106-117 | the left-to-right loop computes the assembled text |
| CastEdits.FeedsIff | scripts/fix-timestamptz-binds.py:62-64 | the test is the regular expression: a name in `_at`, white space, one of five comparisons, white space |
| CastEdits.ApplyEdits | scripts/fix-timestamptz-binds.py:136-139 | the sort and the splices compute the edits applied in turn |
| CastEdits.BothWaysAgree | scripts/fix-timestamptz-binds.py:106-139 | for ordered disjoint spans left-to-right assembly equals right-to-left splicing, and no offset goes stale |
| CastEdits.SpansAssemble | scripts/fix-timestamptz-binds.py:75-99 | the spans of either pass are ordered and disjoint, and assembling them puts the casts where they belong |
| CastEdits.UndoRestoresIff | scripts/fix-timestamptz-binds.py:142-160 | in a statement without casts, undoing restores the original if and only if the line-based pass placed them or the fallback met nothing longer than a `?` |
| CastEdits.BrokenLineMisSpans | scripts/fix-timestamptz-binds.py:96-98 | a statement on which the fallback spoils a `$n` |
| CastEdits.EditsStayInTheLiteral | scripts/fix-timestamptz-binds.py:120-139 | spans moved by a literal's offset edit that literal of the file and nothing else |

## Left out

- Databases, files, the network, clocks and random ids are state, fixed inputs or steps that may fail. JSON and CRC-32 are parameters.
- Zip.BuildZipStored: the 32-bit additions wrap as in a release build; a debug build panics at that point instead.
- BulkWalk.AuditTable.ProduceBulk: the listing stays the same throughout a walk, and the byte total is an unbounded integer where the source has 64 bits. The storing of the archive afterwards is the same as for a single export.
- BulkWalk: `request_bulk` makes the same two refusals as the walk, over the same count, and is not repeated.
- Exports: one SQL statement is one step, and `delete_if_unreferenced` checks and deletes its row in one. `reference` updates a timestamp after its insert; that update failing is the same as a crash between the two steps modelled.
- Exports.OutputsStayReferenced: a reader's deletion drops the reference before it deletes the row, so the plain promise for every row with an output is false; ExportHazards.InterruptedDeletionBreaks is the witness, and Exports.RunIsSafeIff says exactly when it holds.
- ExportService.Instance.Sweep: the batch limit of 500 and the purge of download grants.
- Imports: what the source and the store answer is a function of the unit, so two tries of one and the same unit within an attempt cannot differ. Titles, notes and images of units; `tag_labels`, `apply_source_tags`, `rescue_import_media` and `report`, which count what they loop over; `classify` and the other pure look-ups.
- Imports.NeverFetchedAgain: assumes that the source reads units one at a time, that a key names one unit, and that no unit's key has the made-up form.
- Narration: calling the engine and the progress of `handle_narration`.
- CsvLine.SecondRunChangesNothing: the row's key needs no quoting and the new values hold no line break, which the script's constants satisfy.
- CsvTable: the reader's limit on the length of a field. White space and digits are those of ASCII throughout, where Python also takes other scripts'.
- Html.PageReadsBack: names are lower-case letters, digits, `-`, `_` and `:`; elements whose content HTML reads as raw text (`script`, `style`, `title`, `textarea`), the dropping of repeated attributes, and the input preprocessing that turns CR into LF and treats NUL specially are not modelled; `style_block` is left out.
- Placeholders: finding the statements in the Rust source and stripping `--` comments, which are regular expressions.
- SchemaReplay: extracting the events from the text of the migrations. `column_types` does not fold case; the events here carry names already folded. `check` is one look-up per column.
- RoadmapSeed: titles are unique on the board, so it is a map; timestamps and ratings. The script's header promises a comparison by normalized title, but the code compares titles as they are written, and so does the model; RoadmapSeed.NoneAlikeIff says when the difference shows. The normal form itself is a parameter there. The PostgreSQL backend runs the same loop.
- CastEdits: finding the literals of a file, and the comparison of whole files in `round_trips`.
- `crates/taste`, authentication, the service worker and the other gates are not part of this model.

# clove1db: a verified model

clove1db is an embedded database over redb: an encrypted file layer, a durable change log with consumers,
unique and id constraints, immutable attachments, sealed files, and a version history with restore. This
project models the parts of it where state, order or arithmetic decide whether it is right, and proves what
they promise for every input, every run and every stop. `dafny verify dfyconfig.toml` checks all of it.

The layers, bottom up:

- **Encrypted block layer** (`Layout`, `Cells`, `HeaderPieces`, `Growth`, `PlainArray`, `BlockFile`, `Staging`,
  `FileTrace`, `BlockDevice`; `DrainRace` for page writes during a drain). The file is a sequence of sealed
  cells, and a cell opens only under the label it was sealed with. `BlockDevice.BlockBackend` stages pages,
  drains them, writes redb's header as alternating sealed pieces and grows the file in steps; `Run` proves
  that redb cannot tell it from a plain byte array, and `PlainLaws` says what that array does. The class
  records every file write in a ghost trace together with what redb had written by then; `FileTrace` states
  the order the writes keep, and what reopening finds after a stop at, or within, any of them.
- **Sealed files** (`SealedStream`, `SealedReading`): a streaming writer and a random-access reader under ideal
  authentication. Only the bytes the writer made read back, and they read back as what it was given.
- **Codecs** (`ChangeCodec` with `RowLaws`, `Base64`, `BackupBase64`, `FieldBase64`).
- **Change log** (`Journal`, `JournalTx`, `Consumers`): numbers, floor, retention budget, reset images, tokens. The
  loops that change the log row by row are proved equal to closed forms, and the closed forms keep the
  invariant in every run.
- **Tables and transactions** (`RowTables`, `LastWrite`, `UniqueIndex`, `IdContract`, `Drafts`, `Work`, `WorkLaws`,
  `Batches`, `Repository`): a transaction works on a copy, is checked, numbered and settled, and is published
  whole or dropped; `WorkLaws` says row by row what it does. `Replaying` keeps the whole past beside the
  database and proves that the retained log replays to the rows of now; `Followers` draws the consequence for
  a client that keeps a copy.
- **Attachments** (`Attachments`, `AttachmentStore`): every named file is there, in every run.
- **Version history** (`VersionHistory`, `HistoryLaws`): records, restores and bulk restores of one table.

A redb write transaction is an atomic step on maps that is discarded on error. What a row's bytes mean to a
field path is a parameter (`Reader`), and so are random names and the outcome of primary writes in the history.

## Findings

Three properties one might expect do not hold of the code as it is. Each has an input that shows it and the
exact condition under which it holds.

- The history of a key is selected by the text prefix `key:` (src/backup.rs:313-319), so it can show records of
  another key: `VersionHistory.MixedExample` gives one, and `VersionHistory.HistoryIsOwn` the condition, that no
  key with history starts with `key:`.
- A bulk restore records all its entries before it puts any row, and then puts the rows one by one
  (src/backup.rs:216-282, src/repository.rs:1138-1180). When it stops, newest records and rows can differ:
  `VersionHistory.FailedBulkExample` gives a bulk with one new id. `VersionHistory.FailedBulkMirrors` gives the
  condition for a stop anywhere: a row agrees if the last entry about it was put, or if what it is at the stop,
  by an earlier entry that was put or from before, is what that last entry goes back to. For distinct ids only
  the rows not put matter (`VersionHistory.FailedBulkOfDistinct`).
- The log's row decoder ignores the parts a tag does not use (src/journal.rs:85-143), so a row can be accepted
  that no encoder writes: `ChangeCodec.ReencodeExample` gives one, and `ChangeCodec.ReencodesWhenBlank` the
  condition, that these parts are blank.

## Model

| member | source | states |
|---|---|---|
| `BlockDevice.BlockBackend.Run` | src/encrypted_store/backend.rs:879-1087 | For every sequence of reads, writes, length changes and syncs, with parallel sealing on or off, the answers and the final content are those of a plain zero-extended byte array, whose meaning byte by byte is in `PlainLaws`; every file write of the run belongs to one call and was made when the array was as that call found it or as it leaves it, in the order `FileTrace.Due` asks for |
| `PlainLaws.ReadSeesWrite` | src/encrypted_store/backend.rs:939-1087 | In every run a read of the range of an earlier write returns what it wrote if no call in between wrote or cut there, whatever else happened |
| `PlainLaws.StaysInRun` | src/encrypted_store/backend.rs:939-1087 | A byte no call writes to or cuts off is the same at any later point of a run |
| `PlainLaws.ReadOverWrite` | src/encrypted_store/backend.rs:939-1087 | After a write, a read of its range gives the data, and a read apart from it what it gave before |
| `PlainLaws.ReadGives` | src/encrypted_store/backend.rs:939-1042 | A read answers exactly the slice if it ends within the array, and the end-of-file error otherwise |
| `PlainLaws.ByteReads` | src/encrypted_store/backend.rs:939-1042 | Every byte there is can be read alone |
| `PlainLaws.WriteAnswers` | src/encrypted_store/backend.rs:1044-1087 | A write is taken exactly if it is empty, or ends within the array, spares the unused part of the header area and is whole pages behind it; which error otherwise |
| `PlainLaws.WriteSets` | src/encrypted_store/backend.rs:1044-1087 | A write that is taken sets exactly its bytes; one refused for a misaligned rest sets its header bytes, any other refused one nothing |
| `PlainLaws.LengthAnswers` | src/encrypted_store/backend.rs:879-919 | Which length changes are taken, by the length, the header area and its region words, and which error otherwise |
| `PlainLaws.LengthSets` | src/encrypted_store/backend.rs:879-919 | A length change that is taken keeps the bytes before the new end and adds zeros |
| `PlainLaws.ShapeMeans` | src/encrypted_store/backend.rs:767-773 | Which bytes of the header give which region shape, by the little-endian words they hold |
| `BlockDevice.BlockBackend.constructor` | src/encrypted_store/backend.rs:321-357 | Opening a file shows exactly what is sealed in it |
| `BlockDevice.BlockBackend.LoadPieces` | src/encrypted_store/backend.rs:484-506 | The header loaded is the one `LoadHeader` gives, from the newest copy of region 0 that opens |
| `BlockDevice.BlockBackend.Read` | src/encrypted_store/backend.rs:939-1042 | A read of any range answers as on the plain array, from header, staged pages and file alike (`PlainLaws.ReadGives`: the slice, or the end-of-file error exactly outside it) |
| `BlockDevice.BlockBackend.Write` | src/encrypted_store/backend.rs:1044-1087 | A write answers and acts as on the plain array, errors for unused header bytes and misaligned rests included |
| `BlockDevice.BlockBackend.WriteHeaderRange` | src/encrypted_store/backend.rs:508-535 | A header write puts its pieces in the file in order, only with nothing staged, and file and memory agree about the header afterwards |
| `BlockDevice.BlockBackend.WritePiece` | src/encrypted_store/backend.rs:452-467 | One piece reaches the file only while the file shows every page written so far; the write is recorded in the trace |
| `BlockDevice.BlockBackend.StagePages` | src/encrypted_store/backend.rs:611-627 | Pages are written to the plain array; the invariant holds afterwards that fewer than 1024 are staged |
| `BlockDevice.BlockBackend.Drain` | src/encrypted_store/backend.rs:656-712 | Draining changes nothing a reader can see, empties the staged map and leaves every page in the file |
| `BlockDevice.BlockBackend.WriteBatch` | src/encrypted_store/backend.rs:688-702 | The batch reaches the file in coalesced writes, each block sealed under its own number with the page written last |
| `BlockDevice.BlockBackend.Unstage` | src/encrypted_store/backend.rs:705-710 | With nothing written meanwhile, removing the pages of the batch by identity empties the staged map |
| `BlockDevice.BlockBackend.Fill` | src/encrypted_store/backend.rs:730-763 | New space is zeros, old blocks keep their cells, everything is sealed at every batch boundary, each boundary is the target or a length redb accepts, and a batch has at most 128 pages plus a region header |
| `BlockDevice.BlockBackend.SetLen` | src/encrypted_store/backend.rs:879-919 | A length change acts as on the plain array and is refused exactly where its rules say |
| `BlockDevice.BlockBackend.SyncData` | src/encrypted_store/backend.rs:921-937 | When it returns nothing is staged and the synced file alone shows everything written before |
| `BlockDevice.BlockBackend.Close` | src/encrypted_store/backend.rs:1089-1093 | Closing leaves all that was written in the file |
| `FileTrace.PagesSince` | src/encrypted_store/backend.rs:508-535 | From opening, or any header piece or sync, on, in every run, each block of the file holds the page it had then or the one the last block write about it since carried |
| `FileTrace.StopLoads` | src/encrypted_store/backend.rs:484-506 | A stop at any file write of a run: reopening gives the header of the completed writes, torn region 0 as before that write, a torn commit slot as zeros |
| `FileTrace.StopKeepsPages` | src/encrypted_store/backend.rs:656-712 | A stop at any file write of a run, looked at from the opening of the file or from any header piece or sync: every block keeps the page of then or the last one written to it since, or belongs to the torn write, and no page is missing unless the file was shortened |
| `FileTrace.StopSealed` | src/encrypted_store/backend.rs:656-712 | Unless a block write was the torn one, every block opens after a stop at any file write |
| `DrainRace.NoPageIsLost` | src/encrypted_store/backend.rs:656-712 | However page writes fall between the snapshot, the coalesced file writes and the removal of a drain, the newest value of each page is staged or, if not staged, in the file |
| `DrainRace.RunIsConsecutive` | src/encrypted_store/backend.rs:690-694 | One file write of a drain is at most 128 blocks that follow each other |
| `DrainRace.QuietDrainEmpties` | src/encrypted_store/backend.rs:705-710 | A drain nothing interferes with empties the staged map |
| `HeaderPieces.CrashLoads` | src/encrypted_store/backend.rs:508-535 | A header write cut after any piece, the next one whole or torn, loads region by region as old, new, or torn |
| `HeaderPieces.HeaderRunsAgree` | src/encrypted_store/backend.rs:438-535 | In every run of header writes, stops and reopenings file and memory agree, and the bytes are those expected without pieces, stamps or copies |
| `HeaderPieces.NewestCopyIsSpared` | src/encrypted_store/backend.rs:508-535 | In every such run no write falls on the newest copy of region 0 that opens |
| `HeaderPieces.NewestCopy` | src/encrypted_store/backend.rs:484-506 | The copy chosen opens and no copy that opens has a larger stamp |
| `Cells.LabelsInjective` | src/encrypted_store/backend.rs:266-276 | Labels of different blocks and pieces are different |
| `Cells.MovedBlockFails` | src/encrypted_store/backend.rs:266-272 | A block put at another number does not open |
| `Staging.SealAll` | src/encrypted_store/backend.rs:630-654 | Sealing in chunks by any number of workers gives each page sealed under its own number, in order |
| `Staging.Snapshot` | src/encrypted_store/backend.rs:657-663 | The snapshot lists the staged pages, each once, by ascending block number |
| `Staging.RunEnd` | src/encrypted_store/backend.rs:690-694 | A run is a stretch of consecutive blocks, not empty and within the chunk limit |
| `Growth.BatchEnd` | src/encrypted_store/backend.rs:730-763 | The end of a batch is the target or a length redb accepts, and not far past 128 pages |
| `Growth.LayoutIsNear` | src/encrypted_store/backend.rs:774-782 | From any length an accepted one is at most a region header away |
| `Growth.LayoutMeans` | src/encrypted_store/backend.rs:774-782 | A length is accepted exactly if it is some full regions and nothing, or a header and some data pages of the next |
| `PlainArray.PutPagesIsWrite` | src/encrypted_store/backend.rs:1044-1087 | Putting pages is writing their bytes to the flat array |
| `BlockFile.PutFromHeaderIsPlain` | src/encrypted_store/backend.rs:1044-1087 | A write that starts in the header page and goes on behind it is one write to the plain array, its errors included |
| `BlockFile.SizedIsPlain` | src/encrypted_store/backend.rs:879-919 | A length change on header and pages is the length change of the plain array |
| `Layout.Geometry.LengthRoundTrip` | src/encrypted_store/layout.rs:42-58 | `LogicalLen` undoes `PhysicalLen` and ignores any partial block behind it |
| `Layout.Geometry.LogicalFits` | src/encrypted_store/layout.rs:42-58 | Every length a file can report is accepted and its bytes are in the file |
| `SealedStream.AadInjective` | src/encrypted_store/sealed.rs:25-37 | The binding text determines the block number, whether it is the last block, and the total |
| `SealedStream.SealedWriter.Write` | src/encrypted_store/sealed.rs:165-177 | What is taken is appended to the content; a full block is held back until more comes |
| `SealedStream.SealedWriter.Finish` | src/encrypted_store/sealed.rs:145-163 | The file is the one the content determines, empty input and exact multiples of a block included |
| `SealedStream.SealParts` | src/encrypted_store/sealed.rs:145-177 | The file depends only on the concatenated input, not on how it was cut into write calls |
| `SealedReading.OnlyTheWritersFileLoads` | src/encrypted_store/sealed.rs:197-247 | All blocks of a file open under the writer's key if and only if it is that writer's file |
| `SealedReading.ReadBack` | src/encrypted_store/sealed.rs:197-264 | Opening and reading to the end gives the content for the writer's file and an error for any other bytes |
| `SealedReading.ReadFile` | src/encrypted_store/sealed.rs:197-264 | Reading to the end in steps of any size gives the content exactly if every block opens |
| `SealedReading.SealedReader.Read` | src/encrypted_store/sealed.rs:250-264 | A read returns what its block holds at the position and moves by that much, or fails without moving |
| `SealedReading.SealedReader.Visit` | src/encrypted_store/sealed.rs:250-279 | Any in-range seeks and reads give the matching slices of the content |
| `SealedReading.SealedReader.Seek` | src/encrypted_store/sealed.rs:266-279 | The target from start, end or position; refused exactly before the start; wrap-around at 2^64 as written |
| `SealedReading.SealedReader.LoadBlock` | src/encrypted_store/sealed.rs:232-247 | A block is cached exactly if it opens under the label the file length forces |
| `ChangeCodec.Encode` | src/journal.rs:69-84 | The row of a change |
| `ChangeCodec.Decode` | src/journal.rs:85-143 | The cursor decoder gives the one change whose row this is, up to unused parts, and the right error otherwise |
| `ChangeCodec.RoundTrip` | src/journal.rs:69-143 | Every change decodes from its encoding to itself |
| `ChangeCodec.PrefixRejected` | src/journal.rs:85-143 | Every strict prefix of an encoding is rejected |
| `ChangeCodec.RowsArePrefixFree` | src/journal.rs:69-84 | No row is a prefix of another |
| `ChangeCodec.ReencodesWhenBlank` | src/journal.rs:85-143 | An accepted row re-encodes to itself if and only if the parts its tag does not use are blank |
| `ChangeCodec.ReencodeExample` | src/journal.rs:85-143 | A row that is accepted as a delete and is not the row of that delete |
| `RowLaws.EncodedMeans` | src/journal.rs:69-84 | What the bytes of each kind of change hold and where: version, tag, three parts after their lengths, size |
| `RowLaws.Utf8Means` | src/journal.rs:110-142 | The texts accepted are exactly the encodings of sequences of Unicode characters (section 3 of RFC 3629) |
| `RowLaws.BigEndianOrder` | src/journal.rs:69-84 | The most significant byte of a number comes first |
| `BackupBase64.Encode` | src/backup/codec.rs:222-246 | The padded text of the bytes (section 4 of RFC 4648) |
| `BackupBase64.Decode` | src/backup/codec.rs:247-283 | The inverse of encoding, and a refusal for every text that is no encoding |
| `FieldBase64.Encode` | src/field_crypto/b64.rs:4-24 | The unpadded URL-safe text of the bytes (section 5 of RFC 4648) |
| `FieldBase64.Decode` | src/field_crypto/b64.rs:25-57 | The inverse of encoding, and a refusal for every text that is no encoding |
| `Base64.DecodedIsInverse` | src/field_crypto/b64.rs:4-57 | Decoding gives b exactly for the text that encodes b: round trip and one spelling for each byte string |
| `Base64.EncodedInjective` | src/backup/codec.rs:222-246 | Different bytes have different texts |
| `Base64.KnownGroups` | src/backup/codec.rs:222-246 | The digits of two groups of the test vectors of section 10 of RFC 4648 |
| `Base64.KnownLetters` | src/field_crypto/b64.rs:4-24 | The letters of all digits in both alphabets |
| `JournalTx.JournalTx.Prune` | src/journal.rs:441-483 | Removing rows one by one from the front, with their images and bytes, gives the log cut at that point; the accounting never underflows |
| `JournalTx.JournalTx.PruneToAcked` | src/journal.rs:493-501 | The log is cut at the lowest acknowledged number of an active consumer |
| `JournalTx.JournalTx.Enforce` | src/journal.rs:502-539 | The loop ends, within the budget, and judges every consumer field by field: an active one whose unread rows exceed the budget is, if external, inactive and otherwise as it was, if internal, flagged for a rebuild and moved to the head; every other one is as it was; each one dropped is announced, once; it never finds nobody to drop |
| `JournalTx.JournalTx.AppendEffects` | src/journal.rs:216-235 | Changes get consecutive numbers and their bytes are counted; an overflow is refused |
| `JournalTx.JournalTx.Finish` | src/journal.rs:243-296 | The end of a write transaction appends the changes, judges every consumer in the same way, announces those it drops, and keeps exactly the rows after the lowest number acknowledged by an active consumer |
| `Journal.SettledKeepsUnread` | src/journal.rs:441-501 | After settling, the rows retained are exactly those after the lowest number acknowledged by an active consumer, unchanged |
| `Journal.CostMeans` | src/journal.rs:216-235 | A row counts for 42 bytes and the lengths of its parts |
| `Consumers.RunKeeps` | src/journal.rs:216-296 | In every reachable state the keys are floor..head without a gap, bytes is the sum of 8 plus row length, active consumers stand between floor - 1 and head, and images belong to retained resets |
| `Consumers.StepKeeps` | src/journal.rs:243-296 | Every transaction keeps that, and with a budget leaves the bytes within it |
| `Consumers.ExpiredForever` | src/journal.rs:431-440 | An issued token once refused as expired is refused as expired after every further run |
| `Consumers.RegisterIssues` | src/journal.rs:569-617 | A new registration is current and ends every earlier one of its name |
| `Consumers.TokenMeans` | src/journal.rs:431-440 | A token is current exactly if database, name and generation match an active consumer that needs no rebuild; which error otherwise |
| `Consumers.JudgedTokens` | src/journal.rs:502-539 | The token of a consumer the budget drops is refused as expired, or as needing a rebuild for an internal one; every other token answers as before |
| `Consumers.NoAckBackwards` | src/journal.rs:730-754 | After acknowledging up to a number, in every further run, the same token acknowledging less is refused |
| `Consumers.CurrentTokenReads` | src/journal.rs:635-665 | A current token reading from its acknowledged position on is never too late |
| `Consumers.JournalStore.Commit` | src/journal.rs:243-296 | A write either settles into the log whole or leaves it as it was |
| `Consumers.JournalStore.Register` | src/journal.rs:569-617 | Taken exactly for a name that is not empty and not kept for internal use, while generations last; the consumer is then active at the head under a generation never used, and all others and the log are as settling leaves them |
| `Consumers.JournalStore.Ack` | src/journal.rs:730-754 | Taken exactly with a current token for a number from the acknowledged one to the head; then that consumer stands there, all others are as the budget leaves them, and the rows up to the lowest acknowledged number are gone |
| `Consumers.JournalStore.Unregister` | src/journal.rs:755-770 | Refused exactly for internal consumers; otherwise the consumer is gone, all others are as the budget leaves them, and only what they have not read is kept |
| `Consumers.JournalStore.DisableIndex` | src/journal.rs:782-784 | An internal index consumer is inactive and otherwise as it was, and holds nothing back; all others are as the budget leaves them |
| `Consumers.JournalStore.SetBudget` | src/journal.rs:541-544 | A new budget holds at once |
| `Consumers.JournalStore.ReadChanges` | src/journal.rs:635-665 | The gap-free run of changes after a position, at most as many as asked for, with the exact refusals |
| `Consumers.JournalStore.ReadReset` | src/journal.rs:683-701 | The rows of a retained reset, with the exact refusals |
| `Replaying.ReplayGivesNow` | src/journal.rs:635-701 | In every run, replaying the retained changes with the retained images on the rows of any earlier boundary the floor covers gives the rows of now |
| `Replaying.ImagesNeverChange` | src/repository.rs:766-774 | In every run an image exists exactly while its record is retained, and never changes |
| `Replaying.LastWriteIsWhole` | src/lastwrite.rs:18-43 | In every run from an empty database the last-write map is the fold of all changes ever made, pruned or not, and its keys are the rows there are |
| `Replaying.RunKeeps` | src/journal.rs:243-296 | Every run keeps the log in step with the whole past, and forgets nothing of it |
| `Followers.CopyNeverStrays` | src/journal.rs:635-754 | A client that copies the rows, pulls and acknowledges, with anything else in between, always holds the rows as of the change it is up to; while its token is current the log reaches it, and pulling the rest gives the rows of now |
| `Followers.RowsOfThen` | src/journal.rs:666-682 | The rows as of a change number are what the tables were when that was the head |
| `Followers.Follower.Pull` | src/indexes/worker.rs:224-242 | A pull applies the next changes, reading reset images through the log; it is refused exactly when the token is |
| `Followers.Follower.Confirm` | src/journal.rs:730-754 | Acknowledging what is applied is refused exactly when the token is, and the copy stays right |
| `LastWrite.FoldBound` | src/lastwrite.rs:18-43 | A row's last write is the number of the last change about it |
| `LastWrite.LastWriteTx.StampAll` | src/lastwrite.rs:18-43 | Stamping in place, with the loop over a reset table, is the fold |
| `UniqueIndex.UniqueTx.Validate` | src/unique.rs:223-261 | Accepts exactly if every value can be read and no two resulting rows of a table have the same values for all fields of one of its definitions, whatever the order of the rows; then both index tables are those rebuilt from scratch |
| `UniqueIndex.UniqueTx.Configure` | src/unique.rs:166-222 | Accepts exactly the definitions under which no rows clash; the index is rebuilt; no insert after the count can report a violation |
| `UniqueIndex.CleanTableMeans` | src/unique.rs:166-222 | Definitions are accepted for a table exactly if no two of its rows agree on one of them |
| `UniqueIndex.ConfiguredMeans` | src/unique.rs:166-222 | With each table configured once, the definitions afterwards are the configured ones and no others |
| `UniqueIndex.UniqueTx.CountGroups` | src/unique.rs:199-211 | The count is the number of keys shared by several rows of the table |
| `UniqueIndex.UniqueTx.Insert` | src/unique.rs:121-145 | One row enters both tables, or a key already there is reported |
| `UniqueIndex.UniqueTx.Remove` | src/unique.rs:106-120 | One row leaves both tables |
| `UniqueIndex.UniqueTx.Clear` | src/unique.rs:146-165 | One table's rows leave both tables |
| `UniqueIndex.CollectKeys` | src/unique.rs:80-105 | One key for each definition all whose fields have a value, and no other; an error exactly if a field cannot be read before one is missing |
| `UniqueIndex.CleanMeans` | src/unique.rs:80-145 | No key is shared exactly if no two rows of a table agree, field by field, on a definition of it |
| `UniqueIndex.LackingNeverClashes` | src/unique.rs:80-105 | A row that lacks a value of a definition shares no key of that definition with any row |
| `UniqueIndex.ForwardIsDetermined` | src/unique.rs:106-165 | The reverse table determines the forward one |
| `IdContract.Validate` | src/id_contract.rs:61-88 | Accepts exactly if every row written, or in a reset image, holds its own key |
| `IdContract.SoundMeans` | src/id_contract.rs:61-88 | What is accepted, row by row: every row written, and every row of an image captured, holds its key at the path of its table |
| `IdContract.Configure` | src/id_contract.rs:20-60 | Accepts exactly if every configured path is plain and every row of its table holds its key there, so that not checking unchanged contracts again makes no difference; then every contract is met, and those no longer configured are gone |
| `IdContract.MergedMeans` | src/id_contract.rs:20-60 | The last contract configured for a table is its contract |
| `IdContract.SoundKeeps` | src/id_contract.rs:61-88 | Accepted changes keep the contracts on all rows |
| `Work.WorkTx.DeleteRows` | src/repository.rs:735-742 | Deletes in order, attachments with their rows, and whether each found something (row by row in `WorkLaws.AppliedMeans`) |
| `WorkLaws.AppliedMeans` | src/repository.rs:721-750 | What writes and then deletes come to, row by row: a deleted row and its reference are gone, a row written has the last value written, every other is as before; which deletes found something; and which changes are logged, each once, in which order |
| `Work.WorkTx.ReplaceTable` | src/repository.rs:753-764 | The entries in place of the table, captured once; refused exactly if a row lacks its attachment or the counter is exhausted |
| `WorkLaws.ReplacedMeans` | src/repository.rs:753-764 | The rows of the table are those of the entries, each with the last value given; other tables are as before |
| `Work.WorkTx.Rewrite` | src/repository.rs:781-794 | Deletes, attachments, writes, then each changed table captured once with its final rows; refused exactly if a row of a changed attachment table lacks its attachment or the names for images run out |
| `WorkLaws.RewroteMeans` | src/repository.rs:781-794 | A row written has the last value written, one deleted and not written is gone, every other is as before |
| `WorkLaws.PutRefsMean` | src/repository.rs:781-794 | A row with a prepared attachment has the last one prepared; every other reference is as before |
| `Work.WorkTx.CaptureReset` | src/repository.rs:766-774 | One image of the table, rows and references, under a name never used |
| `WorkLaws.ImageMeans` | src/repository.rs:766-774 | The image holds exactly the rows and references of the table |
| `Work.WorkTx.ValidateBlobRows` | src/journal_blob.rs:123-157 | Every row of the table has its reference, and references without a row are dropped with a delete change |
| `WorkLaws.OrphansMean` | src/journal_blob.rs:123-157 | The references dropped are exactly those of the tables checked that have no row |
| `Batches.ChunkedIsAtomic` | src/repository.rs:676-719 | If all chunks go through, for every limit of at least 1, the rows, references, numbered changes and last writes are those of the single transaction, which passes the checks too |
| `Batches.FailureKeepsPrefix` | src/repository.rs:676-719 | A failure leaves exactly the effect of the chunks before it |
| `Repository.Manager.Commit` | src/journal.rs:243-296 | A transaction is published whole exactly if it passes the id and unique checks and fits the counters; otherwise nothing changes |
| `Repository.Manager.ApplyChanges` | src/repository.rs:721-750 | Taken exactly if no name is reserved, rows written to attachment tables have their attachment, every row written holds its key, no two resulting rows clash, and the counters have room; then every row is as `WorkLaws.AppliedMeans` says and every delete answered; otherwise nothing changes |
| `Repository.AtomicMeans` | src/repository.rs:721-750 | Those conditions, stated on rows and not on drafts, are the exact ones |
| `Repository.Manager.CommitBatch` | src/repository.rs:676-719 | The chunk loop does what running the chunks one by one says, and tells whether all went through; the chunks are the batch, each within the limit, writes before deletes, and a batch within the limit is one |
| `Repository.Manager.ReplaceTable` | src/repository.rs:753-764 | The table is replaced and the head moves, exactly if the name is free for users, rows have their attachments, the checks pass and the counters have room; otherwise nothing changes |
| `Repository.Manager.RewriteTables` | src/repository.rs:781-794 | Several tables change in one transaction that puts in exactly the prepared attachments, exactly if names, attachments, checks and counters allow it; otherwise nothing changes |
| `Repository.Manager.PublishBlob` | src/journal_blob.rs:94-122 | Reference and row change in one transaction that puts in exactly that attachment, or nothing changes |
| `Repository.Manager.ConfigureUnique` | src/unique.rs:166-222 | The unique definitions change exactly if no rows clash, and the database stays sound |
| `Repository.Manager.ConfigureIds` | src/id_contract.rs:20-60 | The id contracts change exactly if the rows satisfy them, and the database stays sound |
| `Attachments.NamedFilesAreThere` | src/journal_blob.rs:33-157 | In every run, stops between file write and commit included, every file a reference, a retained change or a retained image names is there with its size |
| `Attachments.FileStore.Reconcile` | src/journal_blob.rs:295-401 | Refused exactly if a named file is missing; otherwise the folders of attachment tables hold exactly the named files |
| `AttachmentStore.Store.Prepare` | src/journal_blob.rs:77-93 | A file under a new name exactly for a table that can have attachments; every named file is still there, so a stop here does no harm |
| `AttachmentStore.Store.PrepareCopy` | src/journal_blob.rs:191-238 | A copy of another row's current attachment under a new name, of the same size; refused exactly for a table that can have none or a row that has none, and never because a file is missing |
| `AttachmentStore.Store.Publish` | src/journal_blob.rs:94-122 | File first, then the transaction: every named file is there, whether it goes through or is refused |
| `AttachmentStore.Store.Copy` | src/journal_blob.rs:239-249 | Copy first, then the transaction that names it: every named file is there, whether it goes through or is refused |
| `AttachmentStore.Store.Rewrite` | src/repository.rs:781-794 | The same for several attachments at once, stopping at the first refused |
| `AttachmentStore.Store.Apply` | src/repository.rs:721-750 | Writes and deletes act and answer as the one transaction they are, and name no new file; every row of an attachment table still has its attachment |
| `AttachmentStore.Store.ReplaceTable` | src/repository.rs:753-764 | The table is replaced or nothing changes, no new file is named, and every row of an attachment table still has its attachment |
| `AttachmentStore.Store.Ack` | src/journal.rs:730-754 | Acknowledging acts and answers as on the log alone; pruning only lets go of names |
| `AttachmentStore.Store.Reconcile` | src/journal_blob.rs:295-401 | The clean-up never fails on such a store, and leaves exactly the named files in the attachment folders |
| `VersionHistory.RunKeeps` | src/backup.rs:397-436 | In every run of successful calls from a fresh history each key's records are versions 1..current and never change, and the row is the newest record's data |
| `VersionHistory.BulkIsUndone` | src/backup.rs:216-282 | Restoring a bulk of distinct ids succeeds if and only if all had history, and then returns each to its value before, whatever happened between |
| `HistoryLaws.RestoreIsThen` | src/repository.rs:986-1056 | After any run of successful calls, restoring the version that was current at some point succeeds, brings back the row as it was then, and adds one record that says so |
| `HistoryLaws.NoSuchVersion` | src/repository.rs:986-1056 | A restore succeeds exactly for a version that was made; otherwise nothing changes |
| `HistoryLaws.SetMeans` | src/repository.rs:811-832 | Setting a row makes it that value and adds one record with it; no other row, record or bulk changes |
| `HistoryLaws.DeleteMeans` | src/repository.rs:967-984 | Deleting a row removes it and adds one record without data; no other row, record or bulk changes |
| `HistoryLaws.UpdateMeans` | src/domain.rs:72-95 | A bulk update sets exactly the rows it names |
| `HistoryLaws.RestoreSpares` | src/backup.rs:216-282 | A bulk restore changes no row it does not name |
| `VersionHistory.FailedBulkMirrors` | src/repository.rs:1138-1180 | After a bulk restore that stopped anywhere, among its records or after any number of its rows, rows equal newest records if and only if each row is what the last entry about it goes back to; and if and only if the history before says so |
| `VersionHistory.FailedBulkOfDistinct` | src/repository.rs:1138-1180 | With distinct ids, if and only if each row not put already was what its entry goes back to |
| `VersionHistory.FailedBulkExample` | src/repository.rs:1138-1180 | A bulk whose restore stops and leaves a row apart from its newest record |
| `VersionHistory.HistoryIsOwn` | src/backup.rs:305-341 | The history shown for a key is its own records if and only if no key with history starts with `key:` |
| `VersionHistory.MixedExample` | src/backup.rs:313-319 | A key without history for which every listing shows another key's records |
| `VersionHistory.HistoryStore.Write` | src/backup.rs:407-436 | One record under the next version; refused exactly when the counter is exhausted or the record cannot be encoded |
| `VersionHistory.HistoryStore.SetRow` | src/repository.rs:811-832 | Row, then record; a row that is written stays when the record fails |
| `VersionHistory.HistoryStore.DeleteRow` | src/repository.rs:967-984 | Row, then record, only if the row was there; the state where the row is gone and the record fails is given too |
| `VersionHistory.HistoryStore.RestoreByVersion` | src/repository.rs:986-1056 | The row goes back to a record, which is recorded; refused exactly for a missing record, a refused write or an exhausted counter, each with the state it leaves |
| `VersionHistory.HistoryStore.UpdateBulk` | src/domain.rs:72-95 | Each row is written in turn and the versions before are kept under the bulk's name, exactly if all rows are accepted and every version has a number; otherwise the rows before stay set and there is no bulk |
| `VersionHistory.HistoryStore.RestoreAll` | src/repository.rs:1138-1180 | All records are made before the first row is put; when it succeeds, the whole state where it stops, and whether rows and newest records agree there |
| `VersionHistory.HistoryStore.HistoryOf` | src/backup.rs:305-341 | The records under the text prefix, each once, by version; they are the key's own versions if and only if no other key is mixed in |
| `VersionHistory.HistoryStore.ViewByVersion` | src/backup.rs:361-383 | The data of one record |
| `VersionHistory.CompositeInjective` | src/backup.rs:407-436 | Key and version can be read back from the record's composite key |

## Left out

- redb itself: pages, locks, repair and snapshots; transactions are steps on maps.
- Ciphers, key derivation and memory locking: sealing is ideal, and a cell opens only under its own label.
- Overlapping drains, I/O errors after a partial file write, and read-only mode of the block layer.
- BlockDevice.BlockBackend.constructor: requires that every block of the file opens. The code opens a file without reading its blocks and fails when a damaged one is read; that a damaged block never reads as data is `Cells.MovedBlockFails` and the ideal seal.
- BlockDevice.BlockBackend.Run: assumes the header stamp stays below 2^64, one per call at most.
- FileTrace.StopKeepsPages: a block inside the torn write itself can be unreadable; the code has no journal for it.
- Repository.Manager.Commit: assumes the head stays below 2^64 - 1, where the floor computation saturates; table replacement and rewriting refuse there.
- Followers.Follower.Pull: models a client's whole-row copy, not the contents of the automatic indexes that one client in the repository keeps.
- Unique keys and id values: reading a value out of a row's JSON is the parameter `Reader`; keys of different definitions are distinct by construction.
- Work.WorkTx.ValidateBlobRows: does not open the attachment files; that they are there with their sizes is the invariant of `AttachmentStore.Store`.
- Repository.Manager.RewriteTables: takes references to files already written; AttachmentStore.Store.Rewrite writes them.
- AttachmentStore.Store.Rewrite: copied attachments enter as attachments of the copied size, which AttachmentStore.Store.PrepareCopy gives.
- Sealed and protected attachment stores, fingerprint names and legacy adoption.
- VersionHistory.HistoryStore.RestoreByVersion: record timestamps, types and schema versions are not modelled; neither is the choice of a record by time.
- The JSON envelope of history records; only its base64 text is modelled.
- The in-memory row cache, events other than those of the retention budget, queries, automatic indexes, migrations, field encryption, configuration and handles.

# mongo-file-center, modelled in Dafny

A model of the file center of `mongo-file-center`, a Rust library that stores
files in MongoDB. A file center is a handle on one database holding three
collections:

- a settings collection with the file size threshold, the creation time and
  the schema version;
- a file collection with one record per stored content;
- GridFS, which holds the bytes of the large files.

A file whose size reaches the threshold goes to a GridFS file. A smaller one
is stored inline in its record. A permanent upload is fingerprinted by
SHA3-256, split into four signed 64-bit integers (`hash_1`..`hash_4`) under a
unique index. Uploading a content that is already stored only raises the
record's `count`. Deleting lowers the count and removes the record (and its
GridFS file) once the count reaches 0. A temporary upload gets a random
fingerprint and an expiry 60 s later. Reading it by id deletes it, so it can
be read once. `clear_garbage` drops dangling and exhausted records and
orphaned GridFS files.

The model has these modules:

- `Functions` (`src/functions.rs`): `separate_hash` and the two SHA3
  fingerprint functions. SHA3-256 is an injected function `sha3`.
- `FileDataModel` (`src/file_data.rs`): `FileData` and `into_vec`.
- `Documents`: the BSON values, field names, typed field reads and error kinds
  the engine uses.
- `Settings`: the settings part of the constructors and of
  `set_file_size_threshold`, as functions on the settings collection.
- `Records`: the file record the engine writes, its stored document, and
  `create_file_item`, which decodes a document into a `FileItem`.
- `Store`: the database as a value `Db(files, chunkFiles)`. Every operation
  is a function from the state before to the state after. The lemmas about
  deduplication, reference counting, read-once and garbage collection are
  proved on these functions.
- `Reading`: the read loops, each a method proved against `Concat` of the
  reads.
- `Center`: the class `FileCenter`. Its fields are the settings, the file
  collection, the GridFS files, the threshold and an id counter. Each method
  is proved to leave exactly the state the matching `Store` function gives,
  and to keep the invariant `Valid()`.

Parameters and injected functions:

- The clock reading (`now`) and the random fingerprint of a temporary upload
  are method parameters.
- Fresh ObjectIds come from the counter `nextId`. Each upload takes two: its
  GridFS file gets `nextId` and its record gets `nextId + 1`.
- The mime type parser (`isMime`), the extension-based mime guess
  (`guessMimeByExt`) and the ID-token cipher (`decryptUrlComponent`) are
  injected functions.
- A reader is the sequence of pieces its successive reads return. Each piece
  is non-empty and at most BUFFER_SIZE bytes long, and the end of the
  sequence is the end of input.
- BUFFER_SIZE is the size of the read buffer. src/file_center.rs:34 and
  src/functions.rs:12 import it from a crate root that is not part of this
  model. The model takes it to be 4096, the value src/lib.rs:34 gives its own
  `FILE_BUFFER_SIZE`.
- A local file is its name, extension and contents.

Where the documentation and the code disagree, the model follows the code:

- A file goes to GridFS when its size is `>=` the threshold, not `>`, in every
  upload (src/file_center.rs:585, 678, 788, 869, 947, 1078).
- `put_file_by_reader` starts its running size at BUFFER_SIZE, not 0
  (src/file_center.rs:930). A permanent reader upload stored in GridFS
  therefore records `BUFFER_SIZE + n` bytes (`Center.ReaderFileSize`).
  `put_file_by_reader_temporarily` starts at 0 (src/file_center.rs:1065).
- Reading a temporary file deletes its record whether or not it has expired.
  Its GridFS file stays until `clear_garbage` (src/file_center.rs:457-473).
- A temporary upload whose random fingerprint is already held fails with the
  unique-index error, and its written GridFS file stays behind. There is no
  retry.
- The variants of `FileData` are named `Buffer` and `Stream`, as in
  src/file_data.rs. src/file_center.rs builds them under other names.

## Model

| member | source | states |
|---|---|---|
| Functions.SeparateHash | src/functions.rs:61-78 | each of the four parts of a split digest is a signed 64-bit integer |
| Functions.SeparateJoin | src/functions.rs:61-78 | splitting the 32 bytes re-joined from a key gives the key back |
| Functions.JoinSeparate | src/functions.rs:61-78 | re-joining the four parts of a split digest gives its first 32 bytes back |
| Functions.SeparateHashInjective | src/functions.rs:61-78 | two digests get the same key exactly when their 32 bytes agree, so the unique index sees equal digests as equal |
| Functions.I64FromToBytes | src/functions.rs:67-77 | an i64 written as 8 bytes and read back is unchanged |
| Functions.I64ToFromBytes | src/functions.rs:67-77 | 8 bytes read as an i64 and written back are unchanged |
| Functions.GetHashByBuffer | src/functions.rs:40-52 | the key holds SHA3-256 of the buffer: joining it gives the digest back, and every part is an i64 |
| Functions.GetHashByPath | src/functions.rs:14-38 | hashing a file through the BUFFER_SIZE read loop gives the same key as hashing its whole contents at once |
| FileDataModel.IntoVec | src/file_data.rs:19-34 | a buffer yields its bytes; a stream yields its chunks joined in order, or the first read failure |
| FileDataModel.StreamBytesOk | src/file_data.rs:22-32 | draining a stream succeeds exactly when no read fails, and then gives the payloads joined in order, with the sum of their lengths |
| FileDataModel.FirstFailureWins | src/file_data.rs:25-28 | the first failed read is the result, and the chunks after it play no part |
| FileDataModel.ChunksOf | src/file_center.rs:426-428 | a GridFS file streams back as non-empty chunks of at most the chunk size, none of them failed |
| FileDataModel.ChunksOfRoundTrip | src/file_center.rs:426-428 | draining the chunks of a GridFS file gives back exactly its bytes |
| Documents.GetI32 | src/file_center.rs:117 | the read succeeds exactly when the field is present and an int32, and gives its value; NotPresent exactly when the field is absent |
| Documents.GetI64 | src/file_center.rs:390 | the read succeeds exactly when the field is present and an int64, and gives its value; NotPresent exactly when the field is absent |
| Documents.GetUtcDatetime | src/file_center.rs:143 | the read succeeds exactly when the field is present and a datetime, and gives its value; NotPresent exactly when the field is absent |
| Documents.I64AsU64 | src/file_center.rs:390 | `as u64`: below 2^64, identity on non-negative values, and a negative i64 wraps to itself plus 2^64 |
| Settings.CheckThreshold | src/file_center.rs:119-121 | a threshold is accepted exactly when it is in (0, 16_770_000]; otherwise the result is FileSizeThresholdError |
| Settings.CheckVersion | src/file_center.rs:168-177 | a version is accepted exactly when it is in (0, VERSION]; at most 0 is VersionError and above VERSION is DatabaseTooNewError(VERSION, v) |
| Settings.NewWithFileSizeThreshold | src/file_center.rs:273-284 | an out-of-bounds initial threshold fails with FileSizeThresholdError before the settings are read or written |
| Settings.LoadThreshold | src/file_center.rs:110-135 | a stored threshold is read, checked and not rewritten; an absent one is written as the initial value; no other setting changes, and the value answered is the one stored afterwards |
| Settings.LoadCreateTime | src/file_center.rs:137-157 | a stored creation time is read and not rewritten; an absent one is written as the clock reading; no other setting changes |
| Settings.LoadVersion | src/file_center.rs:159-191 | a stored version is read and checked; an absent one is written as VERSION; no other setting changes, and an accepted version is in (0, VERSION] |
| Settings.OpenSettings | src/file_center.rs:103-191 | opening never changes a stored setting and writes none but the three; an accepted version is in (0, VERSION] |
| Settings.New | src/file_center.rs:265-269 | opening with the default threshold keeps every stored setting; on success the settings are complete and hold the configuration returned, whose threshold is 261_120 when none was stored |
| Settings.OpenSettingsOk | src/file_center.rs:103-191 | a successful opening leaves all three settings present and valid, holding the configuration returned; its threshold is the stored one if there is one and the initial one otherwise |
| Settings.StoredThresholdRejected | src/file_center.rs:110-124 | a stored threshold out of bounds, or not an int32, fails the opening with the matching error and writes nothing |
| Settings.VersionGuard | src/file_center.rs:161-191 | an absent version is written as VERSION; a stored one at most 0 gives VersionError, one above VERSION gives DatabaseTooNewError, and any other is accepted; a rejection leaves the version as stored |
| Settings.ReopenIsStable | src/file_center.rs:103-191 | opening again on what a successful opening left gives the same configuration and writes nothing, whatever the initial threshold and clock |
| Settings.SettledOpensAsStored | src/file_center.rs:103-191 | complete, valid settings open as the configuration they hold, unchanged |
| Settings.UpsertThreshold | src/file_center.rs:298-312 | the upsert stores the new threshold as an int32 and keeps every other setting |
| Settings.UpsertThresholdSettled | src/file_center.rs:298-314 | setting a valid threshold keeps the settings complete and changes only the stored threshold |
| Settings.SetThresholdPersists | src/file_center.rs:288-318 | a threshold set on an opened database is the one the next opening reads back, with the creation time and version unchanged |
| Records.Bumped | src/file_center.rs:547-558 | `$inc: { count: 1 }` raises the count by one and changes nothing else |
| Records.FileDataOf | src/file_center.rs:402-430 | present `file_data` must be binary and is the data; otherwise `file_id` must be present (NotPresent) and an ObjectId (UnexpectedType) naming an existing GridFS file (GridFsFileNotFound), which then streams back to exactly its bytes |
| Records.CreateFileItem | src/file_center.rs:342-441 | decoding succeeds exactly when every field is present where required and of its type, the mime type parses and the data decodes; the first field in the order `_id`, `create_time`, `expire_at`, `mime_type`, `file_size`, `file_name`, data that is missing gives NotPresent and that is ill-typed gives UnexpectedType, and a missing GridFS file gives its error; a decoded item carries each field's value, the size as u64 and the decoded data |
| Records.DecodeRecordDocument | src/file_center.rs:342-441 | the document stored for a record decodes exactly when its mime type parses and its bytes are reachable; the item then carries the record's fields and drains to the stored bytes, and otherwise the error is the GridFS not-found or the mime error |
| Records.InlineDataWins | src/file_center.rs:402-430 | when `file_data` is present, `file_id` and the GridFS files do not affect the result |
| Store.Admit | src/file_center.rs:744-825 | the record answered holds the upload's fingerprint; a stored fingerprint adds no record and writes no GridFS file; a new one adds exactly `rec` under the new id |
| Store.Insert | src/file_center.rs:906-910 | the bytes are written first; the insert fails with the unique-index error exactly when the fingerprint is already held, and otherwise adds the record under the new id |
| Store.AdmitDedups | src/file_center.rs:759-822 | an upload of a stored fingerprint adds no record, keeps every GridFS file and only raises that record's count, keeping its content; a new fingerprint adds exactly the new record and its bytes |
| Store.AdmitHit | src/file_center.rs:759-775 | an upload whose fingerprint record k holds leaves k bumped, the GridFS files unchanged, and answers k |
| Store.AdmitConsistent | src/file_center.rs:236-250 | a permanent upload under fresh ids keeps fingerprints unique, GridFS files unshared and every id below the counter |
| Store.InsertConsistent | src/file_center.rs:236-250 | a temporary upload under fresh ids keeps the same invariants |
| Store.StoredReadsBack | src/file_center.rs:636-640 | the item of a newly stored record carries its id, name, mime type, size, times and expiry, and its data drains to the uploaded bytes |
| Store.RemoveFresh | src/file_center.rs:1009-1013 | removing the GridFS file a hit has just written gives back the GridFS files as they were |
| Store.Delete | src/file_center.rs:477-528 | an unknown id answers None and changes nothing; otherwise the answer is the recorded size as u64, a count above 1 is lowered by one, and a count of at most 1 removes the record and its GridFS file |
| Store.DeleteConsistent | src/file_center.rs:477-528 | a deletion keeps the invariants of the database |
| Store.AdmitTimesCount | src/file_center.rs:744-825 | a new content uploaded n times is one record with count n and its bytes stored once |
| Store.AdmitAgain | src/file_center.rs:759-775 | uploading once more the content the record under id holds (count n) leaves that record with count n + 1 and the GridFS files unchanged |
| Store.StoreKeepsUnique | src/file_center.rs:777-825 | storing a record whose fingerprint no other record holds keeps fingerprints unique, as the unique hash index demands |
| Store.DeleteCountDown | src/file_center.rs:484-524 | each of the first j deletions of a record whose count is above j only lowers its count |
| Store.CountDownToOne | src/file_center.rs:484-524 | n - 1 deletions of a record stored with count n leave it as first stored, with count 1 |
| Store.DeletesLeaveOne | src/file_center.rs:477-528 | after n uploads of a new content, n - 1 deletions leave its record as first stored |
| Store.DeleteUndoesInsert | src/file_center.rs:501-521 | deleting a record of count 1 stored under a fresh id gives back the database from before it was stored |
| Store.PutsNeedDeletes | tests/duplication_deletion.rs:18-33 | n uploads of a new content need n deletions: after n - 1 the record is still there; the n-th gives back the database from before the uploads, and the next one answers None |
| Store.Get | src/file_center.rs:444-474 | an unknown id answers None; a record with an expiry is removed before it is decoded, and its GridFS file stays; a permanent record is left as is; the answer is the decoded item or its error |
| Store.GetConsistent | src/file_center.rs:444-474 | a read keeps the invariants of the database |
| Store.TemporaryReadOnce | tests/temporary.rs:25-32 | a temporary upload is read once: the first read gives its item and its bytes, and the second answers None |
| Store.DropDangling | src/file_center.rs:1164-1242 | keeps exactly the records whose bytes are inline or in an existing GridFS file, unchanged, and every GridFS file |
| Store.DropExhausted | src/file_center.rs:1244-1316 | keeps exactly the records with a count above 0, unchanged, and drops exactly the GridFS files an exhausted record refers to |
| Store.DropOrphans | src/file_center.rs:1318-1400 | keeps every record and exactly the GridFS files some record refers to, unchanged |
| Store.ClearGarbage | src/file_center.rs:1158-1403 | the three passes in order only remove: every record and GridFS file left was there before, unchanged |
| Store.ClearGarbageResult | src/file_center.rs:1158-1403 | garbage collection keeps exactly the records with a positive count and reachable bytes, unchanged, and exactly the GridFS files they use; the result is clean |
| Store.LiveFilesSurvive | src/file_center.rs:1244-1316 | the second pass removes no GridFS file a kept record uses |
| Store.GarbageFreeIsClean | src/file_center.rs:1318-1400 | once only kept records and the GridFS files they use remain, no record dangles or is exhausted and no GridFS file is orphaned |
| Store.CleanIsFixed | src/file_center.rs:1158-1403 | garbage collection leaves a clean database as it is |
| Store.ClearGarbageIdempotent | src/file_center.rs:1158-1403 | running garbage collection twice gives the same database as running it once |
| Store.ClearGarbageConsistent | src/file_center.rs:1158-1403 | garbage collection keeps the invariants of the database |
| Reading.Lookahead | src/file_center.rs:922-951 | the first loop buffers the reads in order until the input ends or the buffer reaches the threshold; it stops at the first read that reaches it, and counts every byte from the starting size |
| Reading.Drain | src/file_center.rs:964-978 | the second loop appends every remaining read, in order, and counts it |
| Reading.LookaheadThenDrain | src/file_center.rs:953-978 | what the first loop buffered followed by what the second wrote is the whole input |
| Reading.ReadInput | src/file_center.rs:922-978 | both loops together yield the whole input in order; the GridFS branch is taken exactly when the input reaches the threshold; the count is the starting size plus the input length |
| Reading.CopyFile | src/file_center.rs:585-600 | copying a local file through the buffer writes exactly its contents |
| Center.PathMime | src/file_center.rs:619-630 | a given mime type is used; without one, it is the guess for the file's extension, or application/octet-stream when there is no extension |
| Center.Placement | src/file_center.rs:585-617 | the content is a GridFS file with the new file id exactly when the size reaches the threshold, and is otherwise the bytes inline |
| Center.ReaderFileSize | src/file_center.rs:930-1049 | a permanent reader upload records its length below the threshold, and BUFFER_SIZE more than its length from the threshold on |
| Center.ExpiryOf | src/file_center.rs:727-733 | a temporary file expires TEMPORARY_LIFE_TIME (60000 ms) after the upload |
| Center.FileCenter.FromSettings | src/file_center.rs:253-263 | the handle holds the configuration stored in the settings and the given database, and is valid |
| Center.FileCenter.New | src/file_center.rs:265-269 | opens with the default threshold 261_120: the settings written are those of the opening, and a new valid handle is returned exactly when the opening succeeds |
| Center.FileCenter.NewWithFileSizeThreshold | src/file_center.rs:273-284 | an out-of-bounds initial threshold fails with FileSizeThresholdError and writes nothing; otherwise as `New` with that initial threshold |
| Center.FileCenter.SetFileSizeThreshold | src/file_center.rs:288-318 | an out-of-bounds value fails with FileSizeThresholdError and changes nothing; a valid one becomes the threshold and is upserted only when it differs from the current one |
| Center.FileCenter.FindByHash | src/file_center.rs:547-558 | finds the record holding the fingerprint, or none exactly when no record holds it |
| Center.FileCenter.GetFileItemById | src/file_center.rs:444-474 | leaves the state `Store.Get` gives, answers its result, and keeps the handle valid |
| Center.FileCenter.DeleteFileItemById | src/file_center.rs:477-528 | leaves the state `Store.Delete` gives, answers its result, and keeps the handle valid |
| Center.FileCenter.BumpCount | src/file_center.rs:547-563 | raises the record's count by one, changes nothing else, and answers that record's item |
| Center.FileCenter.InsertRecord | src/file_center.rs:636-640 | adds the record under the id, changes nothing else, and answers its item |
| Center.FileCenter.Admitted | src/file_center.rs:759-822 | leaves the state `Store.Admit` gives and answers the item of the record it names |
| Center.FileCenter.PutFileByBufferInner | src/file_center.rs:744-825 | a permanent upload with the given fingerprint, count 1 and no expiry: inline below the threshold and in a new GridFS file from it on, deduplicated by `Store.Admit`; a new fingerprint reads back the buffer |
| Center.FileCenter.PutFileByBuffer | src/file_center.rs:829-843 | the same, with the SHA3-256 fingerprint of the buffer |
| Center.FileCenter.PutFileByPath | src/file_center.rs:531-643 | a permanent upload of a local file, named after the file unless a name is given, with the mime type from `PathMime`, deduplicated by `Store.Admit`; a new content reads back the file's bytes |
| Center.FileCenter.AdmittedFromFile | src/file_center.rs:547-640 | a hit raises the count; a miss copies a large file into its GridFS file and inserts; either way the state `Store.Admit` gives |
| Center.FileCenter.PutFileByReader | src/file_center.rs:916-1050 | a permanent upload of all the reader's bytes, recording the size `ReaderFileSize` gives, deduplicated by `Store.Admit`; a new content reads back the whole input |
| Center.FileCenter.PutRead | src/file_center.rs:986-1049 | once the input is read: its SHA3-256 fingerprint, the size counted and the placement by threshold, stored as `Store.Admit` gives, reading back the input when new |
| Center.FileCenter.AdmittedRead | src/file_center.rs:994-1040 | a streamed upload writes its GridFS file first, and a hit removes it again and raises the count; either way the state `Store.Admit` gives |
| Center.FileCenter.Inserted | src/file_center.rs:906-910 | leaves the state `Store.Insert` gives: the item of the new record, or the unique-index error |
| Center.FileCenter.PutFileByBufferTemporarily | src/file_center.rs:846-911 | a temporary upload with the random fingerprint, count 1 and expiry 60 s after `now`, with no lookup; a free fingerprint adds exactly one record, which reads back the buffer with that expiry |
| Center.FileCenter.PutFileByPathTemporarily | src/file_center.rs:646-740 | the same for a local file, named and typed as in `PutFileByPath` |
| Center.FileCenter.PutFileByReaderTemporarily | src/file_center.rs:1053-1153 | the same for a reader; the recorded size is the input length and the record reads back the whole input |
| Center.FileCenter.ClearGarbage | src/file_center.rs:1158-1403 | leaves the state `Store.ClearGarbage` gives, which is clean, and keeps the handle valid |
| Center.FileCenter.DecryptIdToken | src/file_center.rs:1426-1448 | succeeds exactly when the token decrypts to 12 bytes, and answers them; another length is IDTokenError("ID needs to be 12 bytes"), and a cipher failure is IDTokenError with its message |

## Left out

- I/O failures of the file system, of readers and of the database connection (`?` on reads, `insert_one`, `find_one_and_update`, `remove_id`) are not modelled. Every read, write and query succeeds, except for the unique-index refusal and the GridFS not-found, which the model keeps.
- The r2d2 connection pool, URI parsing and index creation (src/file_center.rs:91-101, 193-250) are not modelled. The unique index on the four hash fields is the invariant `UniqueHashes`.
- MongoDB's TTL monitor, which deletes expired temporary records on its own, is not modelled. Only reading a temporary record by id removes it.
- Concurrent callers are not modelled. In the source, two uploads of the same new content can race between the lookup and the insert. The model runs one operation at a time.
- `drop_database`, `drop_file_center`, `database`, `database_r2d2`, `encrypt_id`, `encrypt_id_to_buffer` and the `FileItem` getters are not modelled. They only pass values through.
- The `fs.chunks` collection is not modelled. A GridFS file is its bytes, and removing it removes them.
- Center.FileCenter.DeleteFileItemById: the count is an int32 in the source; the model does not wrap it at 2^31.
- Center.FileCenter.DeleteFileItemById: the decode errors the source checks on the updated record (src/file_center.rs:498-499, 515-519) cannot happen for records the engine writes, so they are not modelled.
- Store.Delete: answers `Option<nat>` without the Result wrapper, because its only errors are the unreachable decode errors above.
- Sizes are unbounded naturals. The `file_size` the engine writes is a u64 and is read back as an i64. The model stores it as an int64 value and applies `I64AsU64` on reading, which is the identity for every size below 2^63.
- The SHA3-256 digest, `Mime::from_str`, `mime_guess` and the ShortCrypt cipher are injected functions. Their own behaviour is not modelled.
- The ShortCrypt key is derived from the stored creation time (src/file_center.rs:253-254), so tokens depend on the database they were made for. The model's `decryptUrlComponent` is one fixed function per handle and does not show that dependence.
- BUFFER_SIZE = 4096 is an assumption: the constant is imported from a crate root that is not part of this model. `Center.ReaderFileSize`, the piece bound of `Reading.WellFormedReads` and the copy loops depend on it.
- The field names of stored documents are an enumeration (`Documents.Field`, with the BSON names in `FieldName`). A document with a field the engine does not know cannot be written.
- ObjectIds are a counter. Each upload takes two fresh ids, even when it stores no GridFS file or raises an existing record's count. The byte form of an ObjectId is not modelled, so `DecryptIdToken` answers the 12 bytes themselves.
- The reader uploads read all their input before they touch the database. In the source, the GridFS file is written while the reader is still being read. The state after a successful upload is the same.
- `separate_hash` reinterprets each 8-byte group in the machine's byte order. The model fixes little-endian.
- src/lib.rs is not part of this model.

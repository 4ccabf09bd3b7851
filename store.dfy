/**
 * The database a file center works on, as a value: the file collection (its
 * records by id) and the GridFS files (their bytes by id). Each operation of
 * the engine is specified here as a function from the state before to the
 * state after; the file center's methods are proved against them.
 */
module Store {
  import opened Results
  import opened Functions
  import opened Documents
  import opened Records

  type ChunkFiles = map<ObjectId, seq<byte>>

  datatype Db = Db(files: map<ObjectId, FileRecord>, chunkFiles: ChunkFiles)

  // ---------------------------------------------------------------------------
  // Invariants of a database the engine keeps
  // ---------------------------------------------------------------------------

  predicate HashTaken(files: map<ObjectId, FileRecord>, h: HashKey) {
    exists k :: k in files && files[k].hash == h
  }

  /** The unique index on (hash_1, hash_2, hash_3, hash_4). */
  predicate UniqueHashes(files: map<ObjectId, FileRecord>) {
    forall a, b :: a in files && b in files && files[a].hash == files[b].hash ==> a == b
  }

  /** No two records share a GridFS file. */
  predicate UniqueFileIds(files: map<ObjectId, FileRecord>) {
    forall a, b ::
      (a in files && b in files && files[a].content.GridFs? && files[b].content.GridFs?
       && files[a].content.fileId == files[b].content.fileId) ==> a == b
  }

  /** Every id in use, record or GridFS file, is below `next`. */
  predicate IdsBelow(db: Db, next: nat) {
    && (forall k :: k in db.files ==> k < next)
    && (forall k :: k in db.files && db.files[k].content.GridFs? ==> db.files[k].content.fileId < next)
    && (forall f :: f in db.chunkFiles ==> f < next)
  }

  predicate Consistent(db: Db, next: nat) {
    UniqueHashes(db.files) && UniqueFileIds(db.files) && IdsBelow(db, next)
  }

  /** The record holding hash `h`. */
  ghost function HashOwner(files: map<ObjectId, FileRecord>, h: HashKey): (k: ObjectId)
    requires HashTaken(files, h)
    ensures k in files && files[k].hash == h
  {
    var k :| k in files && files[k].hash == h; k
  }

  lemma HashOwnerIs(files: map<ObjectId, FileRecord>, h: HashKey, k: ObjectId)
    requires UniqueHashes(files) && k in files && files[k].hash == h
    ensures HashTaken(files, h) && HashOwner(files, h) == k
  {
  }

  // ---------------------------------------------------------------------------
  // Uploads
  // ---------------------------------------------------------------------------

  /** The GridFS files once a record's bytes are written: a GridFS content's file holds `blob`. */
  function WithContent(chunkFiles: ChunkFiles, content: Content, blob: seq<byte>): ChunkFiles {
    if content.GridFs? then chunkFiles[content.fileId := blob] else chunkFiles
  }

  /**
   * A permanent upload: the record holding the same hash has its count
   * raised by one and is the result; otherwise `rec`, with its bytes, is
   * stored under `id`.
   */
  ghost function Admit(db: Db, rec: FileRecord, blob: seq<byte>, id: ObjectId): (r: (Db, ObjectId))
    ensures r.1 in r.0.files && r.0.files[r.1].hash == rec.hash
    ensures HashTaken(db.files, rec.hash) ==> r.0.files.Keys == db.files.Keys && r.0.chunkFiles == db.chunkFiles
    ensures !HashTaken(db.files, rec.hash) ==> r.1 == id && r.0.files.Keys == db.files.Keys + {id} && r.0.files[id] == rec
  {
    if HashTaken(db.files, rec.hash) then
      var k := HashOwner(db.files, rec.hash);
      (Db(db.files[k := Bumped(db.files[k])], db.chunkFiles), k)
    else
      (Db(db.files[id := rec], WithContent(db.chunkFiles, rec.content, blob)), id)
  }

  /**
   * A temporary upload: no lookup by hash; the bytes are written first, then
   * the insert, which the unique hash index refuses when the random hash is
   * already held (the written GridFS file then stays behind).
   */
  function Insert(db: Db, rec: FileRecord, blob: seq<byte>, id: ObjectId): (r: (Db, Result<ObjectId, FileCenterError>))
    ensures r.0.chunkFiles == WithContent(db.chunkFiles, rec.content, blob)
    ensures HashTaken(db.files, rec.hash) <==> r.1 == Err(MongoDBError(DuplicateHashKey))
    ensures HashTaken(db.files, rec.hash) ==> r.0.files == db.files
    ensures !HashTaken(db.files, rec.hash) ==> r.1 == Ok(id) && r.0.files == db.files[id := rec]
  {
    var chunkFiles := WithContent(db.chunkFiles, rec.content, blob);
    if HashTaken(db.files, rec.hash) then (Db(db.files, chunkFiles), Err(MongoDBError(DuplicateHashKey)))
    else (Db(db.files[id := rec], chunkFiles), Ok(id))
  }

  /**
   * Dedup-or-insert: a hit adds no record, keeps every GridFS file and only
   * raises the count of the record holding the hash, keeping its content;
   * a miss adds exactly `rec` under `id`.
   */
  lemma AdmitDedups(db: Db, rec: FileRecord, blob: seq<byte>, id: ObjectId, k: ObjectId)
    requires UniqueHashes(db.files)
    ensures k in db.files && db.files[k].hash == rec.hash ==>
      var (db', k') := Admit(db, rec, blob, id);
      && k' == k
      && db'.files.Keys == db.files.Keys
      && db'.files[k] == Bumped(db.files[k])
      && db'.files[k].count == db.files[k].count + 1
      && db'.files[k].content == db.files[k].content
      && (forall j :: j in db.files && j != k ==> db'.files[j] == db.files[j])
      && db'.chunkFiles == db.chunkFiles
    ensures !HashTaken(db.files, rec.hash) ==>
      var (db', k') := Admit(db, rec, blob, id);
      k' == id && db'.files == db.files[id := rec] && db'.chunkFiles == WithContent(db.chunkFiles, rec.content, blob)
  {
    if k in db.files && db.files[k].hash == rec.hash {
      HashOwnerIs(db.files, rec.hash, k);
    }
  }

  /** The outcome of an upload whose fingerprint record `k` already holds. */
  lemma AdmitHit(db: Db, rec: FileRecord, blob: seq<byte>, id: ObjectId, k: ObjectId)
    requires UniqueHashes(db.files) && k in db.files && db.files[k].hash == rec.hash
    ensures Admit(db, rec, blob, id) == (Db(db.files[k := Bumped(db.files[k])], db.chunkFiles), k)
  {
    HashOwnerIs(db.files, rec.hash, k);
  }

  /** The ids a fresh upload takes: its GridFS file `next`, its record `next + 1`. */
  predicate FreshUpload(db: Db, rec: FileRecord, id: ObjectId, next: nat) {
    id == next + 1 && (rec.content.GridFs? ==> rec.content.fileId == next)
  }

  lemma AdmitConsistent(db: Db, rec: FileRecord, blob: seq<byte>, id: ObjectId, next: nat)
    requires Consistent(db, next) && FreshUpload(db, rec, id, next)
    ensures Consistent(Admit(db, rec, blob, id).0, next + 2)
  {
    if HashTaken(db.files, rec.hash) {
      var k := HashOwner(db.files, rec.hash);
      var files' := db.files[k := Bumped(db.files[k])];
      assert forall j :: j in files' ==> files'[j].hash == db.files[j].hash && files'[j].content == db.files[j].content;
    } else {
      InsertConsistent(db, rec, blob, id, next);
    }
  }

  lemma InsertConsistent(db: Db, rec: FileRecord, blob: seq<byte>, id: ObjectId, next: nat)
    requires Consistent(db, next) && FreshUpload(db, rec, id, next)
    ensures Consistent(Insert(db, rec, blob, id).0, next + 2)
  {
  }

  /** The item `create_file_item` makes of the stored record `k`. */
  function ItemOf(db: Db, k: ObjectId, isMime: string -> bool): Result<FileItem, FileCenterError>
    requires k in db.files
  {
    CreateFileItem(RecordDocument(k, db.files[k]), db.chunkFiles, isMime)
  }

  /**
   * A new upload reads back: the item of the stored record carries its name,
   * mime type, size and expiry, and its data drains to the uploaded bytes.
   */
  lemma StoredReadsBack(db: Db, rec: FileRecord, blob: seq<byte>, id: ObjectId, isMime: string -> bool)
    requires isMime(rec.mimeType) && (rec.content.Inline? ==> rec.content.data == blob)
    ensures var db' := Db(db.files[id := rec], WithContent(db.chunkFiles, rec.content, blob));
      var r := ItemOf(db', id, isMime);
      && r.Ok? && r.value.id == id && r.value.fileName == rec.fileName && r.value.mimeType == rec.mimeType
      && r.value.fileSize == I64AsU64(rec.fileSize) && r.value.createTime == rec.createTime
      && r.value.expireAt == rec.expireAt && ItemBytes(r.value) == Ok(blob)
  {
    var db' := Db(db.files[id := rec], WithContent(db.chunkFiles, rec.content, blob));
    DecodeRecordDocument(id, rec, db'.chunkFiles, isMime);
  }

  /** Removing a GridFS file just written under a fresh id leaves the files as they were. */
  lemma RemoveFresh(chunkFiles: ChunkFiles, fileId: ObjectId, blob: seq<byte>)
    requires fileId !in chunkFiles
    ensures chunkFiles[fileId := blob] - {fileId} == chunkFiles
  {
  }

  // ---------------------------------------------------------------------------
  // delete_file_item_by_id
  // ---------------------------------------------------------------------------

  /**
   * Lowers the record's count by one and answers its recorded size (as u64);
   * once the count is at most 0 the record goes, and its GridFS file with it.
   * An unknown id answers None and changes nothing.
   */
  function Delete(db: Db, id: ObjectId): (r: (Db, Option<nat>))
    ensures id !in db.files <==> r.1 == None
    ensures id !in db.files ==> r.0 == db
    ensures id in db.files ==> r.1 == Some(I64AsU64(db.files[id].fileSize))
    ensures id in db.files && db.files[id].count > 1 ==>
              r.0 == Db(db.files[id := db.files[id].(count := db.files[id].count - 1)], db.chunkFiles)
    ensures id in db.files && db.files[id].count <= 1 ==>
              && r.0.files == db.files - {id}
              && r.0.chunkFiles == (if db.files[id].content.GridFs? then db.chunkFiles - {db.files[id].content.fileId}
                                    else db.chunkFiles)
  {
    if id !in db.files then (db, None)
    else
      var rec := db.files[id].(count := db.files[id].count - 1);
      var size := I64AsU64(rec.fileSize);
      if rec.count <= 0 then
        var chunkFiles := if rec.content.GridFs? then db.chunkFiles - {rec.content.fileId} else db.chunkFiles;
        (Db(db.files - {id}, chunkFiles), Some(size))
      else
        (Db(db.files[id := rec], db.chunkFiles), Some(size))
  }

  lemma DeleteConsistent(db: Db, id: ObjectId, next: nat)
    requires Consistent(db, next)
    ensures Consistent(Delete(db, id).0, next)
  {
    if id in db.files && db.files[id].count > 1 {
      var files' := Delete(db, id).0.files;
      assert forall j :: j in files' ==> files'[j].hash == db.files[j].hash && files'[j].content == db.files[j].content;
    }
  }

  /** `n` uploads of the same content, the first of them under `id`. */
  ghost function AdmitTimes(db: Db, rec: FileRecord, blob: seq<byte>, id: ObjectId, n: nat): Db {
    if n == 0 then db else Admit(AdmitTimes(db, rec, blob, id, n - 1), rec, blob, id).0
  }

  /** `n` deletions of `id`. */
  function DeleteTimes(db: Db, id: ObjectId, n: nat): Db {
    if n == 0 then db else Delete(DeleteTimes(db, id, n - 1), id).0
  }

  /** A new content uploaded `n` times is one record with count `n`. */
  lemma {:induction false} AdmitTimesCount(db: Db, rec: FileRecord, blob: seq<byte>, id: ObjectId, n: nat)
    requires UniqueHashes(db.files) && !HashTaken(db.files, rec.hash) && id !in db.files
    requires rec.count == 1 && n >= 1
    ensures AdmitTimes(db, rec, blob, id, n)
            == Db(db.files[id := rec.(count := n)], WithContent(db.chunkFiles, rec.content, blob))
  {
    if n == 1 {
      assert rec.(count := 1) == rec;
    } else {
      AdmitTimesCount(db, rec, blob, id, n - 1);
      AdmitAgain(db.files, WithContent(db.chunkFiles, rec.content, blob), rec, blob, id, n - 1);
    }
  }

  /** Uploading the content of the record stored under `id` once more raises its count by one. */
  lemma AdmitAgain(files: map<ObjectId, FileRecord>, chunkFiles: ChunkFiles,
                   rec: FileRecord, blob: seq<byte>, id: ObjectId, n: nat)
    requires UniqueHashes(files) && !HashTaken(files, rec.hash)
    ensures Admit(Db(files[id := rec.(count := n)], chunkFiles), rec, blob, id).0
            == Db(files[id := rec.(count := n + 1)], chunkFiles)
  {
    var prev := Db(files[id := rec.(count := n)], chunkFiles);
    StoreKeepsUnique(files, id, rec.(count := n));
    AdmitHit(prev, rec, blob, id, id);
    assert prev.files[id := Bumped(prev.files[id])] == files[id := rec.(count := n + 1)];
  }

  /** Storing a record whose fingerprint no other record holds keeps fingerprints unique. */
  lemma StoreKeepsUnique(files: map<ObjectId, FileRecord>, id: ObjectId, rec: FileRecord)
    requires UniqueHashes(files) && !HashTaken(files, rec.hash)
    ensures UniqueHashes(files[id := rec])
  {
    var files' := files[id := rec];
    forall a, b | a in files' && b in files' && files'[a].hash == files'[b].hash
      ensures a == b
    {
      if a != id && b != id {
        assert files[a].hash == files[b].hash;
      }
    }
  }

  /** Each of the first `j` deletions only lowers the count, while it stays above 0. */
  lemma {:induction false} DeleteCountDown(db: Db, id: ObjectId, j: nat)
    requires id in db.files && j < db.files[id].count
    ensures DeleteTimes(db, id, j)
            == Db(db.files[id := db.files[id].(count := db.files[id].count - j)], db.chunkFiles)
  {
    if j == 0 {
      assert db.files[id := db.files[id].(count := db.files[id].count)] == db.files;
    } else {
      DeleteCountDown(db, id, j - 1);
      var prev := DeleteTimes(db, id, j - 1);
      assert prev.files[id := prev.files[id].(count := prev.files[id].count - 1)]
          == db.files[id := db.files[id].(count := db.files[id].count - j)];
    }
  }

  /**
   * N permanent uploads of a new content need N deletions: after N - 1 the
   * record is still there with count 1; the N-th gives back the database as
   * it was before the uploads, and the next deletion answers None.
   */
  lemma PutsNeedDeletes(db: Db, rec: FileRecord, blob: seq<byte>, id: ObjectId, n: nat)
    requires UniqueHashes(db.files) && !HashTaken(db.files, rec.hash) && id !in db.files
    requires rec.content.GridFs? ==> rec.content.fileId !in db.chunkFiles
    requires rec.count == 1 && n >= 1
    ensures var up := AdmitTimes(db, rec, blob, id, n);
      id in DeleteTimes(up, id, n - 1).files && DeleteTimes(up, id, n - 1).files[id].count == 1
    ensures var up := AdmitTimes(db, rec, blob, id, n);
      DeleteTimes(up, id, n) == db && Delete(DeleteTimes(up, id, n), id).1 == None
  {
    var up := AdmitTimes(db, rec, blob, id, n);
    DeletesLeaveOne(db, rec, blob, id, n);
    var last := DeleteTimes(up, id, n - 1);
    assert DeleteTimes(up, id, n) == Delete(last, id).0;
    DeleteUndoesInsert(db, rec, blob, id);
  }

  /** After N uploads of a new content, N - 1 deletions leave the record as first stored. */
  lemma DeletesLeaveOne(db: Db, rec: FileRecord, blob: seq<byte>, id: ObjectId, n: nat)
    requires UniqueHashes(db.files) && !HashTaken(db.files, rec.hash) && id !in db.files
    requires rec.count == 1 && n >= 1
    ensures DeleteTimes(AdmitTimes(db, rec, blob, id, n), id, n - 1)
            == Db(db.files[id := rec], WithContent(db.chunkFiles, rec.content, blob))
  {
    AdmitTimesCount(db, rec, blob, id, n);
    CountDownToOne(db.files, WithContent(db.chunkFiles, rec.content, blob), rec, id, n);
  }

  /** N - 1 deletions of a record stored with count N leave it with count 1. */
  lemma CountDownToOne(files: map<ObjectId, FileRecord>, chunkFiles: ChunkFiles, rec: FileRecord, id: ObjectId, n: nat)
    requires rec.count == 1 && n >= 1
    ensures DeleteTimes(Db(files[id := rec.(count := n)], chunkFiles), id, n - 1) == Db(files[id := rec], chunkFiles)
  {
    var up := Db(files[id := rec.(count := n)], chunkFiles);
    DeleteCountDown(up, id, n - 1);
    assert up.files[id].(count := up.files[id].count - (n - 1)) == rec;
    assert up.files[id := rec] == files[id := rec];
  }

  /** Deleting a record of count 1 just stored under a fresh id gives back the database before it. */
  lemma DeleteUndoesInsert(db: Db, rec: FileRecord, blob: seq<byte>, id: ObjectId)
    requires id !in db.files && rec.count == 1
    requires rec.content.GridFs? ==> rec.content.fileId !in db.chunkFiles
    ensures Delete(Db(db.files[id := rec], WithContent(db.chunkFiles, rec.content, blob)), id).0 == db
  {
    var stored := Db(db.files[id := rec], WithContent(db.chunkFiles, rec.content, blob));
    assert stored.files - {id} == db.files;
    if rec.content.GridFs? {
      assert stored.chunkFiles - {rec.content.fileId} == db.chunkFiles;
    }
  }

  // ---------------------------------------------------------------------------
  // get_file_item_by_id
  // ---------------------------------------------------------------------------

  /**
   * Looks a record up; a record with an expiry is deleted before it is
   * decoded, so it is handed out at most once (its GridFS file stays).
   */
  function Get(db: Db, id: ObjectId, isMime: string -> bool): (r: (Db, Result<Option<FileItem>, FileCenterError>))
    ensures id !in db.files ==> r == (db, Ok(None))
    ensures id in db.files && db.files[id].expireAt.None? ==> r.0 == db
    ensures id in db.files && db.files[id].expireAt.Some? ==> r.0 == Db(db.files - {id}, db.chunkFiles)
    ensures id in db.files ==>
      r.1 == (match CreateFileItem(RecordDocument(id, db.files[id]), db.chunkFiles, isMime)
              case Ok(item) => Ok(Some(item))
              case Err(e) => Err(e))
  {
    if id !in db.files then (db, Ok(None))
    else
      var doc := RecordDocument(id, db.files[id]);
      var db' := if ExpireAt in doc then Db(db.files - {id}, db.chunkFiles) else db;
      match CreateFileItem(doc, db'.chunkFiles, isMime)
      case Ok(item) => (db', Ok(Some(item)))
      case Err(e) => (db', Err(e))
  }

  lemma GetConsistent(db: Db, id: ObjectId, isMime: string -> bool, next: nat)
    requires Consistent(db, next)
    ensures Consistent(Get(db, id, isMime).0, next)
  {
  }

  /**
   * A temporary upload is readable once: the first read hands out the item
   * with the uploaded bytes, the second answers None.
   */
  lemma TemporaryReadOnce(db: Db, rec: FileRecord, blob: seq<byte>, id: ObjectId, isMime: string -> bool)
    requires !HashTaken(db.files, rec.hash) && rec.expireAt.Some? && isMime(rec.mimeType)
    requires rec.content.Inline? ==> rec.content.data == blob
    ensures var db1 := Insert(db, rec, blob, id).0;
      var (db2, first) := Get(db1, id, isMime);
      && first.Ok? && first.value.Some? && first.value.value.id == id
      && ItemBytes(first.value.value) == Ok(blob)
      && Get(db2, id, isMime) == (db2, Ok(None))
  {
    var db1 := Insert(db, rec, blob, id).0;
    DecodeRecordDocument(id, rec, db1.chunkFiles, isMime);
  }

  // ---------------------------------------------------------------------------
  // clear_garbage
  // ---------------------------------------------------------------------------

  /** GridFS files the given records refer to. */
  function Referenced(files: map<ObjectId, FileRecord>): set<ObjectId> {
    set k | k in files && files[k].content.GridFs? :: files[k].content.fileId
  }

  /** Pass 1: drop the records whose GridFS file is missing. */
  function DropDangling(db: Db): (r: Db)
    ensures r.chunkFiles == db.chunkFiles
    ensures forall k :: k in r.files <==> k in db.files && Reachable(db.files[k], db.chunkFiles)
    ensures forall k :: k in r.files ==> r.files[k] == db.files[k]
  {
    Db(map k | k in db.files && Reachable(db.files[k], db.chunkFiles) :: db.files[k], db.chunkFiles)
  }

  /** Pass 2: drop the records whose count is at most 0, with their GridFS files. */
  function DropExhausted(db: Db): (r: Db)
    ensures forall k :: k in r.files <==> k in db.files && db.files[k].count > 0
    ensures forall k :: k in r.files ==> r.files[k] == db.files[k]
    ensures forall f :: f in r.chunkFiles <==> f in db.chunkFiles && f !in Referenced(Exhausted(db.files))
    ensures forall f :: f in r.chunkFiles ==> r.chunkFiles[f] == db.chunkFiles[f]
  {
    var doomed := Referenced(Exhausted(db.files));
    Db(map k | k in db.files && db.files[k].count > 0 :: db.files[k],
       map f | f in db.chunkFiles && f !in doomed :: db.chunkFiles[f])
  }

  /** The records whose count is at most 0. */
  function Exhausted(files: map<ObjectId, FileRecord>): map<ObjectId, FileRecord> {
    map k | k in files && files[k].count <= 0 :: files[k]
  }

  /** Pass 3: drop the GridFS files no record refers to. */
  function DropOrphans(db: Db): (r: Db)
    ensures r.files == db.files
    ensures forall f :: f in r.chunkFiles <==> f in db.chunkFiles && f in Referenced(db.files)
    ensures forall f :: f in r.chunkFiles ==> r.chunkFiles[f] == db.chunkFiles[f]
  {
    var used := Referenced(db.files);
    Db(db.files, map f | f in db.chunkFiles && f in used :: db.chunkFiles[f])
  }

  /** The three passes in order; they only remove, never change what they keep. */
  function ClearGarbage(db: Db): (r: Db)
    ensures forall k :: k in r.files ==> k in db.files && r.files[k] == db.files[k]
    ensures forall f :: f in r.chunkFiles ==> f in db.chunkFiles && r.chunkFiles[f] == db.chunkFiles[f]
  {
    DropOrphans(DropExhausted(DropDangling(db)))
  }

  /** A record worth keeping: count above 0 and bytes reachable. */
  predicate Live(rec: FileRecord, chunkFiles: ChunkFiles) {
    rec.count > 0 && Reachable(rec, chunkFiles)
  }

  /** No dangling or exhausted record, no orphaned GridFS file. */
  predicate Clean(db: Db) {
    && (forall k :: k in db.files ==> Live(db.files[k], db.chunkFiles))
    && (forall f :: f in db.chunkFiles ==> f in Referenced(db.files))
  }

  /**
   * Garbage collection keeps exactly the live records, unchanged, and
   * exactly the GridFS files a kept record refers to; what it leaves is clean.
   */
  lemma ClearGarbageResult(db: Db)
    requires UniqueFileIds(db.files)
    ensures ClearGarbage(db).files == LiveRecords(db)
    ensures ClearGarbage(db).chunkFiles
            == map f | f in db.chunkFiles && f in Referenced(ClearGarbage(db).files) :: db.chunkFiles[f]
    ensures Clean(ClearGarbage(db))
  {
    var d2 := DropExhausted(DropDangling(db));
    assert d2.files == LiveRecords(db);
    LiveFilesSurvive(db);
    GarbageFreeIsClean(db);
  }

  /** The records garbage collection keeps. */
  function LiveRecords(db: Db): map<ObjectId, FileRecord> {
    map k | k in db.files && Live(db.files[k], db.chunkFiles) :: db.files[k]
  }

  /** Pass 2 spares every GridFS file a live record refers to, since no two records share one. */
  lemma LiveFilesSurvive(db: Db)
    requires UniqueFileIds(db.files)
    ensures DropOrphans(DropExhausted(DropDangling(db))).chunkFiles
            == map f | f in db.chunkFiles && f in Referenced(LiveRecords(db)) :: db.chunkFiles[f]
  {
    var d2 := DropExhausted(DropDangling(db));
    assert d2.files == LiveRecords(db);
    forall f | f in Referenced(LiveRecords(db))
      ensures f !in Referenced(Exhausted(DropDangling(db).files))
    {
      NotDoomed(db, f);
    }
  }

  lemma NotDoomed(db: Db, f: ObjectId)
    requires UniqueFileIds(db.files)
    requires f in Referenced(LiveRecords(db))
    ensures f !in Referenced(Exhausted(DropDangling(db).files))
  {
    var live := LiveRecords(db);
    var k :| k in live && live[k].content.GridFs? && live[k].content.fileId == f;
    var exhausted := Exhausted(DropDangling(db).files);
    forall j | j in exhausted && exhausted[j].content.GridFs?
      ensures exhausted[j].content.fileId != f
    {
      assert exhausted[j] == db.files[j] && j != k;
    }
  }

  lemma GarbageFreeIsClean(db: Db)
    requires ClearGarbage(db).files == LiveRecords(db)
    requires ClearGarbage(db).chunkFiles
             == map f | f in db.chunkFiles && f in Referenced(LiveRecords(db)) :: db.chunkFiles[f]
    ensures Clean(ClearGarbage(db))
  {
    var g := ClearGarbage(db);
    forall k | k in g.files
      ensures Live(g.files[k], g.chunkFiles)
    {
      if g.files[k].content.GridFs? {
        assert g.files[k].content.fileId in Referenced(g.files);
      }
    }
  }

  /** A clean database is left as it is. */
  lemma CleanIsFixed(db: Db)
    requires Clean(db)
    ensures ClearGarbage(db) == db
  {
    var d1 := DropDangling(db);
    assert d1.files == db.files;
    var d2 := DropExhausted(d1);
    assert d2.files == db.files;
    var exhausted := map k | k in d1.files && d1.files[k].count <= 0 :: d1.files[k];
    assert exhausted == map[];
    assert d2.chunkFiles == db.chunkFiles;
  }

  /** Running garbage collection twice is the same as running it once. */
  lemma ClearGarbageIdempotent(db: Db)
    requires UniqueFileIds(db.files)
    ensures ClearGarbage(ClearGarbage(db)) == ClearGarbage(db)
  {
    ClearGarbageResult(db);
    CleanIsFixed(ClearGarbage(db));
  }

  lemma ClearGarbageConsistent(db: Db, next: nat)
    requires Consistent(db, next)
    ensures Consistent(ClearGarbage(db), next)
  {
    ClearGarbageResult(db);
  }
}

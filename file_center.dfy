/**
 * The file center: a handle on one database that stores files permanently
 * (deduplicated by content fingerprint and reference counted) or
 * temporarily (readable once, expiring after TEMPORARY_LIFE_TIME), small
 * files inline and large ones in GridFS.
 *
 * The clock reading `now` and the random fingerprint of a temporary upload
 * are parameters. SHA3-256, the mime type parser, the extension-based mime
 * guess and the ID-token cipher are injected functions.
 */
module Center {
  import opened Results
  import opened Functions
  import opened FileDataModel
  import opened Documents
  import opened Settings
  import opened Records
  import opened Store
  import opened Reading

  /** Error message of an ID token that does not decrypt to 12 bytes. */
  const ID_LENGTH_MESSAGE: string := "ID needs to be 12 bytes"

  /** The mime type of an upload from a path: the given one, else guessed from the extension. */
  function PathMime(guessMimeByExt: string -> string, mimeType: Option<string>, file: LocalFile): (m: string)
    ensures mimeType.Some? ==> m == mimeType.value
    ensures mimeType.None? && file.extension.Some? ==> m == guessMimeByExt(file.extension.value)
    ensures mimeType.None? && file.extension.None? ==> m == DEFAULT_MIME_TYPE
  {
    match mimeType
    case Some(m) => m
    case None =>
      match file.extension
      case Some(ext) => guessMimeByExt(ext)
      case None => DEFAULT_MIME_TYPE
  }

  /** Where an upload of `size` bytes goes: GridFS file `fileId` from the threshold on, inline below it. */
  function Placement(bytes: seq<byte>, size: int, threshold: int, fileId: ObjectId): (c: Content)
    ensures c.GridFs? <==> size >= threshold
    ensures c.GridFs? ==> c.fileId == fileId
    ensures c.Inline? ==> c.data == bytes
  {
    if size >= threshold then GridFs(fileId) else Inline(bytes)
  }

  /**
   * The size `put_file_by_reader` records for `n` bytes read: its running
   * count starts at BUFFER_SIZE, and below the threshold the buffered bytes
   * are recorded by `put_file_by_buffer_inner`, with their own length.
   */
  function ReaderFileSize(n: nat, threshold: int): (size: nat)
    ensures n < threshold ==> size == n
    ensures n >= threshold ==> size - n == BUFFER_SIZE
  {
    if n >= threshold then BUFFER_SIZE + n else n
  }

  /** The expiry of a temporary upload made at `now`. */
  function ExpiryOf(now: Time): (t: Time)
    ensures t - now == TEMPORARY_LIFE_TIME
  {
    now + TEMPORARY_LIFE_TIME
  }

  /**
   * An opened handle: the settings are complete and hold the configuration
   * kept, and every mime type the engine can record parses.
   */
  ghost predicate Configured(handle: (SettingsCollection, Config), isMime: string -> bool,
                             guessMimeByExt: string -> string)
  {
    var (settings, cfg) := handle;
    && ValidThreshold(cfg.fileSizeThreshold)
    && Settled(settings)
    && StoredConfig(settings) == cfg
    && isMime(DEFAULT_MIME_TYPE)
    && (forall ext :: isMime(guessMimeByExt(ext)))
  }

  class FileCenter {
    /** The settings collection. */
    var settings: SettingsCollection
    /** The file collection. */
    var files: map<ObjectId, FileRecord>
    /** The GridFS files. */
    var chunkFiles: ChunkFiles
    var fileSizeThreshold: int
    var createTime: Time
    var version: int
    /** Every id below it is taken; ids are handed out from it upwards. */
    var nextId: nat

    const sha3: seq<byte> -> Digest
    const isMime: string -> bool
    const guessMimeByExt: string -> string
    const decryptUrlComponent: string -> Result<seq<byte>, string>

    function State(): Db
      reads this
    {
      Db(files, chunkFiles)
    }

    /** The settings and what the opening kept of them. */
    function Opened(): (SettingsCollection, Config)
      reads this
    {
      (settings, Config(fileSizeThreshold, createTime, version))
    }

    ghost predicate Valid()
      reads this
    {
      && Configured(Opened(), isMime, guessMimeByExt)
      && Consistent(State(), nextId)
    }

    constructor FromSettings(settings: SettingsCollection, db: Db, nextId: nat,
                             sha3: seq<byte> -> Digest, isMime: string -> bool,
                             guessMimeByExt: string -> string,
                             decryptUrlComponent: string -> Result<seq<byte>, string>)
      requires Settled(settings) && Consistent(db, nextId)
      requires isMime(DEFAULT_MIME_TYPE) && (forall ext :: isMime(guessMimeByExt(ext)))
      ensures Valid()
      ensures Opened() == (settings, StoredConfig(settings)) && State() == db && this.nextId == nextId
      ensures this.sha3 == sha3 && this.isMime == isMime && this.guessMimeByExt == guessMimeByExt
      ensures this.decryptUrlComponent == decryptUrlComponent
    {
      var cfg := StoredConfig(settings);
      this.settings := settings;
      this.files := db.files;
      this.chunkFiles := db.chunkFiles;
      this.fileSizeThreshold := cfg.fileSizeThreshold;
      this.createTime := cfg.createTime;
      this.version := cfg.version;
      this.nextId := nextId;
      this.sha3 := sha3;
      this.isMime := isMime;
      this.guessMimeByExt := guessMimeByExt;
      this.decryptUrlComponent := decryptUrlComponent;
    }

    /**
     * `FileCenter::new`: opens the database with the default initial
     * threshold; the settings written on the way stay written even when a
     * later step fails.
     */
    static method New(settings: SettingsCollection, db: Db, nextId: nat, now: Time,
                      sha3: seq<byte> -> Digest, isMime: string -> bool,
                      guessMimeByExt: string -> string,
                      decryptUrlComponent: string -> Result<seq<byte>, string>)
      returns (settings': SettingsCollection, r: Result<FileCenter, FileCenterError>)
      requires Consistent(db, nextId)
      requires isMime(DEFAULT_MIME_TYPE) && (forall ext :: isMime(guessMimeByExt(ext)))
      ensures settings' == Settings.New(settings, now).settings
      ensures r.Ok? <==> Settings.New(settings, now).result.Ok?
      ensures r.Err? ==> r.error == Settings.New(settings, now).result.error
      ensures r.Ok? ==> fresh(r.value) && r.value.Valid() && r.value.State() == db
      ensures r.Ok? ==> r.value.Opened() == (settings', Settings.New(settings, now).result.value)
    {
      var o := Settings.New(settings, now);
      settings' := o.settings;
      if o.result.Err? {
        r := Err(o.result.error);
      } else {
        OpenSettingsOk(settings, DEFAULT_FILE_SIZE_THRESHOLD, now);
        var center := new FileCenter.FromSettings(o.settings, db, nextId, sha3, isMime, guessMimeByExt,
                                                  decryptUrlComponent);
        r := Ok(center);
      }
    }

    /** `FileCenter::new_with_file_size_threshold`: an out-of-bounds initial threshold is refused first. */
    static method NewWithFileSizeThreshold(settings: SettingsCollection, db: Db, nextId: nat,
                                           initial: int, now: Time,
                                           sha3: seq<byte> -> Digest, isMime: string -> bool,
                                           guessMimeByExt: string -> string,
                                           decryptUrlComponent: string -> Result<seq<byte>, string>)
      returns (settings': SettingsCollection, r: Result<FileCenter, FileCenterError>)
      requires Consistent(db, nextId)
      requires isMime(DEFAULT_MIME_TYPE) && (forall ext :: isMime(guessMimeByExt(ext)))
      ensures !ValidThreshold(initial) ==> settings' == settings && r == Err(FileSizeThresholdError)
      ensures settings' == Settings.NewWithFileSizeThreshold(settings, initial, now).settings
      ensures r.Ok? <==> Settings.NewWithFileSizeThreshold(settings, initial, now).result.Ok?
      ensures r.Err? ==> r.error == Settings.NewWithFileSizeThreshold(settings, initial, now).result.error
      ensures r.Ok? ==> fresh(r.value) && r.value.Valid() && r.value.State() == db
      ensures r.Ok? ==>
        r.value.Opened() == (settings', Settings.NewWithFileSizeThreshold(settings, initial, now).result.value)
    {
      if initial > MAX_FILE_SIZE_THRESHOLD || initial <= 0 {
        settings' := settings;
        r := Err(FileSizeThresholdError);
        return;
      }
      var o := OpenSettings(settings, initial, now);
      settings' := o.settings;
      if o.result.Err? {
        r := Err(o.result.error);
      } else {
        OpenSettingsOk(settings, initial, now);
        var center := new FileCenter.FromSettings(o.settings, db, nextId, sha3, isMime, guessMimeByExt,
                                                  decryptUrlComponent);
        r := Ok(center);
      }
    }

    /**
     * Changes the threshold: an out-of-bounds value is refused and nothing
     * changes; a valid one becomes the threshold, and is written to the
     * settings only when it differs from the current one.
     */
    method SetFileSizeThreshold(t: int) returns (r: Result<(), FileCenterError>)
      requires Valid()
      modifies this
      ensures Valid()
      ensures r.Ok? <==> ValidThreshold(t)
      ensures !ValidThreshold(t) ==> r == Err(FileSizeThresholdError) && Opened() == old(Opened())
      ensures ValidThreshold(t) ==>
        && fileSizeThreshold == t
        && settings == (if t != old(fileSizeThreshold) then UpsertThreshold(old(settings), t) else old(settings))
      ensures createTime == old(createTime) && version == old(version)
      ensures State() == old(State()) && nextId == old(nextId)
    {
      if t > MAX_FILE_SIZE_THRESHOLD || t <= 0 {
        return Err(FileSizeThresholdError);
      }
      if t != fileSizeThreshold {
        UpsertThresholdSettled(settings, t);
        settings := UpsertThreshold(settings, t);
        fileSizeThreshold := t;
      }
      r := Ok(());
    }

    /** The record holding hash `h`, if any: the lookup by `(hash_1, …, hash_4)`. */
    method FindByHash(h: HashKey) returns (k: Option<ObjectId>)
      requires UniqueHashes(files)
      ensures k.None? <==> !HashTaken(files, h)
      ensures k.Some? ==> k.value in files && files[k.value].hash == h && k.value == HashOwner(files, h)
    {
      if hk :| hk in files && files[hk].hash == h {
        HashOwnerIs(files, h, hk);
        k := Some(hk);
      } else {
        k := None;
      }
    }

    /** Takes two fresh ids: one for a GridFS file, the next for a record. */
    method TakeIds() returns (fileId: ObjectId, id: ObjectId)
      modifies this
      ensures fileId == old(nextId) && id == old(nextId) + 1 && nextId == old(nextId) + 2
      ensures State() == old(State()) && Opened() == old(Opened())
    {
      fileId := nextId;
      id := nextId + 1;
      nextId := nextId + 2;
    }

    // -------------------------------------------------------------------------
    // get_file_item_by_id, delete_file_item_by_id
    // -------------------------------------------------------------------------

    /** Looks a file up; a temporary one is deleted as it is read. */
    method GetFileItemById(id: ObjectId) returns (r: Result<Option<FileItem>, FileCenterError>)
      requires Valid()
      modifies this
      ensures Valid()
      ensures (State(), r) == Get(old(State()), id, isMime)
      ensures Opened() == old(Opened()) && nextId == old(nextId)
    {
      if id !in files {
        return Ok(None);
      }
      var doc := RecordDocument(id, files[id]);
      if ExpireAt in doc {
        files := files - {id};
      }
      match CreateFileItem(doc, chunkFiles, isMime) {
        case Ok(item) => r := Ok(Some(item));
        case Err(e) => r := Err(e);
      }
      GetConsistent(old(State()), id, isMime, nextId);
    }

    /**
     * Drops one reference to a file and answers its recorded size; the last
     * reference removes the record and its GridFS file.
     */
    method DeleteFileItemById(id: ObjectId) returns (r: Option<nat>)
      requires Valid()
      modifies this
      ensures Valid()
      ensures (State(), r) == Delete(old(State()), id)
      ensures Opened() == old(Opened()) && nextId == old(nextId)
    {
      if id !in files {
        return None;
      }
      var rec := files[id].(count := files[id].count - 1);
      files := files[id := rec];
      var size := I64AsU64(rec.fileSize);
      if rec.count <= 0 {
        files := files - {id};
        assert files == old(files) - {id};
        if rec.content.GridFs? {
          chunkFiles := chunkFiles - {rec.content.fileId};
        }
      }
      r := Some(size);
      DeleteConsistent(old(State()), id, nextId);
    }

    // -------------------------------------------------------------------------
    // Permanent uploads
    // -------------------------------------------------------------------------

    /** `$inc: { count: 1 }` on record `k`, answering its item. */
    method BumpCount(k: ObjectId) returns (r: Result<FileItem, FileCenterError>)
      requires k in files
      modifies this
      ensures State() == Db(old(files)[k := Bumped(old(files)[k])], old(chunkFiles))
      ensures r == ItemOf(State(), k, isMime)
      ensures Opened() == old(Opened()) && nextId == old(nextId)
    {
      files := files[k := Bumped(files[k])];
      r := CreateFileItem(RecordDocument(k, files[k]), chunkFiles, isMime);
    }

    /** `insert_one` of `rec` under `id`, answering its item. */
    method InsertRecord(rec: FileRecord, id: ObjectId) returns (r: Result<FileItem, FileCenterError>)
      modifies this
      ensures State() == Db(old(files)[id := rec], old(chunkFiles))
      ensures r == ItemOf(State(), id, isMime)
      ensures Opened() == old(Opened()) && nextId == old(nextId)
    {
      files := files[id := rec];
      r := CreateFileItem(RecordDocument(id, rec), chunkFiles, isMime);
    }

    /**
     * Stores a new permanent record under `id`, or raises the count of the
     * record already holding its hash; answers the item of either.
     */
    method Admitted(rec: FileRecord, blob: seq<byte>, id: ObjectId) returns (r: Result<FileItem, FileCenterError>)
      requires UniqueHashes(files)
      modifies this
      ensures var (db', k) := Admit(old(State()), rec, blob, id);
        State() == db' && r == ItemOf(db', k, isMime)
      ensures Opened() == old(Opened()) && nextId == old(nextId)
    {
      var hit := FindByHash(rec.hash);
      if hit.Some? {
        AdmitHit(State(), rec, blob, id, hit.value);
        r := BumpCount(hit.value);
      } else {
        chunkFiles := WithContent(chunkFiles, rec.content, blob);
        r := InsertRecord(rec, id);
      }
    }

    /**
     * `put_file_by_buffer_inner`: a permanent upload of `buffer` under the
     * given fingerprint, inline below the threshold and in a new GridFS file
     * from it on.
     */
    method PutFileByBufferInner(buffer: seq<byte>, fileName: string, mimeType: Option<string>,
                                hash: HashKey, now: Time)
      returns (r: Result<FileItem, FileCenterError>)
      requires Valid() && (mimeType.Some? ==> isMime(mimeType.value))
      modifies this
      ensures Valid()
      ensures Opened() == old(Opened()) && nextId == old(nextId) + 2
      ensures var rec := FileRecord(hash, 1, |buffer|, fileName, mimeType.GetOr(DEFAULT_MIME_TYPE), now, None,
                                    Placement(buffer, |buffer|, old(fileSizeThreshold), old(nextId)));
        var (db', k) := Admit(old(State()), rec, buffer, old(nextId) + 1);
        State() == db' && r == ItemOf(db', k, isMime)
      ensures !HashTaken(old(files), hash) ==>
        r.Ok? && r.value.id == old(nextId) + 1 && ItemBytes(r.value) == Ok(buffer)
    {
      var fileId, id := TakeIds();
      var rec := FileRecord(hash, 1, |buffer|, fileName, mimeType.GetOr(DEFAULT_MIME_TYPE), now, None,
                            Placement(buffer, |buffer|, fileSizeThreshold, fileId));
      ghost var before := State();
      AdmitConsistent(before, rec, buffer, id, fileId);
      StoredReadsBack(before, rec, buffer, id, isMime);
      r := Admitted(rec, buffer, id);
    }

    /** `put_file_by_buffer`: a permanent upload fingerprinted by SHA3-256 of its bytes. */
    method PutFileByBuffer(buffer: seq<byte>, fileName: string, mimeType: Option<string>, now: Time)
      returns (r: Result<FileItem, FileCenterError>)
      requires Valid() && (mimeType.Some? ==> isMime(mimeType.value))
      modifies this
      ensures Valid()
      ensures Opened() == old(Opened()) && nextId == old(nextId) + 2
      ensures var rec := FileRecord(GetHashByBuffer(sha3, buffer), 1, |buffer|, fileName,
                                    mimeType.GetOr(DEFAULT_MIME_TYPE), now, None,
                                    Placement(buffer, |buffer|, old(fileSizeThreshold), old(nextId)));
        var (db', k) := Admit(old(State()), rec, buffer, old(nextId) + 1);
        State() == db' && r == ItemOf(db', k, isMime)
    {
      var hash := GetHashByBuffer(sha3, buffer);
      r := PutFileByBufferInner(buffer, fileName, mimeType, hash, now);
    }

    /**
     * `put_file_by_path`: a permanent upload of a local file, named after the
     * file unless a name is given; a large file is copied into GridFS through
     * the buffer.
     */
    method PutFileByPath(file: LocalFile, fileName: Option<string>, mimeType: Option<string>, now: Time)
      returns (r: Result<FileItem, FileCenterError>)
      requires Valid() && (mimeType.Some? ==> isMime(mimeType.value))
      modifies this
      ensures Valid()
      ensures Opened() == old(Opened()) && nextId == old(nextId) + 2
      ensures var bytes := file.contents;
        var rec := FileRecord(GetHashByBuffer(sha3, bytes), 1, |bytes|, fileName.GetOr(file.fileName),
                              PathMime(guessMimeByExt, mimeType, file), now, None,
                              Placement(bytes, |bytes|, old(fileSizeThreshold), old(nextId)));
        var (db', k) := Admit(old(State()), rec, bytes, old(nextId) + 1);
        State() == db' && r == ItemOf(db', k, isMime)
      ensures !HashTaken(old(files), GetHashByBuffer(sha3, file.contents)) ==>
        r.Ok? && ItemBytes(r.value) == Ok(file.contents)
    {
      var hash := GetHashByPath(sha3, file);
      var fileId, id := TakeIds();
      ghost var before := State();
      var size := |file.contents|;
      var rec := FileRecord(hash, 1, size, fileName.GetOr(file.fileName), PathMime(guessMimeByExt, mimeType, file),
                            now, None, Placement(file.contents, size, fileSizeThreshold, fileId));
      AdmitConsistent(before, rec, file.contents, id, fileId);
      StoredReadsBack(before, rec, file.contents, id, isMime);
      r := AdmittedFromFile(rec, file, id);
    }

    /**
     * The lookup and store of `put_file_by_path`: a hit raises the count;
     * a miss copies a large file into its GridFS file, then inserts.
     */
    method AdmittedFromFile(rec: FileRecord, file: LocalFile, id: ObjectId)
      returns (r: Result<FileItem, FileCenterError>)
      requires UniqueHashes(files) && (rec.content.Inline? ==> rec.content.data == file.contents)
      modifies this
      ensures var (db', k) := Admit(old(State()), rec, file.contents, id);
        State() == db' && r == ItemOf(db', k, isMime)
      ensures Opened() == old(Opened()) && nextId == old(nextId)
    {
      var hit := FindByHash(rec.hash);
      if hit.Some? {
        AdmitHit(State(), rec, file.contents, id, hit.value);
        r := BumpCount(hit.value);
      } else {
        if rec.content.GridFs? {
          var written := CopyFile(file.contents);
          chunkFiles := chunkFiles[rec.content.fileId := written];
        }
        r := InsertRecord(rec, id);
      }
    }

    /**
     * `put_file_by_reader`: a permanent upload from a reader. Below the
     * threshold the buffered bytes go through `put_file_by_buffer_inner`;
     * from it on, the input is streamed into a new GridFS file while being
     * hashed, and that file is removed again when the fingerprint is already
     * stored. As written, the recorded size of a GridFS upload starts from
     * BUFFER_SIZE rather than 0.
     */
    method PutFileByReader(pieces: seq<seq<byte>>, fileName: string, mimeType: Option<string>, now: Time)
      returns (r: Result<FileItem, FileCenterError>)
      requires Valid() && WellFormedReads(pieces) && (mimeType.Some? ==> isMime(mimeType.value))
      modifies this
      ensures Valid()
      ensures Opened() == old(Opened()) && nextId == old(nextId) + 2
      ensures var bytes := Concat(pieces);
        var rec := FileRecord(GetHashByBuffer(sha3, bytes), 1, ReaderFileSize(|bytes|, old(fileSizeThreshold)),
                              fileName, mimeType.GetOr(DEFAULT_MIME_TYPE), now, None,
                              Placement(bytes, |bytes|, old(fileSizeThreshold), old(nextId)));
        var (db', k) := Admit(old(State()), rec, bytes, old(nextId) + 1);
        State() == db' && r == ItemOf(db', k, isMime)
      ensures !HashTaken(old(files), GetHashByBuffer(sha3, Concat(pieces))) ==>
        r.Ok? && ItemBytes(r.value) == Ok(Concat(pieces))
    {
      var bytes, gridfs, size := ReadInput(pieces, fileSizeThreshold, BUFFER_SIZE);
      assert Opened() == old(Opened()) && State() == old(State()) && nextId == old(nextId);
      assert (if gridfs then size else |bytes|) == ReaderFileSize(|bytes|, fileSizeThreshold);
      r := PutRead(bytes, if gridfs then size else |bytes|, fileName, mimeType, now);
    }

    /** `put_file_by_reader` once the input is read: `bytes` were read and `size` counted. */
    method PutRead(bytes: seq<byte>, size: nat, fileName: string, mimeType: Option<string>, now: Time)
      returns (r: Result<FileItem, FileCenterError>)
      requires Valid() && (mimeType.Some? ==> isMime(mimeType.value))
      modifies this
      ensures Valid()
      ensures Opened() == old(Opened()) && nextId == old(nextId) + 2
      ensures var rec := FileRecord(GetHashByBuffer(sha3, bytes), 1, size, fileName, mimeType.GetOr(DEFAULT_MIME_TYPE),
                                    now, None, Placement(bytes, |bytes|, old(fileSizeThreshold), old(nextId)));
        var (db', k) := Admit(old(State()), rec, bytes, old(nextId) + 1);
        State() == db' && r == ItemOf(db', k, isMime)
      ensures !HashTaken(old(files), GetHashByBuffer(sha3, bytes)) ==> r.Ok? && ItemBytes(r.value) == Ok(bytes)
    {
      var fileId, id := TakeIds();
      var hash := GetHashByBuffer(sha3, bytes);
      var rec := FileRecord(hash, 1, size, fileName, mimeType.GetOr(DEFAULT_MIME_TYPE),
                            now, None, Placement(bytes, |bytes|, fileSizeThreshold, fileId));
      ghost var before := State();
      AdmitConsistent(before, rec, bytes, id, fileId);
      StoredReadsBack(before, rec, bytes, id, isMime);
      r := AdmittedRead(rec, bytes, id);
    }

    /**
     * The store step of `put_file_by_reader`. Inline content is what
     * `put_file_by_buffer_inner` stores. A streamed upload has its GridFS file
     * written first; a hit removes it again and raises the count, a miss
     * inserts `rec`.
     */
    method AdmittedRead(rec: FileRecord, stored: seq<byte>, id: ObjectId)
      returns (r: Result<FileItem, FileCenterError>)
      requires UniqueHashes(files) && (rec.content.GridFs? ==> rec.content.fileId !in chunkFiles)
      modifies this
      ensures var (db', k) := Admit(old(State()), rec, stored, id);
        State() == db' && r == ItemOf(db', k, isMime)
      ensures Opened() == old(Opened()) && nextId == old(nextId)
    {
      if rec.content.Inline? {
        r := Admitted(rec, stored, id);
        return;
      }
      var fileId := rec.content.fileId;
      chunkFiles := chunkFiles[fileId := stored];
      var hit := FindByHash(rec.hash);
      if hit.Some? {
        AdmitHit(old(State()), rec, stored, id, hit.value);
        RemoveFresh(old(chunkFiles), fileId, stored);
        chunkFiles := chunkFiles - {fileId};
        r := BumpCount(hit.value);
      } else {
        r := InsertRecord(rec, id);
      }
    }

    // -------------------------------------------------------------------------
    // Temporary uploads
    // -------------------------------------------------------------------------

    /**
     * Writes the bytes of a temporary record, then inserts it under `id`;
     * the insert is refused when its random hash is already held.
     */
    method Inserted(rec: FileRecord, blob: seq<byte>, id: ObjectId) returns (r: Result<FileItem, FileCenterError>)
      requires UniqueHashes(files)
      modifies this
      ensures var (db', res) := Insert(old(State()), rec, blob, id);
        State() == db' && r == (if res.Ok? then ItemOf(db', id, isMime) else Err(res.error))
      ensures Opened() == old(Opened()) && nextId == old(nextId)
    {
      chunkFiles := WithContent(chunkFiles, rec.content, blob);
      var taken := FindByHash(rec.hash);
      if taken.Some? {
        r := Err(MongoDBError(DuplicateHashKey));
      } else {
        r := InsertRecord(rec, id);
      }
    }

    /**
     * `put_file_by_buffer_temporarily`: never looks for an equal content; the
     * record gets the random fingerprint, count 1 and an expiry
     * TEMPORARY_LIFE_TIME after `now`.
     */
    method PutFileByBufferTemporarily(buffer: seq<byte>, fileName: string, mimeType: Option<string>,
                                      now: Time, randomHash: HashKey)
      returns (r: Result<FileItem, FileCenterError>)
      requires Valid() && randomHash.Valid() && (mimeType.Some? ==> isMime(mimeType.value))
      modifies this
      ensures Valid()
      ensures Opened() == old(Opened()) && nextId == old(nextId) + 2
      ensures var rec := FileRecord(randomHash, 1, |buffer|, fileName, mimeType.GetOr(DEFAULT_MIME_TYPE),
                                    now, Some(ExpiryOf(now)),
                                    Placement(buffer, |buffer|, old(fileSizeThreshold), old(nextId)));
        var (db', res) := Insert(old(State()), rec, buffer, old(nextId) + 1);
        State() == db' && r == (if res.Ok? then ItemOf(db', old(nextId) + 1, isMime) else Err(res.error))
      ensures !HashTaken(old(files), randomHash) ==>
        && files.Keys == old(files).Keys + {old(nextId) + 1}
        && r.Ok? && r.value.id == old(nextId) + 1 && r.value.expireAt == Some(ExpiryOf(now))
        && ItemBytes(r.value) == Ok(buffer)
    {
      var fileId, id := TakeIds();
      var rec := FileRecord(randomHash, 1, |buffer|, fileName, mimeType.GetOr(DEFAULT_MIME_TYPE),
                            now, Some(ExpiryOf(now)), Placement(buffer, |buffer|, fileSizeThreshold, fileId));
      ghost var before := State();
      InsertConsistent(before, rec, buffer, id, fileId);
      StoredReadsBack(before, rec, buffer, id, isMime);
      r := Inserted(rec, buffer, id);
    }

    /** `put_file_by_path_temporarily`: the temporary counterpart of `put_file_by_path`. */
    method PutFileByPathTemporarily(file: LocalFile, fileName: Option<string>, mimeType: Option<string>,
                                    now: Time, randomHash: HashKey)
      returns (r: Result<FileItem, FileCenterError>)
      requires Valid() && randomHash.Valid() && (mimeType.Some? ==> isMime(mimeType.value))
      modifies this
      ensures Valid()
      ensures Opened() == old(Opened()) && nextId == old(nextId) + 2
      ensures var bytes := file.contents;
        var rec := FileRecord(randomHash, 1, |bytes|, fileName.GetOr(file.fileName),
                              PathMime(guessMimeByExt, mimeType, file), now, Some(ExpiryOf(now)),
                              Placement(bytes, |bytes|, old(fileSizeThreshold), old(nextId)));
        var (db', res) := Insert(old(State()), rec, bytes, old(nextId) + 1);
        State() == db' && r == (if res.Ok? then ItemOf(db', old(nextId) + 1, isMime) else Err(res.error))
      ensures !HashTaken(old(files), randomHash) ==>
        r.Ok? && r.value.id == old(nextId) + 1 && ItemBytes(r.value) == Ok(file.contents)
    {
      var fileId, id := TakeIds();
      var size := |file.contents|;
      var rec := FileRecord(randomHash, 1, size, fileName.GetOr(file.fileName), PathMime(guessMimeByExt, mimeType, file),
                            now, Some(ExpiryOf(now)), Placement(file.contents, size, fileSizeThreshold, fileId));
      ghost var before := State();
      InsertConsistent(before, rec, file.contents, id, fileId);
      StoredReadsBack(before, rec, file.contents, id, isMime);
      var blob := file.contents;
      if size >= fileSizeThreshold {
        blob := CopyFile(file.contents);
      }
      r := Inserted(rec, blob, id);
    }

    /**
     * `put_file_by_reader_temporarily`: below the threshold the buffered bytes
     * go through `put_file_by_buffer_temporarily`; from it on the input is
     * streamed into a new GridFS file, counting every byte read.
     */
    method PutFileByReaderTemporarily(pieces: seq<seq<byte>>, fileName: string, mimeType: Option<string>,
                                      now: Time, randomHash: HashKey)
      returns (r: Result<FileItem, FileCenterError>)
      requires Valid() && WellFormedReads(pieces) && randomHash.Valid()
      requires mimeType.Some? ==> isMime(mimeType.value)
      modifies this
      ensures Valid()
      ensures Opened() == old(Opened()) && nextId == old(nextId) + 2
      ensures var bytes := Concat(pieces);
        var rec := FileRecord(randomHash, 1, |bytes|, fileName, mimeType.GetOr(DEFAULT_MIME_TYPE),
                              now, Some(ExpiryOf(now)),
                              Placement(bytes, |bytes|, old(fileSizeThreshold), old(nextId)));
        var (db', res) := Insert(old(State()), rec, bytes, old(nextId) + 1);
        State() == db' && r == (if res.Ok? then ItemOf(db', old(nextId) + 1, isMime) else Err(res.error))
      ensures !HashTaken(old(files), randomHash) ==>
        r.Ok? && r.value.fileSize == I64AsU64(|Concat(pieces)|) && ItemBytes(r.value) == Ok(Concat(pieces))
    {
      var bytes, gridfs, size := ReadInput(pieces, fileSizeThreshold, 0);
      assert Opened() == old(Opened()) && State() == old(State()) && nextId == old(nextId);
      var fileId, id := TakeIds();
      var rec := FileRecord(randomHash, 1, size, fileName, mimeType.GetOr(DEFAULT_MIME_TYPE),
                            now, Some(ExpiryOf(now)), Placement(bytes, |bytes|, fileSizeThreshold, fileId));
      ghost var before := State();
      InsertConsistent(before, rec, bytes, id, fileId);
      StoredReadsBack(before, rec, bytes, id, isMime);
      r := Inserted(rec, bytes, id);
    }

    // -------------------------------------------------------------------------
    // clear_garbage
    // -------------------------------------------------------------------------

    /**
     * Three passes: records whose GridFS file is missing; records whose count
     * is at most 0, with their GridFS files; GridFS files no record uses.
     */
    method ClearGarbage()
      requires Valid()
      modifies this
      ensures Valid()
      ensures State() == Store.ClearGarbage(old(State()))
      ensures Clean(State())
      ensures Opened() == old(Opened()) && nextId == old(nextId)
    {
      ClearGarbageConsistent(State(), nextId);
      ClearGarbageResult(State());
      var pass1 := DropDangling(State());
      files := pass1.files;
      var pass2 := DropExhausted(pass1);
      files, chunkFiles := pass2.files, pass2.chunkFiles;
      var pass3 := DropOrphans(pass2);
      chunkFiles := pass3.chunkFiles;
    }

    // -------------------------------------------------------------------------
    // decrypt_id_token
    // -------------------------------------------------------------------------

    /**
     * The 12 ObjectId bytes an ID token decrypts to; a cipher failure, or a
     * plaintext of any other length, is an IDTokenError.
     */
    function DecryptIdToken(token: string): (r: Result<seq<byte>, FileCenterError>)
      ensures r.Ok? <==> decryptUrlComponent(token).Ok? && |decryptUrlComponent(token).value| == 12
      ensures r.Ok? ==> r.value == decryptUrlComponent(token).value
      ensures decryptUrlComponent(token).Ok? && |decryptUrlComponent(token).value| != 12 ==>
                r == Err(IDTokenError(ID_LENGTH_MESSAGE))
      ensures decryptUrlComponent(token).Err? ==> r == Err(IDTokenError(decryptUrlComponent(token).error))
    {
      match decryptUrlComponent(token)
      case Err(message) => Err(IDTokenError(message))
      case Ok(raw) => if |raw| != 12 then Err(IDTokenError(ID_LENGTH_MESSAGE)) else Ok(raw)
    }
  }
}

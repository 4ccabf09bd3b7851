/**
 * File records as the file collection stores them, the file items the
 * engine hands out, and `create_file_item`, which decodes a stored document
 * into an item field by field.
 */
module Records {
  import opened Results
  import opened Functions
  import opened FileDataModel
  import opened Documents

  const DEFAULT_MIME_TYPE: string := "application/octet-stream"
  /** Lifetime of a temporary file, in milliseconds. */
  const TEMPORARY_LIFE_TIME: int := 60000
  /** The GridFS driver's default chunk size (255 KiB); a stored file streams back in such chunks. */
  const GRIDFS_CHUNK_SIZE: nat := 261_120

  /** Where a record's bytes live: inline in the record, or in a GridFS file. */
  datatype Content = Inline(data: seq<byte>) | GridFs(fileId: ObjectId)

  /** A document of the file collection, as the engine writes it. */
  datatype FileRecord = FileRecord(
    hash: HashKey,
    count: int,
    fileSize: int,
    fileName: string,
    mimeType: string,
    createTime: Time,
    expireAt: Option<Time>,
    content: Content)

  /** A retrieved file. */
  datatype FileItem = FileItem(
    id: ObjectId,
    createTime: Time,
    expireAt: Option<Time>,
    mimeType: string,
    fileSize: nat,
    fileName: string,
    fileData: FileData)

  /** A record's count after `$inc: { count: 1 }`. */
  function Bumped(rec: FileRecord): (r: FileRecord)
    ensures r.count == rec.count + 1
    ensures r.(count := rec.count) == rec
  {
    rec.(count := rec.count + 1)
  }

  /** The stored document of a record with id `id`. */
  function RecordDocument(id: ObjectId, rec: FileRecord): Document {
    var doc := map[
      Id := BObjectId(id),
      Hash1 := BInt64(rec.hash.hash1),
      Hash2 := BInt64(rec.hash.hash2),
      Hash3 := BInt64(rec.hash.hash3),
      Hash4 := BInt64(rec.hash.hash4),
      Count := BInt32(rec.count),
      FileSize := BInt64(rec.fileSize),
      FileName := BString(rec.fileName),
      MimeType := BString(rec.mimeType),
      CreateTime := BDateTime(rec.createTime)];
    var doc := if rec.expireAt.Some? then doc[ExpireAt := BDateTime(rec.expireAt.value)] else doc;
    match rec.content
    case Inline(data) => doc[FileData := BBinary(data)]
    case GridFs(fileId) => doc[FileId := BObjectId(fileId)]
  }

  // ---------------------------------------------------------------------------
  // create_file_item
  // ---------------------------------------------------------------------------

  function Required(doc: Document, key: Field): (r: Result<Bson, FileCenterError>)
    ensures r.Ok? <==> key in doc
    ensures r.Ok? ==> r.value == doc[key]
  {
    if key in doc then Ok(doc[key]) else Err(DocumentError(NotPresent))
  }

  function ObjectIdOf(b: Bson): Result<ObjectId, FileCenterError> {
    if b.BObjectId? then Ok(b.oid) else Err(DocumentError(UnexpectedType))
  }

  function DateTimeOf(b: Bson): Result<Time, FileCenterError> {
    if b.BDateTime? then Ok(b.millis) else Err(DocumentError(UnexpectedType))
  }

  function StringOf(b: Bson): Result<string, FileCenterError> {
    if b.BString? then Ok(b.text) else Err(DocumentError(UnexpectedType))
  }

  /** The optional expiry: absent is fine, present must be a datetime. */
  function ExpireAtOf(doc: Document): Result<Option<Time>, FileCenterError> {
    if ExpireAt !in doc then Ok(None)
    else if doc[ExpireAt].BDateTime? then Ok(Some(doc[ExpireAt].millis))
    else Err(DocumentError(UnexpectedType))
  }

  /** `Mime::from_str` on the stored text; `isMime` is the parser's verdict. */
  function MimeOf(isMime: string -> bool, b: Bson): Result<string, FileCenterError> {
    if !b.BString? then Err(DocumentError(UnexpectedType))
    else if isMime(b.text) then Ok(b.text)
    else Err(DocumentError(UnexpectedType))
  }

  // The fields `create_file_item` reads, in its order, each present (where
  // required) and of the type it expects.

  predicate IdOk(doc: Document) { Id in doc && doc[Id].BObjectId? }
  predicate CreateTimeOk(doc: Document) { CreateTime in doc && doc[CreateTime].BDateTime? }
  predicate ExpireAtOk(doc: Document) { ExpireAt in doc ==> doc[ExpireAt].BDateTime? }
  predicate MimeTypeOk(doc: Document, isMime: string -> bool) {
    MimeType in doc && doc[MimeType].BString? && isMime(doc[MimeType].text)
  }
  predicate FileSizeOk(doc: Document) { FileSize in doc && doc[FileSize].BInt64? }
  predicate FileNameOk(doc: Document) { FileName in doc && doc[FileName].BString? }

  /** Everything before the data decodes. */
  predicate HeaderOk(doc: Document, isMime: string -> bool) {
    IdOk(doc) && CreateTimeOk(doc) && ExpireAtOk(doc) && MimeTypeOk(doc, isMime) && FileSizeOk(doc) && FileNameOk(doc)
  }

  /** The data decodes: inline binary, or a `file_id` naming a GridFS file that exists. */
  predicate FileDataOk(doc: Document, chunkFiles: map<ObjectId, seq<byte>>) {
    if FileData in doc then doc[FileData].BBinary?
    else FileId in doc && doc[FileId].BObjectId? && doc[FileId].oid in chunkFiles
  }

  /**
   * The file data: inline bytes when `file_data` is present, otherwise the
   * GridFS file `file_id` names, streamed back chunk by chunk.
   */
  function FileDataOf(doc: Document, chunkFiles: map<ObjectId, seq<byte>>): (r: Result<FileData, FileCenterError>)
    ensures r.Ok? <==> FileDataOk(doc, chunkFiles)
    ensures FileData in doc && r.Ok? ==> r.value == Buffer(doc[FileData].bytes)
    ensures FileData in doc && !doc[FileData].BBinary? ==> r == Err(DocumentError(UnexpectedType))
    ensures FileData !in doc && FileId !in doc ==> r == Err(DocumentError(NotPresent))
    ensures FileData !in doc && FileId in doc && !doc[FileId].BObjectId? ==> r == Err(DocumentError(UnexpectedType))
    ensures FileData !in doc && FileId in doc && doc[FileId].BObjectId? && doc[FileId].oid !in chunkFiles ==>
              r == Err(MongoDBError(GridFsFileNotFound))
    ensures FileData !in doc && r.Ok? ==>
              r.value.Stream? && StreamBytes(r.value.chunks) == Ok(chunkFiles[doc[FileId].oid])
  {
    if FileData in doc then
      if doc[FileData].BBinary? then Ok(Buffer(doc[FileData].bytes))
      else Err(DocumentError(UnexpectedType))
    else
      var fileIdField :- Required(doc, FileId);
      var fileId :- ObjectIdOf(fileIdField);
      if fileId in chunkFiles then
        ChunksOfRoundTrip(chunkFiles[fileId], GRIDFS_CHUNK_SIZE);
        Ok(Stream(ChunksOf(chunkFiles[fileId], GRIDFS_CHUNK_SIZE)))
      else Err(MongoDBError(GridFsFileNotFound))
  }

  /**
   * Decodes a stored document, reading `_id`, `create_time`, `expire_at`,
   * `mime_type`, `file_size`, `file_name` and then the data, in that order;
   * the first missing or ill-typed field decides the error.
   */
  function CreateFileItem(doc: Document, chunkFiles: map<ObjectId, seq<byte>>, isMime: string -> bool)
    : (r: Result<FileItem, FileCenterError>)
    ensures r.Ok? <==> HeaderOk(doc, isMime) && FileDataOk(doc, chunkFiles)
    ensures Id !in doc ==> r == Err(DocumentError(NotPresent))
    ensures Id in doc && !IdOk(doc) ==> r == Err(DocumentError(UnexpectedType))
    ensures IdOk(doc) && CreateTime !in doc ==> r == Err(DocumentError(NotPresent))
    ensures IdOk(doc) && CreateTime in doc && !CreateTimeOk(doc) ==> r == Err(DocumentError(UnexpectedType))
    ensures IdOk(doc) && CreateTimeOk(doc) && !ExpireAtOk(doc) ==> r == Err(DocumentError(UnexpectedType))
    ensures IdOk(doc) && CreateTimeOk(doc) && ExpireAtOk(doc) ==>
              && (MimeType !in doc ==> r == Err(DocumentError(NotPresent)))
              && (MimeType in doc && !MimeTypeOk(doc, isMime) ==> r == Err(DocumentError(UnexpectedType)))
    ensures IdOk(doc) && CreateTimeOk(doc) && ExpireAtOk(doc) && MimeTypeOk(doc, isMime) ==>
              && (FileSize !in doc ==> r == Err(DocumentError(NotPresent)))
              && (FileSize in doc && !FileSizeOk(doc) ==> r == Err(DocumentError(UnexpectedType)))
    ensures IdOk(doc) && CreateTimeOk(doc) && ExpireAtOk(doc) && MimeTypeOk(doc, isMime) && FileSizeOk(doc) ==>
              && (FileName !in doc ==> r == Err(DocumentError(NotPresent)))
              && (FileName in doc && !FileNameOk(doc) ==> r == Err(DocumentError(UnexpectedType)))
    ensures HeaderOk(doc, isMime) && !FileDataOk(doc, chunkFiles) ==> r == Err(FileDataOf(doc, chunkFiles).error)
    ensures r.Ok? ==>
      r.value == FileItem(doc[Id].oid, doc[CreateTime].millis,
                          if ExpireAt in doc then Some(doc[ExpireAt].millis) else None,
                          doc[MimeType].text, I64AsU64(doc[FileSize].i64), doc[FileName].text,
                          FileDataOf(doc, chunkFiles).value)
  {
    var idField :- Required(doc, Id);
    var id :- ObjectIdOf(idField);
    var createTimeField :- Required(doc, CreateTime);
    var createTime :- DateTimeOf(createTimeField);
    var expireAt :- ExpireAtOf(doc);
    var mimeField :- Required(doc, MimeType);
    var mimeType :- MimeOf(isMime, mimeField);
    var fileSize :- AsDocumentError(GetI64(doc, FileSize));
    var fileNameField :- Required(doc, FileName);
    var fileName :- StringOf(fileNameField);
    var fileData :- FileDataOf(doc, chunkFiles);
    Ok(FileItem(id, createTime, expireAt, mimeType, I64AsU64(fileSize), fileName, fileData))
  }

  /** A record whose bytes are reachable: inline, or in a GridFS file that exists. */
  predicate Reachable(rec: FileRecord, chunkFiles: map<ObjectId, seq<byte>>) {
    rec.content.GridFs? ==> rec.content.fileId in chunkFiles
  }

  /** The bytes a reachable record stands for. */
  function StoredBytes(rec: FileRecord, chunkFiles: map<ObjectId, seq<byte>>): seq<byte>
    requires Reachable(rec, chunkFiles)
  {
    match rec.content
    case Inline(data) => data
    case GridFs(fileId) => chunkFiles[fileId]
  }

  /**
   * Decoding the document the engine stores for a record succeeds exactly
   * when its mime type parses and its bytes are reachable; the item then
   * carries the record's id, times, mime type, name and size (as u64), and
   * its data drains to the stored bytes.
   */
  lemma DecodeRecordDocument(id: ObjectId, rec: FileRecord, chunkFiles: map<ObjectId, seq<byte>>, isMime: string -> bool)
    ensures var r := CreateFileItem(RecordDocument(id, rec), chunkFiles, isMime);
      r.Ok? <==> isMime(rec.mimeType) && Reachable(rec, chunkFiles)
    ensures var r := CreateFileItem(RecordDocument(id, rec), chunkFiles, isMime);
      r.Err? ==> r.error == (if isMime(rec.mimeType) then MongoDBError(GridFsFileNotFound)
                             else DocumentError(UnexpectedType))
    ensures var r := CreateFileItem(RecordDocument(id, rec), chunkFiles, isMime);
      r.Ok? ==>
        && r.value.id == id
        && r.value.createTime == rec.createTime
        && r.value.expireAt == rec.expireAt
        && r.value.mimeType == rec.mimeType
        && r.value.fileName == rec.fileName
        && r.value.fileSize == I64AsU64(rec.fileSize)
        && ItemBytes(r.value) == Ok(StoredBytes(rec, chunkFiles))
  {
    var doc := RecordDocument(id, rec);
    assert Id in doc && CreateTime in doc && MimeType in doc && FileSize in doc && FileName in doc;
    assert (ExpireAt in doc) == rec.expireAt.Some?;
    assert (FileData in doc) == rec.content.Inline?;
    assert rec.content.GridFs? ==> FileId in doc && doc[FileId] == BObjectId(rec.content.fileId);
    if rec.content.GridFs? && rec.content.fileId in chunkFiles {
      ChunksOfRoundTrip(chunkFiles[rec.content.fileId], GRIDFS_CHUNK_SIZE);
    }
  }

  /** What `into_vec` yields for an item's data. */
  function ItemBytes(item: FileItem): Result<seq<byte>, IoError> {
    match item.fileData
    case Buffer(bytes) => Ok(bytes)
    case Stream(chunks) => StreamBytes(chunks)
  }

  /**
   * Inline data wins: when `file_data` is present, `file_id` and the GridFS
   * files play no part in the result.
   */
  lemma InlineDataWins(doc: Document, chunkFiles: map<ObjectId, seq<byte>>, chunkFiles': map<ObjectId, seq<byte>>,
                       isMime: string -> bool, fileId: Bson)
    requires FileData in doc
    ensures CreateFileItem(doc, chunkFiles, isMime)
            == CreateFileItem(doc[FileId := fileId], chunkFiles', isMime)
  {
  }
}

/**
 * The slice of BSON the engine reads and writes, the typed accessors it uses
 * on stored documents, and the engine's error kinds.
 */
module Documents {
  import opened Results
  import opened Functions
  import opened FileDataModel

  /** A MongoDB ObjectId, abstractly: ids are compared and never reused. */
  type ObjectId = nat

  /** Milliseconds since the Unix epoch (a BSON UTC datetime). */
  type Time = int

  datatype Bson =
    | BObjectId(oid: ObjectId)
    | BDateTime(millis: Time)
    | BString(text: string)
    | BInt32(i32: int)
    | BInt64(i64: int)
    | BBinary(bytes: seq<byte>)
    | BOther

  /** The fields of the engine's documents; `FieldName` gives each one's BSON name. */
  datatype Field =
    | Id | Value
    | Hash1 | Hash2 | Hash3 | Hash4 | Count | FileSize | FileName | MimeType
    | CreateTime | ExpireAt | FileData | FileId

  function FieldName(f: Field): string {
    match f
    case Id => "_id"
    case Value => "value"
    case Hash1 => "hash_1"
    case Hash2 => "hash_2"
    case Hash3 => "hash_3"
    case Hash4 => "hash_4"
    case Count => "count"
    case FileSize => "file_size"
    case FileName => "file_name"
    case MimeType => "mime_type"
    case CreateTime => "create_time"
    case ExpireAt => "expire_at"
    case FileData => "file_data"
    case FileId => "file_id"
  }

  type Document = map<Field, Bson>

  /** Why a typed read of a document field failed. */
  datatype ValueAccessError = NotPresent | UnexpectedType

  /** The database failures the model produces itself. */
  datatype DbFailure =
    | GridFsFileNotFound   // opening a GridFS file that is not in fs.files
    | DuplicateHashKey     // an insert that violates the unique (hash_1..hash_4) index

  datatype FileCenterError =
    | R2D2Error
    | MongoDBError(failure: DbFailure)
    | DocumentError(access: ValueAccessError)
    | IDTokenError(message: string)
    | FileSizeThresholdError
    | VersionError
    | DatabaseTooNewError(supportedLatest: int, current: int)
    | IOError(io: IoError)
    | MimeTypeError

  /** `Document::get_i32`. */
  function GetI32(doc: Document, key: Field): (r: Result<int, ValueAccessError>)
    ensures r.Ok? <==> key in doc && doc[key].BInt32?
    ensures r.Ok? ==> r.value == doc[key].i32
    ensures r.Err? ==> (r.error == NotPresent <==> key !in doc)
  {
    if key !in doc then Err(NotPresent)
    else match doc[key]
      case BInt32(v) => Ok(v)
      case _ => Err(UnexpectedType)
  }

  /** `Document::get_i64`. */
  function GetI64(doc: Document, key: Field): (r: Result<int, ValueAccessError>)
    ensures r.Ok? <==> key in doc && doc[key].BInt64?
    ensures r.Ok? ==> r.value == doc[key].i64
    ensures r.Err? ==> (r.error == NotPresent <==> key !in doc)
  {
    if key !in doc then Err(NotPresent)
    else match doc[key]
      case BInt64(v) => Ok(v)
      case _ => Err(UnexpectedType)
  }

  /** `Document::get_utc_datetime`. */
  function GetUtcDatetime(doc: Document, key: Field): (r: Result<Time, ValueAccessError>)
    ensures r.Ok? <==> key in doc && doc[key].BDateTime?
    ensures r.Ok? ==> r.value == doc[key].millis
    ensures r.Err? ==> (r.error == NotPresent <==> key !in doc)
  {
    if key !in doc then Err(NotPresent)
    else match doc[key]
      case BDateTime(t) => Ok(t)
      case _ => Err(UnexpectedType)
  }

  /** A typed read whose failure is reported as a `DocumentError`. */
  function AsDocumentError<T>(r: Result<T, ValueAccessError>): Result<T, FileCenterError> {
    match r
    case Ok(v) => Ok(v)
    case Err(e) => Err(DocumentError(e))
  }

  /** `i64 as u64`: the value modulo 2^64, so a negative size wraps around. */
  function I64AsU64(v: int): (u: nat)
    ensures u < TWO_64
    ensures 0 <= v < TWO_64 ==> u == v
    ensures IsI64(v) && v < 0 ==> u == v + TWO_64
  {
    v % TWO_64
  }
}

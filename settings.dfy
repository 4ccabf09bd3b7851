/**
 * Opening a file center against its settings collection: the stored file
 * size threshold, creation time and schema version, each read if present and
 * written if absent, in that order; the first failure ends the opening, and
 * what the earlier steps wrote stays written.
 */
module Settings {
  import opened Results
  import opened Documents

  const MAX_FILE_SIZE_THRESHOLD: int := 16_770_000
  const DEFAULT_FILE_SIZE_THRESHOLD: int := 261_120
  /** The schema version this engine writes and the newest it accepts. */
  const VERSION: int := 1

  const SETTING_FILE_SIZE_THRESHOLD: string := "file_size_threshold"
  const SETTING_CREATE_TIME: string := "create_time"
  const SETTING_VERSION: string := "version"

  /** The settings collection: its documents, by `_id`. */
  type SettingsCollection = map<string, Document>

  /** A threshold the engine accepts: in (0, MAX_FILE_SIZE_THRESHOLD]. */
  predicate ValidThreshold(t: int) {
    0 < t <= MAX_FILE_SIZE_THRESHOLD
  }

  /** The document `{ _id: name, value: value }`. */
  function SettingDocument(name: string, value: Bson): Document {
    map[Id := BString(name), Value := value]
  }

  /** What an opened file center keeps from its settings. */
  datatype Config = Config(fileSizeThreshold: int, createTime: Time, version: int)

  /** One step of opening: the settings after it, and its value or the error that ends the opening. */
  datatype Step<T> = Step(settings: SettingsCollection, result: Result<T, FileCenterError>)

  /** The bounds check applied to a stored, an initial and a newly set threshold. */
  function CheckThreshold(t: int): (r: Result<int, FileCenterError>)
    ensures r.Ok? <==> ValidThreshold(t)
    ensures r.Ok? ==> r.value == t
    ensures r.Err? ==> r.error == FileSizeThresholdError
  {
    if t > MAX_FILE_SIZE_THRESHOLD || t <= 0 then Err(FileSizeThresholdError) else Ok(t)
  }

  /** The stored-version guard. */
  function CheckVersion(v: int): (r: Result<int, FileCenterError>)
    ensures r.Ok? <==> 0 < v <= VERSION
    ensures r.Ok? ==> r.value == v
    ensures v <= 0 ==> r == Err(VersionError)
    ensures v > VERSION ==> r == Err(DatabaseTooNewError(VERSION, v))
  {
    if v <= 0 then Err(VersionError)
    else if v > VERSION then Err(DatabaseTooNewError(VERSION, v))
    else Ok(v)
  }

  /** Settings `o` keeps every setting of `s` as it was. */
  predicate Keeps(s: SettingsCollection, o: SettingsCollection) {
    forall name :: name in s ==> name in o && o[name] == s[name]
  }

  /**
   * The threshold step: a stored threshold is read and checked, and nothing
   * is written; an absent one is written as `initial`, unchecked. The value
   * answered is the one the settings hold afterwards.
   */
  function LoadThreshold(s: SettingsCollection, initial: int): (t: Step<int>)
    ensures Keeps(s, t.settings) && t.settings.Keys == s.Keys + {SETTING_FILE_SIZE_THRESHOLD}
    ensures SETTING_FILE_SIZE_THRESHOLD in s ==> t.settings == s
    ensures SETTING_FILE_SIZE_THRESHOLD !in s ==> t.result == Ok(initial)
    ensures SETTING_FILE_SIZE_THRESHOLD in s && t.result.Ok? ==> ValidThreshold(t.result.value)
    ensures t.result.Ok? ==> GetI32(t.settings[SETTING_FILE_SIZE_THRESHOLD], Value) == Ok(t.result.value)
  {
    if SETTING_FILE_SIZE_THRESHOLD in s then
      var t := AsDocumentError(GetI32(s[SETTING_FILE_SIZE_THRESHOLD], Value));
      Step(s, if t.Err? then t else CheckThreshold(t.value))
    else
      Step(s[SETTING_FILE_SIZE_THRESHOLD := SettingDocument(SETTING_FILE_SIZE_THRESHOLD, BInt32(initial))],
           Ok(initial))
  }

  /** The creation-time step: a stored time is read; an absent one is written as `now`. */
  function LoadCreateTime(s: SettingsCollection, now: Time): (c: Step<Time>)
    ensures Keeps(s, c.settings) && c.settings.Keys == s.Keys + {SETTING_CREATE_TIME}
    ensures SETTING_CREATE_TIME in s ==> c.settings == s
    ensures SETTING_CREATE_TIME !in s ==> c.result == Ok(now)
    ensures c.result.Ok? ==> GetUtcDatetime(c.settings[SETTING_CREATE_TIME], Value) == Ok(c.result.value)
  {
    if SETTING_CREATE_TIME in s then
      Step(s, AsDocumentError(GetUtcDatetime(s[SETTING_CREATE_TIME], Value)))
    else
      Step(s[SETTING_CREATE_TIME := SettingDocument(SETTING_CREATE_TIME, BDateTime(now))], Ok(now))
  }

  /** The version step: a stored version is read and checked; an absent one is written as VERSION. */
  function LoadVersion(s: SettingsCollection): (v: Step<int>)
    ensures Keeps(s, v.settings) && v.settings.Keys == s.Keys + {SETTING_VERSION}
    ensures SETTING_VERSION in s ==> v.settings == s
    ensures SETTING_VERSION !in s ==> v.result == Ok(VERSION)
    ensures v.result.Ok? ==> 0 < v.result.value <= VERSION
    ensures v.result.Ok? ==> GetI32(v.settings[SETTING_VERSION], Value) == Ok(v.result.value)
  {
    if SETTING_VERSION in s then
      var v := AsDocumentError(GetI32(s[SETTING_VERSION], Value));
      Step(s, if v.Err? then v else CheckVersion(v.value))
    else
      Step(s[SETTING_VERSION := SettingDocument(SETTING_VERSION, BInt32(VERSION))], Ok(VERSION))
  }

  /**
   * The settings part of opening a file center with an initial threshold,
   * which is not checked here; `now` is the clock reading.
   */
  function OpenSettings(s: SettingsCollection, initial: int, now: Time): (o: Step<Config>)
    ensures Keeps(s, o.settings)
    ensures o.settings.Keys <= s.Keys + {SETTING_FILE_SIZE_THRESHOLD, SETTING_CREATE_TIME, SETTING_VERSION}
    ensures o.result.Ok? ==> 0 < o.result.value.version <= VERSION
  {
    var t := LoadThreshold(s, initial);
    if t.result.Err? then Step(t.settings, Err(t.result.error))
    else
      var c := LoadCreateTime(t.settings, now);
      if c.result.Err? then Step(c.settings, Err(c.result.error))
      else
        var v := LoadVersion(c.settings);
        if v.result.Err? then Step(v.settings, Err(v.result.error))
        else Step(v.settings, Ok(Config(t.result.value, c.result.value, v.result.value)))
  }

  /** `FileCenter::new`: opens with the default initial threshold. */
  function New(s: SettingsCollection, now: Time): (o: Step<Config>)
    ensures Keeps(s, o.settings)
    ensures o.result.Ok? ==> Settled(o.settings) && o.result.value == StoredConfig(o.settings)
    ensures o.result.Ok? && SETTING_FILE_SIZE_THRESHOLD !in s ==>
              o.result.value.fileSizeThreshold == DEFAULT_FILE_SIZE_THRESHOLD
  {
    OpenSettingsOk(s, DEFAULT_FILE_SIZE_THRESHOLD, now);
    OpenSettings(s, DEFAULT_FILE_SIZE_THRESHOLD, now)
  }

  /** `FileCenter::new_with_file_size_threshold`: the initial threshold is checked before anything is read. */
  function NewWithFileSizeThreshold(s: SettingsCollection, initial: int, now: Time): (o: Step<Config>)
    ensures !ValidThreshold(initial) ==> o == Step(s, Err(FileSizeThresholdError))
  {
    if initial > MAX_FILE_SIZE_THRESHOLD || initial <= 0 then Step(s, Err(FileSizeThresholdError))
    else OpenSettings(s, initial, now)
  }

  // ---------------------------------------------------------------------------
  // The settings an opening leaves behind
  // ---------------------------------------------------------------------------

  /** All three settings are present and hold values the engine accepts. */
  predicate Settled(s: SettingsCollection) {
    && SETTING_FILE_SIZE_THRESHOLD in s
    && GetI32(s[SETTING_FILE_SIZE_THRESHOLD], Value).Ok?
    && ValidThreshold(GetI32(s[SETTING_FILE_SIZE_THRESHOLD], Value).value)
    && SETTING_CREATE_TIME in s
    && GetUtcDatetime(s[SETTING_CREATE_TIME], Value).Ok?
    && SETTING_VERSION in s
    && GetI32(s[SETTING_VERSION], Value).Ok?
    && 0 < GetI32(s[SETTING_VERSION], Value).value <= VERSION
  }

  /** The configuration that settled settings stand for. */
  function StoredConfig(s: SettingsCollection): Config
    requires Settled(s)
  {
    Config(GetI32(s[SETTING_FILE_SIZE_THRESHOLD], Value).value,
           GetUtcDatetime(s[SETTING_CREATE_TIME], Value).value,
           GetI32(s[SETTING_VERSION], Value).value)
  }

  /**
   * A successful opening leaves settled settings that stand for the returned
   * configuration; its threshold is the stored one when one is stored and
   * the initial one otherwise, and a stored threshold is always in bounds.
   */
  lemma OpenSettingsOk(s: SettingsCollection, initial: int, now: Time)
    requires ValidThreshold(initial)
    ensures var o := OpenSettings(s, initial, now);
      o.result.Ok? ==> Settled(o.settings) && o.result.value == StoredConfig(o.settings)
    ensures var o := OpenSettings(s, initial, now);
      o.result.Ok? ==>
        o.result.value.fileSizeThreshold ==
          (if SETTING_FILE_SIZE_THRESHOLD in s then s[SETTING_FILE_SIZE_THRESHOLD][Value].i32 else initial)
  {
    var t := LoadThreshold(s, initial);
    if t.result.Ok? {
      var c := LoadCreateTime(t.settings, now);
      assert SETTING_FILE_SIZE_THRESHOLD in c.settings
        && c.settings[SETTING_FILE_SIZE_THRESHOLD] == t.settings[SETTING_FILE_SIZE_THRESHOLD];
      if c.result.Ok? {
        var v := LoadVersion(c.settings);
        assert v.settings[SETTING_FILE_SIZE_THRESHOLD] == t.settings[SETTING_FILE_SIZE_THRESHOLD];
        assert v.settings[SETTING_CREATE_TIME] == c.settings[SETTING_CREATE_TIME];
      }
    }
  }

  /**
   * A stored threshold out of bounds, or not an int32, ends the opening with
   * the matching error before anything is written.
   */
  lemma StoredThresholdRejected(s: SettingsCollection, initial: int, now: Time)
    requires SETTING_FILE_SIZE_THRESHOLD in s
    ensures var doc := s[SETTING_FILE_SIZE_THRESHOLD];
      GetI32(doc, Value).Ok? && !ValidThreshold(doc[Value].i32) ==>
        OpenSettings(s, initial, now) == Step(s, Err(FileSizeThresholdError))
    ensures var doc := s[SETTING_FILE_SIZE_THRESHOLD];
      GetI32(doc, Value).Err? ==>
        OpenSettings(s, initial, now) == Step(s, Err(DocumentError(GetI32(doc, Value).error)))
  {
  }

  /**
   * Once the threshold and creation time are read or written, the stored
   * version decides: none is written as VERSION; one at most 0 is a
   * VersionError, one above VERSION a DatabaseTooNewError, and any other is
   * accepted. Neither of the rejections writes the version.
   */
  lemma VersionGuard(s: SettingsCollection, initial: int, now: Time)
    requires LoadThreshold(s, initial).result.Ok?
    requires LoadCreateTime(LoadThreshold(s, initial).settings, now).result.Ok?
    ensures var o := OpenSettings(s, initial, now);
      SETTING_VERSION !in s ==>
        o.result.Ok? && o.result.value.version == VERSION
        && o.settings[SETTING_VERSION] == SettingDocument(SETTING_VERSION, BInt32(VERSION))
    ensures var o := OpenSettings(s, initial, now);
      SETTING_VERSION in s && GetI32(s[SETTING_VERSION], Value).Ok? ==>
        var v := s[SETTING_VERSION][Value].i32;
        && (v <= 0 ==> o.result == Err(VersionError))
        && (v > VERSION ==> o.result == Err(DatabaseTooNewError(VERSION, v)))
        && (0 < v <= VERSION ==> o.result.Ok? && o.result.value.version == v)
        && (o.result.Err? ==> SETTING_VERSION in o.settings && o.settings[SETTING_VERSION] == s[SETTING_VERSION])
  {
    var t := LoadThreshold(s, initial);
    var c := LoadCreateTime(t.settings, now);
    assert SETTING_VERSION in s <==> SETTING_VERSION in c.settings;
    if SETTING_VERSION in s {
      assert c.settings[SETTING_VERSION] == s[SETTING_VERSION];
    }
  }

  /**
   * Opening again on the settings a successful opening left reads back the
   * same configuration and writes nothing, whatever the initial threshold
   * and the clock say.
   */
  lemma ReopenIsStable(s: SettingsCollection, initial: int, now: Time, initial': int, now': Time)
    requires ValidThreshold(initial)
    requires OpenSettings(s, initial, now).result.Ok?
    ensures var o := OpenSettings(s, initial, now);
      OpenSettings(o.settings, initial', now') == o
  {
    OpenSettingsOk(s, initial, now);
    var o := OpenSettings(s, initial, now);
    SettledOpensAsStored(o.settings, initial', now');
  }

  /** Settled settings open as the configuration they stand for, unchanged. */
  lemma SettledOpensAsStored(s: SettingsCollection, initial: int, now: Time)
    requires Settled(s)
    ensures OpenSettings(s, initial, now) == Step(s, Ok(StoredConfig(s)))
  {
  }

  // ---------------------------------------------------------------------------
  // set_file_size_threshold
  // ---------------------------------------------------------------------------

  /** The upsert of `{ $set: { value: t } }` on the threshold setting. */
  function UpsertThreshold(s: SettingsCollection, t: int): (s': SettingsCollection)
    ensures SETTING_FILE_SIZE_THRESHOLD in s' && GetI32(s'[SETTING_FILE_SIZE_THRESHOLD], Value) == Ok(t)
    ensures forall name :: name in s && name != SETTING_FILE_SIZE_THRESHOLD ==> name in s' && s'[name] == s[name]
    ensures s'.Keys == s.Keys + {SETTING_FILE_SIZE_THRESHOLD}
  {
    var doc := if SETTING_FILE_SIZE_THRESHOLD in s then s[SETTING_FILE_SIZE_THRESHOLD]
               else map[Id := BString(SETTING_FILE_SIZE_THRESHOLD)];
    s[SETTING_FILE_SIZE_THRESHOLD := doc[Value := BInt32(t)]]
  }

  /**
   * A threshold set on settled settings is what the next opening reads
   * back, with the other settings as they were.
   */
  lemma SetThresholdPersists(s: SettingsCollection, t: int, initial: int, now: Time)
    requires Settled(s) && ValidThreshold(t)
    ensures OpenSettings(UpsertThreshold(s, t), initial, now).result
            == Ok(StoredConfig(s).(fileSizeThreshold := t))
  {
    UpsertThresholdSettled(s, t);
    SettledOpensAsStored(UpsertThreshold(s, t), initial, now);
  }

  /** Setting a valid threshold keeps the settings settled and changes only the stored threshold. */
  lemma UpsertThresholdSettled(s: SettingsCollection, t: int)
    requires Settled(s) && ValidThreshold(t)
    ensures Settled(UpsertThreshold(s, t))
    ensures StoredConfig(UpsertThreshold(s, t)) == StoredConfig(s).(fileSizeThreshold := t)
  {
    var s' := UpsertThreshold(s, t);
    assert s'[SETTING_CREATE_TIME] == s[SETTING_CREATE_TIME];
    assert s'[SETTING_VERSION] == s[SETTING_VERSION];
  }
}

/** The preference store of config.py: one output mode, kept under the key
    `mode` of a JSON record that is read from and written back to a file. */
module Preferences {
  import opened Wrappers

  /** `OutputMode` (config.py:9-12). */
  datatype OutputMode = PlainText | MarkdownReference

  /** The string token a mode is stored as (the member's `value`). */
  function Token(m: OutputMode): string {
    match m
    case PlainText => "plain_text"
    case MarkdownReference => "markdown_reference"
  }

  /** A decoded JSON value. Numbers keep only an integer, since the model
      only ever compares values with mode tokens. */
  datatype Json =
    | JNull
    | JBool(b: bool)
    | JNumber(n: int)
    | JString(s: string)
    | JArray(items: seq<Json>)
    | JObject(fields: map<string, Json>)

  /** `OutputMode(v)` (config.py:56): the member whose value is `v`, or
      nothing when the constructor would raise `ValueError`. */
  function ModeOf(v: Json): (r: Option<OutputMode>)
    ensures r.Some? ==> v == JString(Token(r.value))
    ensures r.None? ==> forall m: OutputMode :: v != JString(Token(m))
  {
    if v == JString(Token(PlainText)) then Some(PlainText)
    else if v == JString(Token(MarkdownReference)) then Some(MarkdownReference)
    else None
  }

  /** Every mode survives being stored as its token and read back. */
  lemma TokenRoundTrip(m: OutputMode)
    ensures ModeOf(JString(Token(m))) == Some(m)
  {
  }

  /** The key the mode is stored under. */
  const ModeKey: string := "mode"

  /** The record used when no usable file exists (config.py:40-42). */
  const DefaultRecord: map<string, Json> := map[ModeKey := JString(Token(PlainText))]

  /** A `Config` object: the record it holds in memory. */
  datatype Config = Config(record: map<string, Json>)

  /** What reading the configuration file yields. */
  datatype ConfigFile =
    | Absent      // the file does not exist
    | Unreadable  // opening or reading raises an `IOError` (`OSError`)
    | NotUtf8     // the bytes are not UTF-8: reading raises `UnicodeDecodeError`
    | NotJson     // `json.load` raises `JSONDecodeError`
    | Parsed(value: Json)

  /** The exceptions the as-written code lets escape. */
  datatype PyError = UnicodeDecodeError | AttributeError

  /** `_load_config` as written (config.py:30-42): only `JSONDecodeError`
      and `IOError` fall back to the default, and whatever JSON value the
      file holds becomes the record, object or not. */
  function LoadAsWritten(f: ConfigFile): (r: Result<Json, PyError>)
    ensures r.Failure? <==> f == NotUtf8
    ensures f.Parsed? ==> r == Success(f.value)
    ensures !f.Parsed? && r.Success? ==> r.value == JObject(DefaultRecord)
  {
    match f
    case Absent => Success(JObject(DefaultRecord))
    case Unreadable => Success(JObject(DefaultRecord))
    case NotUtf8 => Failure(UnicodeDecodeError)
    case NotJson => Success(JObject(DefaultRecord))
    case Parsed(v) => Success(v)
  }

  /** `get_mode` as written (config.py:52-58): `self.config.get` raises
      `AttributeError` unless the record is a JSON object. */
  function GetModeAsWritten(record: Json): (r: Result<OutputMode, PyError>)
    ensures r.Failure? <==> !record.JObject?
    ensures r.Success? ==> r.value == GetMode(Config(record.fields))
  {
    match record
    case JObject(fields) => Success(GetMode(Config(fields)))
    case _ => Failure(AttributeError)
  }

  /** A configuration file holding invalid UTF-8 makes loading raise. */
  lemma NotUtf8Raises()
    ensures LoadAsWritten(NotUtf8) == Failure(UnicodeDecodeError)
  {
  }

  /** A configuration file holding the JSON text `[]` loads, and then every
      `get_mode` raises. */
  lemma NonObjectRaises()
    ensures LoadAsWritten(Parsed(JArray([]))) == Success(JArray([]))
    ensures GetModeAsWritten(JArray([])) == Failure(AttributeError)
  {
  }

  /** `_load_config` as intended: every file that does not hold a JSON
      object gives the default record. It agrees with the as-written loader
      wherever that one yields an object. */
  function Load(f: ConfigFile): (r: map<string, Json>)
    ensures LoadAsWritten(f).Success? && LoadAsWritten(f).value.JObject? ==>
              r == LoadAsWritten(f).value.fields
    ensures !(LoadAsWritten(f).Success? && LoadAsWritten(f).value.JObject?) ==>
              r == DefaultRecord
  {
    match f
    case Parsed(JObject(fields)) => fields
    case _ => DefaultRecord
  }

  /** `Config()` (config.py:21-24), with the intended loader. */
  function NewConfig(f: ConfigFile): (c: Config)
    ensures f == Absent ==> c.record == DefaultRecord
    ensures f.Parsed? && f.value.JObject? ==> c.record == f.value.fields
  {
    Config(Load(f))
  }

  /** `get_mode` (config.py:52-58): the stored token decides, and anything
      but the markdown token, a missing key included, means plain text. */
  function GetMode(c: Config): (m: OutputMode)
    ensures m == MarkdownReference <==>
              (ModeKey in c.record && c.record[ModeKey] == JString(Token(MarkdownReference)))
    ensures ModeKey !in c.record ==> m == PlainText
  {
    var stored := if ModeKey in c.record then c.record[ModeKey] else JString(Token(PlainText));
    match ModeOf(stored)
    case Some(m) => m
    case None => PlainText
  }

  /** The intended store never fails: a freshly loaded configuration is in
      markdown mode exactly when the file holds an object whose `mode` is the
      markdown token, and in plain-text mode in every other case. */
  lemma LoadedMode(f: ConfigFile)
    ensures GetMode(NewConfig(f)) == MarkdownReference <==>
              (&& f.Parsed? && f.value.JObject?
               && ModeKey in f.value.fields
               && f.value.fields[ModeKey] == JString(Token(MarkdownReference)))
  {
  }

  /** Where the as-written store works, the intended one gives the same mode. */
  lemma LoadedModeAgrees(f: ConfigFile)
    requires LoadAsWritten(f).Success?
    requires GetModeAsWritten(LoadAsWritten(f).value).Success?
    ensures GetModeAsWritten(LoadAsWritten(f).value).value == GetMode(NewConfig(f))
  {
  }

  /** The in-memory half of `set_mode` (config.py:62): only the `mode` entry
      changes, and it now holds the new mode's token. */
  function SetMode(c: Config, m: OutputMode): (r: Config)
    ensures GetMode(r) == m
    ensures r.record.Keys == c.record.Keys + {ModeKey}
    ensures forall k :: k in c.record && k != ModeKey ==> r.record[k] == c.record[k]
  {
    Config(c.record[ModeKey := JString(Token(m))])
  }

  /** `_save_config` (config.py:44-50): a successful write leaves the file
      holding the record; a failed one is only reported, and the file is
      left as it was. */
  function Save(c: Config, file: ConfigFile, writable: bool): (r: ConfigFile)
    ensures writable ==> r == Parsed(JObject(c.record))
    ensures !writable ==> r == file
  {
    if writable then Parsed(JObject(c.record)) else file
  }

  /** `set_mode` (config.py:60-63): the new in-memory configuration and the
      file after the save attempt. The session reads the new mode, no other
      entry changes, and a successful save leaves a file that loads back as
      exactly the new configuration; a failed one leaves the file alone. */
  function SetModeAndSave(c: Config, m: OutputMode, file: ConfigFile, writable: bool): (r: (Config, ConfigFile))
    ensures GetMode(r.0) == m
    ensures r.0.record.Keys == c.record.Keys + {ModeKey}
    ensures forall k :: k in c.record && k != ModeKey ==> r.0.record[k] == c.record[k]
    ensures writable ==> NewConfig(r.1) == r.0
    ensures !writable ==> r.1 == file
  {
    var c' := SetMode(c, m);
    (c', Save(c', file, writable))
  }

  /** After `set_mode(m)` the session reads `m` back whether or not the save
      succeeded, and after a successful save a restart reads `m` as well. */
  lemma SetModePersists(c: Config, m: OutputMode, file: ConfigFile, writable: bool)
    ensures GetMode(SetModeAndSave(c, m, file, writable).0) == m
    ensures writable ==> GetMode(NewConfig(SetModeAndSave(c, m, file, writable).1)) == m
  {
  }

  /** `get_mode_display_name` (config.py:65-71). */
  function DisplayName(c: Config): (name: string)
    ensures name == "Plain Text Mode" <==> GetMode(c) == PlainText
    ensures name == "Markdown Reference Mode" <==> GetMode(c) == MarkdownReference
  {
    match GetMode(c)
    case PlainText => "Plain Text Mode"
    case MarkdownReference => "Markdown Reference Mode"
  }
}

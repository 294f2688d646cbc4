/** `load_config` as written, including two ways a file that exists makes
    it raise instead of falling back to the defaults: the `except` clause
    catches only `OSError` and `JSONDecodeError`. Exceptions raised by the
    JSON library's own limits are not modelled. */
module AsWritten {
  import opened Wrappers
  import opened Values
  import ConfigStore

  /** The exceptions that escape `load_config`. */
  datatype Raised = TypeError | UnicodeDecodeError

  /** What `load_config` as written hands back, or raises. */
  datatype Loaded =
    | LoadedDoc(doc: Doc)           // a dictionary: the configuration
    | LoadedOther(value: Json)      // a non-dictionary returned unchanged
    | Raises(error: Raised)

  /** Python's `needle in haystack` on two strings: a substring test. */
  function ContainsSubstring(haystack: string, needle: string): bool
    decreases |haystack|
  {
    (|needle| <= |haystack| && haystack[..|needle|] == needle)
    || (|haystack| > 0 && ContainsSubstring(haystack[1..], needle))
  }

  /** Python's `key in value` on a JSON value that is not an object; `None`
      when the value is not iterable (`null`, a boolean, a number) and the
      test raises TypeError. */
  function PyContains(value: NonObjectJson, key: string): Option<bool> {
    match value
    case JStr(s) => Some(ContainsSubstring(s, key))
    case JArr(items) => Some(JStr(key) in items)
    case _ => None
  }

  /** The back-filling loop run on a value that is not a dictionary: a failed
      membership test raises, and so does assigning a missing key into a list
      or a string; a value that "contains" both keys is returned as it is. */
  function FillNonObject(value: NonObjectJson): (r: Loaded)
    ensures r.Raises? || r == LoadedOther(value)
    ensures r.Raises? ==> r.error == TypeError
    ensures !(value.JArr? || value.JStr?) ==> r == Raises(TypeError)
    ensures value.JArr? ==> (r == LoadedOther(value) <==>
      JStr(RepositoriesKey) in value.items && JStr(SettingsKey) in value.items)
    ensures value.JStr? ==> (r == LoadedOther(value) <==>
      ContainsSubstring(value.s, RepositoriesKey) && ContainsSubstring(value.s, SettingsKey))
  {
    if PyContains(value, RepositoriesKey) != Some(true) then Raises(TypeError)
    else if PyContains(value, SettingsKey) != Some(true) then Raises(TypeError)
    else LoadedOther(value)
  }

  /** `load_config` as written. It agrees with the fail-safe load exactly on
      the files it handles (missing, unreadable or not JSON, and objects), and
      never yields a configuration for the others. */
  function LoadAsWritten(f: File): (r: Loaded)
    ensures r.LoadedDoc? <==> (f.Absent? || f.Corrupt? || f.Stored?)
    ensures r.LoadedDoc? ==> r.doc == ConfigStore.Load(f)
    ensures f.Undecodable? ==> r == Raises(UnicodeDecodeError)
  {
    match f
    case Absent => LoadedDoc(ConfigStore.DefaultConfig)
    case Corrupt => LoadedDoc(ConfigStore.DefaultConfig)
    case Undecodable => Raises(UnicodeDecodeError)
    case NonObject(v) => FillNonObject(v)
    case Stored(d) => LoadedDoc(ConfigStore.Backfill(d))
  }

  /** A file holding `[]` makes `load_config` raise TypeError, where the
      fail-safe load gives the default configuration. */
  lemma EmptyArrayRaises()
    ensures LoadAsWritten(NonObject(JArr([]))) == Raises(TypeError)
    ensures ConfigStore.Load(NonObject(JArr([]))) == ConfigStore.DefaultConfig
  {
  }

  /** A file holding `["custom_repositories", "settings"]` is returned as a
      list, which no later operation can use as a configuration. */
  lemma KeyListLoadsAsList()
    ensures var v := JArr([JStr(RepositoriesKey), JStr(SettingsKey)]);
      LoadAsWritten(NonObject(v)) == LoadedOther(v)
  {
  }

  /** A file whose bytes are not UTF-8 makes `load_config` raise
      UnicodeDecodeError, where the fail-safe load gives the default. */
  lemma UndecodableRaises()
    ensures LoadAsWritten(Undecodable) == Raises(UnicodeDecodeError)
    ensures ConfigStore.Load(Undecodable) == ConfigStore.DefaultConfig
  {
  }
}

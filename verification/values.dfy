/** The values the configuration store keeps: JSON values, the top-level
    document held in `config.json`, and the abstract state of that file. */
module Values {
  import opened Wrappers

  /** A JSON value as the JSON library hands it back (numbers are integers only). */
  datatype Json =
    | JNull
    | JBool(b: bool)
    | JInt(i: int)
    | JStr(s: string)
    | JArr(items: seq<Json>)
    | JObj(fields: map<string, Json>)

  /** A well-formed JSON value that is not an object. */
  type NonObjectJson = v: Json | !v.JObj? witness JNull

  const RepositoriesKey: string := "custom_repositories"
  const SettingsKey: string := "settings"

  /** The two top-level keys the store knows about. */
  const ReservedKeys: set<string> := {RepositoriesKey, SettingsKey}

  /** A top-level JSON object seen through the store's schema: the two known
      keys, each possibly absent, and every other top-level key untouched. */
  datatype Document = Document(
    repositories: Option<seq<string>>,
    settings: Option<map<string, int>>,
    others: map<string, Json>)

  /** A document in which the known keys are not repeated among the others. */
  type Doc = d: Document | d.others.Keys !! ReservedKeys witness Document(None, None, map[])

  /** Both known keys are present: the shape of the `Config` record. */
  predicate Complete(d: Document) {
    d.repositories.Some? && d.settings.Some?
  }

  /** What the configuration file holds, as far as loading it can tell. */
  datatype File =
    | Absent                           // no file at the path
    | Corrupt                          // reading fails (OSError) or the text is not JSON
    | Undecodable                      // the bytes are not UTF-8
    | NonObject(value: NonObjectJson)  // valid JSON whose top-level value is not an object
    | Stored(doc: Doc)                 // a JSON object

  function RepositoriesJson(urls: seq<string>): Json {
    JArr(seq(|urls|, i requires 0 <= i < |urls| => JStr(urls[i])))
  }

  function SettingsJson(settings: map<string, int>): Json {
    JObj(map k | k in settings :: JInt(settings[k]))
  }

  /** The document as the dictionary the program holds: its top-level keys and values. */
  function ToObject(d: Doc): map<string, Json> {
    var withRepositories :=
      if d.repositories.Some? then d.others[RepositoriesKey := RepositoriesJson(d.repositories.value)]
      else d.others;
    if d.settings.Some? then withRepositories[SettingsKey := SettingsJson(d.settings.value)]
    else withRepositories
  }
}

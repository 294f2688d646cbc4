/** `oh_my_theme/config.py`: every operation loads the file, works on the
    loaded document and, when it mutates, saves the whole document back.
    Each operation is a pure transition from a file state to a result and
    the file state left behind. */
module ConfigStore {
  import opened Wrappers
  import opened Values
  import opened RepositoryList

  /** The settings seeded into a fresh configuration. */
  const DefaultSettings: map<string, int> := map["cache_expiry" := 300, "max_cache_size" := 50]

  /** The configuration used when the file is missing or cannot be read. */
  const DefaultConfig: Doc := Document(Some([]), Some(DefaultSettings), map[])

  /** How the environment answers one attempt to write the file: the write
      succeeds, or it fails and leaves the file in a state the model does not
      predict (possibly truncated), supplied by the caller. */
  datatype WriteOutcome = Written | WriteFailed(leftBehind: File)

  /** The result of an operation together with the file state after it. */
  datatype Step<R> = Step(result: R, file: File)

  /** The top-level merge of `defaults` into `obj`: every key of `obj` keeps
      its value, and a default is taken only for a key `obj` lacks. */
  function MergeMissing(obj: map<string, Json>, defaults: map<string, Json>): map<string, Json> {
    map k | k in obj.Keys + defaults.Keys :: if k in obj then obj[k] else defaults[k]
  }

  /** The back-filling loop of `load_config`: walks the default keys in
      `order` and assigns a default only to a key the loaded object lacks. */
  method FillMissing(config: map<string, Json>, defaults: map<string, Json>, order: seq<string>)
    returns (filled: map<string, Json>)
    requires forall i :: 0 <= i < |order| ==> order[i] in defaults
    requires forall k :: k in defaults ==> k in order
    ensures filled == MergeMissing(config, defaults)
  {
    filled := config;
    var i := 0;
    while i < |order|
      invariant 0 <= i <= |order|
      invariant filled.Keys == config.Keys + set j | 0 <= j < i :: order[j]
      invariant forall k :: k in config ==> k in filled && filled[k] == config[k]
      invariant forall k :: k in filled && k !in config ==> k in defaults && filled[k] == defaults[k]
    {
      var key := order[i];
      if key !in filled {
        filled := filled[key := defaults[key]];
      }
      i := i + 1;
    }
    assert forall k :: k in defaults ==> exists j :: 0 <= j < |order| && order[j] == k;
  }

  /** The same back-filling on a stored document: each known key that is
      absent gets its default; present keys and all other keys are kept. */
  function Backfill(d: Doc): (c: Doc)
    ensures Complete(c)
    ensures c.others == d.others
    ensures d.repositories.Some? ==> c.repositories == d.repositories
    ensures d.settings.Some? ==> c.settings == d.settings
    ensures d.repositories.None? ==> c.repositories == Some([])
    ensures d.settings.None? ==> c.settings == Some(DefaultSettings)
  {
    Document(
      if d.repositories.Some? then d.repositories else DefaultConfig.repositories,
      if d.settings.Some? then d.settings else DefaultConfig.settings,
      d.others)
  }

  /** `load_config`. A missing file, a file that cannot be read and a file that
      does not hold a JSON object all give the full default configuration;
      a stored object is back-filled at the top level only. */
  function Load(f: File): (c: Doc)
    ensures Complete(c)
    ensures !f.Stored? ==>
      c.repositories == Some([]) && c.others == map[]
      && c.settings == Some(DefaultSettings)
    ensures f.Stored? ==> c.others == f.doc.others
    ensures f.Stored? && f.doc.repositories.Some? ==> c.repositories == f.doc.repositories
    ensures f.Stored? && f.doc.settings.Some? ==> c.settings == f.doc.settings
    ensures f.Stored? && f.doc.repositories.None? ==> c.repositories == Some([])
    ensures f.Stored? && f.doc.settings.None? ==>
      c.settings == Some(DefaultSettings)
  {
    match f
    case Stored(d) => Backfill(d)
    case _ => DefaultConfig
  }

  /** `save_config`: the whole document is written over the file. */
  function Save(config: Doc, w: WriteOutcome): (s: Step<bool>)
    ensures s.result <==> w.Written?
    ensures w.Written? ==> Load(s.file) == Backfill(config)
  {
    match w
    case Written => Step(true, Stored(config))
    case WriteFailed(leftBehind) => Step(false, leftBehind)
  }

  /** `get_custom_repositories`, with its fallback to an empty list. */
  function GetCustomRepositories(f: File): (urls: seq<string>)
    ensures f.Stored? && f.doc.repositories.Some? ==> urls == f.doc.repositories.value
    ensures !(f.Stored? && f.doc.repositories.Some?) ==> urls == []
  {
    var config := Load(f);
    if config.repositories.Some? then config.repositories.value else []
  }

  /** `add_custom_repository`: a URL already listed is refused without a
      save; otherwise it is appended last and the save's outcome returned. */
  function AddCustomRepository(f: File, url: string, w: WriteOutcome): (s: Step<bool>)
    ensures url in GetCustomRepositories(f) ==> s == Step(false, f)
    ensures url !in GetCustomRepositories(f) ==> (s.result <==> w.Written?)
    ensures url !in GetCustomRepositories(f) && w.Written? ==>
      && GetCustomRepositories(s.file) == GetCustomRepositories(f) + [url]
      && Load(s.file).settings == Load(f).settings
      && Load(s.file).others == Load(f).others
  {
    var config := Load(f);
    var urls := config.repositories.value;
    if url !in urls then
      Save(config.(repositories := Some(urls + [url])), w)
    else
      Step(false, f)
  }

  /** `remove_custom_repository`: a URL not listed is refused without a
      save; otherwise its first occurrence is deleted and the save's outcome
      returned. */
  function RemoveCustomRepository(f: File, url: string, w: WriteOutcome): (s: Step<bool>)
    ensures url !in GetCustomRepositories(f) ==> s == Step(false, f)
    ensures url in GetCustomRepositories(f) ==> (s.result <==> w.Written?)
    ensures url in GetCustomRepositories(f) && w.Written? ==>
      && GetCustomRepositories(s.file) == RemoveFirst(GetCustomRepositories(f), url)
      && |GetCustomRepositories(s.file)| == |GetCustomRepositories(f)| - 1
      && Load(s.file).settings == Load(f).settings
      && Load(s.file).others == Load(f).others
  {
    var config := Load(f);
    var urls := config.repositories.value;
    if url in urls then
      Save(config.(repositories := Some(RemoveFirst(urls, url))), w)
    else
      Step(false, f)
  }

  /** `get_setting`: the stored value of `key`, or the caller's default
      (itself possibly `None`) when the key is not set. */
  function GetSetting(f: File, key: string, default: Option<int>): (r: Option<int>)
    ensures f.Stored? && f.doc.settings.Some? ==>
      r == (if key in f.doc.settings.value then Some(f.doc.settings.value[key]) else default)
    ensures !(f.Stored? && f.doc.settings.Some?) ==>
      r == (if key in DefaultSettings then Some(DefaultSettings[key]) else default)
  {
    var config := Load(f);
    var settings := if config.settings.Some? then config.settings.value else map[];
    if key in settings then Some(settings[key]) else default
  }

  /** `set_setting`: writes one key of the settings and saves. */
  function SetSetting(f: File, key: string, value: int, w: WriteOutcome): (s: Step<bool>)
    ensures s.result <==> w.Written?
    ensures w.Written? ==>
      && Load(s.file).settings == Some(Load(f).settings.value[key := value])
      && Load(s.file).repositories == Load(f).repositories
      && Load(s.file).others == Load(f).others
  {
    var config := Load(f);
    var settings := if config.settings.None? then map[] else config.settings.value;
    Save(config.(settings := Some(settings[key := value])), w)
  }
}

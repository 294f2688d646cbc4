/** Properties that relate several operations of the configuration store:
    loading after saving, the top-level merge, the set-like repository list
    and the settings map. */
module ConfigProperties {
  import opened Wrappers
  import opened Values
  import opened RepositoryList
  import opened ConfigStore

  /** A missing file, an unreadable file and a stored empty object all load
      as the default: no repositories and the two seeded settings. */
  lemma LoadDefaults()
    ensures Load(Absent) == Load(Corrupt) == Load(Stored(Document(None, None, map[])))
    ensures Load(Absent).repositories == Some([])
    ensures Load(Absent).settings == Some(DefaultSettings)
  {
  }

  /** Loading is the top-level merge of the stored object with the default
      object: present keys, `settings` included, keep their values and no
      key is removed; nothing is merged below the top level. */
  lemma LoadIsTopLevelMerge(d: Doc)
    ensures ToObject(Load(Stored(d))) == MergeMissing(ToObject(d), ToObject(DefaultConfig))
  {
  }

  /** A stored `settings` object lacking a seeded key does not get it back:
      the caller's default is returned for that key. */
  lemma NoDeepMergeOfSettings(d: Doc, default: Option<int>)
    requires d.settings.Some? && "cache_expiry" !in d.settings.value
    ensures GetSetting(Stored(d), "cache_expiry", default) == default
  {
  }

  /** After any load both known keys are present, so the fallbacks of
      `get_custom_repositories`, `get_setting` and `set_setting` never apply. */
  lemma FallbacksNeverFire(f: File, key: string, default: Option<int>, value: int, w: WriteOutcome)
    ensures GetCustomRepositories(f) == Load(f).repositories.value
    ensures SetSetting(f, key, value, w)
      == Save(Load(f).(settings := Some(Load(f).settings.value[key := value])), w)
    ensures GetSetting(f, key, default)
      == (if key in Load(f).settings.value then Some(Load(f).settings.value[key]) else default)
  {
  }

  /** A complete configuration that was saved successfully loads back unchanged. */
  lemma LoadAfterSave(config: Doc)
    requires Complete(config)
    ensures Load(Save(config, Written).file) == config
  {
  }

  /** Loading what was loaded changes nothing: back-filling is idempotent. */
  lemma LoadIsIdempotent(f: File)
    ensures Load(Stored(Load(f))) == Load(f)
  {
  }

  /** Adding the same URL twice: the second call is refused without touching
      the file, and a list without duplicates ends with exactly one copy. */
  lemma AddTwice(f: File, url: string, w: WriteOutcome)
    requires NoDuplicates(GetCustomRepositories(f))
    ensures var first := AddCustomRepository(f, url, Written);
      && multiset(GetCustomRepositories(first.file))[url] == 1
      && NoDuplicates(GetCustomRepositories(first.file))
      && AddCustomRepository(first.file, url, w) == Step(false, first.file)
  {
    var urls := GetCustomRepositories(f);
    if url in urls {
      PresentOccursOnce(urls, url);
    } else {
      AppendAbsentKeepsNoDuplicates(urls, url);
    }
  }

  /** Successful adds and removes keep the repository list free of duplicates. */
  lemma UpdatesKeepNoDuplicates(f: File, url: string)
    requires NoDuplicates(GetCustomRepositories(f))
    ensures NoDuplicates(GetCustomRepositories(AddCustomRepository(f, url, Written).file))
    ensures NoDuplicates(GetCustomRepositories(RemoveCustomRepository(f, url, Written).file))
  {
    var urls := GetCustomRepositories(f);
    if url !in urls {
      AppendAbsentKeepsNoDuplicates(urls, url);
    }
    RemoveFirstKeepsNoDuplicates(urls, url);
  }

  /** Removing a listed URL keeps the other entries in their order: the new
      list is the old one with the first occurrence cut out, and in a list
      without duplicates no copy of the URL remains. */
  lemma RemoveCutsFirstOccurrence(f: File, url: string)
    requires url in GetCustomRepositories(f)
    ensures var urls := GetCustomRepositories(f);
      var i := IndexOf(urls, url);
      GetCustomRepositories(RemoveCustomRepository(f, url, Written).file) == urls[..i] + urls[i + 1..]
    ensures NoDuplicates(GetCustomRepositories(f)) ==>
      url !in GetCustomRepositories(RemoveCustomRepository(f, url, Written).file)
  {
    RemoveFirstIsSplice(GetCustomRepositories(f), url, IndexOf(GetCustomRepositories(f), url));
    if NoDuplicates(GetCustomRepositories(f)) {
      RemoveFirstKeepsNoDuplicates(GetCustomRepositories(f), url);
    }
  }

  /** Removing a URL right after adding it restores the repository list. */
  lemma RemoveUndoesAdd(f: File, url: string)
    requires url !in GetCustomRepositories(f)
    ensures var added := AddCustomRepository(f, url, Written);
      GetCustomRepositories(RemoveCustomRepository(added.file, url, Written).file)
        == GetCustomRepositories(f)
  {
    RemoveFirstUndoesAppend(GetCustomRepositories(f), url);
  }

  /** A saved `set_setting(key, value)` is read back by `get_setting(key, _)`;
      every other key reads as before, and the repository list is kept. */
  lemma SetThenGet(f: File, key: string, value: int, other: string, default: Option<int>)
    ensures var s := SetSetting(f, key, value, Written);
      && GetSetting(s.file, key, default) == Some(value)
      && (other != key ==> GetSetting(s.file, other, default) == GetSetting(f, other, default))
      && GetCustomRepositories(s.file) == GetCustomRepositories(f)
  {
  }

  /** Starting without a file, adding a URL creates a file holding that URL
      and the default settings; adding it again is refused and changes nothing. */
  lemma FirstRunScenario(url: string, w: WriteOutcome)
    ensures var first := AddCustomRepository(Absent, url, Written);
      && first == Step(true, Stored(Document(Some([url]), Some(DefaultSettings), map[])))
      && AddCustomRepository(first.file, url, w) == Step(false, first.file)
  {
    assert GetCustomRepositories(Absent) + [url] == [url];
  }
}

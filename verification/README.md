# Oh My Theme configuration store, in Dafny

Oh My Theme keeps one JSON file, `~/.config/oh-my-theme/config.json`. It holds a
list of custom repository URLs (`custom_repositories`) and a map of named
integer settings (`settings`). Every operation in `oh_my_theme/config.py` loads
the file; the mutating ones then save the whole document back, except when an
add or a remove is refused. This project models those rules as pure functions
over an abstract file state:

- `File = Absent | Corrupt | Undecodable | NonObject(json) | Stored(doc)` is
  what loading the file can see. `Corrupt` covers both an `OSError` on read and
  text that is not JSON.
- A `Doc` is the top-level JSON object seen through the store's schema: an
  optional repository list, an optional settings map, and every other top-level
  key kept untouched.
- `Load` is `load_config` with the two corrections listed under "## Findings".
  It fills in defaults only for missing top-level keys. A missing or unreadable
  file gives the full default (no repositories, plus `cache_expiry = 300` and
  `max_cache_size = 50`). So does a file that is not UTF-8, or one whose JSON
  value is not an object. `load_config` as written raises on most of those, and
  returns a list or string holding both key names unchanged
  (`AsWritten.LoadAsWritten`, `AsWritten.FillNonObject`).
- Each operation is a transition `(File, arguments) → Step(result, File')`.
- `save_config` takes a `WriteOutcome` parameter. `Written` means the file then
  holds the document. `WriteFailed(leftBehind)` means the environment picks the
  file state, so the model claims nothing about the file after a failed write.

Modules:
- `Wrappers` (`wrappers.dfy`): `Option`, for a missing key or a `None` default.
- `Values` (`values.dfy`): JSON values, documents, file states, and the
  document seen as a plain dictionary (`ToObject`).
- `RepositoryList` (`repository_list.dfy`): the list rules behind add and
  remove. These are `list.remove` as `RemoveFirst`, the first-occurrence index,
  and the no-duplicates invariant.
- `ConfigStore` (`config_store.dfy`): the operations of `config.py`.
- `ConfigProperties` (`config_properties.dfy`): lemmas that relate several
  operations.
- `AsWritten` (`as_written.dfy`): `load_config` as written on the two kinds of
  file behind the findings below.

The defensive fallbacks in `get_custom_repositories` (`.get(..., [])`),
`get_setting` (`.get("settings", {})`) and `set_setting` (`if "settings" not in
config`) are modelled literally. `Load`'s contract shows that after a load both
keys are always present, so these fallbacks never apply.

## Model

| member | source | states |
|---|---|---|
| ConfigStore.Load | oh_my_theme/config.py:27-54 | Both known keys are always present in the result. A file that is missing, unreadable or not a JSON object gives an empty repository list, the settings {cache_expiry: 300, max_cache_size: 50} and no other keys. For a stored object, other top-level keys are kept, a present repository list or settings map is returned unchanged, a missing list becomes `[]`, and missing settings become {cache_expiry: 300, max_cache_size: 50}. |
| ConfigStore.FillMissing | oh_my_theme/config.py:46-49 | The back-filling loop over the default keys gives exactly the top-level merge: keys of the loaded object keep their values, and missing keys take the default. |
| ConfigStore.Backfill | oh_my_theme/config.py:46-51 | Back-filling a stored document makes it complete. It keeps the other keys, and keeps any repository list or settings map already present. A missing list becomes `[]`, and missing settings become {cache_expiry: 300, max_cache_size: 50}. |
| ConfigStore.Save | oh_my_theme/config.py:57-74 | The result is true exactly when the write succeeds. After a successful write, loading the file gives back the saved document, back-filled. |
| ConfigStore.GetCustomRepositories | oh_my_theme/config.py:115-123 | Returns the stored list when the file holds one, and the empty list otherwise. |
| ConfigStore.AddCustomRepository | oh_my_theme/config.py:77-93 | A URL already listed returns false and leaves the file state unchanged, with no save. Otherwise the result is the save's outcome. On success the listed URLs are the old ones in order with the URL appended last, and the settings and other keys are unchanged. |
| ConfigStore.RemoveCustomRepository | oh_my_theme/config.py:96-112 | A URL not listed returns false and leaves the file state unchanged. Otherwise the result is the save's outcome. On success the list has its first occurrence of the URL removed and is one shorter, and the settings and other keys are unchanged. |
| ConfigStore.GetSetting | oh_my_theme/config.py:126-138 | Returns the stored value of the key when the stored settings hold it, and the caller's default (possibly None) when they do not. Without a stored settings map, only the two seeded keys have values. |
| ConfigStore.SetSetting | oh_my_theme/config.py:141-157 | The result is true exactly when the write succeeds. On success the loaded settings are the old ones with this one key set, and the repository list and other keys are unchanged. |
| RepositoryList.IndexOf | oh_my_theme/config.py:108-109 | Gives the position of the first occurrence: the entry there is the URL, and no earlier entry is. |
| RepositoryList.RemoveFirst | oh_my_theme/config.py:109 | `list.remove` on a present entry makes the list one shorter and takes out exactly one copy, as a multiset. A list without the entry is left as it is. |
| RepositoryList.RemoveFirstIsSplice | oh_my_theme/config.py:108-109 | If position `i` holds the URL and no earlier entry does, removing cuts out exactly position `i` and keeps every other entry in order. |
| RepositoryList.RemoveFirstUndoesAppend | oh_my_theme/config.py:89-90 | If an entry was absent, appending it and then removing it gives the original list back. |
| RepositoryList.AppendAbsentKeepsNoDuplicates | oh_my_theme/config.py:89-90 | Appending only absent URLs keeps the list free of duplicates, and the new URL occurs exactly once. |
| RepositoryList.PresentOccursOnce | oh_my_theme/config.py:89-93 | In a list without duplicates, a present URL occurs exactly once. |
| RepositoryList.RemoveFirstKeepsNoDuplicates | oh_my_theme/config.py:108-109 | Removing from a list without duplicates keeps it so, and leaves no copy of the removed URL. |
| ConfigProperties.LoadDefaults | oh_my_theme/config.py:34-40 | A missing file, an unreadable file and a stored `{}` all load as the same default configuration. |
| ConfigProperties.LoadIsTopLevelMerge | oh_my_theme/config.py:46-51 | The loaded object, as a dictionary, is the top-level merge of the stored object with the default object. No key is removed and no present value is changed. |
| ConfigProperties.NoDeepMergeOfSettings | oh_my_theme/config.py:46-51 | A stored settings map without `cache_expiry` does not get the seeded value back: `get_setting("cache_expiry", d)` returns `d`. |
| ConfigProperties.FallbacksNeverFire | oh_my_theme/config.py:123-157 | The list reader, the setting reader and `set_setting` behave exactly as if their fallbacks for a missing key were not there, so those fallbacks never apply. |
| ConfigProperties.LoadAfterSave | oh_my_theme/config.py:57-74 | A complete configuration that was saved successfully loads back equal. |
| ConfigProperties.LoadIsIdempotent | oh_my_theme/config.py:46-51 | Loading a stored copy of a loaded configuration gives it back unchanged. |
| ConfigProperties.AddTwice | oh_my_theme/config.py:89-93 | Start from a list without duplicates. After adding a URL, it occurs exactly once and the list still has no duplicates. Adding it again returns false and leaves the file state unchanged. |
| ConfigProperties.UpdatesKeepNoDuplicates | oh_my_theme/config.py:89-110 | Successful adds and removes keep a duplicate-free list duplicate-free. |
| ConfigProperties.RemoveCutsFirstOccurrence | oh_my_theme/config.py:108-110 | A successful remove cuts only the first occurrence and keeps the other URLs in order. For a duplicate-free list, the URL is then gone. |
| ConfigProperties.RemoveUndoesAdd | oh_my_theme/config.py:89-110 | If a URL was absent, adding it and then removing it (both saved) restores the original list. |
| ConfigProperties.SetThenGet | oh_my_theme/config.py:138 | After a saved `set_setting(k, v)`, `get_setting(k, _)` returns `v`. Every other key reads as before, and the repository list is unchanged. |
| ConfigProperties.FirstRunScenario | oh_my_theme/config.py:87-93 | With no file, adding a URL creates a file that holds just that URL and the default settings. Adding the same URL again returns false and changes nothing. |
| AsWritten.LoadAsWritten | oh_my_theme/config.py:42-54 | As written, `load_config` agrees with `Load` on missing, unreadable and object files. It never yields a configuration for a file that is not UTF-8, which raises UnicodeDecodeError, or for one whose JSON value is not an object. |
| AsWritten.FillNonObject | oh_my_theme/config.py:47-51 | The back-filling loop run on a JSON value that is not an object either raises TypeError or returns the value as it is. `null`, booleans and numbers always raise. A list is returned exactly when it holds both key names as strings. A string is returned exactly when it contains both key names as substrings. |
| AsWritten.EmptyArrayRaises | oh_my_theme/config.py:47-49 | A file holding `[]` makes `load_config` raise TypeError, while the fail-safe `Load` gives the default. |
| AsWritten.KeyListLoadsAsList | oh_my_theme/config.py:47-51 | A file holding `["custom_repositories", "settings"]` is returned as a list, not a configuration. |
| AsWritten.UndecodableRaises | oh_my_theme/config.py:42-44 | A file that is not UTF-8 makes `load_config` raise UnicodeDecodeError, while the fail-safe `Load` gives the default. |

## Left out

- Paths and directories: `CONFIG_DIR`, `CONFIG_FILE`, `expanduser` and `ensure_config_dir` (lines 12-13, 21-24). The file is the abstract `File` state. A failure of `os.makedirs` propagates as an exception, and this is not modelled.
- JSON text: parsing, serialisation and `indent=2` formatting (lines 44, 71). These are an opaque library. A parse failure is the `Corrupt` state, and the order of keys inside the written object is not modelled.
- ConfigStore.Save: the file left by a failed write (partly written or truncated) is whatever the caller's `WriteFailed(leftBehind)` says. `OSError` details are dropped.
- Documents whose known keys hold the wrong JSON type, such as `"settings": 5` or a non-string URL, are not modelled. `Doc` types `custom_repositories` as a list of strings and `settings` as a map to integers.
- JSON numbers other than integers (floats), both as setting values and inside other keys.
- Limits of the JSON library, such as nesting depth or the integer-digit limit, make `json.load` raise exceptions (RecursionError, ValueError) that line 53 does not catch. The model treats such text as parsed, so `AsWritten.LoadAsWritten` does not cover them.
- ConfigStore.Save: `json.dump` at line 71 can raise an exception other than `OSError`, which line 73 does not catch. One case is a ValueError for an integer of more than 4300 digits, under Python's integer-digit limit. The file has already been opened for writing and is left truncated. The model's write either succeeds or fails with a boolean and never raises.
- ConfigStore.SetSetting: for the same reason, `set_setting(key, value)` with such a huge `value` raises out of the module and leaves a truncated file. The model returns `s.result <==> w.Written?` for every value.
- Concurrent writers racing on the file. The module assumes a single writer.
- The return annotation `bool | None` of the mutating operations. The code only ever returns a boolean, and so does the model.

## Findings

| source | as written | input that shows it | evidently intended | confidence | as-written member | corrected member |
|---|---|---|---|---|---|---|
| oh_my_theme/config.py:47-54 | The back-filling loop runs `key not in config` and `config[key] = value` on whatever JSON value was parsed. This raises TypeError, which the `except (OSError, json.JSONDecodeError)` clause does not catch. The exception is a list or string that contains both key names: it passes both `not in` tests and is returned as it is, which no later operation can use as a configuration. | A file containing `[]` | A file that does not hold a configuration object gets the full default, as for a malformed file | medium, not executed | AsWritten.EmptyArrayRaises | ConfigStore.Load |
| oh_my_theme/config.py:42-54 | Reading text whose bytes are not UTF-8 raises UnicodeDecodeError. This is a ValueError, neither an OSError nor a JSONDecodeError, so it escapes `load_config`. | A file whose only byte is 0xFF | An unreadable file gets the full default | medium, not executed | AsWritten.UndecodableRaises | ConfigStore.Load |

`AsWritten.LoadAsWritten` models both paths as written. The rest of the model
uses `ConfigStore.Load`, which gives the default configuration for every file
state other than `Stored` (its second postcondition). So every operation behaves
as if these files were malformed.

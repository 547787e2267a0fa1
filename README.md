# hana, modelled in Dafny

hana is a small static-site generator. A `Hana` object holds a master `FileSet` (a map
from output filename to `File`) and a list of plugins, each registered with optional
glob patterns. `_process` runs each plugin in turn on `files.filter(patterns)`: a
child `FileSet` that holds the matching entries and passes every `add`, `remove` and
`rename` on to its parent. As written, each of the three skips an empty parent; see
"## Findings" and "## Left out". A `File` is a dict of attributes. An `FSFile` loads its
`contents` from disk on first access. It probes the file in 1024-byte chunks to decide
whether it is binary. Separately, `hana/metadata.py` offers `MD`, a builder for
metadata predicates: `MD.title == "x"`, `MD.date < 5`, `MD.tags.in_([...])`,
evaluated with `eval(v)`.

The model has seven modules:

- `Errors` — the exceptions the core raises, as outcomes: KeyError, TypeError,
  UnicodeDecodeError and HanaMissingOutputDirectoryError.
- `Values` — the attribute values (None, integers, text, bytes, lists), with the Python
  operations the core applies to them: truthiness, `'\0' in x`, `in` on strings, `<` on
  strings and `str()`.
- `Chains` — pure functions on the chain of maps a `FileSet` and its ancestors hold.
  These are what an add, remove, rename or filter made through a view does to every
  level, and what a plugin's sequence of such calls does.
- `Files` — class `File`, for both `File` and `FSFile`: the lazy load, the cached binary
  probe, and the chunked NUL scan as a loop.
- `FileSets` — class `FileSet`, whose methods follow the parent chain recursively and
  are specified by the `Chains` functions on the chain of maps.
- `Pipeline` — class `Hana`: construction and validation, `plugin`, and `_process` as a
  loop proved against a function over the registration list.
- `Metadata` — class `MD`, whose builder methods mutate and return the same instance,
  plus a pure `Apply` over an operator enum.

Foreign pieces are parameters:

- the gitwildmatch compiler of `pathspec` is `compile: seq<string> -> (string -> bool)`;
- the bytes of a disk file and the UTF-8 decoder are fields of `Files.Backing`;
- a plugin is the script of adds, removes and renames it makes through its view.

Dict iteration order is unspecified, and nothing in the model depends on it: `filter`
picks its keys with `:|`.

Three behaviours are modelled as the code has them:

- The ordering operators of `MD` put the bound value on the LEFT. `eval(v)` is
  `op(value, v)`, so `MD.after < 5` accepts exactly the `v` with `5 < v`
  (`Metadata.ComparisonMeaning`, `Metadata.BoundValueOnLeftExample`).
- `Hana(configuration=...)` with a truthy configuration raises TypeError.
  `_load_configuration` is declared without `self`, so calling it with one argument
  fails.
- `FSFile("")` reaches a bare `raise` with no active exception. Python 2 reports that
  as TypeError.

## Model

| member | source | states |
|---|---|---|
| Values.ContainsNul | hana/core.py:183 | `'\0' in v` is defined, without raising, exactly for text, bytes and lists; numbers and None raise TypeError |
| Values.IsSubstringIffOccurs | hana/metadata.py:80 | the substring test used by `in` on strings holds exactly when the needle occurs at some offset of the hay |
| Values.StrLessIsLexicographic | hana/metadata.py:55-73 | Python `<` on strings is the lexicographic order: a proper prefix, or a smaller character at the first difference |
| Values.StrLessTrichotomy | hana/metadata.py:55-73 | `<` on strings is trichotomous: `a < b` exactly when neither `a == b` nor `b < a` |
| Values.StrLessTransitive | hana/metadata.py:55-73 | `<` on strings is transitive, so with trichotomy it is a strict total order |
| Values.ParseNatOfNatToString | hana/metadata.py:92 | the decimal digits `str()` produces for a natural number read back as that number |
| Values.IntToStringInjective | hana/metadata.py:92 | `str()` of integers is injective: two integers with the same decimal string are equal |
| Chains.AddThrough | hana/core.py:142-146 | the corrected add of "## Findings": an add through a view writes `k := f` on every level of the parent chain and changes nothing else |
| Chains.AddKeepsNested | hana/core.py:142-146 | an add through a view keeps every level a sub-map of the next (the view stays a sub-map of its parent) |
| Chains.AddSize | hana/core.py:142-143 | storing a key grows the map by one exactly when the key was new |
| Chains.AddThroughAsWritten | hana/core.py:142-146 | the add as written: the view always gets `k := f`, each ancestor either gets the same write or is left as it was, and nothing above an empty parent changes |
| Chains.AsWrittenAddIsLost | hana/core.py:145-146 | as written, an add through a view whose parent is empty is not passed on: the view holds the key, the parent does not, and the view is no longer a sub-map of its parent |
| Chains.AsWrittenAddAgreesBelowNonEmptyParents | hana/core.py:145-146 | when every ancestor is non-empty, the add as written is the same as the add passed on to every ancestor |
| Chains.RemoveThrough | hana/core.py:149-153 | remove passed on to every ancestor: it succeeds exactly when every level holds the key, and then the key is gone from every level; the only error is KeyError; a level either loses just the key or is left as it was |
| Chains.RemoveThroughAsWritten | hana/core.py:149-153 | remove with `if self._parent:` as written: the only error is KeyError, a level either loses just the key or is left as it was, success needs the key in the view, and below an empty parent it succeeds exactly when the view holds the key and leaves every ancestor as it was |
| Chains.RemoveNested | hana/core.py:149-153 | on a nested chain, remove succeeds exactly when the key is in the view; then the key is gone from every level; KeyError leaves every level unchanged; nesting is kept |
| Chains.AsWrittenRemoveAgreesWhenNested | hana/core.py:152-153 | on a nested chain, the parent test `if self._parent:` as written changes nothing for remove |
| Chains.RenameThrough | hana/core.py:155-159 | rename passed on to every ancestor: it succeeds exactly when every level holds the old name; the only error is KeyError; each level either moves its own File from the old name to the new one or is left as it was |
| Chains.RenameThroughAsWritten | hana/core.py:155-159 | rename with `if self._parent:` as written: the same per-level effect and KeyError as `Chains.RenameThrough`, success needs the old name in the view, and below an empty parent it succeeds exactly when the view holds it and leaves every ancestor as it was |
| Chains.RenameNested | hana/core.py:155-159 | on a nested chain, rename succeeds exactly when the old name is in the view; then every level moves the view's File from the old name to the new one, overwriting it; KeyError leaves every level unchanged; nesting is kept |
| Chains.RenameOntoItself | hana/core.py:156 | renaming a name to itself leaves the map as it was |
| Chains.AsWrittenRenameAgreesWhenNested | hana/core.py:158-159 | on a nested chain, the parent test as written changes nothing for rename |
| Chains.AsWrittenRemoveAndRenameBelowEmptyParent | hana/core.py:149-159 | below an empty parent (which only the lost add leaves), `remove` and `rename` as written skip the parent and return normally, while the model's propagation raises KeyError at the parent |
| Chains.Select | hana/core.py:131-139 | the filtered map holds exactly the entries whose names match, with the same Files: a sub-map of the source |
| Chains.OverlayOfSubMapIsIdentity | hana/core.py:135-137 | re-adding a sub-map of a nested chain's bottom level through that chain changes no level: filtering leaves the parent unchanged |
| Chains.ApplyOp | hana/core.py:142-159 | one `add`, `remove` or `rename` call a plugin makes on its view, with the corrected propagation: an add never raises, and the others raise nothing but KeyError |
| Chains.ApplyOps | hana/core.py:142-159 | a plugin's calls in order, the first KeyError ending them: KeyError is the only error, and a script of adds alone never raises |
| Chains.ApplyOpReachesTop | hana/core.py:142-159 | with the corrected add of "## Findings", one successful add, remove or rename through a nested chain keeps it nested and leaves the top map exactly as if the call had been made on the top set itself |
| Chains.ApplyOpsReachesTop | hana/core.py:142-159 | the same, with the corrected add, for any sequence of successful calls made through a view |
| Files.ContentsAreBinary | hana/core.py:177-183 | a plain File is binary when its contents are falsy or hold a NUL; missing contents raise KeyError |
| Files.ProbeVerdict | hana/core.py:231-244 | what the chunk probe leaves in `_is_binary` when it starts from None: False exactly when the file holds no NUL and at least one full chunk was read (`Files.ScanForNul` is proved to compute it) |
| Files.ProbeTruthyIffNul | hana/core.py:231-246 | the chunk probe's verdict is truthy exactly when the bytes hold a NUL; a text file shorter than one chunk leaves None, one of at least one chunk False |
| Files.ScanForNul | hana/core.py:233-244 | the chunked `while True` loop computes exactly the probe verdict |
| Files.LoadedContents | hana/core.py:248-254 | contents are the raw bytes when the probe says binary, otherwise the decoded text, UnicodeDecodeError when decoding fails |
| Files.ProbedCache | hana/core.py:229-246 | the `_is_binary` cache after a probe of an unloaded file: a cached verdict is kept, and from None it becomes True exactly when the bytes hold a NUL |
| Files.File.constructor | hana/core.py:169-172 | a plain File holds the given attributes and counts as loaded |
| Files.File.OnDisk | hana/core.py:213-215 | a disk file starts unloaded, with no cached verdict and no load made |
| Files.File.OpenFS | hana/core.py:207-215 | `FSFile(filename, ...)` fails with TypeError exactly when the filename is empty; otherwise it starts unloaded with no cached verdict |
| Files.File.Set | hana/core.py:169 | `f[key] = value` updates that one attribute |
| Files.File.LoadContents | hana/core.py:248-256 | probe (if not yet cached), then store the contents and set `loaded`; one more load when it succeeds; a decoding error leaves it unloaded |
| Files.File.Get | hana/core.py:217-221 | reading `contents` of an unloaded disk file loads it first; every other read is a lookup that changes nothing and raises KeyError for a missing key |
| Files.File.IsBinary | hana/core.py:224-246 | a plain File uses its contents; a loaded disk file resets the cache and answers `'\0' in contents`; an unloaded one probes only while the cache is None and returns the cache |
| Files.ReadContentsTwice | hana/core.py:217-221 | two reads of `contents` make at most one load, and the second read sees what the first returned |
| FileSets.FileSet.constructor | hana/core.py:102-104 | a new set is empty and has no parent |
| FileSets.FileSet.Child | hana/core.py:102-104 | a child set is empty and points to its parent |
| FileSets.FileSet.Contains | hana/core.py:112-113 | `filename in fs` holds exactly when `fs[filename]` does not raise |
| FileSets.FileSet.Length | hana/core.py:109-110 | `len(fs)`, which also decides the truthiness `if self._parent:` tests, is zero exactly for an empty set |
| FileSets.FileSet.Get | hana/core.py:115-116 | `fs[k]` is the File stored under `k`, KeyError when there is none |
| FileSets.FileSet.Add | hana/core.py:142-146 | after `add(k, f)`, `k` maps to `f`, no other key changes, the length grows by one only for a new key, and every ancestor gets the same write |
| FileSets.FileSet.AddAsWritten | hana/core.py:142-146 | `add` with `if self._parent:` as written: the write reaches the ancestors only up to the first empty one |
| FileSets.FileSet.Remove | hana/core.py:149-153 | KeyError with nothing changed when the key is absent; otherwise the key is gone, the length drops by one, and the ancestors do the same |
| FileSets.FileSet.Rename | hana/core.py:155-159 | KeyError with nothing changed when the old name is absent; otherwise the new name holds the File from the old name, the old name is gone (unless the two are equal), and the ancestors do the same |
| FileSets.FileSet.Filter | hana/core.py:124-139 | no patterns give back this very set; otherwise a fresh child holds exactly the matching entries with the same Files, and every ancestor map ends as it was on a nested chain |
| FileSets.FileSet.AddMatch | hana/core.py:136-137 | one `fm.add(filename, f)` of the loop of `filter`: the view gains the entry, this set's own map is unchanged, and the chain stays the start chain with the view's entries laid over it |
| FileSets.FilterThenAdd | hana/core.py:124-146 | a view made by `filter` is a sub-map of its parent, an add through it with the corrected add reaches the whole chain, and the view stays a sub-map afterwards |
| Pipeline.PatternsOf | hana/core.py:40-44 | the pattern list stored: None for no pattern, a `str` wrapped in a one-element list, a `unicode` string left unwrapped (it fails `isinstance(pattern, str)`), so the patterns `pathspec` reads are its characters, and a list kept |
| Pipeline.UnicodePatternIsSplit | hana/core.py:41-42 | `u'*.md'` becomes the patterns `'*'`, `'.'`, `'m'`, `'d'`, while `'*.md'` becomes `['*.md']`, and `u''` leaves no pattern |
| Pipeline.ValidateConfiguration | hana/core.py:32-34 | validation passes exactly when an output directory is given and non-empty, and otherwise fails with HanaMissingOutputDirectoryError |
| Pipeline.RunPlugin | hana/core.py:68 | one iteration of `_process` with the corrected add of "## Findings": the script runs on the chain of the plugin's view, and the master map is the chain's last level afterwards |
| Pipeline.RunPlugins | hana/core.py:66-68 | `_process` over the registrations, with the corrected add: each plugin runs on the map the earlier ones left, and the first that raises stops the rest |
| Pipeline.RunPluginsAppend | hana/core.py:66-68 | registration order is run order: a plugin registered last runs on the set all earlier plugins left, and only when none of them raised |
| Pipeline.ViewChain | hana/core.py:124-139 | the chain a plugin's view sees ends in the master set and is nested |
| Pipeline.PluginActsOnMaster | hana/core.py:66-68 | a plugin that completes changes the master set exactly as its calls would if made on the master set directly |
| Pipeline.AsWrittenPluginAddIsLost | hana/core.py:145-146 | on a fresh pipeline, a page a filtered plugin adds is lost from the master set as written, and kept by the corrected add the model runs |
| Pipeline.RemoveThroughView | hana/core.py:149-153 | a plugin that removes a file in its view removes it from the master set; removing one outside its view raises KeyError and changes nothing |
| Pipeline.Perform | hana/core.py:142-159 | one `view.add`, `view.remove` or `view.rename` call leaves the view's chain and outcome exactly as `Chains.ApplyOp` gives them |
| Pipeline.RunScript | hana/core.py:68 | a plugin's calls take effect on the view's chain one after another, and the first KeyError ends the plugin |
| Pipeline.Hana.Init | hana/core.py:18-26 | a new pipeline has the given output, no plugins, no metadata and an empty file set |
| Pipeline.Hana.Create | hana/core.py:13-26 | a truthy configuration raises TypeError; otherwise a missing or empty output raises HanaMissingOutputDirectoryError; it succeeds exactly when neither applies |
| Pipeline.Hana.Plugin | hana/core.py:40-44 | the registration is appended at the end with `Pipeline.PatternsOf` of the pattern: a single `str` pattern is wrapped in a one-element list, and a `unicode` one gives one pattern per character |
| Pipeline.Hana.Process | hana/core.py:66-68 | the plugins run in registration order, each on `files.filter(patterns)`; the master set ends as the registrations, applied in turn, make it, and the first exception stops the run |
| Metadata.Apply | hana/metadata.py:45-100 | each operator applied to (bound value, value under test): equality, lexicographic or numeric order, containment and its negation, prefix and suffix of `str()` |
| Metadata.ComparisonMeaning | hana/metadata.py:55-73 | `<` compares the bound value (left) with the value under test: numerically or lexicographically; `>` swaps the operands; `<=` and `>=` are the complements of `>` and `<` |
| Metadata.MembershipMeaning | hana/metadata.py:75-86 | `in_(c)` holds exactly for a substring of a string `c` or an element of a list `c`; `nin(c)` holds for exactly the others |
| Metadata.AffixMeaning | hana/metadata.py:88-100 | `startswith(c)` holds when `str(v)` is `str(c)` followed by something; `endswith(c)` when it is something followed by `str(c)` |
| Metadata.MD.constructor | hana/metadata.py:21-30 | a string name becomes a one-element key path, a tuple is kept, and op, value and order are stored as given |
| Metadata.MD.Named | hana/metadata.py:21-30 | the defaults: no operator, value None, order `'asc'` |
| Metadata.MD.Attr | hana/metadata.py:5-6 | `MD.key` is a fresh predicate on the key path `(key,)` with the defaults, except for a key naming one of MD's own methods or `mro`, which class lookup finds before `__getattr__` runs |
| Metadata.MD.Item | hana/metadata.py:8-9 | `MD[name]` is a fresh predicate on `name` with the defaults |
| Metadata.MD.Index | hana/metadata.py:32-38 | `md[item]` appends the item to the key path and returns the same instance, changing nothing else |
| Metadata.MD.Bind | hana/metadata.py:45-100 | every predicate method overwrites operator and value and returns the same instance; key path and order are untouched |
| Metadata.MD.Asc | hana/metadata.py:113-114 | `asc()` sets the order to `'asc'` and nothing else |
| Metadata.MD.Desc | hana/metadata.py:116-117 | `desc()` sets the order to `'desc'` and nothing else |
| Metadata.MD.Eval | hana/metadata.py:121-122 | with no operator bound, `eval` raises TypeError; otherwise it applies the operator to (bound value, value under test) |

## Left out

- `Hana.build`, `_clean_output_dir`, `_create_output_dir`, `_write` and its `makedirs` (hana/core.py:46-94): filesystem output.
- The plugins shipped with hana (file loader, file writer, front matter): they sit on the filesystem and on external libraries.
- Reading the disk file and UTF-8 decoding in `_get_contents`: the bytes and the decoder are parameters (`Files.Backing`). An I/O error while reading is not modelled.
- The glob syntax of `pathspec`: the compiled matcher is a parameter.
- Pipeline.PatternsOf: an unwrapped `unicode` pattern is given as the list of its one-character strings, which is how `pathspec.PathSpec.from_lines` iterates it; the string itself is not kept.
- `_load_configuration` (hana/core.py:28-30): it is a stub. Only the TypeError that calling it raises is modelled.
- `FileSet.__iter__` and `filenames`: they expose the dict's iteration order, which Python 2 does not specify.
- `FileSetProxy` (hana/core.py:162-165): it is an empty stub.
- `File.update`, `File.setdefault` and `__repr__` (hana/core.py:174-202): dict conveniences outside the file store's behaviour; attribute writes are `Files.File.Set`.
- Metadata.MD.Attr: requires the key not to be a system-defined `__x__` name. Python reserves those names, and most of them resolve to attributes of `object` or `type`.
- `MD.match` (hana/metadata.py:102-109): it compiles a regular expression with `re`.
- `MD.__hash__` (hana/metadata.py:40-41): Python hashing.
- Metadata.MD.Eval: requires the operands to fit the operator, as `Metadata.Apply` does (next line).
- Metadata.Apply: Python's TypeError for operands that do not fit an operator is not returned. Instead, `Applicable` restricts the domain: ordering on two integers or two strings; `in` on a string inside a string, or any value inside a list; `str()` on None, integers and strings. Bytes containers and orderings of lists are not modelled.
- Pipeline.Hana.Process: runs on the corrected add of "## Findings". In the source an add through a view is lost while the master set is empty: on a fresh pipeline (`Pipeline.AsWrittenPluginAddIsLost`), or after a plugin removed the master's last file and then adds one.
- Pipeline.RunScript: its adds are the corrected add of "## Findings", so on an empty master they reach it where the source loses them.
- Pipeline.Perform: the same corrected add as `Pipeline.RunScript`.
- Chains.AddThrough: the corrected add of "## Findings", passed on whenever there is a parent; the source's add is `Chains.AddThroughAsWritten`, and the two agree when every ancestor is non-empty (`Chains.AsWrittenAddAgreesBelowNonEmptyParents`).
- Chains.ApplyOpReachesTop: holds for the corrected add only; as written, an add through a view of an empty set (the chain `[{}, {}]`, which is nested) leaves the top map empty.
- Chains.ApplyOpsReachesTop: the same restriction as `Chains.ApplyOpReachesTop`, for every add in the sequence.
- FileSets.FilterThenAdd: its add is the corrected add; as written, an add through a view of an empty `fs` does not reach `fs` (`Chains.AsWrittenAddIsLost`).
- Pipeline.RunPlugin: runs a plugin's calls with the corrected add, so an add made while the master set is empty reaches it, where the source loses it (`Pipeline.AsWrittenPluginAddIsLost`).
- Pipeline.RunPlugins: every registration runs with the corrected add, as in `Pipeline.RunPlugin`.
- Pipeline.PluginActsOnMaster: states the intended behaviour; as written, an add made while the master is empty does not reach it.
- FileSets.FileSet.Filter: its re-adds go through the corrected add. On a nested chain the model and the source agree and no ancestor map changes (`Chains.OverlayOfSubMapIsIdentity`). On a chain that is not nested, such as a set whose parent is still empty after a lost add, the model's re-adds write the matching entries into that parent while the source skips it.
- FileSets.FileSet.Remove: the propagation test is `parent != null`, not `if self._parent:`. On a view over an empty parent the model returns KeyError where the source pops the key and returns normally (`Chains.AsWrittenRemoveAndRenameBelowEmptyParent`). That state arises only after a lost add; on nested chains the two agree (`Chains.AsWrittenRemoveAgreesWhenNested`).
- FileSets.FileSet.Rename: the same parent test as `FileSets.FileSet.Remove`. On a view over an empty parent the model returns KeyError where the source renames and returns (`Chains.AsWrittenRemoveAndRenameBelowEmptyParent`); on nested chains the two agree (`Chains.AsWrittenRenameAgreesWhenNested`).
- Pipeline.Hana.Process: a plugin is the script of adds, removes and renames it makes through its view. Writes to File attributes and access to the `Hana` object passed as the second argument are not modelled.
- Files.File.Valid: `loads` counts completed loads. A load that fails in the decoder is not counted, and the bytes are read again on the next access.
- Print and logging statements.

## Findings

| source | as written | input that shows it | evidently intended | confidence | as-written member | corrected member |
|---|---|---|---|---|---|---|
| hana/core.py:145-146 | `if self._parent:` tests the parent's truthiness, which for a `FileSet` is `len(parent) > 0`, so an add is passed on only to a non-empty parent | a fresh `Hana` with no files, then a plugin registered with a pattern adds `"a.html"` through its view: the view holds it, the master set stays empty, and `_write` never sees the page; likewise a plugin that removes the master's only file and then adds another. A later `remove` or `rename` of such a page in the view then skips the empty parent too | `if self._parent is not None:`, so that every add reaches the root set and the view stays a sub-map of its parent | not executed | Chains.AddThroughAsWritten, Chains.AsWrittenAddIsLost, FileSets.FileSet.AddAsWritten, Pipeline.AsWrittenPluginAddIsLost, Chains.RemoveThroughAsWritten, Chains.RenameThroughAsWritten, Chains.AsWrittenRemoveAndRenameBelowEmptyParent | Chains.AddThrough, Chains.AddKeepsNested, FileSets.FileSet.Add, Chains.ApplyOpReachesTop, Chains.ApplyOpsReachesTop, FileSets.FilterThenAdd, Pipeline.RunPlugin, Pipeline.RunPlugins |

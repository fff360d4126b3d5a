# Yii2 module auto-loader, modelled in Dafny

`ModuleLoader` is a Yii2 bootstrap component. At application start it
discovers module directories under a list of configured roots
(`modules_paths`). It reads each module's `config.php` descriptor and keeps
the discovery result in the application cache under `modules_config`. It
then validates and registers every descriptor with the host application:

- a path alias;
- URL rules;
- the module itself (`setModule`);
- event handlers.

Two revisions of the class are modelled:

- `ModuleLoader.php`, the original, scans one level deep. It collects every
  root's modules into one map keyed by base path.
- `ModuleLoader-refatorado.php`, the refactored one, also scans nested
  `modules/` directories recursively. It strips `urlManagerRules` from the
  children it hands to `setModule`.

The project has these modules:

- `Basics`: `Option`.
- `OrderedMaps`: PHP's ordered arrays with string keys. Assigning to a key
  that is present replaces its value in place; assigning to a new key
  appends it.
- `Config`: the descriptors, the host calls recorded as effects, the errors
  and the pieces of `register` that are pure functions. This includes the
  alias name, the rule call and the event bindings.
- `FileTree`: the part of the file system the loader reads, as a tree of
  values.
- `Host`: the host application as a class. Its `log` records every
  registration and cache-write call in order, next to the application
  `cache`.
- `Registration`: `load` and `register` for both revisions, and the cache
  policy of `getModulesConfig`. The `Revision` parameter selects the one
  difference: whether children lose their URL rules.
- `LoaderRefactored`: the recursive `scanModulePath`, the loop over the
  roots and `getModulesConfig` of the refactored revision.
- `LoaderOriginal`: the nested loops and `getModulesConfig` of the
  original revision.
- `Revisions`: the two revisions compared.

Each loop of the source is a method with a `while` loop. It is proved equal
to a specification function of its input: a left fold over the prefix
processed so far for the scans and `load`, and a sequence comprehension over
the list for the event bindings.
Each state change is a method on `Host.App`, specified by the calls it
appends to the log. The properties are lemmas about the specification
functions. They cover:

- which layouts make discovery fail;
- which keys discovery writes and what it stores under each;
- whether root after root accumulates or replaces;
- which calls registration makes, in what order;
- where validation stops;
- when the cache is read and written.

Behaviour of the code worth knowing before reading the lemmas:

- **Debug mode.** In both revisions `YII_DEBUG` only suppresses the cache
  write. A value that is already cached is still read and loaded
  (`Registration.Bootstrap`, `Registration.CacheHitSkipsScan`).
- **Roots.** In the refactored revision each root's scan is assigned to
  `$modules` and replaces the previous root's result
  (`ModuleLoader-refatorado.php:69`). Only the last root that is a
  directory survives (`LoaderRefactored.LastRootWins`,
  `Revisions.RootsCompared`). The original revision accumulates the roots
  (`LoaderOriginal.DistinctRootsAccumulate`).
- **Nested children.** At the top level the refactored scan attaches an
  entry's children to its own descriptor, in place
  (`LoaderRefactored.TopLevelInOrder`). Inside a `modules/` directory it
  stores each child under its bare name, and attaches that child's own
  children to a separate entry keyed by the child's base path. That entry
  holds nothing but `modules` (`LoaderRefactored.SubModuleEntryStored`).
- **Error message.** The exception message is fixed for each cause and
  names no path (`Config.Message`).
- **Regular files in a root.** A regular file in a root is treated like a
  module directory without `config.php`, and the scan throws.

## Model

| member | source | states |
|---|---|---|
| OrderedMaps.Put | ModuleLoader-refatorado.php:98 | `$m[$k] = $v`: the key set grows by `k`. `k` maps to `v` and no other key changes. A new key is appended at the end; an existing key keeps its position. |
| OrderedMaps.PutLast | ModuleLoader-refatorado.php:101 | assigning to the key appended last replaces its value at the end, adding nothing |
| OrderedMaps.PutKeepsKeysDistinct | ModuleLoader-refatorado.php:98 | array assignment never creates a duplicate key |
| OrderedMaps.Lookup | ModuleLoader-refatorado.php:101 | reading `$m[$k]` finds a value exactly when `k` is one of the map's keys |
| FileTree.IsHidden | ModuleLoader-refatorado.php:84-85 | the `.` and `..` entries every `scandir` lists are skipped (also `ModuleLoader.php:64-65`) |
| FileTree.Join | ModuleLoader-refatorado.php:89 | a base path is the directory, one separator and the name |
| FileTree.JoinSplit | ModuleLoader.php:69 | base paths built from separator-free names determine the directory and the name |
| Config.ReplaceBackslashes | ModuleLoader-refatorado.php:140 | every backslash becomes a slash, nothing else changes, and no backslash remains |
| Config.AliasName | ModuleLoader-refatorado.php:139-142 | the alias is `@` followed by the namespace with backslashes replaced, or by the id when no namespace is set |
| Config.MessagesDiffer | ModuleLoader-refatorado.php:94 | the missing-`config.php` message of `Config.Message` differs from the missing-id-or-class message thrown at `:123`, so the two causes can be told apart |
| Config.HasIdAndClass | ModuleLoader-refatorado.php:122 | the check `load` makes; an entry that holds only `modules` (`Config.OnlyModules`) never passes it (also `ModuleLoader.php:99`) |
| Config.EventEffects | ModuleLoader-refatorado.php:172-179 | one `Event::on` call per entry, in list order, each the `Config.BindingOf` of that entry, none of them a cache write |
| Config.EncodingsBindAlike | ModuleLoader-refatorado.php:174-178 | `Config.BindingOf` gives a named and a positional event entry with the same class, event and handler the same `Event::on` call |
| Host.App.CacheGet | ModuleLoader-refatorado.php:54 | `cache->get` returns the stored value exactly when the key is present (`Host.CacheLookup`; PHP's `false` otherwise) and changes nothing |
| Host.App.CacheSet | ModuleLoader-refatorado.php:73 | stores the value under the key and records the write |
| Host.App.SetAlias | ModuleLoader-refatorado.php:140 | records one `setAlias` call and leaves the cache alone |
| Host.App.AddRules | ModuleLoader-refatorado.php:151 | records one `addRules` call and leaves the cache alone |
| Host.App.SetModule | ModuleLoader-refatorado.php:169 | records one `setModule` call and leaves the cache alone |
| Host.App.On | ModuleLoader-refatorado.php:175-177 | records one `Event::on` call and leaves the cache alone |
| LoaderRefactored.KeyFor | ModuleLoader-refatorado.php:97 | for a name without separator, the key holds a separator exactly at the top level: bare child names never look like base paths |
| LoaderRefactored.AttachChildren | ModuleLoader-refatorado.php:101 | `$modules[$base]['modules'] = children` replaces the field of an existing entry where it stands, or appends an entry holding only `modules` (`Config.OnlyModules`); no other key changes and no entry moves |
| LoaderRefactored.ScanModulePath | ModuleLoader-refatorado.php:79-111 | the loop over the listing, with its recursive call into `modules/`, returns exactly the specification scan `ScanEntries` |
| LoaderRefactored.ScanErrorPersists | ModuleLoader-refatorado.php:93-95 | once an entry has thrown, later entries do not change the outcome |
| LoaderRefactored.ScanSucceedsIffConforms | ModuleLoader-refatorado.php:83-101 | the scan succeeds exactly when every visible entry at every level has a `config.php`; otherwise it throws the missing-config error |
| LoaderRefactored.ScanKeys | ModuleLoader-refatorado.php:83-101 | the keys of a successful scan are exactly: each visible entry's key, plus the base path of each visible entry that has `modules/` |
| LoaderRefactored.TopLevelKeys | ModuleLoader-refatorado.php:97 | at the top level the keys are exactly the base paths of the visible entries |
| LoaderRefactored.HiddenEntryIgnored | ModuleLoader-refatorado.php:85-87 | inserting an entry whose name starts with `.` anywhere in a listing changes nothing |
| LoaderRefactored.TopLevelEntryStored | ModuleLoader-refatorado.php:97-101 | at the top level each visible entry's descriptor sits under its base path; its `modules` field is replaced by the scanned children when it has `modules/` |
| LoaderRefactored.TopLevelInOrder | ModuleLoader-refatorado.php:83-110 | a successful top-level scan is the visible entries in listing order, each under its base path with its children in its `modules` field; attaching children moves and adds nothing |
| LoaderRefactored.SubModuleEntryStored | ModuleLoader-refatorado.php:97-101 | inside `modules/`, a child's descriptor sits unchanged under its bare name; its own children go to a separate entry under its base path that holds only `modules` |
| LoaderRefactored.ScanKeysDistinct | ModuleLoader-refatorado.php:97-101 | a scan result has no duplicate key |
| LoaderRefactored.ScanRoots | ModuleLoader-refatorado.php:62-70 | the loop over the roots returns exactly the specification `ScanAllRoots` |
| LoaderRefactored.RootErrorPersists | ModuleLoader-refatorado.php:62-70 | once a root has thrown, later roots do not change the outcome |
| LoaderRefactored.LastRootWins | ModuleLoader-refatorado.php:62-70 | the loop succeeds exactly when every directory root conforms. It then returns the scan of the last directory root alone, or an empty map when no root is a directory. |
| LoaderRefactored.GetModulesConfig | ModuleLoader-refatorado.php:52-77 | the calls made, the outcome and the new cache are those of `Bootstrap` and `CacheAfter` for the refactored revision |
| Registration.StripRules | ModuleLoader-refatorado.php:156-161 | every child keeps its key, its position and every field except `urlManagerRules`, which is removed |
| Registration.StripRulesLookup | ModuleLoader-refatorado.php:156-161 | the stripped children are found under the same keys, with only their rules removed |
| Registration.StripRulesWithoutRules | ModuleLoader-refatorado.php:156-161 | children without rules pass through unchanged |
| Registration.RecordOf | ModuleLoader-refatorado.php:163-166 | the `setModule` record has the descriptor's class and one child per child of the descriptor; the original revision passes the children unchanged |
| Registration.RecordContents | ModuleLoader-refatorado.php:145-166 | the `setModule` record holds the class and the children (`Config.ChildrenOf`), `[]` when `modules` is unset. The original passes the children through; the refactored keeps their keys but removes every child's rules. |
| Registration.RegisterCallOrder | ModuleLoader-refatorado.php:136-181 | `register` first sets the alias to the base path, then calls `addRules` once with the rules and the literal `false` exactly when `urlManagerRules` is set (`Config.RuleEffects`), then sets the module under its id, then binds the events of `Config.EventsOf` (none when `events` is unset) in list order. Each stage holds exactly those calls. It makes no other call and writes no cache. |
| Registration.StagesOrdered | ModuleLoader-refatorado.php:136-181 | a call list built alias, then rules, then module, then events keeps its stages in order and holds no cache write |
| Registration.Register | ModuleLoader-refatorado.php:136-181 | appends exactly `RegisterEffects` to the log and leaves the cache unchanged |
| Registration.BindEvents | ModuleLoader-refatorado.php:172-180 | appends one `Event::on` per entry, in list order: the named keys when `class` is set, else the positional ones |
| Registration.Load | ModuleLoader-refatorado.php:117-127 | appends exactly the calls of `LoadEntries`, returns its outcome and leaves the cache unchanged |
| Registration.LoadFailurePersists | ModuleLoader-refatorado.php:122-123 | once a descriptor has failed validation, the rest are never looked at |
| Registration.LoadRegistersAll | ModuleLoader-refatorado.php:119-126 | when every descriptor has `id` and `class`, `load` registers them all in map order and returns normally |
| Registration.LoadStopsAtFirstInvalid | ModuleLoader-refatorado.php:119-126 | when descriptor `i` is the first lacking `id` or `class`, exactly the descriptors before it are registered and the id-and-class error is thrown |
| Registration.LoadPassesIffAllValid | ModuleLoader-refatorado.php:119-126 | `load` returns normally exactly when every descriptor has `id` and `class` |
| Registration.LoadWritesNoCache | ModuleLoader-refatorado.php:117-127 | `load` never writes the cache |
| Registration.RevisionsLoadAlike | ModuleLoader.php:113-149 | when no child declares URL rules, the original `register` makes exactly the same calls as the refactored one |
| Registration.CacheHitSkipsScan | ModuleLoader-refatorado.php:54-58 | on a hit the cached map is loaded whatever the file system holds, and nothing is written to the cache |
| Registration.CacheMissScans | ModuleLoader-refatorado.php:60-76 | on a miss a failing scan ends with no call at all. A successful scan is written to the cache before any registration, unless in debug mode, where nothing is written. |
| Registration.SecondBootstrapUsesCache | ModuleLoader-refatorado.php:52-77 | after a first bootstrap on an empty cache outside debug mode, a second one loads the cached map and makes the same registrations without scanning, whatever the file system then holds |
| LoaderOriginal.ScanListing | ModuleLoader.php:63-77 | one listing's loop either throws the missing-config error or keeps every key the map already had |
| LoaderOriginal.ScanRoots | ModuleLoader.php:60-79 | the nested loops over roots and listings return exactly the specification `ScanAllRoots` |
| LoaderOriginal.ListingErrorPersists | ModuleLoader.php:72-74 | once an entry has thrown, the rest of the listing is never looked at |
| LoaderOriginal.RootErrorPersists | ModuleLoader.php:60-79 | once a root has thrown, later roots are never looked at |
| LoaderOriginal.ListingSucceedsIffConforms | ModuleLoader.php:63-77 | one listing's loop succeeds exactly when every visible entry has a `config.php`; a nested `modules/` directory is not looked at |
| LoaderOriginal.RootsSucceedIffConform | ModuleLoader.php:60-79 | the scan succeeds exactly when every directory root conforms, and otherwise throws the missing-config error |
| LoaderOriginal.ListingKeysAdded | ModuleLoader.php:63-77 | a listing keeps every key the map had and adds exactly the base paths of its visible entries |
| LoaderOriginal.AllRootsKept | ModuleLoader.php:58-79 | the keys of a successful scan are exactly the base paths of the visible entries of every directory root |
| LoaderOriginal.ListingAppends | ModuleLoader.php:76 | when no base path repeats, a listing appends its descriptors, in listing order, after everything already in the map |
| LoaderOriginal.RootsAccumulate | ModuleLoader.php:58-79 | when no base path repeats, the scan is every root's descriptors, root after root |
| LoaderOriginal.ListedDistinct | ModuleLoader.php:69 | the entries of one directory give distinct base paths |
| LoaderOriginal.ListingsApart | ModuleLoader.php:69 | two different directories share no base path |
| LoaderOriginal.AllListedDistinct | ModuleLoader.php:60-76 | directory roots at distinct paths never produce the same base path twice |
| LoaderOriginal.DistinctRootsAccumulate | ModuleLoader.php:58-79 | with conforming directory roots at distinct paths, the scan keeps every root's descriptors in listing order, root after root, and loses none |
| LoaderOriginal.HiddenEntryIgnored | ModuleLoader.php:64-67 | inserting an entry whose name starts with `.` anywhere in a listing changes nothing |
| LoaderOriginal.GetModulesConfig | ModuleLoader.php:52-87 | the calls made, the outcome and the new cache are those of `Bootstrap` and `CacheAfter` for the original revision |
| Revisions.FlatScansAgree | ModuleLoader.php:63-77 | on a listing without `modules/` directories, both revisions' scans give the same map or fail alike |
| Revisions.NoDirectories | ModuleLoader.php:60-62 | when no root is a directory, both revisions discover an empty map |
| Revisions.OneFlatRootAgrees | ModuleLoader.php:60-79 | with at most one directory root and no `modules/` in it, both revisions discover the same map |
| Revisions.OneFlatRootBootstrapsAlike | ModuleLoader.php:52-87 | with one flat root and no child rules, both revisions make the same calls, end alike and leave the same cache |
| Revisions.RootsCompared | ModuleLoader-refatorado.php:62-70 | take conforming flat roots at distinct paths. The original keeps every root's modules; the refactored keeps only the last directory root's. |

## Left out

- File system access. `scandir`, `is_dir` and `is_file` become the `FileTree` values the loader is given. The listing order is the order `scandir` returns, taken as given.
- `require($configFile)`. It becomes the descriptor already present in the entry. Executing PHP, and descriptor keys the loader never reads, are not modelled.
- `Yii::getAlias`. Each root is given by the path it resolves to.
- `DIRECTORY_SEPARATOR`. It is fixed to `/`.
- The host's alias, routing, module and event registries, and the cache back end. The model records the calls made to them; what the host does with a call is not modelled. In particular `addRules` receives the literal `false` as its `append` argument; how the router orders the new rules against those already registered is the host's concern.
- `YII_DEBUG`. It is a parameter of `getModulesConfig`.
- Handler callables and class names. They are represented by their names as strings.
- The commented-out block at `ModuleLoader-refatorado.php:102-106`. It has no effect.
- PHP runtime details:
  - PHP warnings are not modelled.
  - A `$modules` the refactored scan never assigned (a directory with no visible entry) is an empty map.
  - A cached value that is not an array is not modelled.
  - `$module[0]` on an empty name is taken as not hidden.
- `bootstrap($app)`. It only calls `getModulesConfig`, which is modelled.
- Cyclic trees. A `FileTree` value is finite, so the model assumes an acyclic directory tree. A symbolic-link cycle through `modules/` would make the recursion at `ModuleLoader-refatorado.php:91` and `:101` run without end; that is not modelled.
- Registering twice. The model only records the calls; what the host does on a second `setAlias` or `setModule` for the same name is not modelled.

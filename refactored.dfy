/** The refactored module loader: a recursive scan of the first-level module
    directories and their `modules/` sub-directories, a cache in front of
    the scan, and validation and registration of every discovered
    descriptor (module Registration, revision `Refactored`). */
module LoaderRefactored {
  import opened Basics
  import opened OrderedMaps
  import opened Config
  import opened FileTree
  import opened Host
  import opened Registration

  // ---------------------------------------------------------------------
  // Discovery

  /** The key an entry is stored under: its base path at the top level, its
      bare name when scanning a `modules/` sub-directory. */
  function KeyFor(path: string, name: string, subModule: bool): (r: string)
    ensures Separator !in name ==> (Separator in r <==> !subModule)
  {
    if subModule then name else Join(path, name)
  }

  /** `$modules[$base]['modules'] = $children`: sets the field of the entry
      under `base`, or creates an entry holding only `modules` when there is
      none. */
  function AttachChildren(m: ModuleMap, base: string, children: ModuleMap): (r: ModuleMap)
    ensures Keys(r) == Keys(m) + {base}
    ensures base in Keys(m) ==> Lookup(r, base) == Some(Lookup(m, base).value.(modules := Some(children)))
    ensures base !in Keys(m) ==> Lookup(r, base) == Some(OnlyModules(children))
    ensures forall k :: k != base ==> Lookup(r, k) == Lookup(m, k)
    ensures base !in Keys(m) ==> r == m + [(base, OnlyModules(children))]
    ensures base in Keys(m) ==> |r| == |m| && forall i :: 0 <= i < |m| ==> r[i].0 == m[i].0
  {
    var d := match Lookup(m, base)
      case Some(d) => d.(modules := Some(children))
      case None => OnlyModules(children);
    Put(m, base, d)
  }

  /** What `scanModulePath(path, subModule)` returns for a directory listing
      `es`: the entries processed one after another, stopping at the first
      one that has no `config.php`. */
  function ScanEntries(path: string, es: seq<Entry>, subModule: bool): Result<ModuleMap>
    decreases es
  {
    if es == [] then Ok([])
    else
      match ScanEntries(path, es[..|es| - 1], subModule)
      case Err(err) => Err(err)
      case Ok(acc) =>
        var e := es[|es| - 1];
        if IsHidden(e.name) then Ok(acc)
        else if e.config.None? then Err(MissingConfigFile)
        else
          var base := Join(path, e.name);
          var stored := Put(acc, KeyFor(path, e.name, subModule), e.config.value);
          if e.modules.None? then Ok(stored)
          else
            match ScanEntries(Join(base, SubModulesDir), e.modules.value.entries, true)
            case Err(err) => Err(err)
            case Ok(children) => Ok(AttachChildren(stored, base, children))
  }

  /** `scanModulePath($path, $subModule)`. */
  method ScanModulePath(path: string, dir: Dir, subModule: bool) returns (r: Result<ModuleMap>)
    ensures r == ScanEntries(path, dir.entries, subModule)
    decreases dir
  {
    var modules: ModuleMap := [];
    var i := 0;
    while i < |dir.entries|
      invariant 0 <= i <= |dir.entries|
      invariant ScanEntries(path, dir.entries[..i], subModule) == Ok(modules)
    {
      var entry := dir.entries[i];
      if IsHidden(entry.name) {
        ScanSkips(path, dir.entries, i, subModule, modules);
        i := i + 1;
        continue;
      }
      if entry.config.None? {
        ScanStops(path, dir.entries, i, subModule, modules, MissingConfigFile);
        return Err(MissingConfigFile);
      }
      var base := Join(path, entry.name);
      var stored := Put(modules, KeyFor(path, entry.name, subModule), entry.config.value);
      if entry.modules.None? {
        ScanStores(path, dir.entries, i, subModule, modules);
        modules := stored;
      } else {
        NestedSmaller(dir, i);
        var children := ScanModulePath(Join(base, SubModulesDir), entry.modules.value, true);
        if children.Err? {
          ScanStops(path, dir.entries, i, subModule, modules, children.error);
          return Err(children.error);
        }
        ScanNests(path, dir.entries, i, subModule, modules, children.value);
        modules := AttachChildren(stored, base, children.value);
      }
      i := i + 1;
    }
    assert dir.entries[..|dir.entries|] == dir.entries;
    return Ok(modules);
  }

  /** A hidden entry leaves the map as it is. */
  lemma ScanSkips(path: string, es: seq<Entry>, i: nat, subModule: bool, acc: ModuleMap)
    requires i < |es| && ScanEntries(path, es[..i], subModule) == Ok(acc)
    requires IsHidden(es[i].name)
    ensures ScanEntries(path, es[..i + 1], subModule) == Ok(acc)
  {
    assert es[..i + 1][..i] == es[..i];
  }

  /** A visible entry without `modules/` has its descriptor stored. */
  lemma ScanStores(path: string, es: seq<Entry>, i: nat, subModule: bool, acc: ModuleMap)
    requires i < |es| && ScanEntries(path, es[..i], subModule) == Ok(acc)
    requires !IsHidden(es[i].name) && es[i].config.Some? && es[i].modules.None?
    ensures ScanEntries(path, es[..i + 1], subModule) ==
      Ok(Put(acc, KeyFor(path, es[i].name, subModule), es[i].config.value))
  {
    assert es[..i + 1][..i] == es[..i];
  }

  /** A visible entry with `modules/` whose scan succeeds has its
      descriptor stored and the children attached at its base path. */
  lemma ScanNests(path: string, es: seq<Entry>, i: nat, subModule: bool, acc: ModuleMap, children: ModuleMap)
    requires i < |es| && ScanEntries(path, es[..i], subModule) == Ok(acc)
    requires !IsHidden(es[i].name) && es[i].config.Some? && es[i].modules.Some?
    requires ScanEntries(Join(Join(path, es[i].name), SubModulesDir), es[i].modules.value.entries, true) == Ok(children)
    ensures ScanEntries(path, es[..i + 1], subModule) ==
      Ok(AttachChildren(Put(acc, KeyFor(path, es[i].name, subModule), es[i].config.value), Join(path, es[i].name), children))
  {
    assert es[..i + 1][..i] == es[..i];
  }

  /** A visible entry without `config.php`, or whose `modules/` scan
      fails, ends the whole scan with that error. */
  lemma ScanStops(path: string, es: seq<Entry>, i: nat, subModule: bool, acc: ModuleMap, err: Error)
    requires i < |es| && ScanEntries(path, es[..i], subModule) == Ok(acc)
    requires !IsHidden(es[i].name)
    requires es[i].config.None? ==> err == MissingConfigFile
    requires es[i].config.Some? ==>
      es[i].modules.Some? &&
      ScanEntries(Join(Join(path, es[i].name), SubModulesDir), es[i].modules.value.entries, true) == Err(err)
    ensures ScanEntries(path, es, subModule) == Err(err)
  {
    assert es[..i + 1][..i] == es[..i];
    ScanErrorPersists(path, es, i + 1, subModule);
  }

  /** Once the scan of a prefix of the listing has failed, the scan of the
      whole listing fails with the same error. */
  lemma {:induction false} ScanErrorPersists(path: string, es: seq<Entry>, n: nat, subModule: bool)
    requires n <= |es|
    requires ScanEntries(path, es[..n], subModule).Err?
    ensures ScanEntries(path, es, subModule) == ScanEntries(path, es[..n], subModule)
    decreases |es|
  {
    if n == |es| {
      assert es[..n] == es;
    } else {
      var init := es[..|es| - 1];
      assert init[..n] == es[..n];
      ScanErrorPersists(path, init, n, subModule);
    }
  }

  /** The filesystem layout the scan expects: every visible entry has a
      `config.php`, and every nested `modules/` directory conforms too. */
  ghost predicate TreeConforms(es: seq<Entry>)
    decreases es
  {
    forall i :: 0 <= i < |es| && !IsHidden(es[i].name) ==>
      es[i].config.Some? && (es[i].modules.Some? ==> TreeConforms(es[i].modules.value.entries))
  }

  /** The scan succeeds exactly when the layout conforms; otherwise it throws
      the missing-`config.php` error and returns no map at all. */
  lemma {:induction false} ScanSucceedsIffConforms(path: string, es: seq<Entry>, subModule: bool)
    ensures ScanEntries(path, es, subModule).Ok? <==> TreeConforms(es)
    ensures ScanEntries(path, es, subModule).Err? ==>
      ScanEntries(path, es, subModule).error == MissingConfigFile
    decreases es
  {
    if es != [] {
      var init := es[..|es| - 1];
      var e := es[|es| - 1];
      ScanSucceedsIffConforms(path, init, subModule);
      ConformsSnoc(es);
      if !IsHidden(e.name) && e.config.Some? && e.modules.Some? {
        ScanSucceedsIffConforms(Join(Join(path, e.name), SubModulesDir), e.modules.value.entries, true);
      }
    }
  }

  /** A listing conforms exactly when all but its last entry conform and
      the last entry does. */
  lemma ConformsSnoc(es: seq<Entry>)
    requires es != []
    ensures var e := es[|es| - 1];
      TreeConforms(es) <==>
        TreeConforms(es[..|es| - 1]) &&
        (!IsHidden(e.name) ==> e.config.Some? && (e.modules.Some? ==> TreeConforms(e.modules.value.entries)))
  {
    var init := es[..|es| - 1];
    assert forall i :: 0 <= i < |init| ==> init[i] == es[i];
  }

  /** The keys a scan of `es` writes: the key of every visible entry, and
      the base path of every visible entry that has a `modules/` directory
      (where its children are attached). */
  ghost function ExpectedKeys(path: string, es: seq<Entry>, subModule: bool): set<string>
  {
    (set i | 0 <= i < |es| && !IsHidden(es[i].name) :: KeyFor(path, es[i].name, subModule))
    + (set i | 0 <= i < |es| && !IsHidden(es[i].name) && es[i].modules.Some? :: Join(path, es[i].name))
  }

  lemma ExpectedKeysSnoc(path: string, es: seq<Entry>, subModule: bool)
    requires es != []
    ensures var e := es[|es| - 1];
      ExpectedKeys(path, es, subModule) ==
        ExpectedKeys(path, es[..|es| - 1], subModule)
        + (if IsHidden(e.name) then {} else {KeyFor(path, e.name, subModule)})
        + (if !IsHidden(e.name) && e.modules.Some? then {Join(path, e.name)} else {})
  {
    var init := es[..|es| - 1];
    var e := es[|es| - 1];
    var n := |init|;
    var added := (if IsHidden(e.name) then {} else {KeyFor(path, e.name, subModule)})
      + (if !IsHidden(e.name) && e.modules.Some? then {Join(path, e.name)} else {});
    forall k | k in ExpectedKeys(path, es, subModule)
      ensures k in ExpectedKeys(path, init, subModule) + added
    {
      var i :| 0 <= i < |es| && !IsHidden(es[i].name) &&
        (k == KeyFor(path, es[i].name, subModule) || (es[i].modules.Some? && k == Join(path, es[i].name)));
      if i < n {
        assert init[i] == es[i];
      }
    }
    forall k | k in ExpectedKeys(path, init, subModule) + added
      ensures k in ExpectedKeys(path, es, subModule)
    {
      if k !in added {
        var i :| 0 <= i < n && !IsHidden(init[i].name) &&
          (k == KeyFor(path, init[i].name, subModule) || (init[i].modules.Some? && k == Join(path, init[i].name)));
        assert init[i] == es[i];
      } else {
        assert es[n] == e;
      }
    }
  }

  /** Every key of a successful scan is the key of a visible entry or the
      base path of a visible entry with sub-modules, and every such key is
      present: hidden entries contribute no key. */
  lemma {:induction false} ScanKeys(path: string, es: seq<Entry>, subModule: bool)
    requires ScanEntries(path, es, subModule).Ok?
    ensures Keys(ScanEntries(path, es, subModule).value) == ExpectedKeys(path, es, subModule)
    decreases es
  {
    if es != [] {
      ScanKeys(path, es[..|es| - 1], subModule);
      ExpectedKeysSnoc(path, es, subModule);
    }
  }

  /** At the top level every visible entry is keyed by its base path
      `path/name`, and nothing else is a key. */
  lemma TopLevelKeys(path: string, es: seq<Entry>)
    requires ScanEntries(path, es, false).Ok?
    ensures Keys(ScanEntries(path, es, false).value) ==
      set i | 0 <= i < |es| && !IsHidden(es[i].name) :: Join(path, es[i].name)
  {
    ScanKeys(path, es, false);
  }

  /** A hidden entry, wherever it stands in the listing, changes nothing in
      the outcome of the scan. */
  lemma {:induction false} HiddenEntryIgnored(path: string, a: seq<Entry>, h: Entry, b: seq<Entry>, subModule: bool)
    requires IsHidden(h.name)
    ensures ScanEntries(path, a + [h] + b, subModule) == ScanEntries(path, a + b, subModule)
    decreases b
  {
    if b == [] {
      assert (a + [h] + b)[..|a + [h] + b| - 1] == a;
      assert a + b == a;
    } else {
      var b' := b[..|b| - 1];
      assert (a + [h] + b)[..|a + [h] + b| - 1] == a + [h] + b';
      assert (a + b)[..|a + b| - 1] == a + b';
      assert (a + [h] + b)[|a + [h] + b| - 1] == (a + b)[|a + b| - 1];
      HiddenEntryIgnored(path, a, h, b', subModule);
    }
  }

  /** The keys entry `e` writes. */
  predicate Writes(path: string, e: Entry, subModule: bool, key: string)
  {
    !IsHidden(e.name) &&
    (key == KeyFor(path, e.name, subModule) || (e.modules.Some? && key == Join(path, e.name)))
  }

  /** Entries after position `k` that do not write `key` leave it as the
      scan up to and including `k` set it. */
  lemma {:induction false} LaterEntriesKeep(path: string, es: seq<Entry>, k: nat, key: string, subModule: bool)
    requires k < |es|
    requires ScanEntries(path, es, subModule).Ok?
    requires forall j :: k < j < |es| ==> !Writes(path, es[j], subModule, key)
    ensures ScanEntries(path, es[..k + 1], subModule).Ok?
    ensures Lookup(ScanEntries(path, es, subModule).value, key) ==
            Lookup(ScanEntries(path, es[..k + 1], subModule).value, key)
    decreases es
  {
    if |es| == k + 1 {
      assert es[..k + 1] == es;
    } else {
      var init := es[..|es| - 1];
      assert init[..k + 1] == es[..k + 1];
      assert forall j :: k < j < |init| ==> init[j] == es[j];
      LaterEntriesKeep(path, init, k, key, subModule);
    }
  }

  /** The children a successful scan attaches for an entry with a `modules/`
      directory. */
  function ChildrenScan(path: string, e: Entry): Result<ModuleMap>
    requires e.modules.Some?
  {
    ScanEntries(Join(Join(path, e.name), SubModulesDir), e.modules.value.entries, true)
  }

  /** At the top level, a visible entry's descriptor is stored under its base
      path; when it has a `modules/` directory, the scanned children replace
      its `modules` field. */
  lemma TopLevelEntryStored(path: string, es: seq<Entry>, k: nat)
    requires Listing(es) && k < |es| && !IsHidden(es[k].name)
    requires ScanEntries(path, es, false).Ok?
    ensures es[k].config.Some?
    ensures es[k].modules.Some? ==> ChildrenScan(path, es[k]).Ok?
    ensures Lookup(ScanEntries(path, es, false).value, Join(path, es[k].name)) ==
      Some(if es[k].modules.None? then es[k].config.value
           else es[k].config.value.(modules := Some(ChildrenScan(path, es[k]).value)))
  {
    var key := Join(path, es[k].name);
    forall j | k < j < |es| ensures !Writes(path, es[j], false, key) {
      if Join(path, es[j].name) == key {
        JoinInjective(path, es[j].name, es[k].name);
      }
    }
    LaterEntriesKeep(path, es, k, key, false);
    assert es[..k + 1][..k] == es[..k];
    assert es[..k + 1][k] == es[k];
  }

  /** The descriptor a top-level scan stores for a visible entry with a
      `config.php`: the loaded one, with the scanned children in its
      `modules` field when it has a `modules/` directory (a failed children
      scan leaves no map, so its value there is never used). */
  function TopStored(path: string, e: Entry): Descriptor
    requires e.config.Some?
  {
    if e.modules.None? then e.config.value
    else match ChildrenScan(path, e)
      case Ok(children) => e.config.value.(modules := Some(children))
      case Err(_) => e.config.value
  }

  /** The pairs a top-level scan builds, in listing order: every visible
      entry under its base path `path/name`. */
  function TopListed(path: string, es: seq<Entry>): ModuleMap
    decreases es
  {
    if es == [] then []
    else
      var e := es[|es| - 1];
      TopListed(path, es[..|es| - 1])
      + (if IsHidden(e.name) || e.config.None? then [] else [(Join(path, e.name), TopStored(path, e))])
  }

  /** A successful top-level scan of a listing holds the visible entries in
      the order `scandir` lists them, each under its base path, with its
      children in place: attaching children never moves or adds an entry. */
  lemma {:induction false} TopLevelInOrder(path: string, es: seq<Entry>)
    requires Listing(es)
    requires ScanEntries(path, es, false).Ok?
    ensures ScanEntries(path, es, false) == Ok(TopListed(path, es))
    decreases es
  {
    if es != [] {
      var init := es[..|es| - 1];
      var e := es[|es| - 1];
      ListingPrefix(es);
      assert ScanEntries(path, init, false).Ok?;
      TopLevelInOrder(path, init);
      if !IsHidden(e.name) {
        var acc := TopListed(path, init);
        var key := Join(path, e.name);
        TopLevelKeys(path, init);
        forall i | 0 <= i < |init| && !IsHidden(init[i].name) ensures Join(path, init[i].name) != key {
          assert init[i] == es[i];
          if Join(path, init[i].name) == key {
            JoinInjective(path, init[i].name, e.name);
          }
        }
        assert key !in Keys(acc);
        assert e.config.Some?;
        var stored := Put(acc, key, e.config.value);
        assert stored == acc + [(key, e.config.value)];
        assert TopListed(path, es) == acc + [(key, TopStored(path, e))];
        if e.modules.Some? {
          assert ChildrenScan(path, e).Ok?;
          var children := ChildrenScan(path, e).value;
          assert ScanEntries(path, es, false) == Ok(AttachChildren(stored, key, children));
          assert Lookup(stored, key) == Some(e.config.value);
          PutLast(acc, key, e.config.value, e.config.value.(modules := Some(children)));
          assert AttachChildren(stored, key, children) == acc + [(key, TopStored(path, e))];
        } else {
          assert ScanEntries(path, es, false) == Ok(stored);
        }
      } else {
        assert TopListed(path, es) == TopListed(path, init) + [];
        assert ScanEntries(path, es, false) == ScanEntries(path, init, false);
        assert TopListed(path, es) == TopListed(path, init);
        assert ScanEntries(path, init, false) == Ok(TopListed(path, init));
      }
    }
  }

  /** In a `modules/` directory a visible entry's descriptor is stored, as
      loaded, under its bare name; the children of its own `modules/`
      directory are not attached to it but to a separate entry under its
      base path that holds only `modules`. */
  lemma SubModuleEntryStored(path: string, es: seq<Entry>, k: nat)
    requires Listing(es) && k < |es| && !IsHidden(es[k].name)
    requires ScanEntries(path, es, true).Ok?
    ensures es[k].config.Some?
    ensures Lookup(ScanEntries(path, es, true).value, es[k].name) == Some(es[k].config.value)
    ensures es[k].modules.Some? ==>
      && ChildrenScan(path, es[k]).Ok?
      && Lookup(ScanEntries(path, es, true).value, Join(path, es[k].name)) ==
         Some(OnlyModules(ChildrenScan(path, es[k]).value))
  {
    var name := es[k].name;
    var base := Join(path, name);
    assert Separator !in name;
    forall j | k < j < |es| ensures !Writes(path, es[j], true, name) {
      assert es[j].name != name;
    }
    LaterEntriesKeep(path, es, k, name, true);
    var pre := es[..k + 1];
    assert pre[..k] == es[..k];
    assert pre[k] == es[k];
    if es[k].modules.Some? {
      forall j | k < j < |es| ensures !Writes(path, es[j], true, base) {
        assert Separator !in es[j].name;
        if Join(path, es[j].name) == base {
          JoinInjective(path, es[j].name, name);
        }
      }
      LaterEntriesKeep(path, es, k, base, true);
      ScanKeys(path, es[..k], true);
      assert forall j :: 0 <= j < k ==> es[..k][j] == es[j];
      forall j | 0 <= j < k ensures base != es[j].name && base != Join(path, es[j].name) {
        assert Separator !in es[j].name;
        if Join(path, es[j].name) == base {
          JoinInjective(path, es[j].name, name);
        }
      }
      assert base !in Keys(ScanEntries(path, es[..k], true).value);
    }
  }

  /** A scan result is a proper PHP array: no key twice. */
  lemma {:induction false} ScanKeysDistinct(path: string, es: seq<Entry>, subModule: bool)
    requires ScanEntries(path, es, subModule).Ok?
    ensures DistinctKeys(ScanEntries(path, es, subModule).value)
    decreases es
  {
    if es != [] {
      var init := es[..|es| - 1];
      var e := es[|es| - 1];
      ScanKeysDistinct(path, init, subModule);
      if !IsHidden(e.name) {
        var acc := ScanEntries(path, init, subModule).value;
        var stored := Put(acc, KeyFor(path, e.name, subModule), e.config.value);
        PutKeepsKeysDistinct(acc, KeyFor(path, e.name, subModule), e.config.value);
        if e.modules.Some? {
          var children := ChildrenScan(path, e).value;
          var d := match Lookup(stored, Join(path, e.name))
            case Some(d) => d.(modules := Some(children))
            case None => OnlyModules(children);
          PutKeepsKeysDistinct(stored, Join(path, e.name), d);
        }
      }
    }
  }

  // ---------------------------------------------------------------------
  // The configured roots (`getModulesConfig`, the loop over `modules_paths`)

  /** The map after the loop over the roots: roots that are not directories
      are skipped, and each directory's scan replaces the map built so far. */
  function ScanAllRoots(roots: seq<Root>): Result<ModuleMap>
    decreases |roots|
  {
    if roots == [] then Ok([])
    else
      var prev := ScanAllRoots(roots[..|roots| - 1]);
      var root := roots[|roots| - 1];
      if prev.Err? || root.dir.None? then prev
      else ScanEntries(root.path, root.dir.value.entries, false)
  }

  /** The loop of `getModulesConfig` over `modules_paths`. */
  method ScanRoots(roots: seq<Root>) returns (r: Result<ModuleMap>)
    ensures r == ScanAllRoots(roots)
  {
    var modules: ModuleMap := [];
    var i := 0;
    while i < |roots|
      invariant 0 <= i <= |roots|
      invariant ScanAllRoots(roots[..i]) == Ok(modules)
    {
      var root := roots[i];
      assert roots[..i + 1][..i] == roots[..i];
      if root.dir.Some? {
        var scanned := ScanModulePath(root.path, root.dir.value, false);
        if scanned.Err? {
          RootErrorPersists(roots, i + 1);
          return scanned;
        }
        modules := scanned.value;
      }
      i := i + 1;
    }
    assert roots[..|roots|] == roots;
    return Ok(modules);
  }

  lemma {:induction false} RootErrorPersists(roots: seq<Root>, n: nat)
    requires n <= |roots|
    requires ScanAllRoots(roots[..n]).Err?
    ensures ScanAllRoots(roots) == ScanAllRoots(roots[..n])
    decreases |roots|
  {
    if n == |roots| {
      assert roots[..n] == roots;
    } else {
      var init := roots[..|roots| - 1];
      assert init[..n] == roots[..n];
      RootErrorPersists(init, n);
    }
  }

  /** The last configured root that is a directory, if any. */
  function LastDirectory(roots: seq<Root>): (r: Option<Root>)
    ensures r.Some? ==> r.value.dir.Some? && r.value in roots
    decreases |roots|
  {
    if roots == [] then None
    else if roots[|roots| - 1].dir.Some? then Some(roots[|roots| - 1])
    else LastDirectory(roots[..|roots| - 1])
  }

  /** The loop succeeds exactly when every root that is a directory
      conforms, and then its result is the scan of the last such root alone
      (empty when there is none): earlier roots' modules are lost. */
  lemma {:induction false} LastRootWins(roots: seq<Root>)
    ensures ScanAllRoots(roots).Ok? <==>
      forall i :: 0 <= i < |roots| && roots[i].dir.Some? ==> TreeConforms(roots[i].dir.value.entries)
    ensures ScanAllRoots(roots).Ok? ==>
      ScanAllRoots(roots) ==
        match LastDirectory(roots)
        case None => Ok([])
        case Some(root) => ScanEntries(root.path, root.dir.value.entries, false)
    decreases |roots|
  {
    if roots != [] {
      var init := roots[..|roots| - 1];
      var root := roots[|roots| - 1];
      LastRootWins(init);
      assert forall i :: 0 <= i < |init| ==> init[i] == roots[i];
      if root.dir.Some? {
        ScanSucceedsIffConforms(root.path, root.dir.value.entries, false);
      }
    }
  }

  /** `getModulesConfig()`, with the resolved roots and `YII_DEBUG` given. */
  method GetModulesConfig(app: App, roots: seq<Root>, debug: bool) returns (outcome: Outcome)
    modifies app
    ensures app.log == old(app.log) +
      Bootstrap(Refactored, ScanAllRoots(roots), CacheLookup(old(app.cache), CacheId), debug).effects
    ensures outcome == Bootstrap(Refactored, ScanAllRoots(roots), CacheLookup(old(app.cache), CacheId), debug).outcome
    ensures app.cache == CacheAfter(ScanAllRoots(roots), old(app.cache), debug)
  {
    var cached := app.CacheGet(CacheId);
    if cached.Some? {
      outcome := Load(app, Refactored, cached.value);
      return;
    }
    var modules := ScanRoots(roots);
    if modules.Err? {
      return Fail(modules.error);
    }
    if !debug {
      app.CacheSet(CacheId, modules.value);
    }
    ghost var write: seq<Effect> := if debug then [] else [CacheWritten(CacheId, modules.value)];
    assert app.log == old(app.log) + write;
    outcome := Load(app, Refactored, modules.value);
    AppendAssoc(old(app.log), write, LoadEntries(Refactored, modules.value).effects);
  }
}

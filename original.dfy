/** The original module loader: a flat scan of the first-level entries of
    every configured root into one map keyed by base path, a cache in front
    of the scan, and validation and registration of every discovered
    descriptor (module Registration, revision `Original`). */
module LoaderOriginal {
  import opened Basics
  import opened OrderedMaps
  import opened Config
  import opened FileTree
  import opened Host
  import opened Registration

  // ---------------------------------------------------------------------
  // Discovery

  /** The inner loop of `getModulesConfig` over one root's listing `es`,
      continuing the map `acc` built from the roots before it: every visible
      entry's descriptor is assigned under its base path, and the first
      entry without a `config.php` throws. */
  function ScanListing(path: string, es: seq<Entry>, acc: ModuleMap): (r: Result<ModuleMap>)
    ensures r.Err? ==> r.error == MissingConfigFile
    ensures r.Ok? ==> Keys(acc) <= Keys(r.value)
    decreases es
  {
    if es == [] then Ok(acc)
    else
      match ScanListing(path, es[..|es| - 1], acc)
      case Err(err) => Err(err)
      case Ok(m) =>
        var e := es[|es| - 1];
        if IsHidden(e.name) then Ok(m)
        else if e.config.None? then Err(MissingConfigFile)
        else Ok(Put(m, Join(path, e.name), e.config.value))
  }

  /** The map after the outer loop over the roots: roots that are not
      directories are skipped, and every directory's entries are added to
      the one map. */
  function ScanAllRoots(roots: seq<Root>): Result<ModuleMap>
    decreases |roots|
  {
    if roots == [] then Ok([])
    else
      match ScanAllRoots(roots[..|roots| - 1])
      case Err(err) => Err(err)
      case Ok(m) =>
        var root := roots[|roots| - 1];
        if root.dir.None? then Ok(m)
        else ScanListing(root.path, root.dir.value.entries, m)
  }

  /** The nested loops of `getModulesConfig` over `modules_paths` and over
      each root's listing. */
  method ScanRoots(roots: seq<Root>) returns (r: Result<ModuleMap>)
    ensures r == ScanAllRoots(roots)
  {
    var modules: ModuleMap := [];
    var i := 0;
    while i < |roots|
      invariant 0 <= i <= |roots|
      invariant ScanAllRoots(roots[..i]) == Ok(modules)
    {
      var root := roots[i];
      assert roots[..i + 1][..i] == roots[..i];
      if root.dir.Some? {
        ghost var before := modules;
        var entries := root.dir.value.entries;
        var j := 0;
        while j < |entries|
          invariant 0 <= j <= |entries|
          invariant ScanListing(root.path, entries[..j], before) == Ok(modules)
        {
          var entry := entries[j];
          assert entries[..j + 1][..j] == entries[..j];
          if IsHidden(entry.name) {
            j := j + 1;
            continue;
          }
          if entry.config.None? {
            ListingErrorPersists(root.path, entries, j + 1, before);
            RootErrorPersists(roots, i + 1);
            return Err(MissingConfigFile);
          }
          modules := Put(modules, Join(root.path, entry.name), entry.config.value);
          j := j + 1;
        }
        assert entries[..|entries|] == entries;
      }
      i := i + 1;
    }
    assert roots[..|roots|] == roots;
    return Ok(modules);
  }

  /** Once the inner loop has thrown on a prefix of the listing, the rest
      of the listing is never looked at. */
  lemma {:induction false} ListingErrorPersists(path: string, es: seq<Entry>, n: nat, acc: ModuleMap)
    requires n <= |es|
    requires ScanListing(path, es[..n], acc).Err?
    ensures ScanListing(path, es, acc) == ScanListing(path, es[..n], acc)
    decreases |es|
  {
    if n == |es| {
      assert es[..n] == es;
    } else {
      var init := es[..|es| - 1];
      assert init[..n] == es[..n];
      ListingErrorPersists(path, init, n, acc);
    }
  }

  /** Once a root has thrown, the later roots are never looked at. */
  lemma {:induction false} RootErrorPersists(roots: seq<Root>, n: nat)
    requires n <= |roots|
    requires ScanAllRoots(roots[..n]).Err?
    ensures ScanAllRoots(roots) == ScanAllRoots(roots[..n])
    decreases |roots|
  {
    if n == |roots| {
      assert roots[..n] == roots;
    } else {
      var init := roots[..|roots| - 1];
      assert init[..n] == roots[..n];
      RootErrorPersists(init, n);
    }
  }

  /** The layout the flat scan expects: every visible entry has a
      `config.php`. A `modules/` directory inside an entry is not looked
      at. */
  ghost predicate LevelConforms(es: seq<Entry>)
  {
    forall i :: 0 <= i < |es| && !IsHidden(es[i].name) ==> es[i].config.Some?
  }

  /** The inner loop succeeds exactly when the listing conforms; otherwise
      it throws the missing-`config.php` error. */
  lemma {:induction false} ListingSucceedsIffConforms(path: string, es: seq<Entry>, acc: ModuleMap)
    ensures ScanListing(path, es, acc).Ok? <==> LevelConforms(es)
    ensures ScanListing(path, es, acc).Err? ==> ScanListing(path, es, acc).error == MissingConfigFile
    decreases es
  {
    if es != [] {
      var init := es[..|es| - 1];
      ListingSucceedsIffConforms(path, init, acc);
      assert forall i :: 0 <= i < |init| ==> init[i] == es[i];
    }
  }

  /** The scan of the roots succeeds exactly when every root that is a
      directory conforms. */
  lemma {:induction false} RootsSucceedIffConform(roots: seq<Root>)
    ensures ScanAllRoots(roots).Ok? <==>
      forall i :: 0 <= i < |roots| && roots[i].dir.Some? ==> LevelConforms(roots[i].dir.value.entries)
    ensures ScanAllRoots(roots).Err? ==> ScanAllRoots(roots).error == MissingConfigFile
    decreases |roots|
  {
    if roots != [] {
      var init := roots[..|roots| - 1];
      var root := roots[|roots| - 1];
      RootsSucceedIffConform(init);
      assert forall i :: 0 <= i < |init| ==> init[i] == roots[i];
      if root.dir.Some? && ScanAllRoots(init).Ok? {
        ListingSucceedsIffConforms(root.path, root.dir.value.entries, ScanAllRoots(init).value);
      }
    }
  }

  /** The keys one listing contributes: the base path of every visible
      entry. */
  ghost function ListingKeys(path: string, es: seq<Entry>): set<string>
  {
    set i | 0 <= i < |es| && !IsHidden(es[i].name) :: Join(path, es[i].name)
  }

  lemma ListingKeysSnoc(path: string, es: seq<Entry>)
    requires es != []
    ensures var e := es[|es| - 1];
      ListingKeys(path, es) ==
        ListingKeys(path, es[..|es| - 1]) + (if IsHidden(e.name) then {} else {Join(path, e.name)})
  {
    var init := es[..|es| - 1];
    assert forall i :: 0 <= i < |init| ==> init[i] == es[i];
    if !IsHidden(es[|es| - 1].name) {
      assert Join(path, es[|es| - 1].name) in ListingKeys(path, es);
    }
  }

  /** A successful inner loop keeps every key it started with and adds the
      base path of every visible entry, and nothing else. */
  lemma {:induction false} ListingKeysAdded(path: string, es: seq<Entry>, acc: ModuleMap)
    requires ScanListing(path, es, acc).Ok?
    ensures Keys(ScanListing(path, es, acc).value) == Keys(acc) + ListingKeys(path, es)
    decreases es
  {
    if es != [] {
      ListingKeysAdded(path, es[..|es| - 1], acc);
      ListingKeysSnoc(path, es);
    }
  }

  /** The base paths of the visible entries of every root that is a
      directory. */
  ghost function RootKeys(roots: seq<Root>): set<string>
  {
    set i, k | 0 <= i < |roots| && roots[i].dir.Some? && k in ListingKeys(roots[i].path, roots[i].dir.value.entries) :: k
  }

  /** A successful scan holds one key for every visible entry of every
      root: no root's modules are lost. */
  lemma {:induction false} AllRootsKept(roots: seq<Root>)
    requires ScanAllRoots(roots).Ok?
    ensures Keys(ScanAllRoots(roots).value) == RootKeys(roots)
    decreases |roots|
  {
    if roots != [] {
      var init := roots[..|roots| - 1];
      var root := roots[|roots| - 1];
      AllRootsKept(init);
      assert forall i :: 0 <= i < |init| ==> init[i] == roots[i];
      if root.dir.Some? {
        ListingKeysAdded(root.path, root.dir.value.entries, ScanAllRoots(init).value);
      }
      RootKeysSnoc(roots);
    }
  }

  lemma RootKeysSnoc(roots: seq<Root>)
    requires roots != []
    ensures var root := roots[|roots| - 1];
      RootKeys(roots) == RootKeys(roots[..|roots| - 1]) +
        (if root.dir.Some? then ListingKeys(root.path, root.dir.value.entries) else {})
  {
    var init := roots[..|roots| - 1];
    var root := roots[|roots| - 1];
    assert forall i :: 0 <= i < |init| ==> init[i] == roots[i];
    forall k | k in RootKeys(roots)
      ensures k in RootKeys(init) || (root.dir.Some? && k in ListingKeys(root.path, root.dir.value.entries))
    {
      var i :| 0 <= i < |roots| && roots[i].dir.Some? && k in ListingKeys(roots[i].path, roots[i].dir.value.entries);
      if i < |init| {
        assert init[i] == roots[i];
      }
    }
  }

  /** The pairs the inner loop assigns for a listing, in listing order:
      the descriptor of every visible entry that has one, under its base
      path. */
  function Listed(path: string, es: seq<Entry>): ModuleMap
    decreases es
  {
    if es == [] then []
    else
      var e := es[|es| - 1];
      Listed(path, es[..|es| - 1])
      + (if IsHidden(e.name) || e.config.None? then [] else [(Join(path, e.name), e.config.value)])
  }

  /** A map whose keys are distinct has a prefix whose keys are distinct. */
  lemma DistinctPrefix(m: ModuleMap, n: ModuleMap)
    requires DistinctKeys(m + n)
    ensures DistinctKeys(m)
  {
    assert forall i :: 0 <= i < |m| ==> (m + n)[i] == m[i];
  }

  /** The last key of a map with distinct keys is not among the others. */
  lemma LastKeyFresh(m: ModuleMap, p: (string, Descriptor))
    requires DistinctKeys(m + [p])
    ensures p.0 !in Keys(m)
  {
    KeysIndex(m, p.0);
    forall i | 0 <= i < |m| ensures m[i].0 != p.0 {
      assert (m + [p])[i] == m[i] && (m + [p])[|m|] == p;
    }
  }

  /** When no base path repeats, the inner loop appends the listing's
      descriptors to the map, in listing order, after everything already in
      it. */
  lemma {:induction false} ListingAppends(path: string, es: seq<Entry>, acc: ModuleMap)
    requires ScanListing(path, es, acc).Ok?
    requires DistinctKeys(acc + Listed(path, es))
    ensures ScanListing(path, es, acc) == Ok(acc + Listed(path, es))
    decreases es
  {
    if es != [] {
      var init := es[..|es| - 1];
      var e := es[|es| - 1];
      var tail := if IsHidden(e.name) || e.config.None? then [] else [(Join(path, e.name), e.config.value)];
      assert acc + Listed(path, es) == (acc + Listed(path, init)) + tail;
      DistinctPrefix(acc + Listed(path, init), tail);
      assert ScanListing(path, init, acc).Ok?;
      ListingAppends(path, init, acc);
      if tail != [] {
        LastKeyFresh(acc + Listed(path, init), tail[0]);
        assert ScanListing(path, es, acc) == Ok(Put(acc + Listed(path, init), Join(path, e.name), e.config.value));
      } else {
        assert acc + Listed(path, es) == acc + Listed(path, init);
      }
    } else {
      assert acc + Listed(path, es) == acc;
    }
  }

  /** The descriptors of every root that is a directory, root after root. */
  function AllListed(roots: seq<Root>): ModuleMap
    decreases |roots|
  {
    if roots == [] then []
    else
      var root := roots[|roots| - 1];
      AllListed(roots[..|roots| - 1])
      + (if root.dir.None? then [] else Listed(root.path, root.dir.value.entries))
  }

  /** When no base path repeats across the roots, the scan is every root's
      descriptors in listing order, the earlier roots first. */
  lemma {:induction false} RootsAccumulate(roots: seq<Root>)
    requires ScanAllRoots(roots).Ok?
    requires DistinctKeys(AllListed(roots))
    ensures ScanAllRoots(roots) == Ok(AllListed(roots))
    decreases |roots|
  {
    if roots != [] {
      var init := roots[..|roots| - 1];
      var root := roots[|roots| - 1];
      var tail := if root.dir.None? then [] else Listed(root.path, root.dir.value.entries);
      assert AllListed(roots) == AllListed(init) + tail;
      DistinctPrefix(AllListed(init), tail);
      assert ScanAllRoots(init).Ok?;
      RootsAccumulate(init);
      if root.dir.Some? {
        ListingAppends(root.path, root.dir.value.entries, AllListed(init));
      } else {
        assert AllListed(roots) == AllListed(init);
      }
    }
  }

  /** Two maps with distinct keys and no key in common make one with
      distinct keys. */
  lemma DistinctConcat(m: ModuleMap, n: ModuleMap)
    requires DistinctKeys(m) && DistinctKeys(n) && Keys(m) !! Keys(n)
    ensures DistinctKeys(m + n)
  {
    forall i, j | 0 <= i < j < |m + n| ensures (m + n)[i].0 != (m + n)[j].0 {
      if i < |m| && |m| <= j {
        KeysIndex(m, m[i].0);
        KeysIndex(n, n[j - |m|].0);
        assert (m + n)[i] == m[i] && (m + n)[j] == n[j - |m|];
      } else if j < |m| {
        assert (m + n)[i] == m[i] && (m + n)[j] == m[j];
      } else {
        assert (m + n)[i] == n[i - |m|] && (m + n)[j] == n[j - |m|];
      }
    }
  }

  /** The pairs listed for a directory carry the base paths of its visible
      entries, each once. */
  lemma {:induction false} ListedDistinct(path: string, es: seq<Entry>)
    requires Listing(es)
    ensures Keys(Listed(path, es)) <= ListingKeys(path, es)
    ensures DistinctKeys(Listed(path, es))
    decreases es
  {
    if es != [] {
      var init := es[..|es| - 1];
      var e := es[|es| - 1];
      var tail := if IsHidden(e.name) || e.config.None? then [] else [(Join(path, e.name), e.config.value)];
      ListingPrefix(es);
      ListedDistinct(path, init);
      ListingKeysSnoc(path, es);
      KeysAppend(Listed(path, init), tail);
      if tail != [] {
        LastNameFresh(path, es);
      }
      DistinctConcat(Listed(path, init), tail);
    }
  }

  /** The last entry's base path is not the base path of any entry before
      it. */
  lemma LastNameFresh(path: string, es: seq<Entry>)
    requires Listing(es) && es != []
    ensures Join(path, es[|es| - 1].name) !in ListingKeys(path, es[..|es| - 1])
  {
    var init := es[..|es| - 1];
    var e := es[|es| - 1];
    forall i | 0 <= i < |init| && !IsHidden(init[i].name) ensures Join(path, init[i].name) != Join(path, e.name) {
      assert init[i] == es[i];
      if Join(path, init[i].name) == Join(path, e.name) {
        JoinInjective(path, init[i].name, e.name);
      }
    }
  }

  /** Listings of two different directories share no base path. */
  lemma ListingsApart(p: string, es: seq<Entry>, q: string, fs: seq<Entry>, k: string)
    requires Listing(es) && Listing(fs) && p != q
    requires k in ListingKeys(p, es)
    ensures k !in ListingKeys(q, fs)
  {
    var a :| 0 <= a < |es| && !IsHidden(es[a].name) && k == Join(p, es[a].name);
    if k in ListingKeys(q, fs) {
      var b :| 0 <= b < |fs| && !IsHidden(fs[b].name) && k == Join(q, fs[b].name);
      JoinSplit(p, es[a].name, q, fs[b].name);
    }
  }

  /** Roots that are directories at distinct paths, each listing as a file
      system lists, never produce the same base path twice. */
  lemma {:induction false} AllListedDistinct(roots: seq<Root>)
    requires forall i :: 0 <= i < |roots| && roots[i].dir.Some? ==> Listing(roots[i].dir.value.entries)
    requires forall i, j :: 0 <= i < j < |roots| && roots[i].dir.Some? && roots[j].dir.Some? ==>
      roots[i].path != roots[j].path
    ensures Keys(AllListed(roots)) <= RootKeys(roots)
    ensures DistinctKeys(AllListed(roots))
    decreases |roots|
  {
    if roots == [] {
      assert AllListed(roots) == [];
    } else {
      var init := roots[..|roots| - 1];
      var root := roots[|roots| - 1];
      assert forall i :: 0 <= i < |init| ==> init[i] == roots[i];
      AllListedDistinct(init);
      RootKeysSnoc(roots);
      var tail := if root.dir.None? then [] else Listed(root.path, root.dir.value.entries);
      assert AllListed(roots) == AllListed(init) + tail;
      KeysAppend(AllListed(init), tail);
      if root.dir.Some? {
        var es := root.dir.value.entries;
        ListedDistinct(root.path, es);
        forall k | k in RootKeys(init) ensures k !in ListingKeys(root.path, es) {
          var i, k' :| 0 <= i < |init| && init[i].dir.Some? && k' in ListingKeys(init[i].path, init[i].dir.value.entries) && k' == k;
          assert roots[i] == init[i];
          ListingsApart(init[i].path, init[i].dir.value.entries, root.path, es, k);
        }
        DistinctConcat(AllListed(init), tail);
      } else {
        assert AllListed(roots) == AllListed(init);
      }
    }
  }

  /** Roots at distinct paths whose directories all conform: the scan is
      every root's descriptors in listing order, the earlier roots first,
      and no module of any root is lost. */
  lemma DistinctRootsAccumulate(roots: seq<Root>)
    requires forall i :: 0 <= i < |roots| && roots[i].dir.Some? ==>
      Listing(roots[i].dir.value.entries) && LevelConforms(roots[i].dir.value.entries)
    requires forall i, j :: 0 <= i < j < |roots| && roots[i].dir.Some? && roots[j].dir.Some? ==>
      roots[i].path != roots[j].path
    ensures ScanAllRoots(roots) == Ok(AllListed(roots))
    ensures Keys(AllListed(roots)) == RootKeys(roots)
  {
    RootsSucceedIffConform(roots);
    AllListedDistinct(roots);
    RootsAccumulate(roots);
    AllRootsKept(roots);
  }

  /** A hidden entry, wherever it stands in a listing, changes nothing in
      the outcome of the scan. */
  lemma {:induction false} HiddenEntryIgnored(path: string, a: seq<Entry>, h: Entry, b: seq<Entry>, acc: ModuleMap)
    requires IsHidden(h.name)
    ensures ScanListing(path, a + [h] + b, acc) == ScanListing(path, a + b, acc)
    decreases b
  {
    if b == [] {
      assert (a + [h] + b)[..|a + [h] + b| - 1] == a;
      assert a + b == a;
    } else {
      var b' := b[..|b| - 1];
      assert (a + [h] + b)[..|a + [h] + b| - 1] == a + [h] + b';
      assert (a + b)[..|a + b| - 1] == a + b';
      assert (a + [h] + b)[|a + [h] + b| - 1] == (a + b)[|a + b| - 1];
      HiddenEntryIgnored(path, a, h, b', acc);
    }
  }

  /** `getModulesConfig()`, with the resolved roots and `YII_DEBUG` given. */
  method GetModulesConfig(app: App, roots: seq<Root>, debug: bool) returns (outcome: Outcome)
    modifies app
    ensures app.log == old(app.log) +
      Bootstrap(Original, ScanAllRoots(roots), CacheLookup(old(app.cache), CacheId), debug).effects
    ensures outcome == Bootstrap(Original, ScanAllRoots(roots), CacheLookup(old(app.cache), CacheId), debug).outcome
    ensures app.cache == CacheAfter(ScanAllRoots(roots), old(app.cache), debug)
  {
    var modules := app.CacheGet(CacheId);
    ghost var write: seq<Effect> := [];
    if modules.None? {
      var scanned := ScanRoots(roots);
      if scanned.Err? {
        return Fail(scanned.error);
      }
      if !debug {
        app.CacheSet(CacheId, scanned.value);
        write := [CacheWritten(CacheId, scanned.value)];
      }
      modules := Some(scanned.value);
    }
    assert app.log == old(app.log) + write;
    outcome := Load(app, Original, modules.value);
    AppendAssoc(old(app.log), write, LoadEntries(Original, modules.value).effects);
  }
}

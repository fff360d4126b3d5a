/** The two revisions of the loader side by side: where their discovery
    agrees, and where the refactored one loses modules the original keeps. */
module Revisions {
  import opened Basics
  import opened Config
  import opened FileTree
  import opened Host
  import opened Registration
  import R = LoaderRefactored
  import O = LoaderOriginal

  /** No visible entry has a `modules/` directory. */
  ghost predicate Flat(es: seq<Entry>)
  {
    forall i :: 0 <= i < |es| && !IsHidden(es[i].name) ==> es[i].modules.None?
  }

  /** On a listing without `modules/` directories, the refactored recursive
      scan and the original flat scan give the same map, or fail alike. */
  lemma {:induction false} FlatScansAgree(path: string, es: seq<Entry>)
    requires Flat(es)
    ensures R.ScanEntries(path, es, false) == O.ScanListing(path, es, [])
    decreases es
  {
    if es != [] {
      var init := es[..|es| - 1];
      assert forall i :: 0 <= i < |init| ==> init[i] == es[i];
      FlatScansAgree(path, init);
    }
  }

  /** Without `modules/` directories, the recursive layout condition is the
      flat one. */
  lemma FlatConforms(es: seq<Entry>)
    requires Flat(es)
    ensures R.TreeConforms(es) <==> O.LevelConforms(es)
  {
  }

  /** No root is a directory. */
  lemma {:induction false} NoDirectories(roots: seq<Root>)
    requires forall i :: 0 <= i < |roots| ==> roots[i].dir.None?
    ensures R.ScanAllRoots(roots) == Ok([])
    ensures O.ScanAllRoots(roots) == Ok([])
    decreases |roots|
  {
    if roots != [] {
      var init := roots[..|roots| - 1];
      assert forall i :: 0 <= i < |init| ==> init[i] == roots[i];
      NoDirectories(init);
    }
  }

  /** With at most one root that is a directory, and no `modules/`
      directory in it, both revisions discover the same map, or fail
      alike. */
  lemma {:induction false} OneFlatRootAgrees(roots: seq<Root>)
    requires forall i, j :: 0 <= i < |roots| && 0 <= j < |roots| && roots[i].dir.Some? && roots[j].dir.Some? ==> i == j
    requires forall i :: 0 <= i < |roots| && roots[i].dir.Some? ==> Flat(roots[i].dir.value.entries)
    ensures R.ScanAllRoots(roots) == O.ScanAllRoots(roots)
    decreases |roots|
  {
    if roots != [] {
      var init := roots[..|roots| - 1];
      var root := roots[|roots| - 1];
      assert forall i :: 0 <= i < |init| ==> init[i] == roots[i];
      if root.dir.None? {
        OneFlatRootAgrees(init);
      } else {
        assert forall i :: 0 <= i < |init| ==> init[i].dir.None?;
        NoDirectories(init);
        FlatScansAgree(root.path, root.dir.value.entries);
      }
    }
  }

  /** Every descriptor's children are free of URL rules, so stripping them
      changes nothing. */
  ghost predicate ChildrenWithoutRules(m: ModuleMap)
  {
    forall i, j :: 0 <= i < |m| && 0 <= j < |ChildrenOf(m[i].1)| ==>
      ChildrenOf(m[i].1)[j].1.urlManagerRules.None?
  }

  /** With one flat root, and no child carrying URL rules in what is
      cached or discovered, both revisions of `getModulesConfig` make the
      same calls, end the same way and leave the same cache. */
  lemma OneFlatRootBootstrapsAlike(roots: seq<Root>, cache: map<string, ModuleMap>, debug: bool)
    requires forall i, j :: 0 <= i < |roots| && 0 <= j < |roots| && roots[i].dir.Some? && roots[j].dir.Some? ==> i == j
    requires forall i :: 0 <= i < |roots| && roots[i].dir.Some? ==> Flat(roots[i].dir.value.entries)
    requires CacheId in cache ==> ChildrenWithoutRules(cache[CacheId])
    requires O.ScanAllRoots(roots).Ok? ==> ChildrenWithoutRules(O.ScanAllRoots(roots).value)
    ensures Bootstrap(Original, O.ScanAllRoots(roots), CacheLookup(cache, CacheId), debug) ==
            Bootstrap(Refactored, R.ScanAllRoots(roots), CacheLookup(cache, CacheId), debug)
    ensures CacheAfter(O.ScanAllRoots(roots), cache, debug) == CacheAfter(R.ScanAllRoots(roots), cache, debug)
  {
    OneFlatRootAgrees(roots);
    if CacheId in cache {
      RevisionsLoadAlike(cache[CacheId]);
    } else if O.ScanAllRoots(roots).Ok? {
      RevisionsLoadAlike(O.ScanAllRoots(roots).value);
    }
  }

  /** The descriptors of the last root that is a directory, if any. */
  function LastListed(roots: seq<Root>): ModuleMap
  {
    match R.LastDirectory(roots)
    case None => []
    case Some(root) => O.Listed(root.path, root.dir.value.entries)
  }

  /** Roots at distinct paths, none with a `modules/` directory, every
      directory conforming: the original keeps the modules of every root,
      root after root, while the refactored keeps only those of the last
      root that is a directory. */
  lemma RootsCompared(roots: seq<Root>)
    requires forall i :: 0 <= i < |roots| && roots[i].dir.Some? ==>
      && Listing(roots[i].dir.value.entries)
      && Flat(roots[i].dir.value.entries)
      && O.LevelConforms(roots[i].dir.value.entries)
    requires forall i, j :: 0 <= i < j < |roots| && roots[i].dir.Some? && roots[j].dir.Some? ==>
      roots[i].path != roots[j].path
    ensures O.ScanAllRoots(roots) == Ok(O.AllListed(roots))
    ensures R.ScanAllRoots(roots) == Ok(LastListed(roots))
  {
    O.DistinctRootsAccumulate(roots);
    forall i | 0 <= i < |roots| && roots[i].dir.Some? ensures R.TreeConforms(roots[i].dir.value.entries) {
      FlatConforms(roots[i].dir.value.entries);
    }
    R.LastRootWins(roots);
    match R.LastDirectory(roots)
    case None =>
    case Some(root) =>
      var es := root.dir.value.entries;
      FlatScansAgree(root.path, es);
      O.ListedDistinct(root.path, es);
      O.ListingSucceedsIffConforms(root.path, es, []);
      assert [] + O.Listed(root.path, es) == O.Listed(root.path, es);
      O.ListingAppends(root.path, es, []);
  }
}

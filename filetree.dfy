/** The part of the filesystem the loader looks at, as a tree of values. */
module FileTree {
  import opened Basics
  import opened Config

  /** `DIRECTORY_SEPARATOR`; the model fixes it to `/`. */
  const Separator: char := '/'

  /** The name of the sub-directory that holds nested modules. */
  const SubModulesDir := "modules"

  /** A directory, by the entries `scandir` lists for it, in listing order. */
  datatype Dir = Dir(entries: seq<Entry>)

  /** One listed entry: its name, the descriptor `<name>/config.php` returns
      when that is a file, and `<name>/modules` when that is a directory.
      A plain file is an entry with neither. */
  datatype Entry = Entry(name: string, config: Option<Descriptor>, modules: Option<Dir>)

  /** A configured root, by its resolved path; `dir` is absent when the path
      is not a directory. */
  datatype Root = Root(path: string, dir: Option<Dir>)

  /** `$name[0] == '.'`: ".", ".." and hidden entries. */
  predicate IsHidden(name: string)
    ensures name == "." || name == ".." ==> IsHidden(name)
  {
    |name| > 0 && name[0] == '.'
  }

  /** `$path . DIRECTORY_SEPARATOR . $name`. */
  function Join(path: string, name: string): (r: string)
    ensures |r| == |path| + 1 + |name|
    ensures Separator in r
  {
    path + [Separator] + name
  }

  /** Entries of one directory have distinct names. */
  lemma JoinInjective(path: string, a: string, b: string)
    requires Join(path, a) == Join(path, b)
    ensures a == b
  {
    assert a == Join(path, a)[|path| + 1..];
  }

  /** Paths built from separator-free names come apart again: equal joins
      have equal directories and equal names. */
  lemma JoinSplit(p: string, a: string, q: string, b: string)
    requires Separator !in a && Separator !in b
    requires Join(p, a) == Join(q, b)
    ensures p == q && a == b
  {
    var s := Join(p, a);
    assert forall i :: |p| < i < |s| ==> s[i] == a[i - |p| - 1];
    assert forall i :: |q| < i < |s| ==> s[i] == b[i - |q| - 1];
    assert s[|p|] == Separator == s[|q|];
    assert |p| == |q|;
    assert a == s[|p| + 1..] && p == s[..|p|];
  }

  /** What a file system guarantees of a listing: distinct names, none
      holding the separator. */
  ghost predicate Listing(es: seq<Entry>)
  {
    && (forall i, j :: 0 <= i < j < |es| ==> es[i].name != es[j].name)
    && (forall i :: 0 <= i < |es| ==> Separator !in es[i].name)
  }

  /** Dropping the last entry of a listing leaves a listing. */
  lemma ListingPrefix(es: seq<Entry>)
    requires Listing(es) && es != []
    ensures Listing(es[..|es| - 1])
  {
    var init := es[..|es| - 1];
    assert forall i :: 0 <= i < |init| ==> init[i] == es[i];
  }

  /** A nested `modules/` directory is part of the directory it is listed
      in, so a scan that descends into it terminates. */
  lemma NestedSmaller(dir: Dir, i: nat)
    requires i < |dir.entries| && dir.entries[i].modules.Some?
    ensures dir.entries[i].modules.value < dir
  {
  }
}

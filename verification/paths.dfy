/** Filesystem paths as component sequences, and the filesystem as the set of paths that exist. */
module Paths {
  import opened Wrappers

  /** A path, component by component: `/home/u/.cargo` is `["home", "u", ".cargo"]`. */
  type Path = seq<string>

  /** The only filesystem state the localizer observes: which paths exist. */
  type FileSystem = set<Path>

  /** `Path::starts_with`: `base` is a prefix of `p` in whole components. */
  predicate StartsWith(p: Path, base: Path)
  {
    |base| <= |p| && p[..|base|] == base
  }

  /** `Path::file_name`: the last component, when the path has one. */
  function FileName(p: Path): (r: Option<string>)
    ensures r.Some? <==> |p| > 0
    ensures r.Some? ==> p == p[..|p| - 1] + [r.value]
  {
    if |p| == 0 then None else Some(p[|p| - 1])
  }

  /** Two children of one directory that are both ancestors of `p` are the same child. */
  lemma SiblingPrefixesAgree(p: Path, dir: Path, a: string, b: string)
    requires StartsWith(p, dir + [a]) && StartsWith(p, dir + [b])
    ensures a == b
  {
    assert (dir + [a])[|dir|] == p[|dir|] == (dir + [b])[|dir|];
  }
}

/** Finding a crate's extracted source in the local Cargo registry (`find_crate_source`). */
module Locate {
  import opened Wrappers
  import opened Paths
  import opened Errors
  import opened Cargo

  /** One result of the depth-bounded directory walk: a directory reached, or an I/O error. */
  datatype WalkEntry = Visited(path: Path) | WalkFailed

  /** One entry of the registry root's listing, in `read_dir` order: a subdirectory with the
      results its walk yields (the subdirectory itself, then directories at depth 1 and 2, in
      whatever order the walker takes), a non-directory, or an entry that could not be read. */
  datatype RegistryEntry = Subdir(path: Path, walk: seq<WalkEntry>) | NonDir(path: Path) | ReadFailed

  /** Relative locations of the registry sources under the home directory and under `CARGO_HOME`. */
  const HomeRegistry: Path := [".cargo", "registry", "src"]
  const CargoHomeRegistry: Path := ["registry", "src"]

  /** A candidate location that is present and exists on disk. */
  predicate Existing(candidate: Option<Path>, fs: FileSystem)
  {
    candidate.Some? && candidate.value in fs
  }

  /** `find_map` over the candidates: the first one that is present and exists. */
  function FirstExisting(candidates: seq<Option<Path>>, fs: FileSystem): (r: Option<Path>)
    ensures r.None? <==> forall i | 0 <= i < |candidates| :: !Existing(candidates[i], fs)
    ensures r.Some? ==> exists i | 0 <= i < |candidates| :: Existing(candidates[i], fs)
                          && candidates[i].value == r.value
                          && forall j | 0 <= j < i :: !Existing(candidates[j], fs)
    decreases |candidates|
  {
    if |candidates| == 0 then None
    else if Existing(candidates[0], fs) then candidates[0]
    else
      var r := FirstExisting(candidates[1..], fs);
      assert forall i | 1 <= i < |candidates| :: candidates[i] == candidates[1..][i - 1];
      r
  }

  /** The registry root: `~/.cargo/registry/src` if it exists, else `$CARGO_HOME/registry/src`
      if it exists; only this one root is searched afterwards. */
  function RegistryRoot(home: Option<Path>, cargoHome: Option<Path>, fs: FileSystem): (r: Result<Path, Error>)
    ensures home.Some? && home.value + HomeRegistry in fs ==> r == Success(home.value + HomeRegistry)
    ensures !(home.Some? && home.value + HomeRegistry in fs) && cargoHome.Some? && cargoHome.value + CargoHomeRegistry in fs
            ==> r == Success(cargoHome.value + CargoHomeRegistry)
    ensures r.Failure? <==> (!(home.Some? && home.value + HomeRegistry in fs)
                             && !(cargoHome.Some? && cargoHome.value + CargoHomeRegistry in fs))
    ensures r.Failure? ==> r.error == RegistryNotFound
  {
    var candidates := [
      if home.Some? then Some(home.value + HomeRegistry) else None,
      if cargoHome.Some? then Some(cargoHome.value + CargoHomeRegistry) else None];
    match FirstExisting(candidates, fs)
    case Some(root) => Success(root)
    case None =>
      assert !Existing(candidates[0], fs) && !Existing(candidates[1], fs);
      Failure(RegistryNotFound)
  }

  /** A walk result the search passes over: a directory with another name. */
  ghost predicate Passed(w: WalkEntry, target: string)
  {
    w.Visited? && FileName(w.path) != Some(target)
  }

  /** The search passes over the first `j` results of a walk. */
  ghost predicate WalkPassedBefore(walk: seq<WalkEntry>, target: string, j: int)
    requires 0 <= j <= |walk|
  {
    forall j' | 0 <= j' < j :: Passed(walk[j'], target)
  }

  /** The search passes over a whole listing entry. */
  ghost predicate EntryPassed(e: RegistryEntry, target: string)
  {
    e.NonDir? || (e.Subdir? && WalkPassedBefore(e.walk, target, |e.walk|))
  }

  /** The search passes over the first `i` listing entries. */
  ghost predicate PassedBefore(entries: seq<RegistryEntry>, target: string, i: int)
    requires 0 <= i <= |entries|
  {
    forall i' | 0 <= i' < i :: EntryPassed(entries[i'], target)
  }

  /** The search stops at result `j` of a walk, with a directory named `target`. */
  ghost predicate WalkHitAt(walk: seq<WalkEntry>, target: string, j: int)
  {
    && 0 <= j < |walk|
    && WalkPassedBefore(walk, target, j)
    && walk[j].Visited?
    && FileName(walk[j].path) == Some(target)
  }

  /** The search stops at result `j` of a walk, on an I/O error. */
  ghost predicate WalkFailsAt(walk: seq<WalkEntry>, target: string, j: int)
  {
    0 <= j < |walk| && WalkPassedBefore(walk, target, j) && walk[j].WalkFailed?
  }

  /** The search of the whole listing stops at result `j` of entry `i` with a hit. */
  ghost predicate HitAt(entries: seq<RegistryEntry>, target: string, i: int, j: int)
  {
    && 0 <= i < |entries|
    && PassedBefore(entries, target, i)
    && entries[i].Subdir?
    && WalkHitAt(entries[i].walk, target, j)
  }

  /** The search finds `target`. */
  ghost predicate Locatable(entries: seq<RegistryEntry>, target: string)
  {
    exists i, j :: HitAt(entries, target, i, j)
  }

  lemma WalkStopsOnce(walk: seq<WalkEntry>, target: string, j: int, k: int)
    ensures ((WalkHitAt(walk, target, j) || WalkFailsAt(walk, target, j))
             && (WalkHitAt(walk, target, k) || WalkFailsAt(walk, target, k)))
            ==> j == k
  {
  }

  lemma HitOnce(entries: seq<RegistryEntry>, target: string, i: int, j: int, i2: int, j2: int)
    ensures HitAt(entries, target, i, j) && HitAt(entries, target, i2, j2) ==> i == i2 && j == j2
  {
  }

  /** The inner loop: walk results from `j` on. `None` means the walk ended without a decision. */
  function SearchWalk(walk: seq<WalkEntry>, target: string, j: nat): (r: Option<Result<Path, Error>>)
    requires j <= |walk| && WalkPassedBefore(walk, target, j)
    ensures r.None? <==> WalkPassedBefore(walk, target, |walk|)
    ensures r.Some? && r.value.Success? ==> exists k :: WalkHitAt(walk, target, k) && r.value.value == walk[k].path
    ensures forall k | WalkHitAt(walk, target, k) :: r == Some(Success(walk[k].path))
    ensures r.Some? && r.value.Failure? ==> r.value.error == RegistryReadFailed
    decreases |walk| - j
  {
    if j == |walk| then
      assert forall k :: !WalkHitAt(walk, target, k);
      None
    else
      match walk[j]
      case WalkFailed =>
        assert WalkFailsAt(walk, target, j);
        assert forall k :: !WalkHitAt(walk, target, k) by {
          forall k ensures !WalkHitAt(walk, target, k) { WalkStopsOnce(walk, target, j, k); }
        }
        Some(Failure(RegistryReadFailed))
      case Visited(p) =>
        if FileName(p) == Some(target) then
          assert WalkHitAt(walk, target, j);
          assert forall k :: WalkHitAt(walk, target, k) ==> k == j by {
            forall k ensures WalkHitAt(walk, target, k) ==> k == j { WalkStopsOnce(walk, target, j, k); }
          }
          Some(Success(p))
        else
          SearchWalk(walk, target, j + 1)
  }

  /** The outer loop: listing entries from `i` on. */
  function SearchFrom(entries: seq<RegistryEntry>, name: string, version: string, i: nat): (r: Result<Path, Error>)
    requires i <= |entries| && PassedBefore(entries, CrateDirName(name, version), i)
    ensures r.Success? <==> Locatable(entries, CrateDirName(name, version))
    ensures r.Success? ==> exists i', j :: HitAt(entries, CrateDirName(name, version), i', j)
                                           && r.value == entries[i'].walk[j].path
    ensures r.Failure? ==> r.error == RegistryReadFailed || r.error == CrateNotFound(name, version)
    ensures r == Failure(CrateNotFound(name, version)) <==> PassedBefore(entries, CrateDirName(name, version), |entries|)
    decreases |entries| - i
  {
    var target := CrateDirName(name, version);
    if i == |entries| then
      assert forall i', j :: !HitAt(entries, target, i', j);
      Failure(CrateNotFound(name, version))
    else
      match entries[i]
      case ReadFailed =>
        assert forall i', j :: !HitAt(entries, target, i', j) by {
          forall i', j ensures !HitAt(entries, target, i', j) {
            if i < i' {
              assert !EntryPassed(entries[i], target);
            }
          }
        }
        assert !PassedBefore(entries, target, |entries|) by {
          assert !EntryPassed(entries[i], target);
        }
        Failure(RegistryReadFailed)
      case NonDir(_) =>
        SearchFrom(entries, name, version, i + 1)
      case Subdir(_, walk) =>
        match SearchWalk(walk, target, 0)
        case None =>
          assert EntryPassed(entries[i], target);
          SearchFrom(entries, name, version, i + 1)
        case Some(res) =>
          assert !PassedBefore(entries, target, |entries|) by {
            assert !EntryPassed(entries[i], target);
          }
          if res.Success? then
            assert exists k :: HitAt(entries, target, i, k) && res.value == entries[i].walk[k].path by {
              var k :| WalkHitAt(walk, target, k) && res.value == walk[k].path;
              assert HitAt(entries, target, i, k);
            }
            res
          else
            assert forall i', j :: !HitAt(entries, target, i', j) by {
              forall i', j ensures !HitAt(entries, target, i', j) {
                if i < i' {
                  assert !EntryPassed(entries[i], target);
                }
              }
            }
            res
  }

  /** `find_crate_source`: the first directory named exactly `{name}-{version}` the search meets,
      scanning the listing in order and each subdirectory's walk in order; an I/O error met first
      ends the search, and it fails when nothing matches. */
  function FindCrateSource(entries: seq<RegistryEntry>, name: string, version: string): (r: Result<Path, Error>)
    ensures r.Success? <==> Locatable(entries, CrateDirName(name, version))
    ensures forall i, j | HitAt(entries, CrateDirName(name, version), i, j) :: r == Success(entries[i].walk[j].path)
    ensures r.Success? ==> exists i, j :: HitAt(entries, CrateDirName(name, version), i, j)
                                          && r.value == entries[i].walk[j].path
    ensures r.Success? ==> FileName(r.value) == Some(CrateDirName(name, version))
    ensures r.Failure? ==> r.error == RegistryReadFailed || r.error == CrateNotFound(name, version)
    ensures r == Failure(CrateNotFound(name, version)) <==> PassedBefore(entries, CrateDirName(name, version), |entries|)
  {
    var r := SearchFrom(entries, name, version, 0);
    assert forall i, j | HitAt(entries, CrateDirName(name, version), i, j) :: r == Success(entries[i].walk[j].path) by {
      forall i, j | HitAt(entries, CrateDirName(name, version), i, j)
        ensures r == Success(entries[i].walk[j].path)
      {
        var i', j' :| HitAt(entries, CrateDirName(name, version), i', j') && r.value == entries[i'].walk[j'].path;
        HitOnce(entries, CrateDirName(name, version), i, j, i', j');
      }
    }
    r
  }

  /** The listing describes `root`: each subdirectory is a child of it, and its walk reaches only
      directories at most two levels below that subdirectory. */
  ghost predicate ListingOf(root: Path, entries: seq<RegistryEntry>)
  {
    forall i | 0 <= i < |entries| && entries[i].Subdir? ::
      && StartsWith(entries[i].path, root) && |entries[i].path| == |root| + 1
      && forall j | 0 <= j < |entries[i].walk| && entries[i].walk[j].Visited? ::
           StartsWith(entries[i].walk[j].path, entries[i].path)
           && |entries[i].walk[j].path| <= |entries[i].path| + 2
  }

  /** A located source lies between one and three levels below the registry root. */
  lemma LocatedWithinDepth(root: Path, entries: seq<RegistryEntry>, name: string, version: string)
    requires ListingOf(root, entries)
    requires FindCrateSource(entries, name, version).Success?
    ensures var p := FindCrateSource(entries, name, version).value;
            StartsWith(p, root) && |root| < |p| <= |root| + 3
  {
  }
}

/** Which resolved package a manifest entry refers to. */
module Resolution {
  import opened Wrappers
  import opened Toml
  import opened Cargo

  /** The key that renames the package a dependency refers to. */
  const PackageKey: string := "package"

  /** A lookup hit: the package and the features the resolver enabled for it, in resolve order. */
  datatype Resolved = Resolved(pkg: Package, features: seq<string>)

  /** `packages[i]` is the last package with its id. */
  ghost predicate LastWithId(packages: seq<Package>, i: int)
    requires 0 <= i < |packages|
  {
    forall j | i < j < |packages| :: packages[j].id != packages[i].id
  }

  /** The id -> package map the source collects from the package list; a later package
      with the same id replaces an earlier one, as `HashMap::insert` does. */
  function PackageMap(packages: seq<Package>): map<PackageId, Package>
  {
    if |packages| == 0 then map[]
    else PackageMap(packages[..|packages| - 1])[packages[|packages| - 1].id := packages[|packages| - 1]]
  }

  /** The map's keys are exactly the ids of the package list. */
  lemma {:induction false} PackageMapKeys(packages: seq<Package>)
    ensures PackageMap(packages).Keys == set i | 0 <= i < |packages| :: packages[i].id
  {
    if |packages| > 0 {
      var init := packages[..|packages| - 1];
      PackageMapKeys(init);
      var ids := set i | 0 <= i < |packages| :: packages[i].id;
      var initIds := set i | 0 <= i < |init| :: init[i].id;
      assert ids == initIds + {packages[|packages| - 1].id} by {
        forall id | id in ids ensures id in initIds + {packages[|packages| - 1].id} {
          var i :| 0 <= i < |packages| && packages[i].id == id;
          if i < |init| { assert init[i].id == id; }
        }
        forall id | id in initIds ensures id in ids {
          var i :| 0 <= i < |init| && init[i].id == id;
          assert packages[i].id == id;
        }
      }
    }
  }

  /** An id maps to the last package that carries it. */
  lemma {:induction false} PackageMapLastWins(packages: seq<Package>, i: int)
    requires 0 <= i < |packages| && LastWithId(packages, i)
    ensures packages[i].id in PackageMap(packages)
    ensures PackageMap(packages)[packages[i].id] == packages[i]
  {
    var n := |packages|;
    if i < n - 1 {
      var init := packages[..n - 1];
      assert init[i] == packages[i];
      assert LastWithId(init, i) by {
        forall j | i < j < |init| ensures init[j].id != init[i].id {
          assert init[j] == packages[j];
        }
      }
      PackageMapLastWins(init, i);
      assert packages[n - 1].id != packages[i].id;
    }
  }

  /** The scan gets past `nodes[..i]`: each is in the package map and has another name. */
  ghost predicate PassesOver(nodes: seq<Node>, pm: map<PackageId, Package>, name: string, i: int)
    requires 0 <= i <= |nodes|
  {
    forall j | 0 <= j < i :: nodes[j].id in pm && pm[nodes[j].id].name != name
  }

  /** The scan stops at `nodes[i]` with a hit. */
  ghost predicate MatchesAt(nodes: seq<Node>, pm: map<PackageId, Package>, name: string, i: int)
  {
    && 0 <= i < |nodes|
    && PassesOver(nodes, pm, name, i)
    && nodes[i].id in pm
    && pm[nodes[i].id].name == name
  }

  /** The scan stops at `nodes[i]` because its id is missing from the package map. */
  ghost predicate AbortsAt(nodes: seq<Node>, pm: map<PackageId, Package>, name: string, i: int)
  {
    0 <= i < |nodes| && PassesOver(nodes, pm, name, i) && nodes[i].id !in pm
  }

  /** What a first-match scan of `nodes` for `name` yields. */
  ghost predicate ScanOutcome(nodes: seq<Node>, pm: map<PackageId, Package>, name: string, r: Option<Resolved>)
  {
    && (r.Some? <==> exists i :: MatchesAt(nodes, pm, name, i))
    && (forall i | MatchesAt(nodes, pm, name, i) :: r == Some(Resolved(pm[nodes[i].id], nodes[i].features)))
    && (r.None? <==> PassesOver(nodes, pm, name, |nodes|) || exists i :: AbortsAt(nodes, pm, name, i))
  }

  /** The scan stops at most once. */
  lemma StopsOnce(nodes: seq<Node>, pm: map<PackageId, Package>, name: string, i: int, j: int)
    ensures ((MatchesAt(nodes, pm, name, i) || AbortsAt(nodes, pm, name, i))
             && (MatchesAt(nodes, pm, name, j) || AbortsAt(nodes, pm, name, j)))
            ==> i == j
  {
  }

  /** The loop of `find_package_for_dependency`, from node `i` on. */
  function Scan(nodes: seq<Node>, pm: map<PackageId, Package>, name: string, i: nat): (r: Option<Resolved>)
    requires i <= |nodes| && PassesOver(nodes, pm, name, i)
    ensures ScanOutcome(nodes, pm, name, r)
    decreases |nodes| - i
  {
    if i == |nodes| then
      assert forall k :: !MatchesAt(nodes, pm, name, k) && !AbortsAt(nodes, pm, name, k);
      None
    else if nodes[i].id !in pm then
      assert AbortsAt(nodes, pm, name, i);
      assert forall k :: MatchesAt(nodes, pm, name, k) ==> k == i by {
        forall k ensures MatchesAt(nodes, pm, name, k) ==> k == i { StopsOnce(nodes, pm, name, i, k); }
      }
      None
    else if pm[nodes[i].id].name == name then
      assert MatchesAt(nodes, pm, name, i);
      assert forall k :: MatchesAt(nodes, pm, name, k) || AbortsAt(nodes, pm, name, k) ==> k == i by {
        forall k ensures MatchesAt(nodes, pm, name, k) || AbortsAt(nodes, pm, name, k) ==> k == i {
          StopsOnce(nodes, pm, name, i, k);
        }
      }
      assert !PassesOver(nodes, pm, name, |nodes|);
      Some(Resolved(pm[nodes[i].id], nodes[i].features))
    else
      Scan(nodes, pm, name, i + 1)
  }

  /** `find_package_for_dependency`: the first resolve node, in resolve order, whose package is
      named `packageName` (or `depName` when there is no rename), with that node's features.
      There is no result without resolve data, without a matching node, or when an earlier
      node's id is missing from the package list (the `?` ends the whole scan). */
  function FindPackageForDependency(md: Metadata, depName: string, packageName: Option<string>): (r: Option<Resolved>)
    ensures md.resolve.None? ==> r.None?
    ensures md.resolve.Some? ==> ScanOutcome(md.resolve.value, PackageMap(md.packages), packageName.GetOr(depName), r)
  {
    if md.resolve.None? then None
    else Scan(md.resolve.value, PackageMap(md.packages), packageName.GetOr(depName), 0)
  }

  /** A node whose id is missing from the package list hides every later node from the lookup. */
  lemma MissingIdHidesLaterNodes(md: Metadata, depName: string, packageName: Option<string>, k: int)
    requires md.resolve.Some?
    requires AbortsAt(md.resolve.value, PackageMap(md.packages), packageName.GetOr(depName), k)
    ensures FindPackageForDependency(md, depName, packageName).None?
  {
  }

  /** The rename a declaration carries: a `package` string in an inline table (`get_package_name_from_table`)
      or in a block table (`get_package_name_from_table_item`); a shorthand carries none. */
  function PackageRename(e: Entry): (r: Option<string>)
    ensures r.Some? <==> Field(e, PackageKey).Some? && ItemStr(Field(e, PackageKey).value).Some?
    ensures r.Some? ==> Field(e, PackageKey) == Some(ValueItem(Str(r.value)))
  {
    match e
    case Inline(t) => if PackageKey in t then ValueStr(t[PackageKey]) else None
    case Block(t) => if PackageKey in t then ItemStr(t[PackageKey]) else None
    case _ => None
  }

  /** The name an entry declared under `key` is looked up by. */
  function LookupName(key: string, e: Entry): (r: string)
    ensures e.Shorthand? ==> r == key
    ensures Field(e, PackageKey).Some? && ItemStr(Field(e, PackageKey).value).Some?
            ==> Field(e, PackageKey) == Some(ValueItem(Str(r)))
    ensures !(Field(e, PackageKey).Some? && ItemStr(Field(e, PackageKey).value).Some?) ==> r == key
  {
    PackageRename(e).GetOr(key)
  }
}

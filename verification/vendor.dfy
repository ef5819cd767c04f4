/** Copying every non-workspace package of the resolve graph into the vendor root (`copy_dependencies`). */
module Vendor {
  import opened Wrappers
  import opened Paths
  import opened Errors
  import opened Cargo
  import opened Resolution
  import opened Locate

  /** The tree under `src`, moved to lie under `dest` instead. */
  function Rebased(fs: FileSystem, src: Path, dest: Path): set<Path>
  {
    set p | p in fs && StartsWith(p, src) :: dest + p[|src|..]
  }

  /** Every rebased path lies under `dest` and comes from a path of the tree under `src`. */
  lemma RebasedOrigin(fs: FileSystem, src: Path, dest: Path, p: Path)
    requires p in Rebased(fs, src, dest)
    ensures StartsWith(p, dest) && src + p[|dest|..] in fs
  {
    var q :| q in fs && StartsWith(q, src) && p == dest + q[|src|..];
    assert p[|dest|..] == q[|src|..];
    assert src + q[|src|..] == q;
  }

  /** `fs_extra::dir::copy(src, destParent)`: the tree under `src` reappears under
      `destParent/<file name of src>`; the copy fails when `src` does not exist. */
  function CopyInto(fs: FileSystem, src: Path, destParent: Path): (r: Result<FileSystem, Error>)
    ensures r.Failure? <==> src !in fs || |src| == 0
    ensures r.Failure? ==> r.error == CopyFailed(src)
    ensures r.Success? ==> fs <= r.value && destParent + [src[|src| - 1]] in r.value
    ensures r.Success? ==> forall p | p in fs && StartsWith(p, src) :: destParent + [src[|src| - 1]] + p[|src|..] in r.value
    ensures r.Success? ==> forall p | p in r.value && p !in fs ::
                             StartsWith(p, destParent + [src[|src| - 1]]) && src + p[|destParent| + 1..] in fs
    ensures r.Success? ==> r.value == fs + (set p | p in fs && StartsWith(p, src) :: destParent + [src[|src| - 1]] + p[|src|..])
  {
    if |src| == 0 || src !in fs then Failure(CopyFailed(src))
    else
      var dest := destParent + [src[|src| - 1]];
      assert StartsWith(src, src) && dest + src[|src|..] == dest;
      assert dest in Rebased(fs, src, dest);
      assert forall p | p in Rebased(fs, src, dest) :: StartsWith(p, dest) && src + p[|dest|..] in fs by {
        forall p | p in Rebased(fs, src, dest) ensures StartsWith(p, dest) && src + p[|dest|..] in fs {
          RebasedOrigin(fs, src, dest, p);
        }
      }
      Success(fs + Rebased(fs, src, dest))
  }

  /** Where the search puts the source of a crate whose directory is named `target`. */
  ghost function SourceOf(entries: seq<RegistryEntry>, target: string): Path
    requires Locatable(entries, target)
  {
    var i, j :| HitAt(entries, target, i, j); entries[i].walk[j].path
  }

  /** The located source of a locatable package is the first hit of the search. */
  lemma FoundIsSourceOf(entries: seq<RegistryEntry>, pkg: Package)
    requires Locatable(entries, DestName(pkg))
    ensures FindCrateSource(entries, pkg.name, pkg.version) == Success(SourceOf(entries, DestName(pkg)))
  {
  }

  /** One non-workspace package: locate its source first, then skip it when its vendor
      directory exists and copy the source into the vendor root otherwise. */
  function VendorPackage(entries: seq<RegistryEntry>, vendorRoot: Path, fs: FileSystem, pkg: Package): (r: Result<FileSystem, Error>)
    ensures !Locatable(entries, DestName(pkg)) ==> r.Failure?
    ensures Locatable(entries, DestName(pkg)) && VendorDir(vendorRoot, pkg) in fs ==> r == Success(fs)
    ensures Locatable(entries, DestName(pkg)) && ListingExists(entries, fs) ==> r.Success?
    ensures Locatable(entries, DestName(pkg)) && SourceOf(entries, DestName(pkg)) in fs ==> r.Success?
    ensures r.Success? ==> fs <= r.value && VendorDir(vendorRoot, pkg) in r.value
    ensures r.Success? ==> FindCrateSource(entries, pkg.name, pkg.version) == Success(SourceOf(entries, DestName(pkg)))
    ensures r.Success? && VendorDir(vendorRoot, pkg) !in fs ==>
              r.value == fs + Rebased(fs, FindCrateSource(entries, pkg.name, pkg.version).value, VendorDir(vendorRoot, pkg))
    ensures FindCrateSource(entries, pkg.name, pkg.version).Failure? ==>
              r == Failure(FindCrateSource(entries, pkg.name, pkg.version).error)
    ensures Locatable(entries, DestName(pkg)) && VendorDir(vendorRoot, pkg) !in fs && SourceOf(entries, DestName(pkg)) !in fs
            ==> r == Failure(CopyFailed(SourceOf(entries, DestName(pkg))))
  {
    var src :- FindCrateSource(entries, pkg.name, pkg.version);
    FoundIsSourceOf(entries, pkg);
    var dest := VendorDir(vendorRoot, pkg);
    if dest in fs then Success(fs)
    else
      assert src[|src| - 1] == DestName(pkg);
      CopyInto(fs, src, vendorRoot)
  }

  /** One iteration of the copy loop on resolve node `node`: fail if its package is not in the
      package list, skip a workspace package, vendor any other. */
  function VendorNode(md: Metadata, entries: seq<RegistryEntry>, vendorRoot: Path, fs: FileSystem, node: Node): (r: Result<FileSystem, Error>)
    ensures node.id !in PackageMap(md.packages) ==> r == Failure(PackageNotInMetadata(node.id))
    ensures node.id in PackageMap(md.packages) && IsWorkspacePackage(PackageMap(md.packages)[node.id], md.workspaceRoot)
            ==> r == Success(fs)
    ensures node.id in PackageMap(md.packages) && !IsWorkspacePackage(PackageMap(md.packages)[node.id], md.workspaceRoot)
            ==> r == VendorPackage(entries, vendorRoot, fs, PackageMap(md.packages)[node.id])
  {
    var pm := PackageMap(md.packages);
    if node.id !in pm then Failure(PackageNotInMetadata(node.id))
    else if IsWorkspacePackage(pm[node.id], md.workspaceRoot) then Success(fs)
    else VendorPackage(entries, vendorRoot, fs, pm[node.id])
  }

  /** Path `p` was added by copying node `k`'s package: a non-workspace package whose vendor
      directory did not exist before the run, and `p` lies under that directory, where it
      mirrors the path of the same name under the located source. */
  ghost predicate CopiedFor(md: Metadata, nodes: seq<Node>, entries: seq<RegistryEntry>, vendorRoot: Path,
                            fs0: FileSystem, fs: FileSystem, k: int, p: Path)
  {
    var pm := PackageMap(md.packages);
    && 0 <= k < |nodes|
    && nodes[k].id in pm
    && !IsWorkspacePackage(pm[nodes[k].id], md.workspaceRoot)
    && VendorDir(vendorRoot, pm[nodes[k].id]) !in fs0
    && StartsWith(p, VendorDir(vendorRoot, pm[nodes[k].id]))
    && Locatable(entries, DestName(pm[nodes[k].id]))
    && SourceOf(entries, DestName(pm[nodes[k].id])) + p[|vendorRoot| + 1..] in fs
  }

  /** The state of the vendoring loop after its first `n` nodes: nothing was removed, every
      node so far is in the package list, every non-workspace package so far was located in the
      registry and has its vendor directory, which holds the whole located source tree when it
      is new, and every new path belongs to such a package's freshly created vendor directory. */
  ghost predicate VendoredUpTo(md: Metadata, nodes: seq<Node>, entries: seq<RegistryEntry>, vendorRoot: Path,
                               fs0: FileSystem, fs: FileSystem, n: int)
  {
    var pm := PackageMap(md.packages);
    && 0 <= n <= |nodes|
    && fs0 <= fs
    && (forall k | 0 <= k < n :: nodes[k].id in pm)
    && (forall k | 0 <= k < n && !IsWorkspacePackage(pm[nodes[k].id], md.workspaceRoot) ::
          && Locatable(entries, DestName(pm[nodes[k].id]))
          && VendorDir(vendorRoot, pm[nodes[k].id]) in fs
          && (VendorDir(vendorRoot, pm[nodes[k].id]) !in fs0 ==>
                Rebased(fs0, SourceOf(entries, DestName(pm[nodes[k].id])), VendorDir(vendorRoot, pm[nodes[k].id])) <= fs))
    && (forall p | p in fs && p !in fs0 :: exists k | 0 <= k < n :: CopiedFor(md, nodes, entries, vendorRoot, fs0, fs, k, p))
  }

  /** A node that leaves the filesystem alone keeps the loop state: a workspace package, or a
      located package whose vendor directory already exists. */
  lemma StepKeep(md: Metadata, nodes: seq<Node>, entries: seq<RegistryEntry>, vendorRoot: Path,
                 fs0: FileSystem, fs: FileSystem, n: int)
    requires VendoredUpTo(md, nodes, entries, vendorRoot, fs0, fs, n)
    requires n < |nodes| && nodes[n].id in PackageMap(md.packages)
    requires !IsWorkspacePackage(PackageMap(md.packages)[nodes[n].id], md.workspaceRoot) ==>
               && Locatable(entries, DestName(PackageMap(md.packages)[nodes[n].id]))
               && VendorDir(vendorRoot, PackageMap(md.packages)[nodes[n].id]) in fs
    ensures VendoredUpTo(md, nodes, entries, vendorRoot, fs0, fs, n + 1)
  {
    var pm := PackageMap(md.packages);
    forall k | 0 <= k < n + 1 && !IsWorkspacePackage(pm[nodes[k].id], md.workspaceRoot)
      ensures && Locatable(entries, DestName(pm[nodes[k].id]))
              && VendorDir(vendorRoot, pm[nodes[k].id]) in fs
              && (VendorDir(vendorRoot, pm[nodes[k].id]) !in fs0 ==>
                    Rebased(fs0, SourceOf(entries, DestName(pm[nodes[k].id])), VendorDir(vendorRoot, pm[nodes[k].id])) <= fs)
    {
      var dest := VendorDir(vendorRoot, pm[nodes[k].id]);
      if k == n && dest !in fs0 {
        var j :| 0 <= j < n && CopiedFor(md, nodes, entries, vendorRoot, fs0, fs, j, dest);
        SiblingPrefixesAgree(dest, vendorRoot, DestName(pm[nodes[k].id]), DestName(pm[nodes[j].id]));
      }
    }
    forall p | p in fs && p !in fs0
      ensures exists k | 0 <= k < n + 1 :: CopiedFor(md, nodes, entries, vendorRoot, fs0, fs, k, p)
    {
      var k :| 0 <= k < n && CopiedFor(md, nodes, entries, vendorRoot, fs0, fs, k, p);
    }
  }

  /** A node whose package is copied afresh keeps the loop state. */
  lemma StepCopy(md: Metadata, nodes: seq<Node>, entries: seq<RegistryEntry>, vendorRoot: Path,
                 fs0: FileSystem, fs: FileSystem, next: FileSystem, n: int)
    requires VendoredUpTo(md, nodes, entries, vendorRoot, fs0, fs, n)
    requires n < |nodes| && nodes[n].id in PackageMap(md.packages)
    requires !IsWorkspacePackage(PackageMap(md.packages)[nodes[n].id], md.workspaceRoot)
    requires Locatable(entries, DestName(PackageMap(md.packages)[nodes[n].id]))
    requires VendorDir(vendorRoot, PackageMap(md.packages)[nodes[n].id]) !in fs
    requires VendorDir(vendorRoot, PackageMap(md.packages)[nodes[n].id]) in next
    requires next == fs + Rebased(fs, SourceOf(entries, DestName(PackageMap(md.packages)[nodes[n].id])),
                                  VendorDir(vendorRoot, PackageMap(md.packages)[nodes[n].id]))
    ensures VendoredUpTo(md, nodes, entries, vendorRoot, fs0, next, n + 1)
  {
    var pm := PackageMap(md.packages);
    var pkg := pm[nodes[n].id];
    var dest := VendorDir(vendorRoot, pkg);
    var src := SourceOf(entries, DestName(pkg));
    RebasedMonotone(fs0, fs, src, dest);
    forall k | 0 <= k < n + 1 && !IsWorkspacePackage(pm[nodes[k].id], md.workspaceRoot)
      ensures && Locatable(entries, DestName(pm[nodes[k].id]))
              && VendorDir(vendorRoot, pm[nodes[k].id]) in next
              && (VendorDir(vendorRoot, pm[nodes[k].id]) !in fs0 ==>
                    Rebased(fs0, SourceOf(entries, DestName(pm[nodes[k].id])), VendorDir(vendorRoot, pm[nodes[k].id])) <= next)
    {
    }
    forall p | p in next && p !in fs0
      ensures exists k | 0 <= k < n + 1 :: CopiedFor(md, nodes, entries, vendorRoot, fs0, next, k, p)
    {
      if p in fs {
        var k :| 0 <= k < n && CopiedFor(md, nodes, entries, vendorRoot, fs0, fs, k, p);
        assert CopiedFor(md, nodes, entries, vendorRoot, fs0, next, k, p);
      } else {
        RebasedOrigin(fs, src, dest, p);
        assert CopiedFor(md, nodes, entries, vendorRoot, fs0, next, n, p);
      }
    }
  }

  /** One more node keeps the loop state: a workspace package leaves the filesystem alone, any
      other package has been located and has its vendor directory, filled from the located
      source if it is new. */
  lemma VendoredStep(md: Metadata, nodes: seq<Node>, entries: seq<RegistryEntry>, vendorRoot: Path,
                     fs0: FileSystem, fs: FileSystem, next: FileSystem, n: int)
    requires VendoredUpTo(md, nodes, entries, vendorRoot, fs0, fs, n)
    requires n < |nodes| && VendorNode(md, entries, vendorRoot, fs, nodes[n]) == Success(next)
    ensures VendoredUpTo(md, nodes, entries, vendorRoot, fs0, next, n + 1)
  {
    var pm := PackageMap(md.packages);
    var pkg := pm[nodes[n].id];
    if IsWorkspacePackage(pkg, md.workspaceRoot) || VendorDir(vendorRoot, pkg) in fs {
      StepKeep(md, nodes, entries, vendorRoot, fs0, fs, n);
    } else {
      StepCopy(md, nodes, entries, vendorRoot, fs0, fs, next, n);
    }
  }

  /** Rebasing a larger tree gives a larger result. */
  lemma RebasedMonotone(fs0: FileSystem, fs: FileSystem, src: Path, dest: Path)
    requires fs0 <= fs
    ensures Rebased(fs0, src, dest) <= Rebased(fs, src, dest)
  {
  }

  /** After the whole loop. */
  ghost predicate Vendored(md: Metadata, entries: seq<RegistryEntry>, vendorRoot: Path, fs0: FileSystem, fs: FileSystem)
  {
    md.resolve.Some? && VendoredUpTo(md, md.resolve.value, entries, vendorRoot, fs0, fs, |md.resolve.value|)
  }

  /** Every directory the listing's walks reach exists. */
  ghost predicate ListingExists(entries: seq<RegistryEntry>, fs: FileSystem)
  {
    forall i, j | 0 <= i < |entries| && entries[i].Subdir? && 0 <= j < |entries[i].walk| && entries[i].walk[j].Visited? ::
      entries[i].walk[j].path in fs
  }

  /** What a run needs to succeed: every resolve node is in the package list and every
      non-workspace package can be located in a listing that agrees with the filesystem. */
  ghost predicate CanVendor(md: Metadata, entries: seq<RegistryEntry>, fs: FileSystem)
  {
    var pm := PackageMap(md.packages);
    && md.resolve.Some?
    && ListingExists(entries, fs)
    && forall k | 0 <= k < |md.resolve.value| ::
         md.resolve.value[k].id in pm
         && (!IsWorkspacePackage(pm[md.resolve.value[k].id], md.workspaceRoot)
             ==> Locatable(entries, DestName(pm[md.resolve.value[k].id])))
  }

  /** `copy_dependencies`. For each resolve node in order: fail if its package is not in the
      package list, skip workspace packages, locate the source (failing if it cannot be found,
      even when the package is already vendored), then skip when `vendor/{name}-{version}`
      exists and copy the source into the vendor root otherwise. Nothing is rolled back on
      failure: `disk` is the filesystem as the run leaves it, and `done` counts the nodes
      handled before it stopped. */
  method CopyDependencies(md: Metadata, fs: FileSystem, home: Option<Path>, cargoHome: Option<Path>,
                          readDir: Path -> seq<RegistryEntry>, vendorRoot: Path)
    returns (r: Result<FileSystem, Error>, disk: FileSystem, done: nat)
    ensures RegistryRoot(home, cargoHome, fs).Failure? ==> r == Failure(RegistryNotFound) && disk == fs
    ensures RegistryRoot(home, cargoHome, fs).Success? && md.resolve.None? ==> r == Failure(NoResolveData) && disk == fs
    ensures r.Success? ==> disk == r.value && RegistryRoot(home, cargoHome, fs).Success?
                           && Vendored(md, readDir(RegistryRoot(home, cargoHome, fs).value), vendorRoot, fs, r.value)
    ensures RegistryRoot(home, cargoHome, fs).Success? && md.resolve.Some? ==>
              VendoredUpTo(md, md.resolve.value, readDir(RegistryRoot(home, cargoHome, fs).value), vendorRoot, fs, disk, done)
    ensures r.Failure? && RegistryRoot(home, cargoHome, fs).Success? && md.resolve.Some? ==>
              && done < |md.resolve.value|
              && VendorNode(md, readDir(RegistryRoot(home, cargoHome, fs).value), vendorRoot, disk, md.resolve.value[done]).Failure?
              && r.error == VendorNode(md, readDir(RegistryRoot(home, cargoHome, fs).value), vendorRoot, disk, md.resolve.value[done]).error
    ensures (RegistryRoot(home, cargoHome, fs).Success?
             && CanVendor(md, readDir(RegistryRoot(home, cargoHome, fs).value), fs))
            ==> r.Success?
  {
    disk, done := fs, 0;
    var root := RegistryRoot(home, cargoHome, fs);
    if root.Failure? {
      return Failure(root.error), disk, done;
    }
    if md.resolve.None? {
      return Failure(NoResolveData), disk, done;
    }
    var nodes := md.resolve.value;
    var entries := readDir(root.value);
    while done < |nodes|
      invariant VendoredUpTo(md, nodes, entries, vendorRoot, fs, disk, done)
    {
      var step := VendorNode(md, entries, vendorRoot, disk, nodes[done]);
      if step.Failure? {
        return step, disk, done;
      }
      VendoredStep(md, nodes, entries, vendorRoot, fs, disk, step.value, done);
      disk, done := step.value, done + 1;
    }
    return Success(disk), disk, done;
  }

  /** A second run over the filesystem a successful run left behind copies nothing: every
      node is in the package list, and every non-workspace package is located and skipped
      because its vendor directory exists. */
  lemma SecondRunSkips(md: Metadata, entries: seq<RegistryEntry>, vendorRoot: Path, fs0: FileSystem, fs1: FileSystem, k: int)
    requires Vendored(md, entries, vendorRoot, fs0, fs1)
    requires 0 <= k < |md.resolve.value|
    ensures VendorNode(md, entries, vendorRoot, fs1, md.resolve.value[k]) == Success(fs1)
  {
  }

  /** A vendor directory that existed before the run gains no path: the package is skipped. */
  lemma ExistingVendorDirUntouched(md: Metadata, entries: seq<RegistryEntry>, vendorRoot: Path,
                                   fs0: FileSystem, fs: FileSystem, name: string)
    requires Vendored(md, entries, vendorRoot, fs0, fs)
    requires vendorRoot + [name] in fs0
    ensures forall p | p in fs && StartsWith(p, vendorRoot + [name]) :: p in fs0
  {
  }
}

/** The slice of `cargo metadata` output the localizer reads, and the vendor layout derived from it. */
module Cargo {
  import opened Wrappers
  import opened Paths

  type PackageId = string

  /** A package of the metadata's package list; `version` is its rendered semantic version. */
  datatype Package = Package(id: PackageId, name: string, version: string, manifestPath: Path)

  /** A node of the resolve graph: a package id and the features it was resolved with, in order. */
  datatype Node = Node(id: PackageId, features: seq<string>)

  /** The package list, the resolve graph (absent when the metadata carries none), the workspace root. */
  datatype Metadata = Metadata(packages: seq<Package>, resolve: Option<seq<Node>>, workspaceRoot: Path)

  /** The directory name a crate is extracted and vendored under, `{name}-{version}`. */
  function CrateDirName(name: string, version: string): string
  {
    name + "-" + version
  }

  /** The vendor directory name of a package. */
  function DestName(pkg: Package): string
  {
    CrateDirName(pkg.name, pkg.version)
  }

  /** Where a package is vendored: the child `{name}-{version}` of the vendor root. */
  function VendorDir(vendorRoot: Path, pkg: Package): (d: Path)
    ensures StartsWith(d, vendorRoot) && |d| == |vendorRoot| + 1
    ensures FileName(d) == Some(DestName(pkg))
  {
    vendorRoot + [DestName(pkg)]
  }

  /** A workspace package is one whose manifest lies under the workspace root, compared
      component by component (so `/w/ab/Cargo.toml` is not under `/w/a`). */
  function IsWorkspacePackage(pkg: Package, workspaceRoot: Path): (r: bool)
    ensures r <==> |workspaceRoot| <= |pkg.manifestPath|
                   && forall i | 0 <= i < |workspaceRoot| :: pkg.manifestPath[i] == workspaceRoot[i]
  {
    StartsWith(pkg.manifestPath, workspaceRoot)
  }
}

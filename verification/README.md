# cargo-localize, modelled in Dafny

`cargo-localize` vendors a Cargo project's dependencies. It copies every non-workspace package
of the resolved dependency graph out of the local Cargo registry into a project-local vendor
directory, named `{name}-{version}`. It then rewrites the dependency declarations of the
manifests so that they point at those directories (`path = ...`), carrying the feature set
each package was resolved with.

This project models the decision logic of that engine as pure functions over immutable data:

- `Toml`: manifest items (`Value`, `Item`) and the four forms of a declaration
  (`Shorthand | Inline | Block | Other`), with a uniform field view `Field(e, key)`.
- `Cargo`: the metadata (`Package`, `Node`, `Metadata`), vendor directory names and the
  workspace test.
- `Resolution`: the id map built from the package list, the first-match scan of the resolve
  graph, and the `package` rename.
- `Rewrite`: the rewrite of one declaration and of one dependency table.
- `Manifest`: which tables of a manifest are visited.
- `Locate`: the choice of registry root and the search for `{name}-{version}`.
- `Vendor`: the copy loop over the resolve graph.
- `Localization`: how vendoring and rewriting fit together, plus two worked examples.

The filesystem is a set of paths, and a path is a sequence of components. External
collaborators are parameters:
- the metadata is an input value;
- the relative-path computation (`pathdiff::diff_paths`) is an uninterpreted function `(Path, Path) -> Option<string>`;
- the registry listing is a function from a directory to its entries in `read_dir` order;
- each entry carries the results of its depth-2 walk in the walker's order.

The source is `src/main.rs`. The model follows the code, including these behaviours a reader
might not expect:
- only the first existing registry root is searched, with no fallback to the second;
- missing resolve data is fatal when copying (line 78) but only makes every lookup fail when rewriting (line 376);
- the rewriter does not check workspace membership: any declaration whose `{name}-{version}` directory exists in the vendor root is rewritten;
- a workspace member is recognised by a component-wise path-prefix test on its manifest, not by a flag;
- an empty resolved feature set leaves a declaration's existing `features` in place.

## Model

| member | source | states |
|---|---|---|
| Toml.EntryOf | src/main.rs:236-365 | A dependency item is classified as a bare string, an inline table, a block table or something else, and the classification loses nothing: the item can be rebuilt from it |
| Resolution.PackageRename | src/main.rs:395-405 | The rename of a declaration is its `package` field when that field is a string, in an inline or a block table; a shorthand has none |
| Resolution.LookupName | src/main.rs:386 | A declaration is looked up by its `package` string when it has one, and by its key otherwise; a shorthand always uses its key |
| Resolution.PackageMapKeys | src/main.rs:377-381 | The package map's keys are exactly the ids of the package list |
| Resolution.PackageMapLastWins | src/main.rs:377-381 | An id maps to the last package in the list carrying it |
| Resolution.Scan | src/main.rs:384-392 | The scan returns the first node, in resolve order, whose package has the lookup name, with that node's features. It returns nothing when it passes every node, or when it reaches a node whose id is missing from the map |
| Resolution.FindPackageForDependency | src/main.rs:371-393 | No result without resolve data; otherwise the first-match outcome of the scan for the rename, or for the key when there is no rename |
| Resolution.MissingIdHidesLaterNodes | src/main.rs:385 | A node whose id is missing from the package list ends the lookup with no result, even when a later node would match |
| Rewrite.FeatureArray | src/main.rs:256-259 | The features array holds exactly the resolved features, as strings, in resolve order |
| Rewrite.Relocate | src/main.rs:286-309 | No source key (`version`, `git`, `branch`, `tag`, `rev`, `registry`) remains. `path` is set. `features` is replaced when given and kept as it was otherwise. Every other key keeps its value, and no other key is added |
| Rewrite.Localize | src/main.rs:248-355 | A localized declaration stays a block if it was one and is an inline table otherwise. A localized shorthand holds only `path`, plus `features` when the resolved set is non-empty. Table forms satisfy the Relocate properties field by field |
| Rewrite.LocalizedToUnique | src/main.rs:286-309 | The localization properties fix the rewritten declaration completely: two declarations that both satisfy them for the same path and features are equal |
| Rewrite.LocalizeIdempotent | src/main.rs:248-355 | Localizing an already localized declaration with the same path and features changes nothing |
| Rewrite.RewriteEntry | src/main.rs:236-365 | A declaration is left unchanged in three cases: it is of no declaration form, its package is not found, or its vendor directory is missing. Otherwise it is localized with the resolved features, or the pass fails exactly when no relative path can be computed |
| Rewrite.UpdateEntry | src/main.rs:236-366 | The loop body of `update_dependencies` on one declaration: it is looked up by its lookup name (the `package` rename, else its key), and the rewrite acts on the lookup result |
| Rewrite.UpdateItem | src/main.rs:233-366 | An item that is not a declaration is kept as it is. A failure is always the relative-path error, and happens exactly when the declaration's rewrite fails. On success the stored item reads back as the rewritten declaration |
| Rewrite.LocalizeKeepsLookupName | src/main.rs:321-322 | Localizing keeps the lookup name, so a second pass finds the same package |
| Rewrite.UpdateEntryIdempotent | src/main.rs:236-365 | Rewriting a declaration twice in the same context gives the result of rewriting it once |
| Rewrite.UpdateItemIdempotent | src/main.rs:233-367 | The same holds for a dependency item as the table stores it |
| Rewrite.UpdateDependencies | src/main.rs:227-369 | A dependency table keeps its keys. Each declaration is rewritten on its own. The pass fails, always with the relative-path error, exactly when some declaration's rewrite fails |
| Rewrite.UpdateDependenciesIdempotent | src/main.rs:233-367 | Rewriting a dependency table twice gives the result of rewriting it once |
| Manifest.UpdateSection | src/main.rs:198-202 | Only the named section changes, and only when it is a block table; every other key is unchanged |
| Manifest.UpdateSections | src/main.rs:197-202 | The three dependency sections of a table are rewritten, everything else in the table is unchanged, and the pass fails exactly when one of those sections fails |
| Manifest.UpdateTargets | src/main.rs:205-215 | Every block table under `target` has its three sections rewritten, and every other entry under `target` is unchanged |
| Manifest.UpdateDocument | src/main.rs:196-215 | Only the root sections and those under each `target.<spec>` block table are rewritten. Every other key of the document and of each target table is unchanged, and the pass fails exactly when a visited table fails |
| Manifest.UpdateDocumentIdempotent | src/main.rs:196-215 | A second manifest pass in the same context succeeds and leaves the document as the first pass left it |
| Cargo.VendorDir | src/main.rs:97-98 | A package's vendor directory is the direct child of the vendor root named `{name}-{version}` |
| Cargo.IsWorkspacePackage | src/main.rs:118-121 | A package is a workspace package exactly when the workspace root is a component-wise prefix of its manifest path |
| Locate.FirstExisting | src/main.rs:63-66 | The chosen candidate is the first one that is present and exists; there is none only if no candidate exists |
| Locate.RegistryRoot | src/main.rs:58-66 | The registry root is `~/.cargo/registry/src` if it exists, else `$CARGO_HOME/registry/src` if that exists, else the run fails |
| Locate.SearchWalk | src/main.rs:137-154 | Within one registry's walk, the first directory named `{name}-{version}` is returned, unless an I/O error comes first |
| Locate.SearchFrom | src/main.rs:127-157 | Scanning the listing in order returns the first hit in the first registry that has one. An earlier I/O error ends the search. The crate is reported not found exactly when every entry is passed over |
| Locate.FindCrateSource | src/main.rs:123-158 | The locator succeeds exactly when a hit is reachable, returns that unique first hit, whose file name is `{name}-{version}`, and otherwise fails with a read error or not-found |
| Locate.LocatedWithinDepth | src/main.rs:137-141 | A located source lies one to three levels below the registry root when the listing describes a depth-2 walk of each registry subdirectory |
| Vendor.CopyInto | src/main.rs:105-110 | Copying a source into the vendor root fails when the source is missing. Otherwise the result is the old filesystem plus the source tree rebased under `vendorRoot/<source file name>`. Nothing is removed, and every new path mirrors an existing path under the source |
| Vendor.VendorPackage | src/main.rs:96-112 | The source is located first, so an unlocatable package fails with the locator's own error even if it is already vendored. An existing vendor directory means no change. A located source missing from the filesystem fails the copy with that source in the error, and a located source that exists is always copied, whatever else the listing names. Otherwise the result adds exactly the located crate's tree, rebased under the vendor directory, and the located source is the first hit of the registry search |
| Vendor.VendorNode | src/main.rs:80-112 | One loop iteration: a node missing from the package list fails with that id, a workspace package changes nothing, and any other package is vendored |
| Vendor.VendoredStep | src/main.rs:80-113 | Handling one more resolve node keeps the loop's state: workspace packages add nothing, and every other package is located and vendored. A freshly created vendor directory holds the located source's tree |
| Vendor.CopyDependencies | src/main.rs:56-116 | The run fails without a registry root, then without resolve data, touching nothing. Copies made before a failing node stay on disk, and the failure is that node's own. On success every node's id is in the package list, and every non-workspace package was located and has its vendor directory. A directory created by the run holds the located source's whole tree, and every new path mirrors a path of such a source. The run succeeds whenever every node is in the package list and every non-workspace package can be located in a listing that agrees with the filesystem |
| Vendor.SecondRunSkips | src/main.rs:96-103 | On the filesystem a successful run leaves behind, every node of a second run succeeds without changing anything: each package is located and then skipped because its vendor directory exists |
| Vendor.ExistingVendorDirUntouched | src/main.rs:97-103 | A vendor directory that existed before the run gains no path |
| Localization.VendoredDeclarationsAreLocalized | src/main.rs:41-45 | After a successful copy run, every declaration whose package resolves to a non-workspace package is localized by the manifest pass, whenever its relative path can be computed |
| Localization.ShorthandExample | src/main.rs:237-263 | `foo = "1.0"` resolving to foo 1.2.3 with features x, y becomes `{ path = ..., features = ["x", "y"] }` |
| Localization.BlockExample | src/main.rs:319-356 | A block table loses `version`, `git` and `branch`, keeps `optional` and gains `path`; with no resolved features it gains no `features` |

## Left out

- Running `cargo fetch` and `cargo metadata` (src/main.rs:26-37): external processes. The metadata is an input value.
- Argument parsing, canonicalising the project path, creating the vendor root and deleting `Cargo.lock` (src/main.rs:11-24, 39, 47-50): plain I/O. The vendor root is assumed to exist before copying.
- The driver `update_cargo_toml` (src/main.rs:160-181): it only chooses which manifests get a pass. A single pass is `Manifest.UpdateDocument`.
- The `.bak` backup, reading, parsing and writing the manifest, and removing `.orig` (src/main.rs:189-194, 217-222): file I/O and the `toml_edit` library. A document is a key-to-item map, so key order, comments and formatting are not modelled.
- `pathdiff::diff_paths` is uninterpreted. The `parent().unwrap()` of the manifest path is not modelled: the manifest's directory is given directly, since a manifest path always ends in `Cargo.toml`.
- `WalkDir` and `read_dir` order, symlink handling and the depth bound are not computed from the filesystem. They are a given listing, and `Locate.ListingOf` states what a depth-2 listing looks like.
- Logging with `println!`, and the text of error messages: errors are a datatype without messages.
- Vendor.CopyInto: states only which paths exist after the copy, not file contents, and no copy failure other than a missing source, because the filesystem is modelled as a set of paths. A vendored tree therefore mirrors the source's paths, not its bytes.
- Package versions are taken as already rendered strings; semantic-version formatting is not modelled.

/** How the vendoring run and the manifest pass fit together. */
module Localization {
  import opened Wrappers
  import opened Paths
  import opened Toml
  import opened Cargo
  import opened Resolution
  import opened Locate
  import opened Vendor
  import opened Rewrite

  /** After a successful vendoring run, the manifest pass localizes every declaration whose
      package resolves to a non-workspace package, whenever the relative path can be computed. */
  lemma VendoredDeclarationsAreLocalized(md: Metadata, entries: seq<RegistryEntry>, fs0: FileSystem,
                                         ctx: Context, key: string, e: Entry)
    requires Vendored(md, entries, ctx.vendorRoot, fs0, ctx.fs)
    requires ctx.md == md
    requires !e.Other?
    requires FindPackageForDependency(md, key, PackageRename(e)).Some?
    requires !IsWorkspacePackage(FindPackageForDependency(md, key, PackageRename(e)).value.pkg, md.workspaceRoot)
    requires ctx.relPath(TargetDir(FindPackageForDependency(md, key, PackageRename(e)).value, ctx), ctx.manifestDir).Some?
    ensures UpdateEntry(key, e, ctx).Success?
    ensures LocalizedTo(e, UpdateEntry(key, e, ctx).value,
                        ctx.relPath(TargetDir(FindPackageForDependency(md, key, PackageRename(e)).value, ctx), ctx.manifestDir).value,
                        FindPackageForDependency(md, key, PackageRename(e)).value.features)
  {
  }

  /** A bare version string resolving to `foo` 1.2.3 with features `x`, `y` becomes an inline
      table holding just the path and the features in resolve order. */
  lemma ShorthandExample(ctx: Context)
    requires ctx.md == Metadata(
               [Package("foo 1.2.3", "foo", "1.2.3", ["home", ".cargo", "registry", "src", "r", "foo-1.2.3", "Cargo.toml"])],
               Some([Node("foo 1.2.3", ["x", "y"])]),
               ["proj"])
    requires ctx.vendorRoot + ["foo-1.2.3"] in ctx.fs
    requires ctx.relPath(ctx.vendorRoot + ["foo-1.2.3"], ctx.manifestDir) == Some("3rd-party/foo-1.2.3")
    ensures UpdateEntry("foo", Shorthand("1.0"), ctx)
            == Success(Inline(map["path" := Str("3rd-party/foo-1.2.3"), "features" := Array([Str("x"), Str("y")])]))
  {
    var pkg := ctx.md.packages[0];
    assert PackageMap(ctx.md.packages) == map["foo 1.2.3" := pkg];
    var found := FindPackageForDependency(ctx.md, "foo", None);
    assert MatchesAt(ctx.md.resolve.value, PackageMap(ctx.md.packages), "foo", 0);
    assert found == Some(Resolved(pkg, ["x", "y"]));
    assert DestName(pkg) == "foo-1.2.3";
    var r := UpdateEntry("foo", Shorthand("1.0"), ctx).value;
    assert FeatureArray(["x", "y"]) == Array([Str("x"), Str("y")]);
    var expected := map["path" := Str("3rd-party/foo-1.2.3"), "features" := Array([Str("x"), Str("y")])];
    assert r.fields.Keys == expected.Keys;
    assert r.fields == expected;
  }

  /** A block table with `version`, `git` and `branch` loses all three, gains `path` and keeps
      `optional`; with no resolved features no `features` key appears. */
  lemma BlockExample(ctx: Context, optional: Item)
    requires ctx.md == Metadata(
               [Package("bar 0.4.0", "bar", "0.4.0", ["git", "bar", "Cargo.toml"])],
               Some([Node("bar 0.4.0", [])]),
               ["proj"])
    requires ctx.vendorRoot + ["bar-0.4.0"] in ctx.fs
    requires ctx.relPath(ctx.vendorRoot + ["bar-0.4.0"], ctx.manifestDir) == Some("../bar-0.4.0")
    ensures var decl := Block(map[
                          "version" := ValueItem(Str("0.4")),
                          "git" := ValueItem(Str("https://example.org/bar")),
                          "branch" := ValueItem(Str("main")),
                          "optional" := optional]);
            UpdateEntry("bar", decl, ctx)
            == Success(Block(map["optional" := optional, "path" := ValueItem(Str("../bar-0.4.0"))]))
  {
    var decl := Block(map[
                  "version" := ValueItem(Str("0.4")),
                  "git" := ValueItem(Str("https://example.org/bar")),
                  "branch" := ValueItem(Str("main")),
                  "optional" := optional]);
    var pkg := ctx.md.packages[0];
    assert PackageRename(decl) == None;
    assert PackageMap(ctx.md.packages) == map["bar 0.4.0" := pkg];
    assert MatchesAt(ctx.md.resolve.value, PackageMap(ctx.md.packages), "bar", 0);
    assert DestName(pkg) == "bar-0.4.0";
    var r := UpdateEntry("bar", decl, ctx).value;
    var expected := map["optional" := optional, "path" := ValueItem(Str("../bar-0.4.0"))];
    assert Field(r, "optional") == Some(optional);
    assert r.entries.Keys == expected.Keys;
    assert r.entries == expected;
  }
}

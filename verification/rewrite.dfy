/** Rewriting one dependency declaration to point at its vendored copy (`update_dependencies`). */
module Rewrite {
  import opened Wrappers
  import opened Paths
  import opened Errors
  import opened Toml
  import opened Cargo
  import opened Resolution

  const PathKey: string := "path"
  const FeaturesKey: string := "features"

  /** The keys naming a remote source; a localized declaration keeps none of them. */
  const SourceKeys: set<string> := {"version", "git", "branch", "tag", "rev", "registry"}

  /** What one manifest pass works against: the metadata, the filesystem after vendoring, the
      vendor root, the directory holding the manifest, and the relative-path computation
      (`pathdiff::diff_paths`, left uninterpreted). */
  datatype Context = Context(
    md: Metadata,
    fs: FileSystem,
    vendorRoot: Path,
    manifestDir: Path,
    relPath: (Path, Path) -> Option<string>)

  /** The `features` array: one string per resolved feature, in resolve order. */
  function FeatureArray(features: seq<string>): (v: Value)
    ensures v.Array? && |v.elems| == |features|
    ensures forall i | 0 <= i < |features| :: v.elems[i] == Str(features[i])
  {
    Array(seq(|features|, i requires 0 <= i < |features| => Str(features[i])))
  }

  /** Strip the source keys from a table, set `path`, and set `features` when given. */
  function Relocate<V>(t: map<string, V>, path: V, features: Option<V>): (r: map<string, V>)
    ensures r.Keys !! SourceKeys
    ensures PathKey in r && r[PathKey] == path
    ensures features.Some? ==> FeaturesKey in r && r[FeaturesKey] == features.value
    ensures features.None? ==> (FeaturesKey in r <==> FeaturesKey in t)
    ensures features.None? && FeaturesKey in t ==> r[FeaturesKey] == t[FeaturesKey]
    ensures forall k | k in t && k !in SourceKeys && k != PathKey && k != FeaturesKey :: k in r && r[k] == t[k]
    ensures forall k | k in r :: k in t || k == PathKey || k == FeaturesKey
  {
    var withPath := (t - SourceKeys)[PathKey := path];
    if features.Some? then withPath[FeaturesKey := features.value] else withPath
  }

  /** `r` is `e` pointed at the local path `rel` with the resolved `features`: it has the form
      of a table (a block stays a block), no source key, `path = rel`, `features` replaced when
      the resolved set is non-empty and kept otherwise, and every other field unchanged. */
  ghost predicate LocalizedTo(e: Entry, r: Entry, rel: string, features: seq<string>)
  {
    && (if e.Block? then r.Block? else r.Inline?)
    && (forall k | k in SourceKeys :: Field(r, k).None?)
    && Field(r, PathKey) == Some(ValueItem(Str(rel)))
    && Field(r, FeaturesKey) == (if |features| > 0 then Some(ValueItem(FeatureArray(features))) else Field(e, FeaturesKey))
    && (forall k | k !in SourceKeys && k != PathKey && k != FeaturesKey :: Field(r, k) == Field(e, k))
  }

  /** The rewrite of a declaration whose package is vendored: a shorthand becomes a fresh inline
      table, an inline or block table is relocated in place. */
  function Localize(e: Entry, rel: string, features: seq<string>): (r: Entry)
    requires !e.Other?
    ensures LocalizedTo(e, r, rel, features)
    ensures e.Shorthand? ==> r.fields.Keys == {PathKey} + (if |features| > 0 then {FeaturesKey} else {})
  {
    var present := |features| > 0;
    match e
    case Shorthand(_) =>
      Inline(Relocate(map[], Str(rel), if present then Some(FeatureArray(features)) else None))
    case Inline(t) =>
      Inline(Relocate(t, Str(rel), if present then Some(FeatureArray(features)) else None))
    case Block(t) =>
      Block(Relocate(t, ValueItem(Str(rel)), if present then Some(ValueItem(FeatureArray(features))) else None))
  }

  /** `LocalizedTo` determines the rewrite completely: two declarations localized from the
      same one with the same path and features are equal. */
  lemma LocalizedToUnique(e: Entry, a: Entry, b: Entry, rel: string, features: seq<string>)
    requires LocalizedTo(e, a, rel, features) && LocalizedTo(e, b, rel, features)
    ensures a == b
  {
    forall k ensures Field(a, k) == Field(b, k) {
      if k in SourceKeys {
        assert Field(a, k).None? && Field(b, k).None?;
      }
    }
    FieldsDetermineEntry(a, b);
  }

  /** Localizing a localized declaration again with the same path and features changes nothing. */
  lemma LocalizeIdempotent(e: Entry, rel: string, features: seq<string>)
    requires !e.Other?
    ensures Localize(Localize(e, rel, features), rel, features) == Localize(e, rel, features)
  {
  }

  /** The vendor directory of a lookup hit. */
  function TargetDir(found: Resolved, ctx: Context): Path
  {
    VendorDir(ctx.vendorRoot, found.pkg)
  }

  /** One arm of the rewriter's `match`, given the lookup result `found`: a declaration is left
      alone unless it is of one of the three forms, its package was found and that package's
      vendor directory exists; otherwise it is localized, or the run fails when no relative
      path from the manifest's directory to the vendor directory can be computed. */
  function RewriteEntry(e: Entry, found: Option<Resolved>, ctx: Context): (r: Result<Entry, Error>)
    ensures e.Other? || found.None? || TargetDir(found.value, ctx) !in ctx.fs ==> r == Success(e)
    ensures r.Failure? ==> r.error == RelativePathFailed
    ensures r.Failure? ==> found.Some? && ctx.relPath(TargetDir(found.value, ctx), ctx.manifestDir).None?
    ensures !e.Other? && found.Some? && TargetDir(found.value, ctx) in ctx.fs
            && ctx.relPath(TargetDir(found.value, ctx), ctx.manifestDir).None?
            ==> r == Failure(RelativePathFailed)
    ensures !e.Other? && found.Some? && TargetDir(found.value, ctx) in ctx.fs
            && ctx.relPath(TargetDir(found.value, ctx), ctx.manifestDir).Some?
            ==> r.Success? && LocalizedTo(e, r.value, ctx.relPath(TargetDir(found.value, ctx), ctx.manifestDir).value, found.value.features)
  {
    if e.Other? || found.None? then Success(e)
    else
      var dir := TargetDir(found.value, ctx);
      if dir !in ctx.fs then Success(e)
      else
        match ctx.relPath(dir, ctx.manifestDir)
        case None => Failure(RelativePathFailed)
        case Some(rel) => Success(Localize(e, rel, found.value.features))
  }

  /** The whole treatment of the declaration under `key`: look it up, then rewrite it. */
  function UpdateEntry(key: string, e: Entry, ctx: Context): (r: Result<Entry, Error>)
    ensures r == RewriteEntry(e, FindPackageForDependency(ctx.md, LookupName(key, e), None), ctx)
  {
    RewriteEntry(e, FindPackageForDependency(ctx.md, key, PackageRename(e)), ctx)
  }

  /** The same, on the item as the table stores it. */
  function UpdateItem(key: string, item: Item, ctx: Context): (r: Result<Item, Error>)
    ensures !IsDeclaration(item) ==> r == Success(item)
    ensures r.Failure? ==> r == Failure(RelativePathFailed)
    ensures r.Failure? <==> UpdateEntry(key, EntryOf(item), ctx).Failure?
    ensures r.Success? ==> EntryOf(r.value) == UpdateEntry(key, EntryOf(item), ctx).value
  {
    var e :- UpdateEntry(key, EntryOf(item), ctx);
    EntryOfItemOf(e);
    Success(ItemOf(e))
  }

  /** A localized declaration is looked up by the same name as before: the `package` field is
      kept, and a shorthand turns into a table without one. */
  lemma LocalizeKeepsLookupName(key: string, e: Entry, rel: string, features: seq<string>)
    requires !e.Other?
    ensures LookupName(key, Localize(e, rel, features)) == LookupName(key, e)
    ensures PackageRename(Localize(e, rel, features)) == PackageRename(e)
  {
  }

  /** Rewriting a declaration a second time in the same context yields the first result. */
  lemma UpdateEntryIdempotent(key: string, e: Entry, ctx: Context)
    requires UpdateEntry(key, e, ctx).Success?
    ensures UpdateEntry(key, UpdateEntry(key, e, ctx).value, ctx) == UpdateEntry(key, e, ctx)
  {
    var found := FindPackageForDependency(ctx.md, key, PackageRename(e));
    var e' := UpdateEntry(key, e, ctx).value;
    if e' != e {
      var rel := ctx.relPath(TargetDir(found.value, ctx), ctx.manifestDir).value;
      assert e' == Localize(e, rel, found.value.features);
      LocalizeKeepsLookupName(key, e, rel, found.value.features);
      LocalizeIdempotent(e, rel, found.value.features);
    }
  }

  /** Rewriting a table item a second time in the same context yields the first result. */
  lemma UpdateItemIdempotent(key: string, item: Item, ctx: Context)
    requires UpdateItem(key, item, ctx).Success?
    ensures UpdateItem(key, UpdateItem(key, item, ctx).value, ctx) == UpdateItem(key, item, ctx)
  {
    var e := EntryOf(item);
    var e' := UpdateEntry(key, e, ctx).value;
    UpdateEntryIdempotent(key, e, ctx);
    if e' == e {
      assert ItemOf(e') == item;
    } else {
      assert e'.Inline? || e'.Block?;
      EntryOfItemOf(e');
    }
  }

  /** `update_dependencies`: every declaration of a dependency table is rewritten on its own;
      the table keeps its keys, and the pass fails exactly when some declaration fails. */
  function UpdateDependencies(deps: map<string, Item>, ctx: Context): (r: Result<map<string, Item>, Error>)
    ensures r.Failure? <==> exists k | k in deps :: UpdateItem(k, deps[k], ctx).Failure?
    ensures r.Failure? ==> r.error == RelativePathFailed
    ensures r.Success? ==> r.value.Keys == deps.Keys
    ensures r.Success? ==> forall k | k in deps :: UpdateItem(k, deps[k], ctx) == Success(r.value[k])
  {
    if exists k | k in deps :: UpdateItem(k, deps[k], ctx).Failure? then Failure(RelativePathFailed)
    else Success(map k | k in deps :: UpdateItem(k, deps[k], ctx).value)
  }

  /** A table whose every declaration is already a fixed point of the rewrite is one as a whole. */
  lemma UpdateDependenciesFixed(deps: map<string, Item>, ctx: Context)
    requires forall k | k in deps :: UpdateItem(k, deps[k], ctx) == Success(deps[k])
    ensures UpdateDependencies(deps, ctx) == Success(deps)
  {
    var r := UpdateDependencies(deps, ctx);
    assert r.Success?;
    assert r.value == deps;
  }

  /** Rewriting a dependency table a second time in the same context yields the first result. */
  lemma UpdateDependenciesIdempotent(deps: map<string, Item>, ctx: Context)
    requires UpdateDependencies(deps, ctx).Success?
    ensures UpdateDependencies(UpdateDependencies(deps, ctx).value, ctx) == UpdateDependencies(deps, ctx)
  {
    var deps' := UpdateDependencies(deps, ctx).value;
    forall k | k in deps' ensures UpdateItem(k, deps'[k], ctx) == Success(deps'[k]) {
      UpdateItemIdempotent(k, deps[k], ctx);
    }
    UpdateDependenciesFixed(deps', ctx);
  }
}

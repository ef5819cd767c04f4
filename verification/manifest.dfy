/** The sections of a manifest the rewriter visits (`update_single_cargo_toml`). */
module Manifest {
  import opened Wrappers
  import opened Errors
  import opened Toml
  import opened Rewrite

  /** The three dependency tables, visited at the root and inside each `target.<spec>` table. */
  const DependencySections: seq<string> := ["dependencies", "dev-dependencies", "build-dependencies"]

  const TargetKey: string := "target"

  /** A dependency section after the pass: a block table is rewritten by `UpdateDependencies`;
      anything else (an inline table included) is left as it was. */
  ghost predicate SectionResult(item: Item, item': Item, ctx: Context)
  {
    if item.Table? then item'.Table? && UpdateDependencies(item.entries, ctx) == Success(item'.entries)
    else item' == item
  }

  /** A table after its three sections were visited: same keys, the sections rewritten, every
      other key unchanged. */
  ghost predicate SectionsUpdated(t: map<string, Item>, t': map<string, Item>, ctx: Context)
  {
    && t'.Keys == t.Keys
    && (forall k | k in t && k in DependencySections :: SectionResult(t[k], t'[k], ctx))
    && (forall k | k in t && k !in DependencySections :: t'[k] == t[k])
  }

  /** The `target` table after the pass: each block table under it has its sections visited,
      every other entry is unchanged. */
  ghost predicate TargetsUpdated(ts: map<string, Item>, ts': map<string, Item>, ctx: Context)
  {
    && ts'.Keys == ts.Keys
    && (forall k | k in ts && ts[k].Table? :: ts'[k].Table? && SectionsUpdated(ts[k].entries, ts'[k].entries, ctx))
    && (forall k | k in ts && !ts[k].Table? :: ts'[k] == ts[k])
  }

  /** A whole manifest after the pass: root sections visited, a block `target` table handled
      per platform, every other key unchanged. */
  ghost predicate DocumentUpdated(doc: Document, doc': Document, ctx: Context)
  {
    && doc'.Keys == doc.Keys
    && (forall k | k in doc && k in DependencySections :: SectionResult(doc[k], doc'[k], ctx))
    && (forall k | k in doc && k !in DependencySections && k != TargetKey :: doc'[k] == doc[k])
    && (TargetKey in doc && doc[TargetKey].Table? ==>
          doc'[TargetKey].Table? && TargetsUpdated(doc[TargetKey].entries, doc'[TargetKey].entries, ctx))
    && (TargetKey in doc && !doc[TargetKey].Table? ==> doc'[TargetKey] == doc[TargetKey])
  }

  /** Some visited dependency table of `t` holds a declaration that cannot be rewritten. */
  ghost predicate SectionsFail(t: map<string, Item>, ctx: Context)
  {
    exists k | k in t && k in DependencySections && t[k].Table? :: UpdateDependencies(t[k].entries, ctx).Failure?
  }

  ghost predicate TargetsFail(ts: map<string, Item>, ctx: Context)
  {
    exists k | k in ts && ts[k].Table? :: SectionsFail(ts[k].entries, ctx)
  }

  ghost predicate DocumentFails(doc: Document, ctx: Context)
  {
    || SectionsFail(doc, ctx)
    || (TargetKey in doc && doc[TargetKey].Table? && TargetsFail(doc[TargetKey].entries, ctx))
  }

  /** One iteration of the section loop: rewrite `t[section]` when it is a block table. */
  function UpdateSection(t: map<string, Item>, section: string, ctx: Context): (r: Result<map<string, Item>, Error>)
    ensures r.Failure? <==> section in t && t[section].Table? && UpdateDependencies(t[section].entries, ctx).Failure?
    ensures r.Failure? ==> r.error == RelativePathFailed
    ensures r.Success? ==> r.value.Keys == t.Keys
    ensures r.Success? ==> forall k | k in t && k != section :: r.value[k] == t[k]
    ensures r.Success? && section in t ==> SectionResult(t[section], r.value[section], ctx)
  {
    if section in t && t[section].Table? then
      var deps :- UpdateDependencies(t[section].entries, ctx);
      Success(t[section := Table(deps)])
    else Success(t)
  }

  /** Three successful section steps give an updated table. */
  lemma SectionsSucceed(t: map<string, Item>, t1: map<string, Item>, t2: map<string, Item>, t3: map<string, Item>, ctx: Context)
    requires UpdateSection(t, DependencySections[0], ctx) == Success(t1)
    requires UpdateSection(t1, DependencySections[1], ctx) == Success(t2)
    requires UpdateSection(t2, DependencySections[2], ctx) == Success(t3)
    ensures SectionsUpdated(t, t3, ctx) && !SectionsFail(t, ctx)
  {
    var d0, d1, d2 := DependencySections[0], DependencySections[1], DependencySections[2];
    assert forall k :: k in DependencySections <==> k == d0 || k == d1 || k == d2;
    forall k | k in t && k in DependencySections
      ensures SectionResult(t[k], t3[k], ctx)
    {
      if k == d0 {
        assert t3[k] == t2[k] == t1[k];
      } else if k == d1 {
        assert t3[k] == t2[k] && t1[k] == t[k];
      } else {
        assert t2[k] == t1[k] == t[k];
      }
    }
  }

  /** A failing section step means some section of the original table fails. */
  lemma SectionsFailure(t: map<string, Item>, t1: map<string, Item>, t2: map<string, Item>, ctx: Context)
    requires UpdateSection(t, DependencySections[0], ctx).Failure?
             || (UpdateSection(t, DependencySections[0], ctx) == Success(t1)
                 && UpdateSection(t1, DependencySections[1], ctx).Failure?)
             || (UpdateSection(t, DependencySections[0], ctx) == Success(t1)
                 && UpdateSection(t1, DependencySections[1], ctx) == Success(t2)
                 && UpdateSection(t2, DependencySections[2], ctx).Failure?)
    ensures SectionsFail(t, ctx)
  {
  }

  /** The loop over the three dependency sections of one table. */
  function UpdateSections(t: map<string, Item>, ctx: Context): (r: Result<map<string, Item>, Error>)
    ensures r.Failure? <==> SectionsFail(t, ctx)
    ensures r.Failure? ==> r.error == RelativePathFailed
    ensures r.Success? ==> SectionsUpdated(t, r.value, ctx)
  {
    match UpdateSection(t, DependencySections[0], ctx)
    case Failure(err) => SectionsFailure(t, t, t, ctx); Failure(err)
    case Success(t1) =>
      match UpdateSection(t1, DependencySections[1], ctx)
      case Failure(err) => SectionsFailure(t, t1, t1, ctx); Failure(err)
      case Success(t2) =>
        match UpdateSection(t2, DependencySections[2], ctx)
        case Failure(err) => SectionsFailure(t, t1, t2, ctx); Failure(err)
        case Success(t3) => SectionsSucceed(t, t1, t2, t3, ctx); Success(t3)
  }

  /** The loop over the `target.<spec>` tables. */
  function UpdateTargets(ts: map<string, Item>, ctx: Context): (r: Result<map<string, Item>, Error>)
    ensures r.Failure? <==> TargetsFail(ts, ctx)
    ensures r.Failure? ==> r.error == RelativePathFailed
    ensures r.Success? ==> TargetsUpdated(ts, r.value, ctx)
  {
    if exists k | k in ts && ts[k].Table? :: UpdateSections(ts[k].entries, ctx).Failure? then
      Failure(RelativePathFailed)
    else
      Success(map k | k in ts :: if ts[k].Table? then Table(UpdateSections(ts[k].entries, ctx).value) else ts[k])
  }

  /** The rewriting part of `update_single_cargo_toml`: visit the root's dependency sections,
      then those of every block table under a block `target` table, and nothing else. The
      pass fails, and nothing is written, when any visited declaration cannot be rewritten. */
  function UpdateDocument(doc: Document, ctx: Context): (r: Result<Document, Error>)
    ensures r.Failure? <==> DocumentFails(doc, ctx)
    ensures r.Failure? ==> r.error == RelativePathFailed
    ensures r.Success? ==> DocumentUpdated(doc, r.value, ctx)
  {
    var root :- UpdateSections(doc, ctx);
    assert TargetKey !in DependencySections;
    if TargetKey in root && root[TargetKey].Table? then
      var targets :- UpdateTargets(root[TargetKey].entries, ctx);
      Success(root[TargetKey := Table(targets)])
    else Success(root)
  }

  /** A rewritten section is a fixed point of the section rewrite. */
  lemma SectionResultFixed(item: Item, item': Item, ctx: Context)
    requires SectionResult(item, item', ctx)
    ensures SectionResult(item', item', ctx)
    ensures item'.Table? ==> UpdateDependencies(item'.entries, ctx).Success?
  {
    if item.Table? {
      UpdateDependenciesIdempotent(item.entries, ctx);
    }
  }

  lemma SectionsUpdatedFixed(t: map<string, Item>, t': map<string, Item>, ctx: Context)
    requires SectionsUpdated(t, t', ctx)
    ensures SectionsUpdated(t', t', ctx) && !SectionsFail(t', ctx)
  {
    forall k | k in t' && k in DependencySections
      ensures SectionResult(t'[k], t'[k], ctx)
      ensures t'[k].Table? ==> UpdateDependencies(t'[k].entries, ctx).Success?
    {
      SectionResultFixed(t[k], t'[k], ctx);
    }
  }

  lemma SectionsUpdatedUnique(t: map<string, Item>, a: map<string, Item>, b: map<string, Item>, ctx: Context)
    requires SectionsUpdated(t, a, ctx) && SectionsUpdated(t, b, ctx)
    ensures a == b
  {
  }

  lemma TargetsUpdatedFixed(ts: map<string, Item>, ts': map<string, Item>, ctx: Context)
    requires TargetsUpdated(ts, ts', ctx)
    ensures TargetsUpdated(ts', ts', ctx) && !TargetsFail(ts', ctx)
  {
    forall k | k in ts' && ts'[k].Table?
      ensures SectionsUpdated(ts'[k].entries, ts'[k].entries, ctx) && !SectionsFail(ts'[k].entries, ctx)
    {
      SectionsUpdatedFixed(ts[k].entries, ts'[k].entries, ctx);
    }
  }

  lemma TargetsUpdatedUnique(ts: map<string, Item>, a: map<string, Item>, b: map<string, Item>, ctx: Context)
    requires TargetsUpdated(ts, a, ctx) && TargetsUpdated(ts, b, ctx)
    ensures a == b
  {
    forall k | k in ts ensures a[k] == b[k] {
      if ts[k].Table? {
        SectionsUpdatedUnique(ts[k].entries, a[k].entries, b[k].entries, ctx);
      }
    }
  }

  lemma DocumentUpdatedFixed(doc: Document, once: Document, ctx: Context)
    requires DocumentUpdated(doc, once, ctx)
    ensures DocumentUpdated(once, once, ctx) && !DocumentFails(once, ctx)
  {
    assert TargetKey !in DependencySections;
    forall k | k in once && k in DependencySections
      ensures SectionResult(once[k], once[k], ctx)
      ensures once[k].Table? ==> UpdateDependencies(once[k].entries, ctx).Success?
    {
      SectionResultFixed(doc[k], once[k], ctx);
    }
    if TargetKey in doc && doc[TargetKey].Table? {
      TargetsUpdatedFixed(doc[TargetKey].entries, once[TargetKey].entries, ctx);
    }
  }

  lemma DocumentUpdatedUnique(doc: Document, a: Document, b: Document, ctx: Context)
    requires DocumentUpdated(doc, a, ctx) && DocumentUpdated(doc, b, ctx)
    ensures a == b
  {
    assert TargetKey !in DependencySections;
    forall k | k in doc ensures a[k] == b[k] {
      if k in DependencySections && doc[k].Table? {
        assert a[k].entries == b[k].entries;
      } else if k == TargetKey && doc[k].Table? {
        TargetsUpdatedUnique(doc[k].entries, a[k].entries, b[k].entries, ctx);
      }
    }
  }

  /** Running the manifest pass again over its own output, in the same context, succeeds and
      changes nothing. */
  lemma UpdateDocumentIdempotent(doc: Document, ctx: Context)
    requires UpdateDocument(doc, ctx).Success?
    ensures UpdateDocument(UpdateDocument(doc, ctx).value, ctx) == UpdateDocument(doc, ctx)
  {
    var once := UpdateDocument(doc, ctx).value;
    DocumentUpdatedFixed(doc, once, ctx);
    DocumentUpdatedUnique(once, UpdateDocument(once, ctx).value, once, ctx);
  }
}

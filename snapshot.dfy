/**
 * The orchestration of `create_snapshot` once its inputs are collected: group
 * assignment, the keep set, index resolution, section building and
 * rendering, with the three `KeyError`s the pipeline can raise on the base
 * document.
 */
module Snapshot {
  import opened Wrappers
  import opened Names
  import opened Packages
  import opened Groups
  import opened Indexes
  import opened Order
  import opened Registry
  import opened Render

  /** Why `create_snapshot` stops with `KeyError`. */
  datatype SnapshotError =
    | MissingSourcesTable  // `tool.uv.sources` is absent
    | SourceWithoutIndex   // a sources entry of an installed package has no `index`
    | MissingIndexList     // `tool.uv.index` is absent

  /** The keys of the names in `tool.uv.sources` (`map(pkg_key, ...keys())`). */
  function SourceKeys(sources: seq<(string, SourceSpec)>): set<string> {
    set i | 0 <= i < |sources| :: PkgKey(sources[i].0)
  }

  /** `keep_keys`: the packages with a group, and those the base `tool.uv.sources` names. */
  function KeepKeys(installed: map<string, Package>, sources: seq<(string, SourceSpec)>): set<string> {
    set k | k in installed && (Truthy(installed[k].group) || k in SourceKeys(sources))
  }

  /** What the pipeline raises, if anything, given the registry after group assignment. */
  function SnapshotOutcome(
    grouped: map<string, Package>, uvSources: Option<seq<(string, SourceSpec)>>, uvIndex: Option<seq<IndexEntry>>)
    : Option<SnapshotError>
  {
    if uvSources.None? then Some(MissingSourcesTable)
    else if MissingIndex(grouped, uvSources.value) then Some(SourceWithoutIndex)
    else if uvIndex.None? then Some(MissingIndexList)
    else None
  }

  /**
   * `create_snapshot` after collection: `registry` holds the installed
   * packages, `requirements` and `roots` the collected names. On success the
   * document holds the rendered snapshot of the kept packages; on error it is
   * untouched.
   */
  method CreateSnapshot<Rest>(
    doc: Document<Rest>, registry: Registry, requirements: seq<string>, roots: seq<string>,
    requirementName: string -> string) returns (err: Option<SnapshotError>)
    modifies doc, registry
    ensures var grouped := GroupsAssigned(old(registry.installed), roots, old(doc.dependencies),
                                          old(doc.optionalDependencies), requirements, requirementName);
      err == SnapshotOutcome(grouped, old(doc.uvSources), old(doc.uvIndex))
    ensures err.Some? ==> unchanged(doc)
    ensures err.None? ==>
      var grouped := GroupsAssigned(old(registry.installed), roots, old(doc.dependencies),
                                    old(doc.optionalDependencies), requirements, requirementName);
      var keep := KeepKeys(grouped, old(doc.uvSources).value);
      var indexed := IndexInfoAssigned(grouped, old(doc.uvSources).value);
      && registry.installed == indexed
      && doc.dependencies == RenderedDependencies(indexed, SortedListing(keep))
      && doc.optionalDependencies == RenderedOptional(indexed, SortedListing(keep))
      && doc.uvSources.Some? && doc.uvIndex.Some?
      && (exists sources :: IsInferredSources(indexed, keep, sources) && IsSourceListing(sources, doc.uvSources.value)
                            && IsMergedIndex(indexed, keep, old(doc.uvIndex).value, sources, doc.uvIndex.value))
      && doc.rest == old(doc.rest)
  {
    registry.AssignPackageGroups(roots, doc.dependencies, doc.optionalDependencies, requirements, requirementName);
    if doc.uvSources.None? {
      return Some(MissingSourcesTable);
    }
    var declared := doc.uvSources.value;
    var keep := KeepKeys(registry.installed, declared);
    var ok := registry.AssignUvIndexInfo(declared);
    if !ok {
      return Some(SourceWithoutIndex);
    }
    if doc.uvIndex.None? {
      return Some(MissingIndexList);
    }
    var sources, merged := BuildUvSections(registry.installed, doc.uvIndex.value, keep);
    ghost var base := doc.uvIndex.value;
    doc.RenderSnapshot(registry.installed, keep, sources, merged);
    assert IsInferredSources(registry.installed, keep, sources) && IsSourceListing(sources, doc.uvSources.value)
      && IsMergedIndex(registry.installed, keep, base, sources, doc.uvIndex.value);
    err := None;
  }

  // ---------------------------------------------------------------------------
  // What a snapshot keeps
  // ---------------------------------------------------------------------------

  /** A package is kept exactly when it has a group or the base sources name it. */
  lemma KeptIff(installed: map<string, Package>, sources: seq<(string, SourceSpec)>, k: string)
    ensures k in KeepKeys(installed, sources)
      <==> k in installed && (Truthy(installed[k].group) || exists i :: 0 <= i < |sources| && PkgKey(sources[i].0) == k)
  {
    if k in installed && !Truthy(installed[k].group) && (exists i :: 0 <= i < |sources| && PkgKey(sources[i].0) == k) {
      var i :| 0 <= i < |sources| && PkgKey(sources[i].0) == k;
      assert PkgKey(sources[i].0) in SourceKeys(sources);
    }
  }

  /** The keep set is decided before index resolution, which changes no group. */
  lemma KeepSetSurvivesIndexResolution(installed: map<string, Package>, sources: seq<(string, SourceSpec)>)
    ensures KeepKeys(IndexInfoAssigned(installed, sources), sources) == KeepKeys(installed, sources)
  {
    var indexed := IndexInfoAssigned(installed, sources);
    assert forall k :: k in installed ==> indexed[k].group == installed[k].group;
  }

  /**
   * A package the base sources name but no rule classifies is still pinned:
   * under the optional key `None`.
   */
  lemma UngroupedSourcePackageIsPinnedUnderNone(
    installed: map<string, Package>, sources: seq<(string, SourceSpec)>, k: string)
    requires k in installed && installed[k].group == None
    requires exists i :: 0 <= i < |sources| && PkgKey(sources[i].0) == k
    ensures PinnedUnder(RenderedOptional(installed, SortedListing(KeepKeys(installed, sources))), None, Pin(installed[k]))
  {
    KeptIff(installed, sources, k);
    PinnedInOwnGroup(installed, KeepKeys(installed, sources), k);
  }

  /** Every kept package yields exactly one pin in the rendered document. */
  lemma SnapshotPinsEveryKeptPackage(installed: map<string, Package>, sources: seq<(string, SourceSpec)>)
    ensures var keep := KeepKeys(installed, sources);
      var sorted := SortedListing(keep);
      |RenderedDependencies(installed, sorted)| + Total(RenderedOptional(installed, sorted)) == |keep|
  {
    RenderedPlacement(installed, KeepKeys(installed, sources));
  }
}

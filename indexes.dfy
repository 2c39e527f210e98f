/**
 * Stage 3 of env_snapshot.core: `assign_uv_index_info` (which index each
 * package is attributed to) and `build_uv_sections` (the rendered source
 * mapping and the merged index list).
 */
module Indexes {
  import opened Wrappers
  import opened Names
  import opened Packages

  /** The table of one `tool.uv.sources` entry; `index` is `None` when the table has no `index` key. */
  datatype SourceSpec = SourceSpec(index: Option<string>)

  /** One `[[tool.uv.index]]` entry; a key the table lacks is `None`. */
  datatype IndexEntry = IndexEntry(name: Option<string>, url: Option<string>, explicit: Option<bool>)

  /** The URL given to an appended index for which no kept package knows a URL. */
  const PlaceholderIndexUrl := "https://example.invalid/simple"

  // ---------------------------------------------------------------------------
  // assign_uv_index_info
  // ---------------------------------------------------------------------------

  /** The spec of the last `tool.uv.sources` entry whose name has key `k`. */
  function LastSource(sources: seq<(string, SourceSpec)>, k: string): Option<SourceSpec>
    decreases |sources|
  {
    if sources == [] then None
    else
      var last := sources[|sources| - 1];
      if PkgKey(last.0) == k then Some(last.1) else LastSource(sources[..|sources| - 1], k)
  }

  /** Whether some entry of `sources` is declared under key `k`. */
  predicate HasSourceFor(sources: seq<(string, SourceSpec)>, k: string)
  {
    exists i :: 0 <= i < |sources| && PkgKey(sources[i].0) == k
  }

  /** Entry `i` is the last one of `sources` declared under key `k`. */
  predicate LastEntryFor(sources: seq<(string, SourceSpec)>, k: string, i: int)
  {
    && 0 <= i < |sources|
    && PkgKey(sources[i].0) == k
    && forall j :: i < j < |sources| ==> PkgKey(sources[j].0) != k
  }

  /** A spec is found for `k` exactly when some entry is declared under `k`. */
  lemma {:induction false} LastSourceDefined(sources: seq<(string, SourceSpec)>, k: string)
    ensures LastSource(sources, k).Some? <==> HasSourceFor(sources, k)
    decreases |sources|
  {
    if sources != [] {
      LastSourceDefined(sources[..|sources| - 1], k);
      HasSourceForSnoc(sources, k);
    }
  }

  lemma HasSourceForSnoc(sources: seq<(string, SourceSpec)>, k: string)
    requires sources != []
    ensures var n := |sources|;
      HasSourceFor(sources, k) <==> (HasSourceFor(sources[..n - 1], k) || PkgKey(sources[n - 1].0) == k)
  {
    var n := |sources|;
    var pre := sources[..n - 1];
    if HasSourceFor(sources, k) && PkgKey(sources[n - 1].0) != k {
      var i :| 0 <= i < n && PkgKey(sources[i].0) == k;
      assert i < n - 1 && pre[i] == sources[i];
    }
    if HasSourceFor(pre, k) {
      var i :| 0 <= i < n - 1 && PkgKey(pre[i].0) == k;
      assert sources[i] == pre[i];
    }
  }

  /** The spec found for `k` is that of the last entry declared under `k`. */
  lemma {:induction false} LastSourceFound(sources: seq<(string, SourceSpec)>, k: string)
    requires LastSource(sources, k).Some?
    ensures exists i :: LastEntryFor(sources, k, i) && sources[i].1 == LastSource(sources, k).value
    decreases |sources|
  {
    var n := |sources|;
    if PkgKey(sources[n - 1].0) == k {
      assert LastEntryFor(sources, k, n - 1);
    } else {
      var pre := sources[..n - 1];
      LastSourceFound(pre, k);
      var i :| LastEntryFor(pre, k, i) && pre[i].1 == LastSource(pre, k).value;
      LastEntryForSnoc(sources, k, i);
    }
  }

  lemma LastEntryForSnoc(sources: seq<(string, SourceSpec)>, k: string, i: int)
    requires sources != [] && LastEntryFor(sources[..|sources| - 1], k, i)
    requires PkgKey(sources[|sources| - 1].0) != k
    ensures LastEntryFor(sources, k, i) && sources[i] == sources[..|sources| - 1][i]
  {
    var n := |sources|;
    var pre := sources[..n - 1];
    assert sources[i] == pre[i];
    forall j | i < j < n ensures PkgKey(sources[j].0) != k {
      if j < n - 1 {
        assert sources[j] == pre[j];
      }
    }
  }



  /** Some entry for an installed package lacks `index`: `spec["index"]` raises `KeyError`. */
  predicate MissingIndex(installed: map<string, Package>, sources: seq<(string, SourceSpec)>) {
    exists i :: 0 <= i < |sources| && PkgKey(sources[i].0) in installed && sources[i].1.index.None?
  }

  /** The registry after the first loop of `assign_uv_index_info`: declared mappings are copied in. */
  function DeclaredIndexes(installed: map<string, Package>, sources: seq<(string, SourceSpec)>): (r: map<string, Package>)
    ensures r.Keys == installed.Keys
  {
    map k | k in installed ::
      match LastSource(sources, k)
      case Some(spec) => installed[k].(indexName := spec.index)
      case None => installed[k]
  }

  /** The second loop: a package still without index name takes the one of its URL. */
  function UrlFilled(p: Package): Package {
    if p.indexName.None? && Truthy(p.url) then p.(indexName := Some(IndexNameFromUrl(p.url.value))) else p
  }

  /** The registry after `assign_uv_index_info` (when no declared entry lacks `index`). */
  function IndexInfoAssigned(installed: map<string, Package>, sources: seq<(string, SourceSpec)>): (r: map<string, Package>)
    ensures r.Keys == installed.Keys
    ensures forall k :: k in installed ==>
      SameOrigin(r[k], installed[k]) && r[k].group == installed[k].group && r[k].groupPriority == installed[k].groupPriority
  {
    var declared := DeclaredIndexes(installed, sources);
    map k | k in declared :: UrlFilled(declared[k])
  }

  /** One more source entry overrides the index name of its key, if installed. */
  lemma DeclaredIndexesSnoc(installed: map<string, Package>, sources: seq<(string, SourceSpec)>, s: (string, SourceSpec))
    ensures var d := DeclaredIndexes(installed, sources);
      var k := PkgKey(s.0);
      DeclaredIndexes(installed, sources + [s]) == if k in d then d[k := d[k].(indexName := s.1.index)] else d
  {
    var all := sources + [s];
    assert all[..|all| - 1] == sources;
  }

  /** The first loop of `assign_uv_index_info`, one entry further. */
  lemma DeclaredIndexesStep(installed: map<string, Package>, sources: seq<(string, SourceSpec)>, i: int)
    requires 0 <= i < |sources|
    ensures var d := DeclaredIndexes(installed, sources[..i]);
      var k := PkgKey(sources[i].0);
      DeclaredIndexes(installed, sources[..i + 1]) == if k in d then d[k := d[k].(indexName := sources[i].1.index)] else d
    ensures var k := PkgKey(sources[i].0);
      MissingIndex(installed, sources[..i + 1]) <==> (MissingIndex(installed, sources[..i]) || (k in installed && sources[i].1.index.None?))
    ensures PkgKey(sources[i].0) in installed && sources[i].1.index.None? ==> MissingIndex(installed, sources)
  {
    assert sources[..i + 1] == sources[..i] + [sources[i]];
    DeclaredIndexesSnoc(installed, sources[..i], sources[i]);
    assert forall j :: 0 <= j < i ==> sources[..i + 1][j] == sources[..i][j];
  }

  /** A base-declared mapping for an installed key overrides any URL-derived name. */
  lemma DeclaredIndexWins(installed: map<string, Package>, sources: seq<(string, SourceSpec)>, k: string)
    requires k in installed && !MissingIndex(installed, sources)
    requires LastSource(sources, k).Some?
    ensures IndexInfoAssigned(installed, sources)[k].indexName == LastSource(sources, k).value.index
    ensures IndexInfoAssigned(installed, sources)[k].indexName.Some?
  {
    LastSourceFound(sources, k);
    var spec := LastSource(sources, k).value;
    var i :| LastEntryFor(sources, k, i) && sources[i].1 == spec;
    assert spec.index.Some?;
  }

  /**
   * Without a declared mapping, URL inference fills the index name only when
   * it is still unset; a package without URL keeps what it had.
   */
  lemma UrlInferenceFillsOnlyUnset(installed: map<string, Package>, sources: seq<(string, SourceSpec)>, k: string)
    requires k in installed && LastSource(sources, k).None?
    ensures var p := installed[k];
      IndexInfoAssigned(installed, sources)[k].indexName
        == if p.indexName.None? && Truthy(p.url) then Some(IndexNameFromUrl(p.url.value)) else p.indexName
  {
  }

  // ---------------------------------------------------------------------------
  // build_uv_sections
  // ---------------------------------------------------------------------------

  /** `if installed[k].tool_uv_sources_indexname`: an index name that is neither `None` nor `""`. */
  predicate HasIndex(p: Package) { Truthy(p.indexName) }

  /** Every entry of `sources` comes from a kept package with an index name. */
  ghost predicate SourcesFrom(installed: map<string, Package>, keep: set<string>, sources: map<string, string>)
    requires keep <= installed.Keys
  {
    forall n :: n in sources ==>
      exists k :: k in keep && HasIndex(installed[k]) && installed[k].pkgName == n
                  && sources[n] == installed[k].indexName.value
  }

  /** Every package of `done` with an index name has an entry in `sources`. */
  ghost predicate SourcesCover(installed: map<string, Package>, done: set<string>, sources: map<string, string>)
    requires done <= installed.Keys
  {
    forall k :: k in done && HasIndex(installed[k]) ==> installed[k].pkgName in sources
  }

  /**
   * `inferred_sources`: every kept package with an index name contributes
   * `pkg_name -> index name`; when two kept packages share a display name,
   * which one is kept is left open.
   */
  ghost predicate IsInferredSources(installed: map<string, Package>, keep: set<string>, sources: map<string, string>)
    requires keep <= installed.Keys
  {
    SourcesFrom(installed, keep, sources) && SourcesCover(installed, keep, sources)
  }

  /** Every entry of `urls` maps an index name to the URL of a kept package attributed to it. */
  ghost predicate UrlsFrom(installed: map<string, Package>, keep: set<string>, urls: map<string, string>)
    requires keep <= installed.Keys
  {
    forall n :: n in urls ==>
      exists k :: k in keep && installed[k].indexName == Some(n) && Truthy(installed[k].url)
                  && urls[n] == installed[k].url.value
  }

  /** Every package of `done` with an index name and a URL has its index name in `urls`. */
  ghost predicate UrlsCover(installed: map<string, Package>, done: set<string>, urls: map<string, string>)
    requires done <= installed.Keys
  {
    forall k :: k in done && HasIndex(installed[k]) && Truthy(installed[k].url) ==> installed[k].indexName.value in urls
  }

  /** The names of the declared index entries (`{x["name"] for x in ... if "name" in x}`). */
  function DeclaredNames(entries: seq<IndexEntry>): set<string> {
    set i | 0 <= i < |entries| && entries[i].name.Some? :: entries[i].name.value
  }

  /** Some kept package attributed to index `name` knows a URL. */
  ghost predicate KnownUrl(installed: map<string, Package>, keep: set<string>, name: string)
    requires keep <= installed.Keys
  {
    exists k :: k in keep && installed[k].indexName == Some(name) && Truthy(installed[k].url)
  }

  /** The URL of an appended entry: a kept package's URL for that index, else the placeholder. */
  ghost predicate IsIndexUrl(installed: map<string, Package>, keep: set<string>, name: string, url: string)
    requires keep <= installed.Keys
  {
    if KnownUrl(installed, keep, name) then
      exists k :: k in keep && installed[k].indexName == Some(name) && Truthy(installed[k].url)
                  && url == installed[k].url.value
    else url == PlaceholderIndexUrl
  }

  /** The entry appended for an index referenced by a kept package but not declared. */
  ghost predicate IsAppendedEntry(
    installed: map<string, Package>, keep: set<string>, declared: set<string>, sources: map<string, string>, e: IndexEntry)
    requires keep <= installed.Keys
  {
    && e.name.Some? && e.url.Some? && e.explicit == Some(true)
    && e.name.value in sources.Values && e.name.value !in declared
    && IsIndexUrl(installed, keep, e.name.value, e.url.value)
  }

  /**
   * `merged_indices`: the base list unchanged, then one explicit entry per
   * referenced but undeclared index, each exactly once, in an order left open.
   */
  ghost predicate IsMergedIndex(
    installed: map<string, Package>, keep: set<string>, base: seq<IndexEntry>,
    sources: map<string, string>, merged: seq<IndexEntry>)
    requires keep <= installed.Keys
  {
    && |base| <= |merged| && merged[..|base|] == base
    && (forall i :: |base| <= i < |merged| ==> IsAppendedEntry(installed, keep, DeclaredNames(base), sources, merged[i]))
    && (forall i, j :: |base| <= i < j < |merged| ==> merged[i].name != merged[j].name)
    && (forall n :: n in sources.Values && n !in DeclaredNames(base) ==>
          exists i :: |base| <= i < |merged| && merged[i].name == Some(n))
  }

  /** `build_uv_sections`. */
  method BuildUvSections(installed: map<string, Package>, base: seq<IndexEntry>, keep: set<string>)
    returns (sources: map<string, string>, merged: seq<IndexEntry>)
    requires keep <= installed.Keys
    ensures IsInferredSources(installed, keep, sources)
    ensures IsMergedIndex(installed, keep, base, sources, merged)
  {
    var urls;
    sources, urls := InferSources(installed, keep);
    merged := AppendMissingIndexes(installed, keep, base, sources, urls);
  }

  /** The comprehensions `inferred_sources` and `inferred_urls` over the keep set. */
  method InferSources(installed: map<string, Package>, keep: set<string>)
    returns (sources: map<string, string>, urls: map<string, string>)
    requires keep <= installed.Keys
    ensures IsInferredSources(installed, keep, sources)
    ensures UrlsFrom(installed, keep, urls) && UrlsCover(installed, keep, urls)
  {
    sources, urls := map[], map[];
    var todo := keep;
    while todo != {}
      invariant todo <= keep
      invariant SourcesFrom(installed, keep, sources) && SourcesCover(installed, keep - todo, sources)
      invariant UrlsFrom(installed, keep, urls) && UrlsCover(installed, keep - todo, urls)
      decreases todo
    {
      var k :| k in todo;
      var p := installed[k];
      if HasIndex(p) {
        sources := sources[p.pkgName := p.indexName.value];
        if Truthy(p.url) {
          urls := urls[p.indexName.value := p.url.value];
        }
      }
      todo := todo - {k};
    }
  }

  /** The loop over `required_index_names`: one explicit entry per name that is not declared. */
  method AppendMissingIndexes(
    installed: map<string, Package>, keep: set<string>, base: seq<IndexEntry>,
    sources: map<string, string>, urls: map<string, string>) returns (merged: seq<IndexEntry>)
    requires keep <= installed.Keys
    requires IsInferredSources(installed, keep, sources)
    requires UrlsFrom(installed, keep, urls) && UrlsCover(installed, keep, urls)
    ensures IsMergedIndex(installed, keep, base, sources, merged)
  {
    merged := base;
    var declared := DeclaredNames(base);
    var pending := sources.Values;
    while pending != {}
      invariant pending <= sources.Values
      invariant MergeProgress(installed, keep, base, sources, merged, pending)
      decreases pending
    {
      var name :| name in pending;
      if name !in declared {
        var url := UrlOf(installed, keep, sources, urls, name);
        AppendKeepsProgress(installed, keep, base, sources, merged, pending, name, url);
        merged := merged + [IndexEntry(Some(name), Some(url), Some(true))];
      }
      pending := pending - {name};
    }
  }

  /**
   * The invariant of the merge loop: `merged` is `base` followed by distinct
   * appended entries, one for each undeclared name already handled.
   */
  ghost predicate MergeProgress(
    installed: map<string, Package>, keep: set<string>, base: seq<IndexEntry>,
    sources: map<string, string>, merged: seq<IndexEntry>, pending: set<string>)
    requires keep <= installed.Keys
  {
    && |base| <= |merged| && merged[..|base|] == base
    && (forall i :: |base| <= i < |merged| ==>
          IsAppendedEntry(installed, keep, DeclaredNames(base), sources, merged[i]) && merged[i].name.value !in pending)
    && (forall i, j :: |base| <= i < j < |merged| ==> merged[i].name != merged[j].name)
    && (forall n :: n in sources.Values - pending && n !in DeclaredNames(base) ==>
          exists i :: |base| <= i < |merged| && merged[i].name == Some(n))
  }

  /** Appending the entry of a pending undeclared name keeps the merge invariant. */
  lemma AppendKeepsProgress(
    installed: map<string, Package>, keep: set<string>, base: seq<IndexEntry>,
    sources: map<string, string>, merged: seq<IndexEntry>, pending: set<string>, name: string, url: string)
    requires keep <= installed.Keys
    requires MergeProgress(installed, keep, base, sources, merged, pending)
    requires name in pending && pending <= sources.Values && name !in DeclaredNames(base)
    requires IsIndexUrl(installed, keep, name, url)
    ensures MergeProgress(installed, keep, base, sources,
                          merged + [IndexEntry(Some(name), Some(url), Some(true))], pending - {name})
  {
    var next := merged + [IndexEntry(Some(name), Some(url), Some(true))];
    assert next[..|base|] == base;
    forall i | |base| <= i < |next|
      ensures IsAppendedEntry(installed, keep, DeclaredNames(base), sources, next[i])
      ensures next[i].name.value !in pending - {name}
    {
      if i < |merged| {
        assert next[i] == merged[i];
      }
    }
    forall n | n in sources.Values - (pending - {name}) && n !in DeclaredNames(base)
      ensures exists i :: |base| <= i < |next| && next[i].name == Some(n)
    {
      if n != name {
        var i :| |base| <= i < |merged| && merged[i].name == Some(n);
        assert next[i] == merged[i];
      } else {
        assert next[|next| - 1].name == Some(n);
      }
    }
  }

  /** `inferred_urls.get(name, placeholder)`, for a required name. */
  method UrlOf(
    installed: map<string, Package>, keep: set<string>, sources: map<string, string>,
    urls: map<string, string>, name: string) returns (url: string)
    requires keep <= installed.Keys
    requires IsInferredSources(installed, keep, sources) && name in sources.Values
    requires UrlsFrom(installed, keep, urls) && UrlsCover(installed, keep, urls)
    ensures IsIndexUrl(installed, keep, name, url)
  {
    if name in urls {
      url := urls[name];
    } else {
      url := PlaceholderIndexUrl;
      var n :| n in sources && sources[n] == name;
      assert name != "";
    }
  }

  /** After merging, every index a kept package is attributed to is declared. */
  lemma MergeDeclaresAllRequired(
    installed: map<string, Package>, keep: set<string>, base: seq<IndexEntry>,
    sources: map<string, string>, merged: seq<IndexEntry>)
    requires keep <= installed.Keys
    requires IsMergedIndex(installed, keep, base, sources, merged)
    ensures sources.Values <= DeclaredNames(merged)
  {
    forall n | n in sources.Values ensures n in DeclaredNames(merged) {
      if n in DeclaredNames(base) {
        var i :| 0 <= i < |base| && base[i].name.Some? && base[i].name.value == n;
        assert merged[i] == base[i];
      } else {
        var i :| |base| <= i < |merged| && merged[i].name == Some(n);
      }
    }
  }

  /** Merging the same sources into an already merged list appends nothing. */
  lemma MergeIdempotent(
    installed: map<string, Package>, keep: set<string>, base: seq<IndexEntry>,
    sources: map<string, string>, merged: seq<IndexEntry>, again: seq<IndexEntry>)
    requires keep <= installed.Keys
    requires IsMergedIndex(installed, keep, base, sources, merged)
    requires IsMergedIndex(installed, keep, merged, sources, again)
    ensures again == merged
  {
    MergeDeclaresAllRequired(installed, keep, base, sources, merged);
    assert |merged| < |again| ==> IsAppendedEntry(installed, keep, DeclaredNames(merged), sources, again[|merged|]);
    assert |again| == |merged|;
    assert again == again[..|merged|];
  }

  /** No entry of the inferred sources names an empty index. */
  lemma InferredSourcesNonEmpty(installed: map<string, Package>, keep: set<string>, sources: map<string, string>)
    requires keep <= installed.Keys && IsInferredSources(installed, keep, sources)
    ensures forall n :: n in sources ==> sources[n] != ""
  {
    forall n | n in sources ensures sources[n] != "" {
      var k :| k in keep && HasIndex(installed[k]) && installed[k].pkgName == n
               && sources[n] == installed[k].indexName.value;
    }
  }

  /**
   * When every registry key is the key of its package's name (as the collector
   * builds it), a kept package's display name maps to its own index name.
   */
  lemma InferredSourceOfPackage(installed: map<string, Package>, keep: set<string>, sources: map<string, string>, k: string)
    requires keep <= installed.Keys && IsInferredSources(installed, keep, sources)
    requires forall key :: key in installed ==> PkgKey(installed[key].pkgName) == key
    requires k in keep && HasIndex(installed[k])
    ensures installed[k].pkgName in sources && sources[installed[k].pkgName] == installed[k].indexName.value
  {
    var n := installed[k].pkgName;
    var k' :| k' in keep && HasIndex(installed[k']) && installed[k'].pkgName == n
              && sources[n] == installed[k'].indexName.value;
    assert k' == PkgKey(n) == k;
  }
}

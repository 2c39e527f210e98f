/**
 * Stage 4 of env_snapshot.core: `render_snapshot` writes the pinned
 * dependency lists, the source mapping and the merged index list into the
 * base document.
 */
module Render {
  import opened Wrappers
  import opened Names
  import opened Packages
  import opened Indexes
  import opened Order

  /** A TOML table of pinned lists by group name, in key order (`project.optional-dependencies`). */
  type GroupTable = seq<(Option<string>, seq<string>)>

  /** `f"{pkg.pkg_name}=={pkg.version}"`. */
  function Pin(p: Package): string {
    p.pkgName + "==" + p.version
  }

  /** The keys of `ks` whose package is in group `g`, in the order of `ks`. */
  function GroupKeys(installed: map<string, Package>, ks: seq<string>, g: Option<string>): (r: seq<string>)
    requires forall k :: k in ks ==> k in installed
    ensures forall k :: k in r <==> k in ks && installed[k].group == g
    ensures |r| <= |ks|
    decreases |ks|
  {
    if ks == [] then []
    else
      var k := ks[|ks| - 1];
      GroupKeys(installed, ks[..|ks| - 1], g) + (if installed[k].group == g then [k] else [])
  }

  /** The pins of the packages `ks`, in order. */
  function Pins(installed: map<string, Package>, ks: seq<string>): (r: seq<string>)
    requires forall k :: k in ks ==> k in installed
    ensures |r| == |ks| && forall i :: 0 <= i < |ks| ==> r[i] == Pin(installed[ks[i]])
  {
    seq(|ks|, i requires 0 <= i < |ks| => Pin(installed[ks[i]]))
  }

  /** `project.dependencies` as rendered from the keys `ks`: the pins of the project dependencies. */
  function RenderedDependencies(installed: map<string, Package>, ks: seq<string>): seq<string>
    requires forall k :: k in ks ==> k in installed
  {
    GroupPins(installed, ks, Some(ProjectDependency))
  }

  /** The pins of the keys of `ks` in group `g`, in order. */
  function GroupPins(installed: map<string, Package>, ks: seq<string>, g: Option<string>): seq<string>
    requires forall k :: k in ks ==> k in installed
  {
    Pins(installed, GroupKeys(installed, ks, g))
  }

  /** Position of key `g` in `table`, or `|table|` when absent. */
  function KeyIndex(table: GroupTable, g: Option<string>): (i: nat)
    ensures i <= |table|
    ensures i < |table| ==> table[i].0 == g
    ensures forall j :: 0 <= j < i ==> table[j].0 != g
    decreases |table|
  {
    if table == [] then 0 else if table[0].0 == g then 0 else 1 + KeyIndex(table[1..], g)
  }

  /** `table.setdefault(g, []).append(pin)`. */
  function SetDefaultAppend(table: GroupTable, g: Option<string>, pin: string): GroupTable {
    var i := KeyIndex(table, g);
    if i < |table| then table[i := (g, table[i].1 + [pin])] else table + [(g, [pin])]
  }

  /** `project.optional-dependencies` as rendered from the keys `ks`, one `setdefault` per non-project key. */
  function RenderedOptional(installed: map<string, Package>, ks: seq<string>): GroupTable
    requires forall k :: k in ks ==> k in installed
    decreases |ks|
  {
    if ks == [] then []
    else
      var k := ks[|ks| - 1];
      var before := RenderedOptional(installed, ks[..|ks| - 1]);
      if installed[k].group == Some(ProjectDependency) then before
      else SetDefaultAppend(before, installed[k].group, Pin(installed[k]))
  }

  /** The number of pins in a table. */
  function Total(table: GroupTable): nat
    decreases |table|
  {
    if table == [] then 0 else Total(table[..|table| - 1]) + |table[|table| - 1].1|
  }

  /** `tool.uv.sources` as rendered from `sources`: one `{ index = ... }` entry per name, each once. */
  predicate IsSourceListing(sources: map<string, string>, table: seq<(string, SourceSpec)>) {
    && (forall i :: 0 <= i < |table| ==> table[i].0 in sources && table[i].1 == SourceSpec(Some(sources[table[i].0])))
    && (forall i, j :: 0 <= i < j < |table| ==> table[i].0 != table[j].0)
    && (forall n :: n in sources ==> (n, SourceSpec(Some(sources[n]))) in table)
  }

  /**
   * The base document: the four sections the core reads and replaces, and
   * everything else (`rest`), which it never touches.
   */
  class Document<Rest> {
    /** `project.dependencies` (an absent list reads as empty). */
    var dependencies: seq<string>
    /** `project.optional-dependencies`, in key order. */
    var optionalDependencies: GroupTable
    /** `tool.uv.sources`; `None` when the table is absent. */
    var uvSources: Option<seq<(string, SourceSpec)>>
    /** `tool.uv.index`; `None` when the list is absent. */
    var uvIndex: Option<seq<IndexEntry>>
    /** The rest of the document: other tables, comments, formatting. */
    var rest: Rest

    constructor(
      dependencies: seq<string>, optionalDependencies: GroupTable,
      uvSources: Option<seq<(string, SourceSpec)>>, uvIndex: Option<seq<IndexEntry>>, rest: Rest)
      ensures this.dependencies == dependencies && this.optionalDependencies == optionalDependencies
      ensures this.uvSources == uvSources && this.uvIndex == uvIndex && this.rest == rest
    {
      this.dependencies := dependencies;
      this.optionalDependencies := optionalDependencies;
      this.uvSources := uvSources;
      this.uvIndex := uvIndex;
      this.rest := rest;
    }

    /**
     * `render_snapshot`: the kept packages, in sorted key order, are pinned
     * into `dependencies` (project dependencies) or into their group's
     * optional list; the sources and indexes are replaced.
     */
    method RenderSnapshot(
      installed: map<string, Package>, keep: set<string>,
      sources: map<string, string>, merged: seq<IndexEntry>)
      requires keep <= installed.Keys
      modifies this
      ensures dependencies == RenderedDependencies(installed, SortedListing(keep))
      ensures optionalDependencies == RenderedOptional(installed, SortedListing(keep))
      ensures uvSources.Some? && IsSourceListing(sources, uvSources.value)
      ensures uvIndex == Some(merged)
      ensures rest == old(rest)
    {
      var sorted := SortKeys(keep);
      SortedListingUnique(sorted, SortedListing(keep), keep);
      dependencies, optionalDependencies := PinAll(installed, sorted);
      var table := ListSources(sources);
      uvSources := Some(table);
      uvIndex := Some(merged);
    }
  }

  /** The loop over `sorted(keep_keys)`: each key's pin goes to `dependencies` or its group's list. */
  method PinAll(installed: map<string, Package>, sorted: seq<string>)
    returns (dependencies: seq<string>, optional: GroupTable)
    requires forall k :: k in sorted ==> k in installed
    ensures dependencies == RenderedDependencies(installed, sorted)
    ensures optional == RenderedOptional(installed, sorted)
  {
    dependencies, optional := [], [];
    var i := 0;
    while i < |sorted|
      invariant 0 <= i <= |sorted|
      invariant dependencies == RenderedDependencies(installed, sorted[..i])
      invariant optional == RenderedOptional(installed, sorted[..i])
    {
      var key := sorted[i];
      var pkg := installed[key];
      var pinned := Pin(pkg);
      RenderStepAt(installed, sorted, i);
      if pkg.group == Some(ProjectDependency) {
        dependencies := dependencies + [pinned];
      } else {
        optional := SetDefaultAppend(optional, pkg.group, pinned);
      }
      i := i + 1;
    }
    assert sorted[..i] == sorted;
  }

  /** Rendering the key at position `i` of `sorted` after the ones before it. */
  lemma RenderStepAt(installed: map<string, Package>, sorted: seq<string>, i: int)
    requires forall k :: k in sorted ==> k in installed
    requires 0 <= i < |sorted|
    ensures forall k :: k in sorted[..i] ==> k in installed
    ensures forall k :: k in sorted[..i + 1] ==> k in installed
    ensures var p := installed[sorted[i]];
      && RenderedDependencies(installed, sorted[..i + 1])
           == RenderedDependencies(installed, sorted[..i]) + (if p.group == Some(ProjectDependency) then [Pin(p)] else [])
      && RenderedOptional(installed, sorted[..i + 1])
           == if p.group == Some(ProjectDependency) then RenderedOptional(installed, sorted[..i])
              else SetDefaultAppend(RenderedOptional(installed, sorted[..i]), p.group, Pin(p))
  {
    assert sorted[..i + 1] == sorted[..i] + [sorted[i]];
    RenderStep(installed, sorted[..i], sorted[i]);
  }

  /** Rendering one more key: one pin more, in `dependencies` or in its group's list. */
  lemma RenderStep(installed: map<string, Package>, done: seq<string>, key: string)
    requires forall k :: k in done ==> k in installed
    requires key in installed
    ensures var p := installed[key]; var ks := done + [key];
      && RenderedDependencies(installed, ks)
           == RenderedDependencies(installed, done) + (if p.group == Some(ProjectDependency) then [Pin(p)] else [])
      && RenderedOptional(installed, ks)
           == if p.group == Some(ProjectDependency) then RenderedOptional(installed, done)
              else SetDefaultAppend(RenderedOptional(installed, done), p.group, Pin(p))
  {
    var ks := done + [key];
    assert ks[..|ks| - 1] == done;
    GroupPinsSnoc(installed, done, key);
  }

  /** Builds the `tool.uv.sources` table from the inferred mapping. */
  method ListSources(sources: map<string, string>) returns (table: seq<(string, SourceSpec)>)
    ensures IsSourceListing(sources, table)
  {
    table := [];
    var todo := sources.Keys;
    while todo != {}
      invariant todo <= sources.Keys
      invariant forall i :: 0 <= i < |table| ==>
        table[i].0 in sources.Keys - todo && table[i].1 == SourceSpec(Some(sources[table[i].0]))
      invariant forall i, j :: 0 <= i < j < |table| ==> table[i].0 != table[j].0
      invariant forall n :: n in sources.Keys - todo ==> (n, SourceSpec(Some(sources[n]))) in table
      decreases todo
    {
      var n :| n in todo;
      table := table + [(n, SourceSpec(Some(sources[n])))];
      todo := todo - {n};
    }
  }

  // ---------------------------------------------------------------------------
  // What the rendered document says
  // ---------------------------------------------------------------------------

  /** A key's group list, like the keys, is in increasing order. */
  lemma {:induction false} GroupKeysSorted(installed: map<string, Package>, ks: seq<string>, g: Option<string>)
    requires forall k :: k in ks ==> k in installed
    requires StrictlySorted(ks)
    ensures StrictlySorted(GroupKeys(installed, ks, g))
    decreases |ks|
  {
    if ks != [] {
      var pre := ks[..|ks| - 1];
      var k := ks[|ks| - 1];
      GroupKeysSorted(installed, pre, g);
      var r := GroupKeys(installed, pre, g);
      forall x | x in r ensures Below(x, k) {
        var i :| 0 <= i < |pre| && pre[i] == x;
      }
    }
  }

  /** The table after `setdefault(...).append` holds one more pin, under the same keys plus possibly `g`. */
  lemma SetDefaultAppendTotal(table: GroupTable, g: Option<string>, pin: string)
    ensures Total(SetDefaultAppend(table, g, pin)) == Total(table) + 1
  {
    var i := KeyIndex(table, g);
    if i < |table| {
      TotalUpdate(table, i, table[i].1 + [pin]);
    } else {
      var r := table + [(g, [pin])];
      assert r[..|r| - 1] == table;
    }
  }

  lemma {:induction false} TotalUpdate(table: GroupTable, i: nat, pins: seq<string>)
    requires i < |table|
    ensures Total(table[i := (table[i].0, pins)]) == Total(table) - |table[i].1| + |pins|
    decreases |table|
  {
    var r := table[i := (table[i].0, pins)];
    var n := |table|;
    if i < n - 1 {
      assert r[..n - 1] == table[..n - 1][i := (table[i].0, pins)];
      TotalUpdate(table[..n - 1], i, pins);
    } else {
      assert r[..n - 1] == table[..n - 1];
    }
  }

  /** Every kept package is pinned exactly once: in `dependencies` or in one optional group. */
  lemma {:induction false} EveryKeyPinnedOnce(installed: map<string, Package>, ks: seq<string>)
    requires forall k :: k in ks ==> k in installed
    ensures |RenderedDependencies(installed, ks)| + Total(RenderedOptional(installed, ks)) == |ks|
    decreases |ks|
  {
    if ks != [] {
      var pre := ks[..|ks| - 1];
      var k := ks[|ks| - 1];
      EveryKeyPinnedOnce(installed, pre);
      if installed[k].group != Some(ProjectDependency) {
        SetDefaultAppendTotal(RenderedOptional(installed, pre), installed[k].group, Pin(installed[k]));
      }
    }
  }

  /**
   * The optional table has one entry per group other than the project's,
   * each group once, holding the pins of exactly that group's keys in order.
   */
  predicate IsGroupTableOf(installed: map<string, Package>, ks: seq<string>, table: GroupTable)
    requires forall k :: k in ks ==> k in installed
  {
    && (forall i, j :: 0 <= i < j < |table| ==> table[i].0 != table[j].0)
    && (forall i :: 0 <= i < |table| ==>
          table[i].0 != Some(ProjectDependency) && table[i].1 == GroupPins(installed, ks, table[i].0))
    && (forall k :: k in ks && installed[k].group != Some(ProjectDependency) ==>
          exists i :: 0 <= i < |table| && table[i].0 == installed[k].group)
  }

  lemma {:induction false} RenderedOptionalIsGroupTable(installed: map<string, Package>, ks: seq<string>)
    requires forall k :: k in ks ==> k in installed
    ensures IsGroupTableOf(installed, ks, RenderedOptional(installed, ks))
    decreases |ks|
  {
    if ks != [] {
      var pre := ks[..|ks| - 1];
      var k := ks[|ks| - 1];
      assert ks == pre + [k];
      RenderedOptionalIsGroupTable(installed, pre);
      GroupPinsSnoc(installed, pre, k);
      if installed[k].group != Some(ProjectDependency) {
        SetDefaultAppendIsGroupTable(installed, pre, k, RenderedOptional(installed, pre));
      }
    }
  }

  /** One more key adds its pin to its own group's list and to no other. */
  lemma GroupPinsSnoc(installed: map<string, Package>, pre: seq<string>, k: string)
    requires forall x :: x in pre ==> x in installed
    requires k in installed
    ensures forall h :: (GroupPins(installed, pre + [k], h)
      == GroupPins(installed, pre, h) + (if installed[k].group == h then [Pin(installed[k])] else []))
  {
    var ks := pre + [k];
    assert ks[..|ks| - 1] == pre;
    forall h ensures GroupPins(installed, ks, h)
      == GroupPins(installed, pre, h) + (if installed[k].group == h then [Pin(installed[k])] else [])
    {
      var gk := GroupKeys(installed, pre, h);
      assert Pins(installed, gk + [k]) == Pins(installed, gk) + [Pin(installed[k])];
      assert gk + [] == gk;
    }
  }

  /** A group none of whose keys is listed has no pins. */
  lemma {:induction false} GroupPinsEmpty(installed: map<string, Package>, ks: seq<string>, g: Option<string>)
    requires forall x :: x in ks ==> x in installed && installed[x].group != g
    ensures GroupPins(installed, ks, g) == []
    decreases |ks|
  {
    if ks != [] {
      GroupPinsEmpty(installed, ks[..|ks| - 1], g);
    }
  }

  lemma SetDefaultAppendIsGroupTable(installed: map<string, Package>, pre: seq<string>, k: string, t: GroupTable)
    requires forall x :: x in pre ==> x in installed
    requires k in installed && installed[k].group != Some(ProjectDependency)
    requires IsGroupTableOf(installed, pre, t)
    ensures IsGroupTableOf(installed, pre + [k], SetDefaultAppend(t, installed[k].group, Pin(installed[k])))
  {
    var g := installed[k].group;
    var pin := Pin(installed[k]);
    var ks := pre + [k];
    var r := SetDefaultAppend(t, g, pin);
    SetDefaultKeys(t, g, pin);
    GroupPinsSnoc(installed, pre, k);
    if KeyIndex(t, g) == |t| {
      SetDefaultAddsEntry(installed, pre, k, t);
    } else {
      SetDefaultExtendsEntry(installed, pre, k, t);
    }
    forall x | x in ks && installed[x].group != Some(ProjectDependency)
      ensures exists j :: 0 <= j < |r| && r[j].0 == installed[x].group
    {
      if x != k {
        assert x in pre;
        var j :| 0 <= j < |t| && t[j].0 == installed[x].group;
        assert r[j].0 == t[j].0;
      }
    }
  }

  /** `setdefault` keeps the keys, in order, and has `g` among them; distinct keys stay distinct. */
  lemma SetDefaultKeys(t: GroupTable, g: Option<string>, pin: string)
    ensures var r := SetDefaultAppend(t, g, pin);
      && |t| <= |r| && (forall j :: 0 <= j < |t| ==> r[j].0 == t[j].0)
      && (exists j :: 0 <= j < |r| && r[j].0 == g)
      && ((forall a, b :: 0 <= a < b < |t| ==> t[a].0 != t[b].0) ==> (forall a, b :: 0 <= a < b < |r| ==> r[a].0 != r[b].0))
  {
    var i := KeyIndex(t, g);
    var r := SetDefaultAppend(t, g, pin);
    assert r[i].0 == g;
  }

  /** A new group gets a fresh entry at the end, holding the key's pin alone. */
  lemma SetDefaultAddsEntry(installed: map<string, Package>, pre: seq<string>, k: string, t: GroupTable)
    requires forall x :: x in pre ==> x in installed
    requires k in installed && installed[k].group != Some(ProjectDependency)
    requires IsGroupTableOf(installed, pre, t)
    requires KeyIndex(t, installed[k].group) == |t|
    requires forall h :: (GroupPins(installed, pre + [k], h)
      == GroupPins(installed, pre, h) + (if installed[k].group == h then [Pin(installed[k])] else []))
    ensures var r := SetDefaultAppend(t, installed[k].group, Pin(installed[k]));
      forall j :: 0 <= j < |r| ==> r[j].0 != Some(ProjectDependency) && r[j].1 == GroupPins(installed, pre + [k], r[j].0)
  {
    var g := installed[k].group;
    var pin := Pin(installed[k]);
    var r := SetDefaultAppend(t, g, pin);
    assert forall j :: 0 <= j < |t| ==> t[j].0 != g;
    GroupPinsEmpty(installed, pre, g);
    assert r == t + [(g, [pin])];
  }

  /** A group already present gets the key's pin at the end of its list; nothing else moves. */
  lemma SetDefaultExtendsEntry(installed: map<string, Package>, pre: seq<string>, k: string, t: GroupTable)
    requires forall x :: x in pre ==> x in installed
    requires k in installed && installed[k].group != Some(ProjectDependency)
    requires IsGroupTableOf(installed, pre, t)
    requires KeyIndex(t, installed[k].group) < |t|
    requires forall h :: (GroupPins(installed, pre + [k], h)
      == GroupPins(installed, pre, h) + (if installed[k].group == h then [Pin(installed[k])] else []))
    ensures var r := SetDefaultAppend(t, installed[k].group, Pin(installed[k]));
      forall j :: 0 <= j < |r| ==> r[j].0 != Some(ProjectDependency) && r[j].1 == GroupPins(installed, pre + [k], r[j].0)
  {
    var g := installed[k].group;
    var pin := Pin(installed[k]);
    var i := KeyIndex(t, g);
    var r := SetDefaultAppend(t, g, pin);
    assert r == t[i := (g, t[i].1 + [pin])];
    forall j | 0 <= j < |r| ensures r[j].0 != Some(ProjectDependency) && r[j].1 == GroupPins(installed, pre + [k], r[j].0) {
      if j != i {
        assert r[j] == t[j] && t[j].0 != g;
      }
    }
  }

  /**
   * Each rendered list holds the pins of exactly the kept keys of its group,
   * in increasing key order.
   */
  lemma RenderedInKeyOrder(installed: map<string, Package>, keep: set<string>, g: Option<string>)
    requires keep <= installed.Keys
    ensures var ks := GroupKeys(installed, SortedListing(keep), g);
      && StrictlySorted(ks)
      && (forall k :: k in ks <==> k in keep && installed[k].group == g)
      && GroupPins(installed, SortedListing(keep), g) == Pins(installed, ks)
  {
    GroupKeysSorted(installed, SortedListing(keep), g);
  }

  /**
   * Rendering places every kept package exactly once: a project dependency
   * in `dependencies`, any other (including one without group, under the
   * key `None`) in the optional list of its group.
   */
  lemma RenderedPlacement(installed: map<string, Package>, keep: set<string>)
    requires keep <= installed.Keys
    ensures var sorted := SortedListing(keep);
      && IsGroupTableOf(installed, sorted, RenderedOptional(installed, sorted))
      && |RenderedDependencies(installed, sorted)| + Total(RenderedOptional(installed, sorted)) == |keep|
  {
    var sorted := SortedListing(keep);
    RenderedOptionalIsGroupTable(installed, sorted);
    EveryKeyPinnedOnce(installed, sorted);
    ListingSize(sorted, keep);
  }

  /** A kept package outside the project dependencies is pinned in its own group's list. */
  lemma PinnedInOwnGroup(installed: map<string, Package>, keep: set<string>, k: string)
    requires keep <= installed.Keys && k in keep && installed[k].group != Some(ProjectDependency)
    ensures PinnedUnder(RenderedOptional(installed, SortedListing(keep)), installed[k].group, Pin(installed[k]))
  {
    var sorted := SortedListing(keep);
    var g := installed[k].group;
    RenderedOptionalIsGroupTable(installed, sorted);
    var table := RenderedOptional(installed, sorted);
    assert k in sorted;
    var j :| 0 <= j < |table| && table[j].0 == g;
    assert table[j].1 == GroupPins(installed, sorted, g);
    PinOfGroupMember(installed, sorted, g, k);
    assert table[j].0 == g && Pin(installed[k]) in table[j].1;
  }

  /** `pin` is listed under key `g` of `table`. */
  predicate PinnedUnder(table: GroupTable, g: Option<string>, pin: string) {
    exists j :: 0 <= j < |table| && table[j].0 == g && pin in table[j].1
  }

  /** A key of group `g` has its pin among the group's pins. */
  lemma PinOfGroupMember(installed: map<string, Package>, ks: seq<string>, g: Option<string>, k: string)
    requires forall x :: x in ks ==> x in installed
    requires k in ks && installed[k].group == g
    ensures Pin(installed[k]) in GroupPins(installed, ks, g)
  {
    var gk := GroupKeys(installed, ks, g);
    var p :| 0 <= p < |gk| && gk[p] == k;
    assert Pins(installed, gk)[p] == Pin(installed[k]);
  }

  /** An increasing enumeration has as many elements as the set. */
  lemma {:induction false} ListingSize(s: seq<string>, keys: set<string>)
    requires IsSortedListing(s, keys)
    ensures |s| == |keys|
    decreases |s|
  {
    if s == [] {
      assert forall x :: x !in keys;
      assert keys == {};
    } else {
      SortedTail(s, keys);
      ListingSize(s[1..], keys - {s[0]});
    }
  }

  /**
   * Re-reading a rendered sources table: for a name whose key no other name
   * shares, the last entry with that key declares the name's index.
   */
  lemma SourceListingReadBack(sources: map<string, string>, table: seq<(string, SourceSpec)>, n: string)
    requires IsSourceListing(sources, table) && n in sources
    requires forall m :: m in sources && PkgKey(m) == PkgKey(n) ==> m == n
    ensures LastSource(table, PkgKey(n)) == Some(SourceSpec(Some(sources[n])))
  {
    var i :| 0 <= i < |table| && table[i] == (n, SourceSpec(Some(sources[n])));
    assert HasSourceFor(table, PkgKey(n));
    LastSourceDefined(table, PkgKey(n));
    LastSourceFound(table, PkgKey(n));
    var j :| LastEntryFor(table, PkgKey(n), j) && table[j].1 == LastSource(table, PkgKey(n)).value;
    assert table[j].0 == n;
  }
}

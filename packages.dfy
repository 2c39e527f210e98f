/**
 * The package record of env_snapshot.core and its group register: a group is
 * replaced only by an assignment of strictly greater priority.
 */
module Packages {
  import opened Wrappers

  // Group names visible in the snapshot.
  const ProjectDependency := "project-dependency"
  const UserCompiled := "user-compiled"
  const UserDownload := "user-download"
  const OtherVcs := "other-vcs"

  // Priorities of the classification rules (higher overrides lower).
  const PriorityRootDependency := 10
  const PriorityBaseToml := 20
  const PriorityRequirements := 30
  const PriorityEnvInference := 40

  /** The priority of a package that no rule has classified yet. */
  const UnsetPriority := -1

  /**
   * One installed package. `pkgName`, `version`, `url` and `editable` come from
   * the environment; `group`, `indexName` (`tool_uv_sources_indexname`) and
   * `groupPriority` (`_group_priority`) are filled in by the core.
   */
  datatype Package = Package(
    pkgName: string,
    version: string,
    url: Option<string>,
    editable: bool,
    group: Option<string>,
    indexName: Option<string>,
    groupPriority: int)
  {
    /** `Package.set_group`: takes `g` only when `priority` is strictly greater than the current one. */
    function SetGroup(g: Option<string>, priority: int): (r: Package)
      ensures priority > groupPriority ==> r.group == g && r.groupPriority == priority
      ensures priority <= groupPriority ==> r == this
      ensures SameOrigin(r, this) && r.indexName == indexName
    {
      if priority > groupPriority then this.(group := g, groupPriority := priority) else this
    }
  }

  /** A package as collected from the environment: no group, no index, priority unset. */
  function Collected(pkgName: string, version: string, url: Option<string>, editable: bool): Package {
    Package(pkgName, version, url, editable, None, None, UnsetPriority)
  }

  /** The fields the core never writes. */
  predicate SameOrigin(p: Package, q: Package) {
    p.pkgName == q.pkgName && p.version == q.version && p.url == q.url && p.editable == q.editable
  }

  /** One call `set_group(group, priority)`. */
  datatype Event = Event(group: Option<string>, priority: int)

  /** The package after the calls `es`, in order. */
  function Fold(p: Package, es: seq<Event>): (r: Package)
    ensures SameOrigin(r, p) && r.indexName == p.indexName
    ensures r.groupPriority >= p.groupPriority
    decreases |es|
  {
    if es == [] then p
    else
      var e := es[|es| - 1];
      Fold(p, es[..|es| - 1]).SetGroup(e.group, e.priority)
  }

  /**
   * Event `i` wins: it beats the package's own priority and every earlier event
   * strictly, and no later event beats it.
   */
  predicate Wins(p: Package, es: seq<Event>, i: int) {
    && 0 <= i < |es|
    && es[i].priority > p.groupPriority
    && (forall j :: 0 <= j < i ==> es[j].priority < es[i].priority)
    && (forall j :: i < j < |es| ==> es[j].priority <= es[i].priority)
  }

  lemma {:induction false} FoldAppend(p: Package, a: seq<Event>, b: seq<Event>)
    ensures Fold(p, a + b) == Fold(Fold(p, a), b)
    decreases |b|
  {
    if b != [] {
      assert (a + b)[..|a + b| - 1] == a + b[..|b| - 1];
      FoldAppend(p, a, b[..|b| - 1]);
    } else {
      assert a + b == a;
    }
  }

  lemma FoldSnoc(p: Package, es: seq<Event>, e: Event)
    ensures Fold(p, es + [e]) == Fold(p, es).SetGroup(e.group, e.priority)
  {
    var all := es + [e];
    assert all[..|all| - 1] == es && all[|all| - 1] == e;
  }

  /** Calls that all stay below `bound` leave the priority below `bound`. */
  lemma {:induction false} FoldStaysBelow(p: Package, es: seq<Event>, bound: int)
    requires p.groupPriority < bound
    requires forall j :: 0 <= j < |es| ==> es[j].priority < bound
    ensures Fold(p, es).groupPriority < bound
    decreases |es|
  {
    if es != [] {
      FoldStaysBelow(p, es[..|es| - 1], bound);
    }
  }

  /** Calls none of which beats the current priority change nothing. */
  lemma {:induction false} FoldNoEffect(p: Package, es: seq<Event>)
    requires forall j :: 0 <= j < |es| ==> es[j].priority <= p.groupPriority
    ensures Fold(p, es) == p
    decreases |es|
  {
    if es != [] {
      FoldNoEffect(p, es[..|es| - 1]);
    }
  }

  /** The register keeps the group of the first call of highest priority. */
  lemma {:induction false} FoldKeepsWinner(p: Package, es: seq<Event>, i: int)
    requires Wins(p, es, i)
    ensures Fold(p, es).group == es[i].group
    ensures Fold(p, es).groupPriority == es[i].priority
    decreases |es|
  {
    var n := |es|;
    if i < n - 1 {
      assert Wins(p, es[..n - 1], i);
      FoldKeepsWinner(p, es[..n - 1], i);
    } else {
      FoldStaysBelow(p, es[..n - 1], es[i].priority);
    }
  }

  /**
   * Every sequence of calls either has a winner, whose group is kept, or leaves
   * the package as it was: only the highest priority matters, and among equal
   * priorities the first call.
   */
  lemma {:induction false} FoldIsHighestFirst(p: Package, es: seq<Event>)
    ensures || Fold(p, es) == p
            || exists i :: Wins(p, es, i) && Fold(p, es).group == es[i].group
    decreases |es|
  {
    if es != [] {
      var n := |es|;
      var pre := es[..n - 1];
      var last := es[n - 1];
      FoldIsHighestFirst(p, pre);
      var before := Fold(p, pre);
      assert Fold(p, es) == before.SetGroup(last.group, last.priority);
      if before == p {
        if last.priority > p.groupPriority {
          UnmovedMeansBelow(p, pre);
          WinsLast(p, es);
        }
      } else {
        var i :| Wins(p, pre, i) && before.group == pre[i].group;
        FoldKeepsWinner(p, pre, i);
        if last.priority > pre[i].priority {
          WinsLast(p, es);
        } else {
          StillWins(p, es, i);
          FoldKeepsWinner(p, es, i);
        }
      }
    }
  }

  /** A winner of all calls but the last stays the winner when the last one does not beat it. */
  lemma StillWins(p: Package, es: seq<Event>, i: int)
    requires es != [] && Wins(p, es[..|es| - 1], i)
    requires es[|es| - 1].priority <= es[i].priority
    ensures Wins(p, es, i)
  {
    var pre := es[..|es| - 1];
    assert forall j :: 0 <= j < |pre| ==> es[j] == pre[j];
  }

  /** A last call above every earlier one and above the package's own priority wins. */
  lemma WinsLast(p: Package, es: seq<Event>)
    requires es != []
    requires es[|es| - 1].priority > p.groupPriority
    requires Fold(p, es[..|es| - 1]).groupPriority < es[|es| - 1].priority
    ensures Wins(p, es, |es| - 1) && Fold(p, es).group == es[|es| - 1].group
  {
    var n := |es|;
    forall j | 0 <= j < n - 1 ensures es[j].priority < es[n - 1].priority {
      FoldReachesMax(p, es[..n - 1], j);
    }
  }

  /** When the register did not move, no call was above the package's own priority. */
  lemma UnmovedMeansBelow(p: Package, es: seq<Event>)
    requires Fold(p, es) == p
    ensures forall j :: 0 <= j < |es| ==> es[j].priority <= p.groupPriority
  {
    forall j | 0 <= j < |es| ensures es[j].priority <= p.groupPriority {
      FoldReachesMax(p, es, j);
    }
  }

  /** The final priority is at least that of every call. */
  lemma {:induction false} FoldReachesMax(p: Package, es: seq<Event>, j: int)
    requires 0 <= j < |es|
    ensures Fold(p, es).groupPriority >= es[j].priority
    decreases |es|
  {
    var n := |es|;
    if j < n - 1 {
      FoldReachesMax(p, es[..n - 1], j);
    }
  }

  /**
   * A non-empty run of calls with the same group and priority, all above the
   * current priority, sets exactly that group and priority.
   */
  lemma FoldUniform(p: Package, es: seq<Event>, g: Option<string>, priority: int)
    requires es != [] && p.groupPriority < priority
    requires forall j :: 0 <= j < |es| ==> es[j] == Event(g, priority)
    ensures Fold(p, es).group == g && Fold(p, es).groupPriority == priority
  {
    FoldKeepsWinner(p, es, 0);
  }

  /**
   * A collected package starts below every priority the core uses, so any
   * non-empty run of calls at priorities of at least 0 moves it: the first
   * call of highest priority decides its group.
   */
  lemma CollectedTakesWinner(pkgName: string, version: string, url: Option<string>, editable: bool, es: seq<Event>)
    requires es != [] && forall j :: 0 <= j < |es| ==> es[j].priority >= 0
    ensures var p := Collected(pkgName, version, url, editable);
      exists i :: Wins(p, es, i) && Fold(p, es).group == es[i].group
  {
    var p := Collected(pkgName, version, url, editable);
    FoldIsHighestFirst(p, es);
    FoldReachesMax(p, es, 0);
    assert Fold(p, es).groupPriority != p.groupPriority;
  }
}

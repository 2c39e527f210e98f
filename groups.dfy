/**
 * Stage 2 of env_snapshot.core: `infer_group_from_environment` and the
 * specification of `assign_package_groups` as candidate assignments folded into
 * each package's group register.
 */
module Groups {
  import opened Wrappers
  import opened Names
  import opened Packages

  // ---------------------------------------------------------------------------
  // infer_group_from_environment
  // ---------------------------------------------------------------------------

  predicate StartsWith(s: string, prefix: string) { prefix <= s }

  predicate EndsWith(s: string, suffix: string) {
    |suffix| <= |s| && s[|s| - |suffix|..] == suffix
  }

  /** A downloaded wheel: an `http(s)://` URL whose lower-cased text ends in `.whl`. */
  predicate IsWheelDownload(url: string) {
    (StartsWith(url, "http://") || StartsWith(url, "https://")) && EndsWith(LowerAll(url), ".whl")
  }

  /** The group a package's provenance dictates, if any (first matching rule wins). */
  function InferGroupFromEnvironment(pkg: Package): (r: Option<string>)
    ensures r.Some? ==> r.value == UserCompiled || r.value == UserDownload || r.value == OtherVcs
    ensures r.Some? <==> Truthy(r)
    ensures pkg.editable ==> r == Some(UserCompiled)
    ensures !pkg.editable && !Truthy(pkg.url) ==> r == None
  {
    if pkg.editable then Some(UserCompiled)
    else if !Truthy(pkg.url) then None
    else
      var url := pkg.url.value;
      if StartsWith(url, "file://") then Some(UserCompiled)
      else if IsWheelDownload(url) then Some(UserDownload)
      else if StartsWith(url, "git+") then Some(OtherVcs)
      else None
  }

  /** A package installed from a `file://` URL is user-compiled, whatever else the URL says. */
  lemma FileUrlIsUserCompiled(pkg: Package)
    requires pkg.url.Some? && StartsWith(pkg.url.value, "file://")
    ensures InferGroupFromEnvironment(pkg) == Some(UserCompiled)
  {
    assert pkg.url.value[0] == 'f';
  }

  /** A `git+` URL is classified `other-vcs` unless the package is editable. */
  lemma GitUrlIsOtherVcs(pkg: Package)
    requires !pkg.editable && pkg.url.Some? && StartsWith(pkg.url.value, "git+")
    ensures InferGroupFromEnvironment(pkg) == Some(OtherVcs)
  {
    assert pkg.url.value[0] == 'g';
  }

  /**
   * A non-editable package downloaded over `http://` or `https://` whose URL
   * ends in `.whl`, in any letter case, is a user download.
   */
  lemma WheelDownloadIsUserDownload(pkg: Package)
    requires !pkg.editable && pkg.url.Some?
    requires StartsWith(pkg.url.value, "http://") || StartsWith(pkg.url.value, "https://")
    requires EndsWith(LowerAll(pkg.url.value), ".whl")
    ensures InferGroupFromEnvironment(pkg) == Some(UserDownload)
  {
    assert pkg.url.value[0] == 'h';
  }

  /**
   * Any other truthy URL of a non-editable package (not `file://`, not a
   * downloaded wheel, not `git+`) dictates no group.
   */
  lemma OtherUrlDictatesNoGroup(pkg: Package)
    requires !pkg.editable && Truthy(pkg.url)
    requires !StartsWith(pkg.url.value, "file://") && !IsWheelDownload(pkg.url.value)
    requires !StartsWith(pkg.url.value, "git+")
    ensures InferGroupFromEnvironment(pkg) == None
  {
  }


  // ---------------------------------------------------------------------------
  // Candidate assignments of assign_package_groups
  // ---------------------------------------------------------------------------

  /** A call `assign(name, group, priority)`. */
  datatype Candidate = Candidate(name: string, group: Option<string>, priority: int)

  function Tagged(names: seq<string>, g: Option<string>, priority: int): (cs: seq<Candidate>)
    ensures |cs| == |names|
    ensures forall i :: 0 <= i < |names| ==> cs[i] == Candidate(names[i], g, priority)
  {
    seq(|names|, i requires 0 <= i < |names| => Candidate(names[i], g, priority))
  }

  /** `[requirement_name(dep) for dep in deps]`. */
  function RequirementNames(deps: seq<string>, requirementName: string -> string): (ns: seq<string>)
    ensures |ns| == |deps|
    ensures forall i :: 0 <= i < |deps| ==> ns[i] == requirementName(deps[i])
  {
    seq(|deps|, i requires 0 <= i < |deps| => requirementName(deps[i]))
  }

  /** The candidates of the base document's optional groups, group by group in document order. */
  function OptionalCandidates(optional: seq<(Option<string>, seq<string>)>, requirementName: string -> string): seq<Candidate>
    decreases |optional|
  {
    if optional == [] then []
    else
      var last := optional[|optional| - 1];
      OptionalCandidates(optional[..|optional| - 1], requirementName)
        + Tagged(RequirementNames(last.1, requirementName), last.0, PriorityBaseToml)
  }

  /**
   * The assignments `assign_package_groups` makes before environment
   * inference, in order: roots, base main dependencies, base optional groups,
   * requirements.
   */
  function RuleCandidates(
    roots: seq<string>, dependencies: seq<string>, optional: seq<(Option<string>, seq<string>)>,
    requirements: seq<string>, requirementName: string -> string): seq<Candidate>
  {
    Tagged(roots, Some(UserDownload), PriorityRootDependency)
      + Tagged(RequirementNames(dependencies, requirementName), Some(ProjectDependency), PriorityBaseToml)
      + OptionalCandidates(optional, requirementName)
      + Tagged(requirements, Some(ProjectDependency), PriorityRequirements)
  }

  /** The `set_group` calls that the candidates `cs` make on the package with key `k`. */
  function EventsFor(k: string, cs: seq<Candidate>): seq<Event>
    decreases |cs|
  {
    if cs == [] then []
    else
      var c := cs[|cs| - 1];
      EventsFor(k, cs[..|cs| - 1]) + (if PkgKey(c.name) == k then [Event(c.group, c.priority)] else [])
  }

  /** `assign(name, group, priority)`: a name whose key is not installed is skipped. */
  function AssignOne(installed: map<string, Package>, c: Candidate): map<string, Package> {
    var k := PkgKey(c.name);
    if k in installed then installed[k := installed[k].SetGroup(c.group, c.priority)] else installed
  }

  /** The registry after the candidates `cs`: each package folds the calls addressed to it. */
  function Applied(installed: map<string, Package>, cs: seq<Candidate>): (r: map<string, Package>)
    ensures r.Keys == installed.Keys
    ensures forall k :: k in installed ==> SameOrigin(r[k], installed[k]) && r[k].indexName == installed[k].indexName
  {
    map k | k in installed :: Fold(installed[k], EventsFor(k, cs))
  }

  /** One package's environment-inference step (priority 40). */
  function EnvApply(p: Package): Package {
    var inferred := InferGroupFromEnvironment(p);
    if Truthy(inferred) then p.SetGroup(inferred, PriorityEnvInference) else p
  }

  function EnvInferred(installed: map<string, Package>): (r: map<string, Package>)
    ensures r.Keys == installed.Keys
    ensures forall k :: k in installed ==> SameOrigin(r[k], installed[k]) && r[k].indexName == installed[k].indexName
  {
    map k | k in installed :: EnvApply(installed[k])
  }

  /** The registry after `assign_package_groups`. */
  function GroupsAssigned(
    installed: map<string, Package>, roots: seq<string>, dependencies: seq<string>,
    optional: seq<(Option<string>, seq<string>)>, requirements: seq<string>,
    requirementName: string -> string): (r: map<string, Package>)
    ensures r.Keys == installed.Keys
    ensures forall k :: k in installed ==> SameOrigin(r[k], installed[k]) && r[k].indexName == installed[k].indexName
  {
    EnvInferred(Applied(installed, RuleCandidates(roots, dependencies, optional, requirements, requirementName)))
  }

  // ---------------------------------------------------------------------------
  // The sequential assignment agrees with the per-package specification
  // ---------------------------------------------------------------------------

  lemma {:induction false} EventsForAppend(k: string, a: seq<Candidate>, b: seq<Candidate>)
    ensures EventsFor(k, a + b) == EventsFor(k, a) + EventsFor(k, b)
    decreases |b|
  {
    if b == [] {
      assert a + b == a;
    } else {
      assert (a + b)[..|a + b| - 1] == a + b[..|b| - 1];
      EventsForAppend(k, a, b[..|b| - 1]);
    }
  }

  /** Applying one more candidate to the specified registry is `assign`. */
  lemma AppliedStep(installed: map<string, Package>, cs: seq<Candidate>, c: Candidate)
    ensures Applied(installed, cs + [c]) == AssignOne(Applied(installed, cs), c)
  {
    var lhs := Applied(installed, cs + [c]);
    var rhs := AssignOne(Applied(installed, cs), c);
    assert lhs.Keys == rhs.Keys;
    forall k | k in installed ensures lhs[k] == rhs[k] {
      AppliedStepAt(installed, cs, c, k);
    }
  }

  lemma AppliedStepAt(installed: map<string, Package>, cs: seq<Candidate>, c: Candidate, k: string)
    requires k in installed
    ensures Applied(installed, cs + [c])[k] == AssignOne(Applied(installed, cs), c)[k]
  {
    EventsForSnoc(k, cs, c);
    if PkgKey(c.name) == k {
      FoldSnoc(installed[k], EventsFor(k, cs), Event(c.group, c.priority));
    } else {
      assert EventsFor(k, cs) + [] == EventsFor(k, cs);
    }
  }


  lemma EventsForSnoc(k: string, cs: seq<Candidate>, c: Candidate)
    ensures EventsFor(k, cs + [c]) == EventsFor(k, cs) + (if PkgKey(c.name) == k then [Event(c.group, c.priority)] else [])
  {
    var all := cs + [c];
    assert all[..|all| - 1] == cs && all[|all| - 1] == c;
  }


  /** No candidate changes nothing. */
  lemma AppliedEmpty(installed: map<string, Package>)
    ensures Applied(installed, []) == installed
  {
    assert forall k :: k in installed ==> EventsFor(k, []) == [];
  }

  /** Applying `a` and then `b` is applying `a + b`. */
  lemma AppliedAppend(installed: map<string, Package>, a: seq<Candidate>, b: seq<Candidate>)
    ensures Applied(Applied(installed, a), b) == Applied(installed, a + b)
  {
    var lhs := Applied(Applied(installed, a), b);
    var rhs := Applied(installed, a + b);
    forall k | k in installed ensures lhs[k] == rhs[k] {
      EventsForAppend(k, a, b);
      FoldAppend(installed[k], EventsFor(k, a), EventsFor(k, b));
    }
  }

  lemma {:induction false} OptionalCandidatesAppend(
    a: seq<(Option<string>, seq<string>)>, b: seq<(Option<string>, seq<string>)>, requirementName: string -> string)
    ensures OptionalCandidates(a + b, requirementName)
         == OptionalCandidates(a, requirementName) + OptionalCandidates(b, requirementName)
    decreases |b|
  {
    if b == [] {
      assert a + b == a;
    } else {
      assert (a + b)[..|a + b| - 1] == a + b[..|b| - 1];
      OptionalCandidatesAppend(a, b[..|b| - 1], requirementName);
    }
  }

  // ---------------------------------------------------------------------------
  // Which rule wins
  // ---------------------------------------------------------------------------

  /** Some name in `names` has the key `k`. */
  predicate Mentions(names: seq<string>, k: string) {
    exists i :: 0 <= i < |names| && PkgKey(names[i]) == k
  }

  /** Every call from one rule carries that rule's group and priority. */
  lemma {:induction false} EventsForTaggedUniform(k: string, names: seq<string>, g: Option<string>, priority: int)
    ensures forall j :: 0 <= j < |EventsFor(k, Tagged(names, g, priority))| ==>
      EventsFor(k, Tagged(names, g, priority))[j] == Event(g, priority)
    decreases |names|
  {
    if names != [] {
      var n := |names|;
      var cs := Tagged(names, g, priority);
      assert cs[..n - 1] == Tagged(names[..n - 1], g, priority);
      assert cs[n - 1] == Candidate(names[n - 1], g, priority);
      EventsForTaggedUniform(k, names[..n - 1], g, priority);
      assert EventsFor(k, cs) == EventsFor(k, cs[..n - 1])
        + (if PkgKey(names[n - 1]) == k then [Event(g, priority)] else []);
    }
  }

  /** A rule makes a call on key `k` exactly when one of its names has that key. */
  lemma {:induction false} EventsForTaggedEmpty(k: string, names: seq<string>, g: Option<string>, priority: int)
    ensures EventsFor(k, Tagged(names, g, priority)) == [] <==> !Mentions(names, k)
    decreases |names|
  {
    if names != [] {
      var n := |names|;
      var init := names[..n - 1];
      var cs := Tagged(names, g, priority);
      assert cs[..n - 1] == Tagged(init, g, priority);
      assert cs[n - 1] == Candidate(names[n - 1], g, priority);
      EventsForTaggedEmpty(k, init, g, priority);
      assert EventsFor(k, cs) == EventsFor(k, cs[..n - 1])
        + (if PkgKey(names[n - 1]) == k then [Event(g, priority)] else []);
      MentionsSnoc(names, k);
    }
  }

  lemma MentionsSnoc(names: seq<string>, k: string)
    requires names != []
    ensures Mentions(names, k) <==> Mentions(names[..|names| - 1], k) || PkgKey(names[|names| - 1]) == k
  {
    var n := |names|;
    var init := names[..n - 1];
    if Mentions(init, k) {
      var i :| 0 <= i < n - 1 && PkgKey(init[i]) == k;
      assert PkgKey(names[i]) == k;
    }
    if Mentions(names, k) && PkgKey(names[n - 1]) != k {
      var i :| 0 <= i < n && PkgKey(names[i]) == k;
      assert PkgKey(init[i]) == k;
    }
  }

  lemma {:induction false} OptionalCandidatePriorities(optional: seq<(Option<string>, seq<string>)>, requirementName: string -> string)
    ensures forall j :: 0 <= j < |OptionalCandidates(optional, requirementName)| ==>
      OptionalCandidates(optional, requirementName)[j].priority == PriorityBaseToml
    decreases |optional|
  {
    if optional != [] {
      OptionalCandidatePriorities(optional[..|optional| - 1], requirementName);
    }
  }

  /** The calls addressed to one package carry priorities of the candidates only. */
  lemma {:induction false} EventsForPriorities(k: string, cs: seq<Candidate>, low: int, high: int)
    requires forall j :: 0 <= j < |cs| ==> low <= cs[j].priority <= high
    ensures forall j :: 0 <= j < |EventsFor(k, cs)| ==> low <= EventsFor(k, cs)[j].priority <= high
    decreases |cs|
  {
    if cs != [] {
      EventsForPriorities(k, cs[..|cs| - 1], low, high);
    }
  }

  /** Every call from the optional groups has priority 20. */
  lemma OptionalEventPriorities(k: string, optional: seq<(Option<string>, seq<string>)>, requirementName: string -> string)
    ensures forall j :: 0 <= j < |EventsFor(k, OptionalCandidates(optional, requirementName))| ==>
      EventsFor(k, OptionalCandidates(optional, requirementName))[j].priority == PriorityBaseToml
  {
    OptionalCandidatePriorities(optional, requirementName);
    EventsForPriorities(k, OptionalCandidates(optional, requirementName), PriorityBaseToml, PriorityBaseToml);
  }

  /** Optional groups none of which names key `k` make no call on it. */
  lemma {:induction false} OptionalEventsEmpty(k: string, optional: seq<(Option<string>, seq<string>)>, requirementName: string -> string)
    ensures EventsFor(k, OptionalCandidates(optional, requirementName)) == [] <==> NoGroupMentions(k, optional, requirementName)
    decreases |optional|
  {
    if optional != [] {
      var n := |optional|;
      var init, last := optional[..n - 1], optional[n - 1];
      OptionalEventsEmpty(k, init, requirementName);
      EventsForAppend(k, OptionalCandidates(init, requirementName),
        Tagged(RequirementNames(last.1, requirementName), last.0, PriorityBaseToml));
      EventsForTaggedEmpty(k, RequirementNames(last.1, requirementName), last.0, PriorityBaseToml);
      NoGroupMentionsSnoc(k, optional, requirementName);
    }
  }

  /** No optional group lists a requirement of key `k`. */
  predicate NoGroupMentions(k: string, optional: seq<(Option<string>, seq<string>)>, requirementName: string -> string) {
    forall gi :: 0 <= gi < |optional| ==> !Mentions(RequirementNames(optional[gi].1, requirementName), k)
  }

  lemma NoGroupMentionsSnoc(k: string, optional: seq<(Option<string>, seq<string>)>, requirementName: string -> string)
    requires optional != []
    ensures var n := |optional|;
      NoGroupMentions(k, optional, requirementName)
      <==> (NoGroupMentions(k, optional[..n - 1], requirementName) && !Mentions(RequirementNames(optional[n - 1].1, requirementName), k))
  {
    var n := |optional|;
    assert forall gi :: 0 <= gi < n - 1 ==> optional[..n - 1][gi] == optional[gi];
  }



  /** The calls on one package, rule by rule. */
  datatype RuleEvents = RuleEvents(roots: seq<Event>, main: seq<Event>, optional: seq<Event>, requirements: seq<Event>)
  {
    function All(): seq<Event> { roots + main + optional + requirements }
  }

  /** Folding the rules' calls is folding them rule by rule. */
  lemma FoldByRule(p: Package, r: RuleEvents)
    ensures Fold(p, r.All()) == Fold(Fold(Fold(Fold(p, r.roots), r.main), r.optional), r.requirements)
  {
    FoldAppend(p, r.roots + r.main + r.optional, r.requirements);
    FoldAppend(p, r.roots + r.main, r.optional);
    FoldAppend(p, r.roots, r.main);
  }

  /** The calls the four rules make on key `k`, with the shape each rule guarantees. */
  lemma EventsByRule(
    k: string, roots: seq<string>, dependencies: seq<string>, optional: seq<(Option<string>, seq<string>)>,
    requirements: seq<string>, requirementName: string -> string)
    returns (r: RuleEvents)
    ensures EventsFor(k, RuleCandidates(roots, dependencies, optional, requirements, requirementName)) == r.All()
    ensures r.optional == EventsFor(k, OptionalCandidates(optional, requirementName))
    ensures forall j :: 0 <= j < |r.roots| ==> r.roots[j] == Event(Some(UserDownload), PriorityRootDependency)
    ensures forall j :: 0 <= j < |r.main| ==> r.main[j] == Event(Some(ProjectDependency), PriorityBaseToml)
    ensures forall j :: 0 <= j < |r.optional| ==> r.optional[j].priority == PriorityBaseToml
    ensures forall j :: 0 <= j < |r.requirements| ==> r.requirements[j] == Event(Some(ProjectDependency), PriorityRequirements)
    ensures r.roots == [] <==> !Mentions(roots, k)
    ensures r.main == [] <==> !Mentions(RequirementNames(dependencies, requirementName), k)
    ensures r.optional == [] <==> NoGroupMentions(k, optional, requirementName)
    ensures r.requirements == [] <==> !Mentions(requirements, k)
  {
    var rc := Tagged(roots, Some(UserDownload), PriorityRootDependency);
    var dc := Tagged(RequirementNames(dependencies, requirementName), Some(ProjectDependency), PriorityBaseToml);
    var oc := OptionalCandidates(optional, requirementName);
    var qc := Tagged(requirements, Some(ProjectDependency), PriorityRequirements);
    EventsForAppend(k, rc + dc + oc, qc);
    EventsForAppend(k, rc + dc, oc);
    EventsForAppend(k, rc, dc);
    r := RuleEvents(EventsFor(k, rc), EventsFor(k, dc), EventsFor(k, oc), EventsFor(k, qc));
    EventsForTaggedUniform(k, roots, Some(UserDownload), PriorityRootDependency);
    EventsForTaggedUniform(k, RequirementNames(dependencies, requirementName), Some(ProjectDependency), PriorityBaseToml);
    EventsForTaggedUniform(k, requirements, Some(ProjectDependency), PriorityRequirements);
    EventsForTaggedEmpty(k, roots, Some(UserDownload), PriorityRootDependency);
    EventsForTaggedEmpty(k, RequirementNames(dependencies, requirementName), Some(ProjectDependency), PriorityBaseToml);
    EventsForTaggedEmpty(k, requirements, Some(ProjectDependency), PriorityRequirements);
    OptionalEventPriorities(k, optional, requirementName);
    OptionalEventsEmpty(k, optional, requirementName);
  }

  /** The provenance rule reads only fields the core never writes. */
  lemma InferenceReadsOrigin(p: Package, q: Package)
    requires SameOrigin(p, q)
    ensures InferGroupFromEnvironment(p) == InferGroupFromEnvironment(q)
  {
  }

  /** The package `k` after all rules but environment inference. */
  function AfterRules(
    installed: map<string, Package>, roots: seq<string>, dependencies: seq<string>,
    optional: seq<(Option<string>, seq<string>)>, requirements: seq<string>,
    requirementName: string -> string, k: string): Package
    requires k in installed
  {
    Fold(installed[k], EventsFor(k, RuleCandidates(roots, dependencies, optional, requirements, requirementName)))
  }

  /** The final package `k` is the rules' result, then environment inference. */
  lemma GroupsAssignedAt(
    installed: map<string, Package>, roots: seq<string>, dependencies: seq<string>,
    optional: seq<(Option<string>, seq<string>)>, requirements: seq<string>,
    requirementName: string -> string, k: string)
    requires k in installed
    ensures var p := AfterRules(installed, roots, dependencies, optional, requirements, requirementName, k);
      GroupsAssigned(installed, roots, dependencies, optional, requirements, requirementName)[k] == EnvApply(p)
      && InferGroupFromEnvironment(p) == InferGroupFromEnvironment(installed[k])
  {
    var cs := RuleCandidates(roots, dependencies, optional, requirements, requirementName);
    var mid := Applied(installed, cs);
    assert mid[k] == AfterRules(installed, roots, dependencies, optional, requirements, requirementName, k);
    InferenceReadsOrigin(mid[k], installed[k]);
  }

  /**
   * Environment inference wins: an installed package whose provenance names a
   * group ends in that group, whatever the other rules said.
   */
  lemma EnvInferenceWins(
    installed: map<string, Package>, roots: seq<string>, dependencies: seq<string>,
    optional: seq<(Option<string>, seq<string>)>, requirements: seq<string>,
    requirementName: string -> string, k: string)
    requires k in installed && installed[k].groupPriority < PriorityEnvInference
    requires InferGroupFromEnvironment(installed[k]).Some?
    ensures GroupsAssigned(installed, roots, dependencies, optional, requirements, requirementName)[k].group
         == InferGroupFromEnvironment(installed[k])
  {
    var p := installed[k];
    GroupsAssignedAt(installed, roots, dependencies, optional, requirements, requirementName, k);
    var r := EventsByRule(k, roots, dependencies, optional, requirements, requirementName);
    FoldByRule(p, r);
    FoldStaysBelow(p, r.roots, PriorityEnvInference);
    var p1 := Fold(p, r.roots);
    FoldStaysBelow(p1, r.main, PriorityEnvInference);
    var p2 := Fold(p1, r.main);
    FoldStaysBelow(p2, r.optional, PriorityEnvInference);
    var p3 := Fold(p2, r.optional);
    FoldStaysBelow(p3, r.requirements, PriorityEnvInference);
  }

  /**
   * A package named in the requirements and without provenance-based group ends
   * in `project-dependency`, whatever the roots and the base document say.
   */
  lemma RequirementsWin(
    installed: map<string, Package>, roots: seq<string>, dependencies: seq<string>,
    optional: seq<(Option<string>, seq<string>)>, requirements: seq<string>,
    requirementName: string -> string, k: string)
    requires k in installed && installed[k].groupPriority < PriorityRequirements
    requires InferGroupFromEnvironment(installed[k]) == None
    requires Mentions(requirements, k)
    ensures GroupsAssigned(installed, roots, dependencies, optional, requirements, requirementName)[k].group
         == Some(ProjectDependency)
  {
    var p := installed[k];
    GroupsAssignedAt(installed, roots, dependencies, optional, requirements, requirementName, k);
    var r := EventsByRule(k, roots, dependencies, optional, requirements, requirementName);
    FoldByRule(p, r);
    FoldStaysBelow(p, r.roots, PriorityRequirements);
    var p1 := Fold(p, r.roots);
    FoldStaysBelow(p1, r.main, PriorityRequirements);
    var p2 := Fold(p1, r.main);
    FoldStaysBelow(p2, r.optional, PriorityRequirements);
    var p3 := Fold(p2, r.optional);
    FoldUniform(p3, r.requirements, Some(ProjectDependency), PriorityRequirements);
  }

  /**
   * Base main dependencies are applied before optional groups at the same
   * priority: a package listed in both (and not in the requirements, without
   * provenance-based group) stays `project-dependency`.
   */
  lemma MainDependencyBeatsOptional(
    installed: map<string, Package>, roots: seq<string>, dependencies: seq<string>,
    optional: seq<(Option<string>, seq<string>)>, requirements: seq<string>,
    requirementName: string -> string, k: string)
    requires k in installed && installed[k].groupPriority < PriorityBaseToml
    requires InferGroupFromEnvironment(installed[k]) == None
    requires Mentions(RequirementNames(dependencies, requirementName), k)
    requires !Mentions(requirements, k)
    ensures GroupsAssigned(installed, roots, dependencies, optional, requirements, requirementName)[k].group
         == Some(ProjectDependency)
  {
    var p := installed[k];
    GroupsAssignedAt(installed, roots, dependencies, optional, requirements, requirementName, k);
    var r := EventsByRule(k, roots, dependencies, optional, requirements, requirementName);
    FoldByRule(p, r);
    FoldStaysBelow(p, r.roots, PriorityBaseToml);
    var p1 := Fold(p, r.roots);
    FoldUniform(p1, r.main, Some(ProjectDependency), PriorityBaseToml);
    var p2 := Fold(p1, r.main);
    FoldNoEffect(p2, r.optional);
    assert r.requirements == [];
  }

  /** The optional candidates around group `gi`. */
  lemma OptionalCandidatesSplit(optional: seq<(Option<string>, seq<string>)>, requirementName: string -> string, gi: int)
    requires 0 <= gi < |optional|
    ensures OptionalCandidates(optional, requirementName)
         == OptionalCandidates(optional[..gi], requirementName)
          + Tagged(RequirementNames(optional[gi].1, requirementName), optional[gi].0, PriorityBaseToml)
          + OptionalCandidates(optional[gi + 1..], requirementName)
  {
    SplitAt(optional, gi);
    OptionalCandidatesAround(optional[..gi], optional[gi], optional[gi + 1..], requirementName);
  }

  lemma SplitAt<T>(s: seq<T>, i: int)
    requires 0 <= i < |s|
    ensures s == s[..i] + [s[i]] + s[i + 1..]
  {
  }

  /** The optional candidates of a group list, split around one of its groups. */
  lemma OptionalCandidatesAround(
    before: seq<(Option<string>, seq<string>)>, group: (Option<string>, seq<string>),
    after: seq<(Option<string>, seq<string>)>, requirementName: string -> string)
    ensures OptionalCandidates(before + [group] + after, requirementName)
         == OptionalCandidates(before, requirementName)
          + Tagged(RequirementNames(group.1, requirementName), group.0, PriorityBaseToml)
          + OptionalCandidates(after, requirementName)
  {
    OptionalCandidatesAppend(before + [group], after, requirementName);
    OptionalCandidatesAppend(before, [group], requirementName);
    OptionalCandidatesSingle(group, requirementName);
  }


  /** The candidates of a single optional group are its tagged requirement names. */
  lemma OptionalCandidatesSingle(group: (Option<string>, seq<string>), requirementName: string -> string)
    ensures OptionalCandidates([group], requirementName)
         == Tagged(RequirementNames(group.1, requirementName), group.0, PriorityBaseToml)
  {
    assert [group][..0] == [];
  }

  lemma OptionalEventsBeforeEmpty(
    k: string, optional: seq<(Option<string>, seq<string>)>, requirementName: string -> string, gi: int)
    requires 0 <= gi <= |optional|
    requires forall j :: 0 <= j < gi ==> !Mentions(RequirementNames(optional[j].1, requirementName), k)
    ensures EventsFor(k, OptionalCandidates(optional[..gi], requirementName)) == []
  {
    var before := optional[..gi];
    forall j | 0 <= j < |before|
      ensures !Mentions(RequirementNames(before[j].1, requirementName), k)
    {
      assert before[j] == optional[j];
    }
    OptionalEventsEmpty(k, before, requirementName);
  }

  /** The calls the optional groups make on key `k` when group `gi` is the first to name it. */
  lemma OptionalEventsFromFirst(
    k: string, optional: seq<(Option<string>, seq<string>)>, requirementName: string -> string, gi: int)
    returns (first: seq<Event>, rest: seq<Event>)
    requires 0 <= gi < |optional| && Mentions(RequirementNames(optional[gi].1, requirementName), k)
    requires forall j :: 0 <= j < gi ==> !Mentions(RequirementNames(optional[j].1, requirementName), k)
    ensures EventsFor(k, OptionalCandidates(optional, requirementName)) == first + rest
    ensures first != [] && forall j :: 0 <= j < |first| ==> first[j] == Event(optional[gi].0, PriorityBaseToml)
    ensures forall j :: 0 <= j < |rest| ==> rest[j].priority == PriorityBaseToml
  {
    var before, group, after := optional[..gi], optional[gi], optional[gi + 1..];
    var ob := OptionalCandidates(before, requirementName);
    var tagged := Tagged(RequirementNames(group.1, requirementName), group.0, PriorityBaseToml);
    var oa := OptionalCandidates(after, requirementName);
    OptionalCandidatesSplit(optional, requirementName, gi);
    EventsForAppend(k, ob + tagged, oa);
    EventsForAppend(k, ob, tagged);
    OptionalEventsBeforeEmpty(k, optional, requirementName, gi);
    EventsForTaggedUniform(k, RequirementNames(group.1, requirementName), group.0, PriorityBaseToml);
    EventsForTaggedEmpty(k, RequirementNames(group.1, requirementName), group.0, PriorityBaseToml);
    OptionalEventPriorities(k, after, requirementName);
    first, rest := EventsFor(k, tagged), EventsFor(k, oa);
    assert EventsFor(k, ob) + first == first;
  }

  /**
   * Among optional groups, the first group (in document order) that lists a
   * package keeps it, when neither the main list nor the requirements name it
   * and its provenance names no group.
   */
  lemma FirstOptionalGroupWins(
    installed: map<string, Package>, roots: seq<string>, dependencies: seq<string>,
    optional: seq<(Option<string>, seq<string>)>, requirements: seq<string>,
    requirementName: string -> string, k: string, gi: int)
    requires k in installed && installed[k].groupPriority < PriorityBaseToml
    requires InferGroupFromEnvironment(installed[k]) == None
    requires !Mentions(RequirementNames(dependencies, requirementName), k)
    requires !Mentions(requirements, k)
    requires 0 <= gi < |optional| && Mentions(RequirementNames(optional[gi].1, requirementName), k)
    requires forall j :: 0 <= j < gi ==> !Mentions(RequirementNames(optional[j].1, requirementName), k)
    ensures GroupsAssigned(installed, roots, dependencies, optional, requirements, requirementName)[k].group
         == optional[gi].0
  {
    var p := installed[k];
    GroupsAssignedAt(installed, roots, dependencies, optional, requirements, requirementName, k);
    var r := EventsByRule(k, roots, dependencies, optional, requirements, requirementName);
    var first, rest := OptionalEventsFromFirst(k, optional, requirementName, gi);
    FoldByRule(p, r);
    assert r.main == [] && r.requirements == [];
    FoldStaysBelow(p, r.roots, PriorityBaseToml);
    var p1 := Fold(p, r.roots);
    FoldAppend(p1, first, rest);
    FoldUniform(p1, first, optional[gi].0, PriorityBaseToml);
    FoldNoEffect(Fold(p1, first), rest);
  }

  /** A package named only among the roots becomes a user download. */
  lemma RootOnlyIsUserDownload(
    installed: map<string, Package>, roots: seq<string>, dependencies: seq<string>,
    optional: seq<(Option<string>, seq<string>)>, requirements: seq<string>,
    requirementName: string -> string, k: string)
    requires k in installed && installed[k].groupPriority < PriorityRootDependency
    requires InferGroupFromEnvironment(installed[k]) == None
    requires Mentions(roots, k)
    requires !Mentions(RequirementNames(dependencies, requirementName), k)
    requires forall gi :: 0 <= gi < |optional| ==> !Mentions(RequirementNames(optional[gi].1, requirementName), k)
    requires !Mentions(requirements, k)
    ensures GroupsAssigned(installed, roots, dependencies, optional, requirements, requirementName)[k].group
         == Some(UserDownload)
  {
    var p := installed[k];
    GroupsAssignedAt(installed, roots, dependencies, optional, requirements, requirementName, k);
    var r := EventsByRule(k, roots, dependencies, optional, requirements, requirementName);
    OptionalEventsEmpty(k, optional, requirementName);
    FoldByRule(p, r);
    assert r.main == [] && r.optional == [] && r.requirements == [];
    FoldUniform(p, r.roots, Some(UserDownload), PriorityRootDependency);
  }
}

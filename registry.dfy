/**
 * The mutable registry `installed: Dict[str, Package]` of env_snapshot.core
 * and the two stages that update it in place: `assign_package_groups` and
 * `assign_uv_index_info`. Each method is proved to leave the registry equal
 * to the per-package specification of groups.dfy and indexes.dfy.
 */
module Registry {
  import opened Wrappers
  import opened Names
  import opened Packages
  import opened Groups
  import opened Indexes

  /** The installed packages, by `pkg_key` of their names. */
  class Registry {
    var installed: map<string, Package>

    constructor(packages: map<string, Package>)
      ensures installed == packages
    {
      installed := packages;
    }

    /** The local `assign(name, group, priority)` of `assign_package_groups`. */
    method Assign(name: string, group: Option<string>, priority: int)
      modifies this
      ensures installed == AssignOne(old(installed), Candidate(name, group, priority))
    {
      var key := PkgKey(name);
      if key in installed {
        installed := installed[key := installed[key].SetGroup(group, priority)];
      }
    }

    /** One `for name in names: assign(name, group, priority)` loop. */
    method AssignEach(names: seq<string>, group: Option<string>, priority: int)
      modifies this
      ensures installed == Applied(old(installed), Tagged(names, group, priority))
    {
      var i := 0;
      AppliedEmpty(installed);
      assert Tagged(names[..0], group, priority) == [];
      while i < |names|
        invariant 0 <= i <= |names|
        invariant installed == Applied(old(installed), Tagged(names[..i], group, priority))
      {
        ghost var done := Tagged(names[..i], group, priority);
        Assign(names[i], group, priority);
        AppliedStep(old(installed), done, Candidate(names[i], group, priority));
        assert Tagged(names[..i + 1], group, priority) == done + [Candidate(names[i], group, priority)];
        i := i + 1;
      }
      assert names[..i] == names;
    }

    /** The loop over the base document's optional groups. */
    method AssignOptional(optional: seq<(Option<string>, seq<string>)>, requirementName: string -> string)
      modifies this
      ensures installed == Applied(old(installed), OptionalCandidates(optional, requirementName))
    {
      var i := 0;
      AppliedEmpty(installed);
      while i < |optional|
        invariant 0 <= i <= |optional|
        invariant installed == Applied(old(installed), OptionalCandidates(optional[..i], requirementName))
      {
        ghost var done := OptionalCandidates(optional[..i], requirementName);
        var (group, deps) := optional[i];
        AssignEach(RequirementNames(deps, requirementName), group, PriorityBaseToml);
        var step := Tagged(RequirementNames(deps, requirementName), group, PriorityBaseToml);
        AppliedAppend(old(installed), done, step);
        assert optional[..i + 1][..i] == optional[..i];
        assert OptionalCandidates(optional[..i + 1], requirementName) == done + step;
        i := i + 1;
      }
      assert optional[..i] == optional;
    }

    /** The final loop: environment inference at priority 40 for every package. */
    method InferFromEnvironment()
      modifies this
      ensures installed == EnvInferred(old(installed))
    {
      var todo := installed.Keys;
      while todo != {}
        invariant todo <= installed.Keys && installed.Keys == old(installed).Keys
        invariant forall k :: k in installed ==>
          installed[k] == if k in todo then old(installed)[k] else EnvApply(old(installed)[k])
        decreases todo
      {
        var k :| k in todo;
        var inferred := InferGroupFromEnvironment(installed[k]);
        if Truthy(inferred) {
          installed := installed[k := installed[k].SetGroup(inferred, PriorityEnvInference)];
        }
        todo := todo - {k};
      }
    }

    /**
     * `assign_package_groups`: roots, base main dependencies, base optional
     * groups and requirements, in that order, then environment inference.
     */
    method AssignPackageGroups(
      roots: seq<string>, dependencies: seq<string>, optional: seq<(Option<string>, seq<string>)>,
      requirements: seq<string>, requirementName: string -> string)
      modifies this
      ensures installed == GroupsAssigned(old(installed), roots, dependencies, optional, requirements, requirementName)
    {
      var rootCs := Tagged(roots, Some(UserDownload), PriorityRootDependency);
      var mainCs := Tagged(RequirementNames(dependencies, requirementName), Some(ProjectDependency), PriorityBaseToml);
      var optionalCs := OptionalCandidates(optional, requirementName);
      var requirementCs := Tagged(requirements, Some(ProjectDependency), PriorityRequirements);

      AssignEach(roots, Some(UserDownload), PriorityRootDependency);
      AssignEach(RequirementNames(dependencies, requirementName), Some(ProjectDependency), PriorityBaseToml);
      AppliedAppend(old(installed), rootCs, mainCs);
      AssignOptional(optional, requirementName);
      AppliedAppend(old(installed), rootCs + mainCs, optionalCs);
      AssignEach(requirements, Some(ProjectDependency), PriorityRequirements);
      AppliedAppend(old(installed), rootCs + mainCs + optionalCs, requirementCs);
      assert installed == Applied(old(installed), RuleCandidates(roots, dependencies, optional, requirements, requirementName));
      InferFromEnvironment();
    }

    /**
     * `assign_uv_index_info`. `ok` is false exactly when a `tool.uv.sources`
     * entry of an installed package has no `index` key (`KeyError`); otherwise
     * the registry is the specified one.
     */
    method AssignUvIndexInfo(sources: seq<(string, SourceSpec)>) returns (ok: bool)
      modifies this
      ensures ok <==> !MissingIndex(old(installed), sources)
      ensures ok ==> installed == IndexInfoAssigned(old(installed), sources)
    {
      var i := 0;
      assert sources[..0] == [];
      while i < |sources|
        invariant 0 <= i <= |sources|
        invariant installed == DeclaredIndexes(old(installed), sources[..i])
        invariant !MissingIndex(old(installed), sources[..i])
      {
        var (name, spec) := sources[i];
        var key := PkgKey(name);
        DeclaredIndexesStep(old(installed), sources, i);
        if key in installed {
          if spec.index.None? {
            return false;
          }
          installed := installed[key := installed[key].(indexName := spec.index)];
        }
        i := i + 1;
      }
      assert sources[..i] == sources;
      ok := true;
      FillIndexesFromUrls();
    }

    /** The second loop of `assign_uv_index_info`: URL inference where no index is set. */
    method FillIndexesFromUrls()
      modifies this
      ensures installed == map k | k in old(installed) :: UrlFilled(old(installed)[k])
    {
      var todo := installed.Keys;
      while todo != {}
        invariant todo <= installed.Keys && installed.Keys == old(installed).Keys
        invariant forall k :: k in installed ==>
          installed[k] == if k in todo then old(installed)[k] else UrlFilled(old(installed)[k])
        decreases todo
      {
        var k :| k in todo;
        var p := installed[k];
        if p.indexName.None? && Truthy(p.url) {
          installed := installed[k := p.(indexName := Some(IndexNameFromUrl(p.url.value)))];
        }
        todo := todo - {k};
      }
    }
  }
}

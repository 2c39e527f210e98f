# env-snapshot core, modelled in Dafny

This project models the decision logic of `uv-snapshot-cli`
(`src/env_snapshot/core.py`). That logic turns an installed Python
environment and a base `pyproject.toml` into a pinned snapshot document.

The pipeline works on a registry of installed packages, keyed by
canonical name, in four steps:

1. **Group assignment.** Each package gets a group by strict-priority rules:
   - root dependencies: priority 10;
   - base main and optional dependencies: priority 20;
   - requirements: priority 30;
   - environment inference from the `editable` flag and the install URL: priority 40.
2. **Keep set.** The packages kept are those with a group, plus those named in the base `tool.uv.sources`.
3. **Index attribution.** Each package gets an index name: a declared source mapping wins; otherwise the name is inferred from the install URL's authority. `build_uv_sections` then builds the source table and the merged index list.
4. **Rendering.** The kept packages are pinned (`name==version`) into `project.dependencies` or into their group's `project.optional-dependencies` list, in sorted key order. The source table and the index list are then installed.

Modules:

- `wrappers.dfy` (`Wrappers`): `Option` and Python truthiness of an optional string (`None` and `""` are both false).
- `names.dfy` (`Names`):
  - `PkgKey`: PEP 503 name normalisation, written out as a string function.
  - `IndexNameFromUrl`: netloc extraction as `urllib.parse` does it for URLs with a valid scheme, then `:` → `-` and lower-casing.
- `packages.dfy` (`Packages`):
  - the `Package` record and its `SetGroup` register;
  - `Fold`, which applies a sequence of `set_group` calls;
  - the proof that the fold keeps the group of the first call of highest priority.
- `groups.dfy` (`Groups`):
  - `InferGroupFromEnvironment`;
  - the candidate assignments of `assign_package_groups`, in source order;
  - `GroupsAssigned`, the registry after group assignment, specified per package as a fold of the calls addressed to it;
  - the precedence lemmas.
- `indexes.dfy` (`Indexes`):
  - `IndexInfoAssigned`, the registry after `assign_uv_index_info`;
  - `BuildUvSections`, a method with loops, specified relationally because the source iterates sets and dicts in an order the model leaves open;
  - the merge lemmas.
- `registry.dfy` (`Registry`):
  - the class `Registry`, whose field `installed` is the registry dictionary;
  - its methods update it in place, loop by loop, as `assign_package_groups` and `assign_uv_index_info` do;
  - each method is proved to produce the specified registry.
- `order.dfy` (`Order`): Python's string order, `sorted` over a set, and the uniqueness of a sorted enumeration.
- `render.dfy` (`Render`):
  - the class `Document`: the four sections the core replaces, plus an opaque `rest`;
  - `RenderSnapshot`;
  - the lemmas on what the rendered sections hold.
- `snapshot.dfy` (`Snapshot`): the keep set and `CreateSnapshot`, the orchestration after collection, with its three `KeyError` exits.

`index_name_from_url` rewrites only `:`, so the dots of a host are kept: `https://files.example.org/foo.whl` gives `files.example.org` (`Names.HostDotsAreKept`).

## Model

| member | source | states |
|---|---|---|
| Names.PkgKey | src/env_snapshot/core.py:58-60 | the key is canonical (no upper-case letter, no `_` or `.`, no `--`), no longer than the name, empty iff the name is, and starts with `-` iff the name starts with a separator |
| Names.CanonicalIsFixed | src/env_snapshot/core.py:58-60 | a canonical name is its own key |
| Names.PkgKeyIdempotent | src/env_snapshot/core.py:58-60 | normalising twice is normalising once |
| Names.PkgKeyIgnoresCaseAndSeparators | src/env_snapshot/core.py:58-60 | names equal up to ASCII case and the choice of separator character (`-`, `_`, `.`) have the same key |
| Names.PkgKeyCollapsesRuns | src/env_snapshot/core.py:58-60 | any non-empty run of `-`, `_` and `.` gives the same key as a single `-`, wherever it stands in the name (`a--b`, `a_.b` and `a-b` share a key) |
| Names.SameKeyAfterRuns | src/env_snapshot/core.py:58-60 | two tails that start with a separator and agree once their leading separators are dropped give any prefix the same key |
| Names.NetlocOfUrl | src/env_snapshot/core.py:67-69 | for `scheme://authority` followed by nothing or by `/`, `?` or `#`, the netloc is exactly the authority |
| Names.IndexNameOfUrl | src/env_snapshot/core.py:67-69 | the index name of such a URL is its authority with every `:` replaced by `-`, lower-cased |
| Names.IndexNameShape | src/env_snapshot/core.py:67-69 | an inferred index name never holds `:`, an upper-case letter, `/`, `?` or `#` |
| Names.FileUrlIndexNameIsEmpty | src/env_snapshot/core.py:67-69 | a `file:///...` URL has an empty authority, so its index name is `""` |
| Names.HostDotsAreKept | src/env_snapshot/core.py:67-69 | `https://files.example.org/foo.whl` gives `files.example.org`: dots of the host are kept |
| Names.PlainHostIsIndexName | src/env_snapshot/core.py:67-69 | a host with no `:` and no upper-case letter is its own index name |
| Packages.Package.SetGroup | src/env_snapshot/core.py:91-94 | a strictly greater priority replaces group and priority; any other call leaves the package unchanged; the collected fields and the index name are never touched |
| Packages.Fold | src/env_snapshot/core.py:91-94 | a sequence of `set_group` calls never lowers the priority and never changes the collected fields or the index name |
| Packages.FoldIsHighestFirst | src/env_snapshot/core.py:84-94 | after any sequence of calls the package is either unchanged or holds the group of the winning call: above the starting priority, strictly above every earlier call, and not exceeded by any later one |
| Packages.FoldKeepsWinner | src/env_snapshot/core.py:91-94 | the winning call's group and priority are the final ones, so on equal priorities the first call stays |
| Packages.FoldReachesMax | src/env_snapshot/core.py:91-94 | the final priority is at least that of every call |
| Packages.FoldNoEffect | src/env_snapshot/core.py:91-94 | calls none of which beats the current priority change nothing |
| Packages.FoldSnoc | src/env_snapshot/core.py:91-94 | one more call acts on the package exactly as `set_group` |
| Packages.StillWins | src/env_snapshot/core.py:91-94 | a later call of equal or lower priority does not displace the current winner |
| Packages.FoldAppend | src/env_snapshot/core.py:91-94 | applying `a` then `b` is applying `a + b` |
| Packages.CollectedTakesWinner | src/env_snapshot/core.py:83-94 | a package as collected (priority -1) that receives a non-empty run of calls at priorities of at least 0 always takes a group: that of the first call of highest priority |
| Groups.InferGroupFromEnvironment | src/env_snapshot/core.py:167-186 | the result is `user-compiled`, `user-download`, `other-vcs` or `None`; an editable package is `user-compiled` whatever its URL; a non-editable package without a truthy URL is `None` |
| Groups.FileUrlIsUserCompiled | src/env_snapshot/core.py:177-178 | a `file://` URL makes the package `user-compiled` |
| Groups.GitUrlIsOtherVcs | src/env_snapshot/core.py:183-184 | a non-editable `git+` URL gives `other-vcs` |
| Groups.WheelDownloadIsUserDownload | src/env_snapshot/core.py:180-181 | a non-editable package whose URL starts with `http://` or `https://` and ends in `.whl` in any letter case is `user-download` |
| Groups.OtherUrlDictatesNoGroup | src/env_snapshot/core.py:177-186 | a non-editable package with a truthy URL that is not `file://`, not a downloaded wheel and not `git+` gets no group |
| Groups.GroupsAssigned | src/env_snapshot/core.py:189-218 | group assignment keeps the registry's keys and never changes a package's name, version, URL, editable flag or index name |
| Groups.AppliedStep | src/env_snapshot/core.py:195-200 | one more `assign` call on the specified registry is `set_group` on the named key if installed, and nothing otherwise |
| Groups.AppliedAppend | src/env_snapshot/core.py:202-213 | running the rule loops one after the other is running their concatenation |
| Groups.GroupsAssignedAt | src/env_snapshot/core.py:189-218 | each final package is its rule-stage result followed by environment inference, and that inference reads only collected fields |
| Groups.EnvInferenceWins | src/env_snapshot/core.py:215-218 | a package whose environment inference is not `None` ends with exactly that group |
| Groups.RequirementsWin | src/env_snapshot/core.py:212-213 | a package named in the requirements, with inference `None`, ends as `project-dependency` whatever its root or base membership |
| Groups.MainDependencyBeatsOptional | src/env_snapshot/core.py:205-210 | a base main dependency that is not a requirement and has inference `None` stays `project-dependency` even when an optional group also lists it |
| Groups.FirstOptionalGroupWins | src/env_snapshot/core.py:208-210 | a package only in optional groups, with inference `None`, takes the first group that lists it |
| Groups.RootOnlyIsUserDownload | src/env_snapshot/core.py:202-203 | a package named only among the roots, with inference `None`, becomes `user-download` |
| Groups.EventsByRule | src/env_snapshot/core.py:202-213 | the calls addressed to one key split into the four rule loops, each at its own priority, each empty iff that loop never names the key |
| Groups.OptionalEventsEmpty | src/env_snapshot/core.py:208-210 | the optional-groups loop makes no call on a key exactly when no group lists a requirement of that key |
| Indexes.LastSourceDefined | src/env_snapshot/core.py:226-229 | a spec is found for a key exactly when some sources entry's name has that key |
| Indexes.LastSourceFound | src/env_snapshot/core.py:226-229 | the spec found for a key is that of the last sources entry with that key: later entries override earlier ones |
| Indexes.DeclaredIndexesStep | src/env_snapshot/core.py:225-228 | one loop step of the first loop: the entry overrides its installed key's index name, and a missing `index` on an installed key is a `KeyError` for the whole table |
| Indexes.IndexInfoAssigned | src/env_snapshot/core.py:225-233 | index attribution keeps the registry's keys and never changes a collected field, group or priority |
| Indexes.DeclaredIndexWins | src/env_snapshot/core.py:226-229 | a declared source mapping for an installed key decides its index name, whatever the URL |
| Indexes.UrlInferenceFillsOnlyUnset | src/env_snapshot/core.py:231-233 | without a declared mapping, the URL-derived name is used only when the index name is still `None` and the URL is truthy |
| Indexes.DeclaredIndexesSnoc | src/env_snapshot/core.py:226-229 | one more sources entry overrides the index name of its key if that key is installed, and of nothing else |
| Indexes.BuildUvSections | src/env_snapshot/core.py:236-264 | the sources map every kept package with a truthy index name, and only such packages, to that name; the merged list keeps the base list as a prefix and appends each referenced but undeclared index exactly once, explicit, with a kept package's URL for it or the placeholder |
| Indexes.InferSources | src/env_snapshot/core.py:241-251 | the two comprehensions: sources and URLs come only from kept packages and cover every kept package they should |
| Indexes.AppendMissingIndexes | src/env_snapshot/core.py:253-262 | the append loop produces the merged list described for `BuildUvSections` |
| Indexes.UrlOf | src/env_snapshot/core.py:259 | an appended URL is a kept package's URL for that index when one exists, else `https://example.invalid/simple` |
| Indexes.MergeDeclaresAllRequired | src/env_snapshot/core.py:253-262 | after merging, every index that `inferred_sources` refers to is declared |
| Indexes.MergeIdempotent | src/env_snapshot/core.py:253-262 | merging the same sources into an already merged list appends nothing |
| Indexes.InferredSourcesNonEmpty | src/env_snapshot/core.py:241-245 | no entry of `inferred_sources` names an empty index |
| Indexes.InferredSourceOfPackage | src/env_snapshot/core.py:241-245 | when every registry key is its package's canonical name, a kept package's name maps to its own index name |
| Registry.Registry.Assign | src/env_snapshot/core.py:195-200 | the registry becomes the specified `assign` step |
| Registry.Registry.AssignEach | src/env_snapshot/core.py:202-213 | one rule loop yields the registry specified by its candidate calls |
| Registry.Registry.AssignOptional | src/env_snapshot/core.py:208-210 | the nested loop over optional groups yields the registry specified by their candidates, in document order |
| Registry.Registry.InferFromEnvironment | src/env_snapshot/core.py:215-218 | every package receives its environment inference at priority 40 |
| Registry.Registry.AssignPackageGroups | src/env_snapshot/core.py:189-218 | the registry after the in-place loops equals `GroupsAssigned` of the registry before |
| Registry.Registry.AssignUvIndexInfo | src/env_snapshot/core.py:225-233 | fails exactly when a sources entry of an installed key lacks `index`; otherwise the registry equals `IndexInfoAssigned` |
| Registry.Registry.FillIndexesFromUrls | src/env_snapshot/core.py:231-233 | every package still without an index name and with a truthy URL gets the URL's index name; the others stay unchanged |
| Order.BelowTotal | src/env_snapshot/core.py:281 | Python's string order relates any two distinct keys |
| Order.BelowTransitive | src/env_snapshot/core.py:281 | Python's string order is transitive |
| Order.SortKeys | src/env_snapshot/core.py:281 | `sorted(keep_keys)` lists every kept key once, in increasing order |
| Order.SortedListingUnique | src/env_snapshot/core.py:281 | two increasing enumerations of the same set are equal, so rendering does not depend on set order |
| Render.Document.RenderSnapshot | src/env_snapshot/core.py:271-296 | the four sections are replaced: `dependencies` and `optional-dependencies` by the renderings of the sorted keep set, the sources by a listing of `inferred_sources`, the index list by `merged_indices`; the rest of the document is unchanged |
| Render.PinAll | src/env_snapshot/core.py:281-288 | the sorted loop yields the specified main list and optional table |
| Render.ListSources | src/env_snapshot/core.py:292-294 | the rendered sources table lists each inferred name once, with `{ index = ... }` as its spec |
| Render.EveryKeyPinnedOnce | src/env_snapshot/core.py:281-288 | the number of pins in the main list and in all optional lists together equals the number of keys rendered |
| Render.RenderedOptionalIsGroupTable | src/env_snapshot/core.py:281-288 | the optional table has one entry per non-project group, each key once, never `project-dependency`, holding exactly the pins of that group's keys |
| Render.RenderedInKeyOrder | src/env_snapshot/core.py:281-288 | each rendered list holds the pins of exactly the kept keys of its group, in increasing key order |
| Render.RenderedPlacement | src/env_snapshot/core.py:278-288 | the pins go to the main list iff the group is `project-dependency`, otherwise to that group's optional list, and their total is the size of the keep set |
| Render.PinnedInOwnGroup | src/env_snapshot/core.py:285-288 | a kept package outside `project-dependency` has its pin in its own group's optional list |
| Render.SetDefaultAppendTotal | src/env_snapshot/core.py:288 | `setdefault(group, []).append(pin)` adds exactly one pin |
| Render.SourceListingReadBack | src/env_snapshot/core.py:226-229 | reading a rendered sources table back, a name whose key no other name shares declares the same index again |
| Snapshot.CreateSnapshot | src/env_snapshot/core.py:303-324 | raises exactly when `tool.uv.sources` is absent, a sources entry of an installed key lacks `index`, or `tool.uv.index` is absent, and then leaves the document untouched; otherwise the registry and the document are the specified snapshot of the keep set |
| Snapshot.KeptIff | src/env_snapshot/core.py:315-318 | a package is kept iff it has a truthy group or a name in the base sources has its key |
| Snapshot.KeepSetSurvivesIndexResolution | src/env_snapshot/core.py:315-321 | computing the keep set before or after index attribution gives the same set |
| Snapshot.UngroupedSourcePackageIsPinnedUnderNone | src/env_snapshot/core.py:285-288 | a package the base sources name but no rule classifies is still pinned, under the optional key `None` |
| Snapshot.SnapshotPinsEveryKeptPackage | src/env_snapshot/core.py:281-288 | the snapshot holds exactly as many pins as kept packages |

## Left out

- The environment collectors (`collect_installed_packages`, `get_uv_root_dependencies`, `parse_requirements_file`):
  - they run `uv` subprocesses, decode JSON and read files;
  - the registry, the root names and the requirement names are inputs to the model.
- `requirement_name`: a PEP 508 parser from the `packaging` library.
  - It is an uninterpreted function parameter `requirementName`.
  - Its parse errors are not modelled.
- `tomlkit` parsing and formatting (inline tables, comments):
  - the document is a record of the four sections the core touches, plus an opaque `rest`;
  - a base document without a `[project]` table, list-valued source specs, and keys of index entries other than `name`, `url` and `explicit` are not modelled.
- What `tomlkit` does when rendering an optional group keyed `None` is not modelled. The model keeps the key `None`, as the Python dictionary operation does.
- `cli.py` (argument handling, file output, the torch index patch) and `tests/test_core.py` are not part of this model.
- The iteration order of sets and dictionaries:
  - `inferred_sources`, `inferred_urls` and `required_names` are specified up to that order;
  - which kept package's URL is chosen for an index is left open;
  - the order of the appended index entries is left open;
  - the entry order of the rendered sources table is left open.
- Names.IndexNameFromUrl: Python's `urlparse` edge cases are not modelled:
  - stripping of whitespace and unsafe characters;
  - the `ValueError` on malformed IPv6 hosts;
  - lower-casing beyond ASCII.
- Names.PkgKey: lower-cases ASCII letters only; Unicode case mapping is not modelled.
- Packages.Package.SetGroup: packages are values held in the registry map. Aliasing of `Package` objects is not modelled, and none arises in the core.
- Registry.Registry.AssignUvIndexInfo: on `KeyError` the model states only that the call fails. The registry entries already updated before the exception are not specified, because `create_snapshot` abandons the snapshot at that point.

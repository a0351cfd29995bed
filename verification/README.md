# Software deployment plugin interface, modelled in Dafny

A model of the core of `snakemake-interface-software-deployment-plugins`, the
contract through which software deployment backends (conda, containers,
environment modules, ...) plug into Snakemake. It covers three pieces:

- **Environment specs** (`EnvSpecBase`, module `EnvSpecs`, `env_spec.dfy`): a spec is a
  tree. Each node has its class, its backend-declared attributes, a `kind`, and
  optional `within` and `fallback` children. The model covers
  `has_source_paths`, `modify_source_paths`, `|`, and structural `==`/`hash`
  over the managed identity attributes.
- **Environment instances** (`EnvBase`, `DeployableEnvBase`,
  `ArchiveableEnvBase`, module `Envs`, `env.dfy`): command decoration through
  the `within` chain and the `run_cmd` command; the identity and deployment
  hashes; deployment and archive paths; the choice `managed_deploy` makes; and
  instance equality. The `once` memo table is in module `OnceCache`, `once_cache.dfy`.
- **Plugin names** (`registry/plugin.py` and `_common.py`, modules `Plugins`,
  `Common` and `PyStr`): the module prefix is derived from the distribution
  prefix. `_only_name` deletes the module prefix from a name, and `cli_prefix`
  puts `sdm-` in front of the result. Python's `str.replace` is modelled
  exactly: matches are found left to right, do not overlap, and the output is
  not rescanned. An empty pattern inserts the replacement everywhere.

Backend methods that have no body in the core are fields of a `Hooks` value of
function type, and so are the library functions the core calls. These are
`decorate_shellcmd`, `record_hash`, `is_deployment_path_portable`, MD5's
`hexdigest`, `str.encode`, the built-in `hash` of a string and `Path.exists`.
Every operation is a pure function of its inputs and the hooks. The one piece
of state, the process-wide `once` table, is passed in and returned as a value.

`record_hash` is modelled as the byte string it feeds to the digest object,
because feeding MD5 several pieces gives the digest of their concatenation. The
digest is not assumed to be injective. Hash properties are therefore stated
about the digest *input*, or as "equal inputs give equal hashes".

Notes on the code as written, which the model follows:

- `_managed_generic_hash` never writes its result into
  `_managed_hash_store` or `_managed_deployment_hash_store`. Both stores stay
  `None`, so the model leaves them out and `Hash` computes the digest on every
  call.
- Only the *immediate* enclosing env contributes to a hash, and it contributes
  its `record_<kind>` bytes rather than its own hash. Envs further out do not
  enter the digest (`Envs.HashSeesOnlyImmediateWithinRecord`). So two envs
  whose enclosing envs have different hashes can still hash alike.
- `deployment_hash()` raises `AttributeError` when the enclosing env is not
  deployable, because `getattr(within, "record_deployment_hash")` fails.
- `(a | b) | c` is `a | c`. The second `|` replaces the fallback instead of
  extending the chain.
- Pinning, asset caching and error wrapping do not exist in this version of
  the package, so they are not modelled.
- The `once` key is `(self.__class__, self.within)` and does not include the
  decorated method. Two different `@once` methods of one class, called on envs
  with equal enclosing envs, share one cache entry: the second returns the
  first one's result (`OnceCache.OnceSecondCallHits`, whatever function is
  passed the second time). The docstring promises one execution "per
  combination of plugin and within environment", which this matches when a
  class has only one `@once` method.

## Model

| member | source | states |
|---|---|---|
| `Common.ModulePrefixDerived` | snakemake_interface_software_deployment_plugins/_common.py:7-10 | The module prefix `snakemake_software_deployment_plugin_` is what `str.replace` makes of the distribution prefix when every `-` becomes `_`, and it has no `-` left. |
| `PyStr.ReplaceCharPointwise` | snakemake_interface_software_deployment_plugins/_common.py:8-10 | `s.replace(a, b)` for single characters keeps the length and maps each position: `a` becomes `b`, anything else stays. |
| `PyStr.ReplaceAbsent` | snakemake_interface_software_deployment_plugins/registry/plugin.py:34-36 | A string that does not contain the pattern comes back unchanged from `replace`. |
| `PyStr.DeleteLength` | snakemake_interface_software_deployment_plugins/registry/plugin.py:34-36 | `s.replace(pat, "")` is shorter than `s` by exactly `Count(s, pat) * len(pat)`, where `Count` counts the non-overlapping matches found left to right; `Count` is positive iff the pattern occurs. |
| `PyStr.DeleteShrinks` | snakemake_interface_software_deployment_plugins/registry/plugin.py:34-36 | Deleting a pattern never lengthens a string, and it shortens it exactly when the pattern occurs. |
| `Plugins.OnlyName` | snakemake_interface_software_deployment_plugins/registry/plugin.py:34-36 | `_only_name` is no longer than `name`. It is strictly shorter iff `name` contains the module prefix, and equals `name` when it does not. |
| `Plugins.CliPrefix` | snakemake_interface_software_deployment_plugins/registry/plugin.py:30-32 | `cli_prefix` starts with `sdm-` and continues with `_only_name`. |
| `Plugins.OnlyNameStripsModulePrefix` | snakemake_interface_software_deployment_plugins/registry/plugin.py:30-36 | For a name that is the module prefix plus a suffix not containing it, `_only_name` is the suffix and `cli_prefix` is `sdm-` plus the suffix. |
| `Plugins.CondaCliPrefix` | snakemake_interface_software_deployment_plugins/registry/plugin.py:30-36 | The plugin `conda` has short name `conda` and option prefix `sdm-conda`, the prefix of `--sdm-conda-base-path`. |
| `Plugins.AccessorsReturnFields` | snakemake_interface_software_deployment_plugins/registry/plugin.py:26-48 | `name`, `settings_cls`, `env_cls` and `env_spec_cls` return the values the record was built with. |
| `EnvSpecs.HasSourcePathsIffSomeNode` | snakemake_interface_software_deployment_plugins/__init__.py:62-71 | `has_source_paths` is true iff some node of the `within`/`fallback` tree has a source-path attribute that is not `None`. |
| `EnvSpecs.RewriteAttrs` | snakemake_interface_software_deployment_plugins/__init__.py:78-81 | The rewrite loop keeps the attribute names. It sends each attribute through `f` once per declaration while it is not `None`; undeclared attributes and `None` values stay as they were. |
| `EnvSpecs.ModifySourcePaths` | snakemake_interface_software_deployment_plugins/__init__.py:73-92 | Without source paths the receiver itself is returned. Otherwise every node is rewritten: source paths go through `f`, and class, `kind`, other attributes, cached hash and tree shape are unchanged. The result is well-formed. |
| `EnvSpecs.ModifyIdentity` | snakemake_interface_software_deployment_plugins/__init__.py:73-92 | Rewriting with the identity function returns an identical spec. |
| `EnvSpecs.ModifyKeepsHasSourcePaths` | snakemake_interface_software_deployment_plugins/__init__.py:73-92 | A rewrite that never yields `None` keeps `has_source_paths` as it was. |
| `EnvSpecs.ModifyComposes` | snakemake_interface_software_deployment_plugins/__init__.py:73-92 | Rewriting with `f` and then with `g` equals one rewrite with `g` after `f`. This needs `f` never to yield `None` and each source-path attribute to be declared once. |
| `EnvSpecs.Or` | snakemake_interface_software_deployment_plugins/__init__.py:94-98 | `a \| b` is a copy of `a` with `fallback` set to `b` and `_obj_hash` reset to `None`. Class, attributes, `kind` and `within` are `a`'s. |
| `EnvSpecs.OrReplacesFallback` | snakemake_interface_software_deployment_plugins/__init__.py:94-98 | `(a \| b) \| c` equals `a \| c`: a second `\|` replaces the fallback. |
| `EnvSpecs.OrEqualsReceiverIff` | snakemake_interface_software_deployment_plugins/__init__.py:94-116 | `a \| b == a` holds iff `a` already had a fallback equal to `b`. |
| `EnvSpecs.SpecEqIffSameKey` | snakemake_interface_software_deployment_plugins/__init__.py:100-116 | Spec `==` holds iff the two specs agree on class, on the values of the declared identity attributes, on `kind`, and recursively on `within` and `fallback`. |
| `EnvSpecs.SpecEqIsEquivalence` | snakemake_interface_software_deployment_plugins/__init__.py:112-116 | Spec `==` is reflexive, symmetric and transitive on well-formed specs. |
| `EnvSpecs.DifferentClassesNeverEqual` | snakemake_interface_software_deployment_plugins/__init__.py:112-116 | Specs of different classes are never equal. |
| `EnvSpecs.EqualSpecsHashEqually` | snakemake_interface_software_deployment_plugins/__init__.py:100-116 | Equal specs have the same hash tuple, so they hash equally under any tuple hash. |
| `Envs.RunCmd` | snakemake_interface_software_deployment_plugins/__init__.py:189-197 | `run_cmd` runs through this env's shell executable. Without an enclosing env, the command is passed unchanged. |
| `Envs.RunCmdDecoratesThroughWithinOnly` | snakemake_interface_software_deployment_plugins/__init__.py:189-203 | `run_cmd` leaves out this env's own decoration and applies those of the enclosing envs, innermost first. |
| `Envs.RunCmdAfterOwnDecoration` | snakemake_interface_software_deployment_plugins/__init__.py:189-203 | `run_cmd` on a command already decorated by this env runs exactly `managed_decorate_shellcmd` of the command. |
| `Envs.ManagedDecorateWrapsInsideOut` | snakemake_interface_software_deployment_plugins/__init__.py:199-203 | `managed_decorate_shellcmd` wraps the command in every env of the `within` chain, innermost first and outermost last. |
| `Envs.Hash` | snakemake_interface_software_deployment_plugins/__init__.py:205-217 | `hash()` is the digest of the enclosing env's `record_hash` bytes (if there is one) followed by this env's. |
| `Envs.HashSeesOnlyImmediateWithinRecord` | snakemake_interface_software_deployment_plugins/__init__.py:208-217 | Envs with the same own record bytes and the same immediate enclosing record bytes have the same `hash()`. |
| `Envs.RecordDeploymentHash` | snakemake_interface_software_deployment_plugins/__init__.py:247-256 | `record_deployment_hash` exists only on deployable envs. It is the `record_hash` bytes, followed by the encoded `str(deployment_prefix)` iff the deployment is not path-portable. |
| `Envs.DeploymentHashOf` | snakemake_interface_software_deployment_plugins/__init__.py:269-270 | `deployment_hash()` is the digest of the enclosing env's `record_deployment_hash` bytes (if there is one) followed by this env's. It raises `AttributeError` for `record_deployment_hash` exactly when the enclosing env is not deployable. |
| `Envs.PortableDeploymentHashIgnoresPrefix` | snakemake_interface_software_deployment_plugins/__init__.py:247-256 | For a path-portable backend, changing only the deployment prefix leaves `deployment_hash()` unchanged. |
| `Envs.NonPortableDigestInputTracksPrefix` | snakemake_interface_software_deployment_plugins/__init__.py:247-256 | For a backend that is not path-portable, changing only the prefix changes the digest input iff the encoded prefix string changes. |
| `Envs.PortableDeploymentHashIsHash` | snakemake_interface_software_deployment_plugins/__init__.py:247-256 | When the env and its enclosing env are deployable and path-portable, `deployment_hash()` equals `hash()`. |
| `Envs.DeploymentPath` | snakemake_interface_software_deployment_plugins/__init__.py:272-274 | `deployment_path` is the deployment prefix plus one segment, the deployment hash. A hash error comes first; a missing prefix raises `TypeError`. |
| `Envs.ArchivePath` | snakemake_interface_software_deployment_plugins/__init__.py:288-290 | `archive_path` is the archive prefix plus one segment, `hash()`. It fails exactly when there is no archive prefix, with the `TypeError` of `None / str`. |
| `Envs.ArchivePathIgnoresDeploymentPrefix` | snakemake_interface_software_deployment_plugins/__init__.py:288-290 | The archive path does not depend on the deployment prefix. |
| `Envs.ManagedDeploy` | snakemake_interface_software_deployment_plugins/__init__.py:263-267 | `managed_deploy` restores from the archive iff the env is archiveable and its archive path exists. It deploys afresh iff the env is not archiveable or the path is missing, and raises `TypeError` iff an archiveable env has no archive prefix. |
| `Envs.ManagedDeployEffects` | snakemake_interface_software_deployment_plugins/__init__.py:263-267 | With `deploy()` awaited, exactly one backend operation runs: the archive restore iff the archive path exists, otherwise `deploy`. |
| `Envs.AsWrittenFreshDeployRunsNothing` | snakemake_interface_software_deployment_plugins/__init__.py:263-267 | As written, whenever `managed_deploy` chooses a fresh deploy (the env is not archiveable, or its archive does not exist), no deployment runs; with `deploy()` awaited, `deploy` would run. |
| `Envs.EnvEqIsEquivalence` | snakemake_interface_software_deployment_plugins/__init__.py:219-230 | Env `==` (same class, equal specs, equal `hash()`) is an equivalence relation, and equal envs have equal `__hash__`. |
| `Envs.EnvEqFromRecords` | snakemake_interface_software_deployment_plugins/__init__.py:225-230 | Envs are equal if they have the same class, equal specs and equal own and immediate enclosing record bytes. Envs further out may differ. |
| `OnceCache.Once` | snakemake_interface_software_deployment_plugins/__init__.py:146-160 | On a hit for `(class, within)`, `once` returns the stored value and leaves the table unchanged. On a miss it returns `func(self)` and stores it under that key. Lookups for keys that are not equal are unchanged. |
| `OnceCache.OnceSecondCallHits` | snakemake_interface_software_deployment_plugins/__init__.py:146-160 | A second call returns the first result with the table unchanged, whatever function it is given: the key leaves out the decorated method, so two `@once` methods of one class share an entry. |
| `OnceCache.OnceSharedAcrossSpecs` | snakemake_interface_software_deployment_plugins/__init__.py:146-160 | Envs of one class inside equal enclosing envs share one cached result, even when their specs differ. |

## Findings

| source | as written | input that shows it | evidently intended | confidence | as-written member | corrected member |
|---|---|---|---|---|---|---|
| snakemake_interface_software_deployment_plugins/__init__.py:263-267 | The synchronous `managed_deploy` calls `deploy()`, which is declared `async`, without awaiting it. This creates a coroutine and discards it, so the deployment never runs. | Any deployable env that is not archiveable, or whose archive path does not exist. | `managed_deploy` awaits `deploy()`, so a fresh deploy actually happens. | high; not executed | `Envs.AsWrittenFreshDeployRunsNothing` (about `Envs.ManagedDeployEffectsAsWritten`) | `Envs.ManagedDeployEffects` |

## Left out

- Process execution: `run_cmd` is modelled only as the command and shell executable it passes to `subprocess.run`. The process and its `CompletedProcess` are not modelled.
- MD5 internals: `hexdigest` is an uninterpreted function of all the bytes fed to it and is not assumed injective. So no lemma claims that a hash *changes*. Such claims are stated about the digest input.
- `deploy` and `archive` are coroutines and `remove` is an ordinary method; none has a body in the core. `archive` and `remove` are never called by the modelled code and do not appear in the model. `deploy_from_archive` is called by `managed_deploy` but defined nowhere in the core. Only `deploy` and `deploy_from_archive` appear, as the two outcomes `ManagedDeploy` chooses between and the effects `ManagedDeployEffects` runs.
- `report_software` and `SoftwareReport`: `report_software` is a backend method with no body, and the core does nothing with its result.
- `technical_init` and `EnvSpecBase.env_cls` are not modelled. Both read attributes off `__class__.__module__`, which is a string, and `CommonSettings` has no `provides` field. `kind` is taken as a given field of the spec.
- `EnvBase.__post_init__`, `settings` and the `_obj_hash` caches have no effect on any result. `Env.__hash__` caches `hash(self.hash())`; the model computes that value directly, because the cached value and the recomputed one are the same.
- `EnvSpecs.EqualSpecsHashEqually` does not model the `TypeError` that `hash()` of a spec raises when an identity attribute holds an `EnvSpecSourceFile`. That class is a non-frozen dataclass with `eq`, so it is unhashable. The model treats the tuple hash as a total function.
- `OnceCache.Once` finds entries by key equality alone; Python's dictionary also compares hashes first. `Envs.EnvEqIsEquivalence` shows that equal keys hash equally, so both approaches find the same entry. Races on first use of a key are not modelled.
- Python object identity: "returns the receiver" is modelled as returning an identical value, and "does not mutate `a`" holds because values are immutable. A spec tree is a finite datatype value, so cycles cannot be expressed.
- `EnvSpecs.Valid`: every spec operation assumes that each attribute the class declares (identity and source-path attributes) is present on every node of the tree. The `AttributeError` that `getattr` raises for a missing declared attribute is not modelled. This is more than `has_source_paths` and `modify_source_paths` need, since they never read identity attributes, and more than `any`/`all` need, since they stop at the first attribute that decides the result.
- `OnceCache.Once`: a decorated method is modelled as a pure, total function of the env that does not itself call a `once` method. In the code `func(self, ...)` runs between the lookup and the store. A method that calls a `once` method of its enclosing env would add an entry under another key, which the clause "entries for other keys are unchanged" relies on not happening. A method that calls another `once` method of its own class would have that inner result overwritten by the outer store. A method that raises stores nothing. None of this is modelled.
- `EnvSpecs.SpecEqIsEquivalence`: an identity datum other than a source file is represented by a canonical string, and string equality stands for its `==`. This assumes every datum's `==` is an equivalence relation. A value such as `float("nan")`, which is not equal to itself, would make Python's spec `==` irreflexive; the model does not represent it. Source files keep `str` and `Path` references apart (`PathOrUri`), as the dataclass `==` does.
- Attribute names: a backend attribute named `kind`, `within` or `fallback` would clash with the spec fields of those names. The model keeps backend attributes in their own map and does not model such a clash.
- Paths are sequences of segments. `str()` of a path joins them with `/` (`.` when empty). An absolute path is represented with a leading empty segment, so `["", "a"]` prints as `/a` and `[""]` alone is the root `/`. Every other segment is assumed non-empty and free of `/`, which `Path` guarantees for its parts; segments are not `Path.parts`, whose root `"/"` would print as `//a`. `prefix / hash` appends one segment, which assumes the hex digest contains no `/`. `str.encode` is a hook.
- `registry/__init__.py` (`SoftwareDeploymentPluginRegistry`) is not part of this model. Plugin discovery and validation are inherited from `PluginRegistryBase` in `snakemake_interface_common`, which is not part of this model either. `load_plugin` also passes arguments that `Plugin` does not declare.
- `settings.py` holds only empty dataclasses. The repository's test helpers check environments and the interpreter version and carry no behaviour to model.

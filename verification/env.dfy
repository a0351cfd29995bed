/** Environment instances (`EnvBase`) and the two capability mixins
    `DeployableEnvBase` and `ArchiveableEnvBase`: command decoration through the
    `within` chain, the identity and deployment hashes, the on-disk paths built
    from them, `managed_deploy`'s choice, and instance equality.

    Everything a concrete backend supplies, and the library and interpreter
    functions the code calls, are passed in as a `Hooks` value. */
module Envs {
  import opened Wrappers
  import opened EnvSpecs

  newtype byte = x: int | 0 <= x < 256

  /** A `pathlib.Path`, as its sequence of segments. */
  type Path = seq<string>

  /** A concrete env class and the capability mixins it inherits. */
  datatype EnvClass = EnvClass(name: string, deployable: bool, archiveable: bool)

  /** A backend settings object, opaque to the core. */
  datatype Settings = Settings(value: string)

  /** An env instance as `EnvBase.__init__` sets it up. The two hash stores and
      `_obj_hash` are left out: see `Hash` and `ObjHash`. */
  datatype Env = Env(
    cls: EnvClass,
    spec: Spec,
    within: Option<Env>,
    settings: Option<Settings>,
    shellExecutable: string,
    deploymentPrefix: Option<Path>,
    archivePrefix: Option<Path>)

  /** Backend methods without a body in the core (`decorate_shellcmd`,
      `record_hash`, `is_deployment_path_portable`), plus what the core calls
      outside itself: MD5's `hexdigest` of everything fed to it, `str.encode`,
      the built-in `hash` of a string, and `Path.exists`. `recordHash` is the
      byte string `record_hash` feeds to the digest object: feeding MD5 several
      pieces digests their concatenation. */
  datatype Hooks = Hooks(
    decorateShellcmd: (Env, string) -> string,
    recordHash: Env -> seq<byte>,
    isDeploymentPathPortable: Env -> bool,
    hexDigest: seq<byte> -> string,
    encode: string -> seq<byte>,
    strHash: string -> int,
    pathExists: Path -> bool)

  /** The exceptions the modelled code can raise. */
  datatype Error =
    | AttributeError(attribute: string)
    | TypeError(operation: string)

  // ---------------------------------------------------------------------------
  // Command decoration

  /** `managed_decorate_shellcmd`: this env's own decoration first, then that
      of the enclosing env, recursively. */
  function ManagedDecorateShellcmd(h: Hooks, e: Env, cmd: string): string
    decreases e
  {
    var own := h.decorateShellcmd(e, cmd);
    if e.within.Some? then ManagedDecorateShellcmd(h, e.within.value, own) else own
  }

  /** The arguments `run_cmd` hands to `subprocess.run`. */
  datatype ShellRun = ShellRun(command: string, executable: string)

  /** `run_cmd`: the command, decorated only by the enclosing env (when there
      is one), run by this env's shell executable. */
  function RunCmd(h: Hooks, e: Env, cmd: string): (r: ShellRun)
    ensures r.executable == e.shellExecutable
    ensures e.within.None? ==> r.command == cmd
  {
    var decorated := if e.within.Some? then ManagedDecorateShellcmd(h, e.within.value, cmd) else cmd;
    ShellRun(decorated, e.shellExecutable)
  }

  /** The env and its enclosing envs, innermost first. */
  function Chain(e: Env): (r: seq<Env>)
    ensures |r| > 0 && r[0] == e
    decreases e
  {
    [e] + (if e.within.Some? then Chain(e.within.value) else [])
  }

  /** Reference meaning of nested decoration: wrap the command in the
      decoration of every env of `envs`, the last (outermost) one outside. */
  function WrapOutward(h: Hooks, envs: seq<Env>, cmd: string): string
    decreases |envs|
  {
    if |envs| == 0 then cmd
    else h.decorateShellcmd(envs[|envs| - 1], WrapOutward(h, envs[..|envs| - 1], cmd))
  }

  lemma {:induction false} WrapOutwardFirst(h: Hooks, x: Env, rest: seq<Env>, cmd: string)
    ensures WrapOutward(h, [x] + rest, cmd) == WrapOutward(h, rest, h.decorateShellcmd(x, cmd))
    decreases |rest|
  {
    if |rest| > 0 {
      var all := [x] + rest;
      assert all[..|all| - 1] == [x] + rest[..|rest| - 1];
      WrapOutwardFirst(h, x, rest[..|rest| - 1], cmd);
    }
  }

  /** Managed decoration wraps the command from the innermost env to the
      outermost one of the `within` chain. */
  lemma {:induction false} ManagedDecorateWrapsInsideOut(h: Hooks, e: Env, cmd: string)
    ensures ManagedDecorateShellcmd(h, e, cmd) == WrapOutward(h, Chain(e), cmd)
    decreases e
  {
    var own := h.decorateShellcmd(e, cmd);
    if e.within.Some? {
      ManagedDecorateWrapsInsideOut(h, e.within.value, own);
      WrapOutwardFirst(h, e, Chain(e.within.value), cmd);
    } else {
      assert Chain(e) == [e];
      assert Chain(e)[..0] == [];
    }
  }

  /** With the env's own decoration applied first, `run_cmd` runs exactly the
      managed decoration. */
  lemma RunCmdAfterOwnDecoration(h: Hooks, e: Env, cmd: string)
    ensures RunCmd(h, e, h.decorateShellcmd(e, cmd)).command == ManagedDecorateShellcmd(h, e, cmd)
  {
  }

  /** `run_cmd` leaves out this env's own decoration and applies exactly the
      enclosing envs', innermost first. */
  lemma RunCmdDecoratesThroughWithinOnly(h: Hooks, e: Env, cmd: string)
    ensures RunCmd(h, e, cmd).command == WrapOutward(h, Chain(e)[1..], cmd)
  {
    if e.within.Some? {
      ManagedDecorateWrapsInsideOut(h, e.within.value, cmd);
      assert Chain(e)[1..] == Chain(e.within.value);
    } else {
      assert Chain(e)[1..] == [];
    }
  }

  // ---------------------------------------------------------------------------
  // Hashes

  /** The two hash domains of `_managed_generic_hash`: `"hash"` and `"deployment_hash"`. */
  datatype HashKind = IdentityHash | DeploymentHash

  /** `str(path)`: the segments joined by `/`, or `.` for the empty path. An
      absolute path starts with an empty segment, and `[""]` alone is the root. */
  function PathStr(p: Path): string
    decreases |p|
  {
    if |p| == 0 then "."
    else if p == [""] then "/"
    else if |p| == 1 then p[0]
    else p[0] + "/" + PathStr(p[1..])
  }

  /** `str(...)` of an optional path: `None` prints as `None`. */
  function OptionalPathStr(p: Option<Path>): string {
    if p.Some? then PathStr(p.value) else "None"
  }

  /** `record_deployment_hash`: the `record_hash` bytes, followed by the encoded
      deployment prefix when the deployment is not path-portable. Only
      deployable envs have the method. */
  function RecordDeploymentHash(h: Hooks, e: Env): (r: Result<seq<byte>, Error>)
    ensures r.Failure? <==> !e.cls.deployable
    ensures r.Failure? ==> r.error == AttributeError("record_deployment_hash")
    ensures r.Success? && h.isDeploymentPathPortable(e) ==> r.value == h.recordHash(e)
    ensures r.Success? && !h.isDeploymentPathPortable(e) ==>
              r.value == h.recordHash(e) + h.encode(OptionalPathStr(e.deploymentPrefix))
  {
    if !e.cls.deployable then Failure(AttributeError("record_deployment_hash"))
    else
      var own := h.recordHash(e);
      Success(if h.isDeploymentPathPortable(e) then own
              else own + h.encode(OptionalPathStr(e.deploymentPrefix)))
  }

  /** `record_<kind>` looked up with `getattr` and called. */
  function Record(h: Hooks, e: Env, kind: HashKind): Result<seq<byte>, Error> {
    match kind
    case IdentityHash => Success(h.recordHash(e))
    case DeploymentHash => RecordDeploymentHash(h, e)
  }

  /** Everything `_managed_generic_hash` feeds to the digest: the immediate
      enclosing env's `record_<kind>` bytes (when there is one), then this env's. */
  function DigestInput(h: Hooks, e: Env, kind: HashKind): Result<seq<byte>, Error> {
    if e.within.Some? then
      var outer :- Record(h, e.within.value, kind);
      var own :- Record(h, e, kind);
      Success(outer + own)
    else
      Record(h, e, kind)
  }

  /** `_managed_generic_hash(kind)`. Its store is set to `None` in `__init__`
      and never assigned, so the digest is computed on every call. */
  function GenericHash(h: Hooks, e: Env, kind: HashKind): Result<string, Error> {
    var input :- DigestInput(h, e, kind);
    Success(h.hexDigest(input))
  }

  /** `hash()`: the identity hash, which cannot fail. */
  function Hash(h: Hooks, e: Env): (r: string)
    ensures e.within.None? ==> r == h.hexDigest(h.recordHash(e))
    ensures e.within.Some? ==> r == h.hexDigest(h.recordHash(e.within.value) + h.recordHash(e))
  {
    var g := GenericHash(h, e, IdentityHash);
    assert g.Success?;
    g.value
  }

  /** `deployment_hash()` of a deployable env; it raises when the enclosing env
      is not deployable, because that env has no `record_deployment_hash`. */
  function DeploymentHashOf(h: Hooks, e: Env): (r: Result<string, Error>)
    requires e.cls.deployable
    ensures r.Failure? <==> e.within.Some? && !e.within.value.cls.deployable
    ensures r.Failure? ==> r.error == AttributeError("record_deployment_hash")
    ensures r.Success? && e.within.None? ==> r.value == h.hexDigest(RecordDeploymentHash(h, e).value)
    ensures r.Success? && e.within.Some? ==>
              r.value == h.hexDigest(RecordDeploymentHash(h, e.within.value).value + RecordDeploymentHash(h, e).value)
  {
    GenericHash(h, e, DeploymentHash)
  }

  /** The identity hash sees only this env's record bytes and those of the
      immediate enclosing env: envs further out, and the enclosing env's own
      hash, do not enter it. */
  lemma HashSeesOnlyImmediateWithinRecord(h: Hooks, a: Env, b: Env)
    requires h.recordHash(a) == h.recordHash(b)
    requires a.within.Some? == b.within.Some?
    requires a.within.Some? ==> h.recordHash(a.within.value) == h.recordHash(b.within.value)
    ensures Hash(h, a) == Hash(h, b)
  {
  }

  /** For a path-portable deployment, moving the deployment prefix (with
      everything the backend records unchanged) keeps the deployment hash. */
  lemma PortableDeploymentHashIgnoresPrefix(h: Hooks, e: Env, p: Option<Path>)
    requires e.cls.deployable
    requires h.isDeploymentPathPortable(e) && h.isDeploymentPathPortable(e.(deploymentPrefix := p))
    requires h.recordHash(e.(deploymentPrefix := p)) == h.recordHash(e)
    ensures DeploymentHashOf(h, e.(deploymentPrefix := p)) == DeploymentHashOf(h, e)
  {
  }

  /** For a deployment that is not path-portable, the digest input changes with
      the deployment prefix exactly when the encoded prefix string changes. */
  lemma NonPortableDigestInputTracksPrefix(h: Hooks, e: Env, p: Option<Path>)
    requires e.cls.deployable
    requires !h.isDeploymentPathPortable(e) && !h.isDeploymentPathPortable(e.(deploymentPrefix := p))
    requires h.recordHash(e.(deploymentPrefix := p)) == h.recordHash(e)
    ensures DigestInput(h, e, DeploymentHash).Success?
            == DigestInput(h, e.(deploymentPrefix := p), DeploymentHash).Success?
    ensures DigestInput(h, e, DeploymentHash).Success? ==>
              (DigestInput(h, e.(deploymentPrefix := p), DeploymentHash) != DigestInput(h, e, DeploymentHash)
               <==> h.encode(OptionalPathStr(p)) != h.encode(OptionalPathStr(e.deploymentPrefix)))
  {
    var e' := e.(deploymentPrefix := p);
    var x, y := h.encode(OptionalPathStr(e.deploymentPrefix)), h.encode(OptionalPathStr(p));
    var own := h.recordHash(e);
    if e.within.None? {
      assert (own + x)[|own|..] == x;
      assert (own + y)[|own|..] == y;
    } else if RecordDeploymentHash(h, e.within.value).Success? {
      var outer := RecordDeploymentHash(h, e.within.value).value;
      var pre := outer + own;
      assert RecordDeploymentHash(h, e) == Success(own + x);
      assert RecordDeploymentHash(h, e') == Success(own + y);
      assert e'.within == e.within;
      assert DigestInput(h, e, DeploymentHash) == Success(outer + (own + x));
      assert DigestInput(h, e', DeploymentHash) == Success(outer + (own + y));
      assert outer + (own + x) == pre + x;
      assert outer + (own + y) == pre + y;
      assert (pre + x)[|pre|..] == x;
      assert (pre + y)[|pre|..] == y;
    }
  }

  /** When this env and its enclosing env are deployable and path-portable,
      the deployment hash coincides with the identity hash. */
  lemma PortableDeploymentHashIsHash(h: Hooks, e: Env)
    requires e.cls.deployable && h.isDeploymentPathPortable(e)
    requires e.within.Some? ==>
               e.within.value.cls.deployable && h.isDeploymentPathPortable(e.within.value)
    ensures DeploymentHashOf(h, e) == Success(Hash(h, e))
  {
  }

  // ---------------------------------------------------------------------------
  // Paths and managed_deploy

  /** `prefix / name` for an optional prefix; `None / name` raises. */
  function JoinPath(prefix: Option<Path>, name: string): Result<Path, Error> {
    if prefix.Some? then Success(prefix.value + [name])
    else Failure(TypeError("/"))
  }

  /** `deployment_path`: the deployment prefix joined with the deployment
      hash. The hash is computed before the division, so its error wins. */
  function DeploymentPath(h: Hooks, e: Env): (r: Result<Path, Error>)
    requires e.cls.deployable
    ensures r.Success? <==> DeploymentHashOf(h, e).Success? && e.deploymentPrefix.Some?
    ensures r.Success? ==> r.value == e.deploymentPrefix.value + [DeploymentHashOf(h, e).value]
    ensures DeploymentHashOf(h, e).Failure? ==> r == Failure(DeploymentHashOf(h, e).error)
    ensures DeploymentHashOf(h, e).Success? && e.deploymentPrefix.None? ==> r == Failure(TypeError("/"))
  {
    var name :- DeploymentHashOf(h, e);
    JoinPath(e.deploymentPrefix, name)
  }

  /** `archive_path`: the archive prefix joined with the identity hash. */
  function ArchivePath(h: Hooks, e: Env): (r: Result<Path, Error>)
    requires e.cls.archiveable
    ensures r.Success? <==> e.archivePrefix.Some?
    ensures r.Success? ==> r.value == e.archivePrefix.value + [Hash(h, e)]
    ensures e.archivePrefix.None? ==> r == Failure(TypeError("/"))
  {
    JoinPath(e.archivePrefix, Hash(h, e))
  }

  /** Archives are keyed by identity, not by deployment location: the archive
      path does not move with the deployment prefix or its portability. */
  lemma ArchivePathIgnoresDeploymentPrefix(h: Hooks, e: Env, p: Option<Path>)
    requires e.cls.archiveable
    requires h.recordHash(e.(deploymentPrefix := p)) == h.recordHash(e)
    ensures ArchivePath(h, e.(deploymentPrefix := p)) == ArchivePath(h, e)
  {
  }

  /** Which of the two backend operations `managed_deploy` calls. */
  datatype DeployStep = DeployFromArchive | FreshDeploy

  /** `managed_deploy`: restore from the archive when the env is archiveable
      and its archive path exists, otherwise deploy afresh. */
  function ManagedDeploy(h: Hooks, e: Env): (r: Result<DeployStep, Error>)
    requires e.cls.deployable
    ensures r == Success(DeployFromArchive) <==>
              e.cls.archiveable && e.archivePrefix.Some?
              && h.pathExists(e.archivePrefix.value + [Hash(h, e)])
    ensures r == Success(FreshDeploy) <==>
              !e.cls.archiveable
              || (e.archivePrefix.Some? && !h.pathExists(e.archivePrefix.value + [Hash(h, e)]))
    ensures r.Failure? <==> e.cls.archiveable && e.archivePrefix.None?
    ensures r.Failure? ==> r.error == TypeError("/")
  {
    if e.cls.archiveable then
      var archive :- ArchivePath(h, e);
      Success(if h.pathExists(archive) then DeployFromArchive else FreshDeploy)
    else
      Success(FreshDeploy)
  }

  /** A backend operation whose body actually ran. */
  datatype Effect = RanDeploy | RanDeployFromArchive

  /** What `managed_deploy` as written gets done. `deploy` is declared
      `async`, and the synchronous `managed_deploy` calls it without awaiting:
      that creates a coroutine and drops it, so `deploy`'s body never runs.
      `deploy_from_archive` is taken to be an ordinary method. */
  function ManagedDeployEffectsAsWritten(h: Hooks, e: Env): Result<seq<Effect>, Error>
    requires e.cls.deployable
  {
    var step :- ManagedDeploy(h, e);
    Success(if step == DeployFromArchive then [RanDeployFromArchive] else [])
  }

  /** Whenever `managed_deploy` chooses a fresh deploy (the env is not
      archiveable, or its archive does not exist), nothing is deployed. */
  lemma AsWrittenFreshDeployRunsNothing(h: Hooks, e: Env)
    requires e.cls.deployable
    requires ManagedDeploy(h, e) == Success(FreshDeploy)
    ensures ManagedDeployEffectsAsWritten(h, e) == Success([])
    ensures ManagedDeployEffects(h, e) == Success([RanDeploy])
  {
  }

  /** `managed_deploy` with the call awaited: exactly one of the two backend
      operations runs, the one `ManagedDeploy` chooses. */
  function ManagedDeployEffects(h: Hooks, e: Env): (r: Result<seq<Effect>, Error>)
    requires e.cls.deployable
    ensures r.Failure? <==> e.cls.archiveable && e.archivePrefix.None?
    ensures r.Success? ==> |r.value| == 1
    ensures r.Success? ==>
              (r.value[0] == RanDeployFromArchive <==>
                 e.cls.archiveable && h.pathExists(e.archivePrefix.value + [Hash(h, e)]))
  {
    var step :- ManagedDeploy(h, e);
    Success(if step == DeployFromArchive then [RanDeployFromArchive] else [RanDeploy])
  }

  // ---------------------------------------------------------------------------
  // __eq__ and __hash__

  /** `__eq__`: same class, equal specs and equal identity hashes. */
  predicate EnvEq(h: Hooks, a: Env, b: Env)
    requires Valid(a.spec) && Valid(b.spec)
  {
    a.cls == b.cls && SpecEq(a.spec, b.spec) && Hash(h, a) == Hash(h, b)
  }

  /** `__hash__`: the built-in hash of `hash()`. The source caches it in
      `_obj_hash`; the value it caches is this one, so the cache is not modelled. */
  function ObjHash(h: Hooks, e: Env): int {
    h.strHash(Hash(h, e))
  }

  /** Env equality is an equivalence relation, and equal envs hash equally. */
  lemma EnvEqIsEquivalence(h: Hooks, a: Env, b: Env, c: Env)
    requires Valid(a.spec) && Valid(b.spec) && Valid(c.spec)
    ensures EnvEq(h, a, a)
    ensures EnvEq(h, a, b) ==> EnvEq(h, b, a)
    ensures EnvEq(h, a, b) && EnvEq(h, b, c) ==> EnvEq(h, a, c)
    ensures EnvEq(h, a, b) ==> ObjHash(h, a) == ObjHash(h, b)
  {
    SpecEqIsEquivalence(a.spec, b.spec, c.spec);
    SpecEqIsEquivalence(b.spec, a.spec, c.spec);
  }

  /** Two envs of one class on equal specs, whose own and enclosing record
      bytes agree, are equal, however their enclosing envs differ further out. */
  lemma EnvEqFromRecords(h: Hooks, a: Env, b: Env)
    requires Valid(a.spec) && Valid(b.spec)
    requires a.cls == b.cls && SpecEq(a.spec, b.spec)
    requires h.recordHash(a) == h.recordHash(b)
    requires a.within.Some? == b.within.Some?
    requires a.within.Some? ==> h.recordHash(a.within.value) == h.recordHash(b.within.value)
    ensures EnvEq(h, a, b)
  {
    HashSeesOnlyImmediateWithinRecord(h, a, b);
  }
}

/** The registry's record of one discovered software deployment plugin. */
module Plugins {
  import opened Wrappers
  import PyStr
  import Common

  /** A Python class, referred to by its qualified name. */
  datatype ClassRef = ClassRef(qualifiedName: string)

  /** The `common_settings` object a plugin module exposes (no fields). */
  datatype CommonSettings = CommonSettings

  /** One plugin: its common settings, its optional settings class, its env and
      env-spec classes, and the name it was registered under. */
  datatype Plugin = Plugin(
    commonSettings: CommonSettings,
    storedSettingsCls: Option<ClassRef>,
    storedEnvCls: ClassRef,
    storedEnvSpecCls: ClassRef,
    storedName: string)

  /** `name`: the registered name. */
  function Name(p: Plugin): string {
    p.storedName
  }

  /** `_only_name`: the name with every non-overlapping occurrence of the
      module prefix deleted, left to right and without rescanning the result. */
  function OnlyName(p: Plugin): (r: string)
    ensures |r| <= |Name(p)|
    ensures |r| < |Name(p)| <==> PyStr.Contains(Name(p), Common.ModulePrefix)
    ensures !PyStr.Contains(Name(p), Common.ModulePrefix) ==> r == Name(p)
  {
    DeletionFacts(Name(p));
    PyStr.Replace(Name(p), Common.ModulePrefix, "")
  }

  /** `cli_prefix`: prefix of the plugin's command-line options. */
  function CliPrefix(p: Plugin): (r: string)
    ensures |r| == 4 + |OnlyName(p)|
    ensures r[..4] == "sdm-"
    ensures r[4..] == OnlyName(p)
  {
    "sdm-" + OnlyName(p)
  }

  /** `settings_cls`. */
  function SettingsCls(p: Plugin): Option<ClassRef> {
    p.storedSettingsCls
  }

  /** `env_cls`. */
  function EnvCls(p: Plugin): ClassRef {
    p.storedEnvCls
  }

  /** `env_spec_cls`. */
  function EnvSpecCls(p: Plugin): ClassRef {
    p.storedEnvSpecCls
  }

  /** Each accessor returns what the record was built with. */
  lemma AccessorsReturnFields(
    common: CommonSettings, settings: Option<ClassRef>, env: ClassRef, spec: ClassRef, name: string)
    ensures Name(Plugin(common, settings, env, spec, name)) == name
    ensures SettingsCls(Plugin(common, settings, env, spec, name)) == settings
    ensures EnvCls(Plugin(common, settings, env, spec, name)) == env
    ensures EnvSpecCls(Plugin(common, settings, env, spec, name)) == spec
  {
  }

  /** What deleting the module prefix does to a name. */
  lemma DeletionFacts(name: string)
    ensures |PyStr.Replace(name, Common.ModulePrefix, "")| <= |name|
    ensures |PyStr.Replace(name, Common.ModulePrefix, "")| < |name| <==> PyStr.Contains(name, Common.ModulePrefix)
    ensures !PyStr.Contains(name, Common.ModulePrefix) ==> PyStr.Replace(name, Common.ModulePrefix, "") == name
  {
    PyStr.DeleteShrinks(name, Common.ModulePrefix);
    if !PyStr.Contains(name, Common.ModulePrefix) {
      PyStr.ReplaceAbsent(name, Common.ModulePrefix, "");
    }
  }

  /** A name registered as the module prefix followed by a suffix that does not
      itself contain the prefix has that suffix as its short name. */
  lemma OnlyNameStripsModulePrefix(p: Plugin, suffix: string)
    requires p.storedName == Common.ModulePrefix + suffix
    requires !PyStr.Contains(suffix, Common.ModulePrefix)
    ensures OnlyName(p) == suffix
    ensures CliPrefix(p) == "sdm-" + suffix
  {
    PyStr.StripLeadingOccurrence(Common.ModulePrefix, suffix);
  }

  /** The registry test's plugin `conda` keeps its name and gets the option
      prefix `sdm-conda`, as in `--sdm-conda-base-path`. */
  lemma CondaCliPrefix(p: Plugin)
    requires p.storedName == "conda"
    ensures OnlyName(p) == "conda"
    ensures CliPrefix(p) == "sdm-conda"
  {
    PyStr.ShortDoesNotContain("conda", Common.ModulePrefix);
  }
}

/** The naming convention plugin packages and modules follow. */
module Common {
  import PyStr

  /** Distribution-name prefix of every software deployment plugin. */
  const PluginPrefix: string := "snakemake-software-deployment-plugin-"

  /** Module-name prefix of every software deployment plugin. */
  const ModulePrefix: string := "snakemake_software_deployment_plugin_"

  /** The module prefix is the distribution prefix with each `-` replaced by
      `_`, as `str.replace` computes it; no dash is left in it. */
  lemma ModulePrefixDerived()
    ensures ModulePrefix == PyStr.Replace(PluginPrefix, "-", "_")
    ensures !PyStr.Contains(ModulePrefix, "-")
  {
    PyStr.ReplaceCharIs(PluginPrefix, '-', '_', ModulePrefix);
    PyStr.CharNotContained(ModulePrefix, '-');
  }
}

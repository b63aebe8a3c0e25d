/** The parts of the configuration document the target, rule and budget logic reads. */
module ExtensionConfig {
  import opened HostPatterns

  datatype HostMapping = HostMapping(pattern: string, target: string) {
    /** The mapping names nameservers rather than a destination. */
    predicate ResolverForm() {
      HasPrefix(Lower(TrimSpace(target)), "server:")
    }
  }

  datatype RuleMatch = RuleMatch(hosts: seq<string>, schemes: seq<string>, methods: seq<string>, statusCodes: seq<int>,
      pathRegex: string)

  datatype ScriptRule = ScriptRule(id: string, phase: string, scope: RuleMatch, gateOpen: bool, bodyMode: string,
      maxBodyBytes: int)

  datatype Extension = Extension(
    id: string,
    enabled: bool,
    captureHosts: seq<string>,
    mappings: seq<HostMapping>,
    network: bool,
    scripts: seq<ScriptRule>)

  datatype Proxy = Proxy(address: string, username: string, password: string)

  datatype Config = Config(enabled: bool, http2: bool, proxy: Proxy, modules: seq<Extension>,
      executionOrder: seq<string>)

  /** No two extensions share an id. */
  predicate UniqueIds(modules: seq<Extension>) {
    forall i, j :: 0 <= i < j < |modules| ==> modules[i].id != modules[j].id
  }
}

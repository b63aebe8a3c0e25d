/**
 * Which upstream a captured request may be dialled at: the compiled projection production uses, and the
 * naive reference kept beside it.
 */
module UpstreamTargets {
  import opened Outcomes
  import opened HostPatterns
  import opened ExtensionConfig
  import opened StringOrder

  datatype Target = Target(host: string, port: int)

  /**
   * How host names and stored patterns are spelled. The results below hold for every pair of functions; the source's
   * own pair is `SourceSpelling`.
   */
  datatype Spelling = Spelling(canonical: string -> string, stored: string -> string)

  const SourceSpelling := Spelling(CanonicalHost, StoredPattern)

  /** The matchers a validated snapshot carries. */
  datatype Runtime = Runtime(moduleHosts: map<string, Matcher>, activePatterns: seq<string>, activeHosts: Matcher)

  datatype ProjectedModule = ProjectedModule(hosts: Matcher, mappings: seq<HostMapping>)

  datatype Projection = Projection(enabled: bool, activeHosts: Matcher, modules: seq<ProjectedModule>,
      networkGrant: bool)

  // ----- shared pieces -----

  function DigitsValue(s: string, n: nat): Option<int>
    requires n <= |s|
  {
    if n == 0 then Some(0)
    else match DigitsValue(s, n - 1)
      case None => None
      case Some(v) => if '0' <= s[n - 1] <= '9' then Some(10 * v + (s[n - 1] - '0') as int) else None
  }

  /** strconv.Atoi; a value too large for an int is out of port range either way. */
  function Atoi(s: string): Option<int> {
    var digits := if s != [] && (s[0] == '+' || s[0] == '-') then s[1..] else s;
    if digits == [] then None
    else match DigitsValue(digits, |digits|)
      case None => None
      case Some(v) => Some(if s[0] == '-' then -v else v)
  }

  function Port(text: string): Option<int> {
    match Atoi(text)
    case None => None
    case Some(v) => if 1 <= v <= 65535 then Some(v) else None
  }

  function InsertSorted(sorted: seq<string>, value: string): seq<string> {
    if sorted == [] || Less(value, sorted[0]) then [value] + sorted
    else if sorted[0] == value then sorted
    else [sorted[0]] + InsertSorted(sorted[1..], value)
  }

  /** Lower-cased, trimmed, deduplicated and sorted. */
  function UniqueSorted(sp: Spelling, values: seq<string>): seq<string> {
    if values == [] then [] else InsertSorted(UniqueSorted(sp, values[..|values| - 1]), sp.stored(values[|values| - 1]))
  }

  /** Capture hosts of the enabled extensions among the first `n`. */
  function EnabledHosts(modules: seq<Extension>, n: nat): seq<string>
    requires n <= |modules|
  {
    if n == 0 then []
    else if modules[n - 1].enabled then EnabledHosts(modules, n - 1) + modules[n - 1].captureHosts
    else EnabledHosts(modules, n - 1)
  }

  function ModuleHosts(modules: seq<Extension>, n: nat): map<string, Matcher>
    requires n <= |modules|
  {
    if n == 0 then map[]
    else
      var before := ModuleHosts(modules, n - 1);
      if modules[n - 1].enabled then before[modules[n - 1].id := Compile(modules[n - 1].captureHosts)] else before
  }

  function CompileConfig(sp: Spelling, cfg: Config): Runtime {
    var patterns := UniqueSorted(sp, if cfg.enabled then EnabledHosts(cfg.modules, |cfg.modules|) else []);
    Runtime(ModuleHosts(cfg.modules, |cfg.modules|), patterns, Compile(patterns))
  }

  function ActiveHostPatterns(sp: Spelling, cfg: Config, runtime: Option<Runtime>): seq<string> {
    if !cfg.enabled then []
    else if runtime.Some? then runtime.value.activePatterns
    else UniqueSorted(sp, EnabledHosts(cfg.modules, |cfg.modules|))
  }

  function Usable(mappings: seq<HostMapping>): seq<HostMapping> {
    if mappings == [] then []
    else if mappings[|mappings| - 1].ResolverForm() then Usable(mappings[..|mappings| - 1])
    else Usable(mappings[..|mappings| - 1]) + [mappings[|mappings| - 1]]
  }

  /** The best mapping so far; no pattern yet means dialling the host itself. */
  datatype Best = Best(pattern: string, target: string)

  function Consider(best: Best, m: HostMapping, host: string): Best {
    if MatchHostPattern(m.pattern, host) && (m.pattern == host || |m.pattern| > |best.pattern|) then
        Best(m.pattern, m.target) else best
  }

  function BestOf(mappings: seq<HostMapping>, host: string): Best {
    if mappings == [] then Best("", host)
        else Consider(BestOf(mappings[..|mappings| - 1], host), mappings[|mappings| - 1], host)
  }

  /** Match for a host that has not been canonicalised yet. */
  predicate Match(sp: Spelling, m: Matcher, value: string) {
    MatchCanonical(m, sp.canonical(value))
  }

  // ----- the compiled projection -----

  function ModuleMatcher(runtime: Option<Runtime>, module_: Extension): Matcher {
    if runtime.Some? && module_.id in runtime.value.moduleHosts then runtime.value.moduleHosts[module_.id]
        else Compile(module_.captureHosts)
  }

  function ProjectModules(modules: seq<Extension>, runtime: Option<Runtime>, n: nat): seq<ProjectedModule>
    requires n <= |modules|
  {
    if n == 0 then []
    else if modules[n - 1].enabled then
      ProjectModules(modules, runtime, n - 1) +
          [ProjectedModule(ModuleMatcher(runtime, modules[n - 1]), Usable(modules[n - 1].mappings))]
    else ProjectModules(modules, runtime, n - 1)
  }

  predicate Grants(modules: seq<Extension>, n: nat)
    requires n <= |modules|
  {
    exists k :: 0 <= k < n && modules[k].enabled && modules[k].network
  }

  function Project(sp: Spelling, cfg: Config, runtime: Option<Runtime>): Projection {
    Projection(
      cfg.enabled,
      if runtime.Some? then runtime.value.activeHosts else Compile(ActiveHostPatterns(sp, cfg, runtime)),
      ProjectModules(cfg.modules, runtime, |cfg.modules|),
      Grants(cfg.modules, |cfg.modules|))
  }

  /** The mappings of the projected modules that capture `host`, in order. */
  function OwnedMappings(sp: Spelling, modules: seq<ProjectedModule>, host: string): seq<HostMapping> {
    if modules == [] then []
    else
      var last, before := modules[|modules| - 1], OwnedMappings(sp, modules[..|modules| - 1], host);
      if Match(sp, last.hosts, host) then before + last.mappings else before
  }

  function UpstreamTarget(sp: Spelling, p: Projection, rawHost: string, portText: string): Option<Target> {
    var host := sp.canonical(rawHost);
    if !p.enabled || Port(portText).None? then None
    else
      var port := Port(portText).value;
      if (port == 80 || port == 443) && Match(sp, p.activeHosts, host) then
          Some(Target(BestOf(OwnedMappings(sp, p.modules, host), host).target, port))
      else if p.networkGrant then Some(Target(host, port))
      else None
  }

  // ----- the naive reference -----

  predicate ModuleOwnsHost(sp: Spelling, module_: Extension, host: string) {
    AnyMatches(module_.captureHosts, sp.canonical(host))
  }

  predicate ActiveInterceptHost(sp: Spelling, cfg: Config, runtime: Option<Runtime>, value: string) {
    cfg.enabled &&
    if runtime.Some? then Match(sp, runtime.value.activeHosts, value)
        else AnyMatches(ActiveHostPatterns(sp, cfg, runtime), sp.canonical(value))
  }

  predicate Owns(sp: Spelling, module_: Extension, runtime: Option<Runtime>, host: string) {
    if runtime.Some? then
        module_.id in runtime.value.moduleHosts && Match(sp, runtime.value.moduleHosts[module_.id], host)
    else ModuleOwnsHost(sp, module_, host)
  }

  /** The mappings of the enabled extensions that own `host`, resolver forms skipped. */
  function ReferenceMappings(sp: Spelling, modules: seq<Extension>, runtime: Option<Runtime>, n: nat,
      host: string): seq<HostMapping>
    requires n <= |modules|
  {
    if n == 0 then []
    else if modules[n - 1].enabled && Owns(sp, modules[n - 1], runtime, host) then
      ReferenceMappings(sp, modules, runtime, n - 1, host) + Usable(modules[n - 1].mappings)
    else ReferenceMappings(sp, modules, runtime, n - 1, host)
  }

  function MappedTarget(sp: Spelling, cfg: Config, runtime: Option<Runtime>, value: string): string {
    var host := sp.canonical(value);
    BestOf(ReferenceMappings(sp, cfg.modules, runtime, |cfg.modules|, host), host).target
  }

  function ReferenceTarget(sp: Spelling, cfg: Config, runtime: Option<Runtime>, rawHost: string,
      portText: string): Option<Target> {
    var host := sp.canonical(rawHost);
    if !cfg.enabled || Port(portText).None? then None
    else
      var port := Port(portText).value;
      if (port == 80 || port == 443) && ActiveInterceptHost(sp, cfg, runtime, host) then
          Some(Target(MappedTarget(sp, cfg, runtime, host), port))
      else if Grants(cfg.modules, |cfg.modules|) then Some(Target(host, port))
      else None
  }

  // ----- the loops -----

  lemma UsableStep(mappings: seq<HostMapping>, k: nat)
    requires k < |mappings|
    ensures Usable(mappings[..k + 1]) == if mappings[k].ResolverForm() then Usable(mappings[..k])
            else Usable(mappings[..k]) + [mappings[k]]
  {
    assert mappings[..k + 1][..k] == mappings[..k];
  }

  lemma BestStep(before: seq<HostMapping>, m: HostMapping, host: string)
    ensures BestOf(before + [m], host) == Consider(BestOf(before, host), m, host)
  {
    assert (before + [m])[..|before|] == before;
  }

  lemma OwnedStep(sp: Spelling, before: seq<ProjectedModule>, m: ProjectedModule, host: string)
    ensures OwnedMappings(sp, before + [m], host) ==
            if Match(sp, m.hosts, host) then OwnedMappings(sp, before, host) + m.mappings
                else OwnedMappings(sp, before, host)
  {
    assert (before + [m])[..|before|] == before;
  }

  /** The inner loop: one module's mappings against the best so far. */
  method ConsiderAll(mappings: seq<HostMapping>, host: string, best: Best,
      ghost before: seq<HostMapping>) returns (r: Best)
    requires best == BestOf(before, host)
    ensures r == BestOf(before + mappings, host)
  {
    r := best;
    assert before + mappings[..0] == before;
    for k := 0 to |mappings|
      invariant r == BestOf(before + mappings[..k], host)
    {
      BestStep(before + mappings[..k], mappings[k], host);
      assert before + mappings[..k + 1] == before + mappings[..k] + [mappings[k]];
      if MatchHostPattern(mappings[k].pattern, host) &&
          (mappings[k].pattern == host || |mappings[k].pattern| > |r.pattern|) {
        r := Best(mappings[k].pattern, mappings[k].target);
      }
    }
    assert mappings[..|mappings|] == mappings;
  }

  /** newUpstreamTransportProjection without its digest, which Fingerprint models. */
  method NewProjection(sp: Spelling, cfg: Config, runtime: Option<Runtime>) returns (p: Projection)
    ensures p == Project(sp, cfg, runtime)
  {
    var modules: seq<ProjectedModule>, grant := [], false;
    for n := 0 to |cfg.modules|
      invariant modules == ProjectModules(cfg.modules, runtime, n)
      invariant grant == Grants(cfg.modules, n)
    {
      var module_ := cfg.modules[n];
      if module_.enabled {
        var mappings: seq<HostMapping> := [];
        for k := 0 to |module_.mappings|
          invariant mappings == Usable(module_.mappings[..k])
        {
          UsableStep(module_.mappings, k);
          if !module_.mappings[k].ResolverForm() {
            mappings := mappings + [module_.mappings[k]];
          }
        }
        assert module_.mappings[..|module_.mappings|] == module_.mappings;
        modules := modules + [ProjectedModule(ModuleMatcher(runtime, module_), mappings)];
        if module_.network {
          grant := true;
        }
      }
    }
    p := Projection(cfg.enabled, if runtime.Some? then runtime.value.activeHosts
        else Compile(ActiveHostPatterns(sp, cfg, runtime)), modules, grant);
  }

  /** upstreamTargetProjection.upstreamTarget, best-so-far loop and all. */
  method ResolveTarget(sp: Spelling, p: Projection, rawHost: string, portText: string) returns (r: Option<Target>)
    ensures r == UpstreamTarget(sp, p, rawHost, portText)
  {
    if !p.enabled || Port(portText).None? {
      return None;
    }
    var host, port := sp.canonical(rawHost), Port(portText).value;
    if (port == 80 || port == 443) && Match(sp, p.activeHosts, host) {
      var best := Best("", host);
      for n := 0 to |p.modules|
        invariant best == BestOf(OwnedMappings(sp, p.modules[..n], host), host)
      {
        OwnedStep(sp, p.modules[..n], p.modules[n], host);
        assert p.modules[..n + 1] == p.modules[..n] + [p.modules[n]];
        if Match(sp, p.modules[n].hosts, host) {
          best := ConsiderAll(p.modules[n].mappings, host, best, OwnedMappings(sp, p.modules[..n], host));
        }
      }
      assert p.modules[..|p.modules|] == p.modules;
      return Some(Target(best.target, port));
    }
    if !p.networkGrant {
      return None;
    }
    return Some(Target(host, port));
  }

  /** mappedInterceptTarget: the reference's own loops, skipping resolver forms as it goes. */
  method MappedInterceptTarget(sp: Spelling, cfg: Config, runtime: Option<Runtime>,
      value: string) returns (target: string)
    ensures target == MappedTarget(sp, cfg, runtime, value)
  {
    var host := sp.canonical(value);
    var best := Best("", host);
    for n := 0 to |cfg.modules|
      invariant best == BestOf(ReferenceMappings(sp, cfg.modules, runtime, n, host), host)
    {
      if cfg.modules[n].enabled && Owns(sp, cfg.modules[n], runtime, host) {
        best := ConsiderUsable(cfg.modules[n].mappings, host, best,
            ReferenceMappings(sp, cfg.modules, runtime, n, host));
      }
    }
    target := best.target;
  }

  method ConsiderUsable(mappings: seq<HostMapping>, host: string, best: Best,
      ghost before: seq<HostMapping>) returns (r: Best)
    requires best == BestOf(before, host)
    ensures r == BestOf(before + Usable(mappings), host)
  {
    r := best;
    assert before + Usable(mappings[..0]) == before;
    for k := 0 to |mappings|
      invariant r == BestOf(before + Usable(mappings[..k]), host)
    {
      UsableBestStep(before, mappings, k, host);
      if !mappings[k].ResolverForm() {
        if MatchHostPattern(mappings[k].pattern, host) &&
            (mappings[k].pattern == host || |mappings[k].pattern| > |r.pattern|) {
          r := Best(mappings[k].pattern, mappings[k].target);
        }
      }
    }
    assert mappings[..|mappings|] == mappings;
  }

  lemma UsableBestStep(before: seq<HostMapping>, mappings: seq<HostMapping>, k: nat, host: string)
    requires k < |mappings|
    ensures BestOf(before + Usable(mappings[..k + 1]), host) ==
            if mappings[k].ResolverForm() then BestOf(before + Usable(mappings[..k]), host)
            else Consider(BestOf(before + Usable(mappings[..k]), host), mappings[k], host)
  {
    UsableStep(mappings, k);
    if !mappings[k].ResolverForm() {
      BestStep(before + Usable(mappings[..k]), mappings[k], host);
      assert before + Usable(mappings[..k + 1]) == before + Usable(mappings[..k]) + [mappings[k]];
    }
  }

  // ----- the projection refines the reference -----

  /** The matchers a runtime holds are those of the extensions they are filed under. */
  lemma {:induction false} ModuleHostsFiled(modules: seq<Extension>, n: nat, k: nat)
    requires UniqueIds(modules) && k < n <= |modules| && modules[k].enabled
    ensures modules[k].id in ModuleHosts(modules, n) &&
            ModuleHosts(modules, n)[modules[k].id] == Compile(modules[k].captureHosts)
  {
    if k < n - 1 {
      ModuleHostsFiled(modules, n - 1, k);
    }
  }

  predicate OwnRuntime(sp: Spelling, cfg: Config, runtime: Option<Runtime>) {
    runtime == None || runtime == Some(CompileConfig(sp, cfg))
  }

  lemma OwnershipAgrees(sp: Spelling, cfg: Config, rt: Option<Runtime>, other: Option<Runtime>, k: nat, host: string)
    requires UniqueIds(cfg.modules) && OwnRuntime(sp, cfg, rt) && OwnRuntime(sp, cfg, other)
    requires k < |cfg.modules| && cfg.modules[k].enabled
    ensures Match(sp, ModuleMatcher(rt, cfg.modules[k]), host) <==> Owns(sp, cfg.modules[k], other, host)
  {
    ModuleHostsFiled(cfg.modules, |cfg.modules|, k);
    CompiledMatchesScan(cfg.modules[k].captureHosts, sp.canonical(host));
  }

  lemma MappingsAgreeStep(sp: Spelling, modules: seq<Extension>, rt: Option<Runtime>, other: Option<Runtime>, n: nat,
      host: string)
    requires n < |modules|
    requires OwnedMappings(sp, ProjectModules(modules, rt, n), host) == ReferenceMappings(sp, modules, other, n, host)
    requires modules[n].enabled ==>
             (Match(sp, ModuleMatcher(rt, modules[n]), host) <==> Owns(sp, modules[n], other, host))
    ensures OwnedMappings(sp, ProjectModules(modules, rt, n + 1), host) ==
            ReferenceMappings(sp, modules, other, n + 1, host)
  {
    var before := ProjectModules(modules, rt, n);
    if modules[n].enabled {
      var projected := ProjectedModule(ModuleMatcher(rt, modules[n]), Usable(modules[n].mappings));
      assert ProjectModules(modules, rt, n + 1) == before + [projected];
      OwnedStep(sp, before, projected, host);
    }
  }

  lemma {:induction false} MappingsAgree(sp: Spelling, cfg: Config, rt: Option<Runtime>, other: Option<Runtime>, n: nat,
      host: string)
    requires UniqueIds(cfg.modules) && OwnRuntime(sp, cfg, rt) && OwnRuntime(sp, cfg, other) && n <= |cfg.modules|
    ensures OwnedMappings(sp, ProjectModules(cfg.modules, rt, n), host) ==
            ReferenceMappings(sp, cfg.modules, other, n, host)
  {
    if n > 0 {
      MappingsAgree(sp, cfg, rt, other, n - 1, host);
      if cfg.modules[n - 1].enabled {
        OwnershipAgrees(sp, cfg, rt, other, n - 1, host);
      }
      MappingsAgreeStep(sp, cfg.modules, rt, other, n - 1, host);
    }
  }

  lemma ActiveAgrees(sp: Spelling, cfg: Config, rt: Option<Runtime>, other: Option<Runtime>, host: string)
    requires OwnRuntime(sp, cfg, rt) && OwnRuntime(sp, cfg, other) && cfg.enabled
    ensures Match(sp, Project(sp, cfg, rt).activeHosts, host) <==> ActiveInterceptHost(sp, cfg, other, host)
  {
    CompiledMatchesScan(ActiveHostPatterns(sp, cfg, None), sp.canonical(host));
  }

  /**
   * The compiled projection answers every host and port text as the naive reference does, whether or not either
   * side runs on a compiled snapshot, whenever the canonical host is a fixed point of canonicalisation.
   */
  lemma ProjectionRefinesReference(sp: Spelling, cfg: Config, rt: Option<Runtime>, other: Option<Runtime>,
      rawHost: string, portText: string)
    requires UniqueIds(cfg.modules) && OwnRuntime(sp, cfg, rt) && OwnRuntime(sp, cfg, other)
    requires sp.canonical(sp.canonical(rawHost)) == sp.canonical(rawHost)
    ensures UpstreamTarget(sp, Project(sp, cfg, rt), rawHost, portText) ==
            ReferenceTarget(sp, cfg, other, rawHost, portText)
  {
    var host := sp.canonical(rawHost);
    if cfg.enabled {
      ActiveAgrees(sp, cfg, rt, other, host);
      MappingsAgree(sp, cfg, rt, other, |cfg.modules|, host);
    }
  }

  // ----- the runtime makes no difference -----

  lemma {:induction false} SameModules(sp: Spelling, cfg: Config, rt: Option<Runtime>, n: nat)
    requires UniqueIds(cfg.modules) && OwnRuntime(sp, cfg, rt) && n <= |cfg.modules|
    ensures ProjectModules(cfg.modules, rt, n) == ProjectModules(cfg.modules, None, n)
  {
    if n > 0 {
      SameModules(sp, cfg, rt, n - 1);
      if cfg.modules[n - 1].enabled {
        ModuleHostsFiled(cfg.modules, |cfg.modules|, n - 1);
      }
    }
  }

  /** The projection of a configuration is the same whether or not it carries its compiled runtime. */
  lemma ProjectionIgnoresRuntime(sp: Spelling, cfg: Config, rt: Option<Runtime>)
    requires UniqueIds(cfg.modules) && OwnRuntime(sp, cfg, rt)
    ensures Project(sp, cfg, rt) == Project(sp, cfg, None)
  {
    SameModules(sp, cfg, rt, |cfg.modules|);
  }

  /** So are the reference's answers, on every host. */
  lemma ReferenceIgnoresRuntime(sp: Spelling, cfg: Config, rt: Option<Runtime>, rawHost: string, portText: string)
    requires UniqueIds(cfg.modules) && OwnRuntime(sp, cfg, rt)
    ensures ReferenceTarget(sp, cfg, rt, rawHost, portText) == ReferenceTarget(sp, cfg, None, rawHost, portText)
  {
    var once := sp.canonical(rawHost);
    var twice := sp.canonical(once);
    if cfg.enabled {
      ActiveAgrees(sp, cfg, None, rt, once);
      ActiveAgrees(sp, cfg, None, None, once);
      MappingsAgree(sp, cfg, None, rt, |cfg.modules|, twice);
      MappingsAgree(sp, cfg, None, None, |cfg.modules|, twice);
    }
  }

  // ----- the active pattern list -----

  lemma {:induction false} EnabledHostsAreCaptures(modules: seq<Extension>, n: nat, host: string)
    requires n <= |modules|
    ensures host in EnabledHosts(modules, n) <==>
            exists k :: 0 <= k < n && modules[k].enabled && host in modules[k].captureHosts
  {
    if n > 0 {
      EnabledHostsAreCaptures(modules, n - 1, host);
    }
  }

  lemma {:induction false} InsertSortedElements(sorted: seq<string>, value: string)
    ensures forall x :: x in InsertSorted(sorted, value) <==> x == value || x in sorted
  {
    if sorted != [] && !Less(value, sorted[0]) && sorted[0] != value {
      InsertSortedElements(sorted[1..], value);
    }
  }

  lemma {:induction false} UniqueSortedElements(sp: Spelling, values: seq<string>)
    ensures forall x :: x in UniqueSorted(sp, values) ==> exists k :: 0 <= k < |values| && x == sp.stored(values[k])
  {
    if values != [] {
      var n := |values| - 1;
      UniqueSortedElements(sp, values[..n]);
      InsertSortedElements(UniqueSorted(sp, values[..n]), sp.stored(values[n]));
      forall x | x in UniqueSorted(sp, values) ensures exists k :: 0 <= k < |values| && x == sp.stored(values[k]) {
        if x != sp.stored(values[n]) {
          var k :| 0 <= k < n && x == sp.stored(values[..n][k]);
          assert values[..n][k] == values[k];
        }
      }
    }
  }

  lemma {:induction false} UniqueSortedKeeps(sp: Spelling, values: seq<string>, k: nat)
    requires k < |values|
    ensures sp.stored(values[k]) in UniqueSorted(sp, values)
  {
    var n := |values| - 1;
    InsertSortedElements(UniqueSorted(sp, values[..n]), sp.stored(values[n]));
    if k < n {
      UniqueSortedKeeps(sp, values[..n], k);
    }
  }

  lemma PortText443()
    ensures Port("443") == Some(443)
  {
    assert DigitsValue("443", 1) == Some(4);
    assert DigitsValue("443", 2) == Some(44);
    assert DigitsValue("443", 3) == Some(443);
  }
}

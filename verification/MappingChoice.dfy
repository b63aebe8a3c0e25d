/**
 * For a validated configuration the dial target does not depend on the order of extensions or mappings: the exact
 * mapping decides if there is one, otherwise the single longest wildcard that matches.
 */
module MappingChoice {
  import opened Outcomes
  import opened HostPatterns
  import opened ExtensionConfig
  import opened UpstreamTargets
  import opened Validation

  // ----- validation -----

  ghost predicate Validated(cfg: Config, valid: FieldCheck) {
    && UniqueIds(cfg.modules)
    && (forall m :: valid(m) ==> ValidHostPattern(m.pattern))
    && (forall n :: 0 <= n < |cfg.modules| ==>
       ValidMappings(cfg.modules[n].captureHosts, cfg.modules[n].mappings, valid))
    && ConflictFree(cfg.modules)
  }

  /** validateHostMappings: accepts exactly the valid lists. */
  method ValidateHostMappings(captureHosts: seq<string>, mappings: seq<HostMapping>,
      valid: FieldCheck) returns (ok: bool)
    ensures ok <==> ValidMappings(captureHosts, mappings, valid)
  {
    var seen: set<string> := {};
    for k := 0 to |mappings|
      invariant seen == set j | 0 <= j < k :: mappings[j].pattern
      invariant forall j :: 0 <= j < k ==> ValidMapping(captureHosts, mappings[j], valid)
      invariant forall i, j :: 0 <= i < j < k ==> mappings[i].pattern != mappings[j].pattern
    {
      if !ValidMapping(captureHosts, mappings[k], valid) || mappings[k].pattern in seen {
        return false;
      }
      seen := seen + {mappings[k].pattern};
    }
    return true;
  }

  /** The map of active mappings validateModules builds; it refuses exactly the conflicting configurations. */
  method CheckConflicts(modules: seq<Extension>) returns (ok: bool)
    ensures ok <==> ConflictFree(modules)
  {
    var chosen: map<string, string> := map[];
    for n := 0 to |modules|
      invariant forall m :: Active(modules[..n], m) <==> m.pattern in chosen && chosen[m.pattern] == m.target
    {
      ghost var before := chosen;
      if modules[n].enabled {
        var mappings := modules[n].mappings;
        for k := 0 to |mappings|
          invariant forall m :: (m in mappings[..k] || Active(modules[..n], m)) <==>
                    (m.pattern in chosen && chosen[m.pattern] == m.target)
        {
          var m := mappings[k];
          if m.pattern in chosen && chosen[m.pattern] != m.target {
            Conflict(modules, n, k, HostMapping(m.pattern, chosen[m.pattern]));
            return false;
          }
          chosen := chosen[m.pattern := m.target];
          assert mappings[..k + 1] == mappings[..k] + [m];
        }
        assert mappings[..|mappings|] == mappings;
      }
      ActiveStep(modules, n);
    }
    assert modules[..|modules|] == modules;
    return true;
  }

  lemma ActiveStep(modules: seq<Extension>, n: nat)
    requires n < |modules|
    ensures forall m :: Active(modules[..n + 1], m) <==>
            Active(modules[..n], m) || (modules[n].enabled && m in modules[n].mappings)
  {
    forall m ensures Active(modules[..n + 1], m) <==>
        Active(modules[..n], m) || (modules[n].enabled && m in modules[n].mappings) {
      if Active(modules[..n], m) {
        var i :| 0 <= i < n && modules[..n][i].enabled && m in modules[..n][i].mappings;
        assert modules[..n + 1][i] == modules[i];
      }
      assert modules[..n + 1][n] == modules[n];
      if Active(modules[..n + 1], m) {
        var i :| 0 <= i < n + 1 && modules[..n + 1][i].enabled && m in modules[..n + 1][i].mappings;
        assert i < n ==> modules[..n][i] == modules[i];
      }
    }
  }

  lemma Conflict(modules: seq<Extension>, n: nat, k: nat, earlier: HostMapping)
    requires n < |modules| && modules[n].enabled && k < |modules[n].mappings|
    requires earlier in modules[n].mappings[..k] || Active(modules[..n], earlier)
    requires earlier.pattern == modules[n].mappings[k].pattern && earlier.target != modules[n].mappings[k].target
    ensures !ConflictFree(modules)
  {
    assert Active(modules, modules[n].mappings[k]);
    if Active(modules[..n], earlier) {
      var i :| 0 <= i < n && modules[..n][i].enabled && earlier in modules[..n][i].mappings;
      assert modules[..n][i] == modules[i];
    }
    assert Active(modules, earlier);
  }

  // ----- the choice -----

  /** `m` decides over `n` for this host: the exact mapping first, then the longer wildcard. */
  predicate Outranks(m: HostMapping, n: HostMapping, host: string) {
    m.pattern == host || (n.pattern != host && |n.pattern| <= |m.pattern|)
  }

  ghost predicate Decides(ms: seq<HostMapping>, m: HostMapping, host: string) {
    && m in ms && MatchHostPattern(m.pattern, host)
    && forall n :: n in ms && MatchHostPattern(n.pattern, host) ==> Outranks(m, n, host)
  }

  lemma MatchNoLongerThanHost(pattern: string, host: string)
    requires MatchHostPattern(pattern, host)
    ensures |pattern| <= |host|
  {
  }

  lemma EqualLengthWildcardsEqual(a: string, b: string, host: string)
    requires MatchHostPattern(a, host) && MatchHostPattern(b, host) && |a| == |b| && a != host && b != host
    ensures a == b
  {
    var suffix := TrimPrefix(a, "*.");
    assert a == "*." + suffix && b == "*." + TrimPrefix(b, "*.");
    assert host[|host| - |suffix| - 1..] == "." + suffix == "." + TrimPrefix(b, "*.");
    assert ("." + suffix)[1..] == suffix;
  }

  /** The best-so-far loop ends with a mapping that outranks every other match, or found none. */
  lemma {:induction false} LoopDecides(ms: seq<HostMapping>, host: string)
    ensures var best := BestOf(ms, host);
            || (best == Best("", host) && forall n :: n in ms ==> !MatchHostPattern(n.pattern, host))
            || Decides(ms, HostMapping(best.pattern, best.target), host)
  {
    if ms != [] {
      var k := |ms| - 1;
      var last, before := ms[k], BestOf(ms[..k], host);
      LoopDecides(ms[..k], host);
      assert ms == ms[..k] + [last];
      if MatchHostPattern(last.pattern, host) {
        MatchNoLongerThanHost(last.pattern, host);
      }
    }
  }

  lemma {:induction false} TrimRightKeepsPrefix(prefix: string, s: string)
    requires prefix != [] && !IsSpace(prefix[|prefix| - 1])
    ensures HasPrefix(TrimRight(prefix + s), prefix)
  {
    if s != [] {
      assert (prefix + s)[..|prefix + s| - 1] == prefix + s[..|s| - 1];
      TrimRightKeepsPrefix(prefix, s[..|s| - 1]);
    } else {
      assert prefix + s == prefix && prefix[..|prefix|] == prefix;
    }
  }

  /** `server:` in any case, with anything behind it, is the resolver form. */
  lemma ResolverFormRecognised(pattern: string, keyword: string, rest: string)
    requires Lower(keyword) == "server:"
    ensures HostMapping(pattern, keyword + rest).ResolverForm()
  {
    var target := keyword + rest;
    assert |keyword| == 7 && forall k :: 0 <= k < 7 ==> LowerChar(keyword[k]) == "server:"[k];
    assert !IsSpace(keyword[0]) && !IsSpace(keyword[6]);
    assert TrimLeft(target) == target;
    TrimRightKeepsPrefix(keyword, rest);
    var trimmed := TrimRight(target);
    assert trimmed[..7] == keyword && Lower(trimmed)[..7] == Lower(keyword);
  }

  /** An extension captures every host its mappings match. */
  lemma MappingImpliesOwnership(sp: Spelling, cfg: Config, k: nat, m: HostMapping, host: string, valid: FieldCheck)
    requires Validated(cfg, valid) && k < |cfg.modules| && m in cfg.modules[k].mappings
    requires MatchHostPattern(m.pattern, host) && sp.canonical(host) == host
    ensures ModuleOwnsHost(sp, cfg.modules[k], host)
  {
    var module_ := cfg.modules[k];
    var i :| 0 <= i < |module_.mappings| && module_.mappings[i] == m;
    assert ValidMapping(module_.captureHosts, module_.mappings[i], valid);
    var c :| 0 <= c < |module_.captureHosts| && HostPatternCovers(module_.captureHosts[c], m.pattern);
    CoverIsInclusion(module_.captureHosts[c], m.pattern);
    assert MatchHostPattern(module_.captureHosts[c], host);
  }

  lemma {:induction false} UsableElements(mappings: seq<HostMapping>, m: HostMapping)
    ensures m in Usable(mappings) <==> m in mappings && !m.ResolverForm()
  {
    if mappings != [] {
      UsableElements(mappings[..|mappings| - 1], m);
      assert mappings == mappings[..|mappings| - 1] + [mappings[|mappings| - 1]];
    }
  }

  /** Every extension captures the hosts its mappings match. */
  ghost predicate OwnsWhatItMaps(sp: Spelling, modules: seq<Extension>, host: string) {
    forall k, m :: 0 <= k < |modules| && m in modules[k].mappings && MatchHostPattern(m.pattern, host) ==>
        ModuleOwnsHost(sp, modules[k], host)
  }

  lemma ValidatedOwns(sp: Spelling, cfg: Config, host: string, valid: FieldCheck)
    requires Validated(cfg, valid) && sp.canonical(host) == host
    ensures OwnsWhatItMaps(sp, cfg.modules, host)
  {
    forall k, m | 0 <= k < |cfg.modules| && m in cfg.modules[k].mappings && MatchHostPattern(m.pattern, host)
      ensures ModuleOwnsHost(sp, cfg.modules[k], host)
    {
      MappingImpliesOwnership(sp, cfg, k, m, host, valid);
    }
  }

  /** `m` is a mapping of an enabled extension among the first `n`. */
  predicate ActiveFirst(modules: seq<Extension>, n: nat, m: HostMapping)
    requires n <= |modules|
  {
    exists k :: 0 <= k < n && modules[k].enabled && m in modules[k].mappings
  }

  lemma WalkedMappingsStep(sp: Spelling, modules: seq<Extension>, n: nat, host: string, m: HostMapping)
    requires n < |modules|
    requires m in modules[n].mappings ==> ModuleOwnsHost(sp, modules[n], host)
    requires m in ReferenceMappings(sp, modules, None, n, host) <==> !m.ResolverForm() && ActiveFirst(modules, n, m)
    ensures m in ReferenceMappings(sp, modules, None, n + 1, host) <==>
            !m.ResolverForm() && ActiveFirst(modules, n + 1, m)
  {
    UsableElements(modules[n].mappings, m);
  }

  lemma {:induction false} WalkedMappings(sp: Spelling, modules: seq<Extension>, n: nat, host: string, m: HostMapping)
    requires OwnsWhatItMaps(sp, modules, host) && n <= |modules| && MatchHostPattern(m.pattern, host)
    ensures m in ReferenceMappings(sp, modules, None, n, host) <==> !m.ResolverForm() && ActiveFirst(modules, n, m)
  {
    if n > 0 {
      WalkedMappings(sp, modules, n - 1, host, m);
      WalkedMappingsStep(sp, modules, n - 1, host, m);
    }
  }

  lemma WalkedAreActive(sp: Spelling, cfg: Config, host: string, valid: FieldCheck)
    requires Validated(cfg, valid) && sp.canonical(host) == host
    ensures forall m: HostMapping :: MatchHostPattern(m.pattern, host) ==>
              (m in ReferenceMappings(sp, cfg.modules, None, |cfg.modules|, host) <==>
                  Active(cfg.modules, m) && !m.ResolverForm())
  {
    ValidatedOwns(sp, cfg, host, valid);
    forall m: HostMapping | MatchHostPattern(m.pattern, host)
      ensures m in ReferenceMappings(sp, cfg.modules, None, |cfg.modules|, host) <==>
              Active(cfg.modules, m) && !m.ResolverForm()
    {
      WalkedMappings(sp, cfg.modules, |cfg.modules|, host, m);
    }
  }

  /** A usable mapping of an enabled extension that matches the host. */
  predicate Candidate(modules: seq<Extension>, m: HostMapping, host: string) {
    Active(modules, m) && !m.ResolverForm() && MatchHostPattern(m.pattern, host)
  }

  /** A candidate that outranks every other. */
  ghost predicate Leads(modules: seq<Extension>, m: HostMapping, host: string) {
    Candidate(modules, m, host) && forall n :: Candidate(modules, n, host) ==> Outranks(m, n, host)
  }

  /** The leading candidate's target, or the host itself when there is no candidate. */
  ghost predicate IsDecided(modules: seq<Extension>, host: string, target: string) {
    || (target == host && forall m :: !Candidate(modules, m, host))
    || exists m :: Leads(modules, m, host) && target == m.target
  }

  lemma ReferenceDecides(sp: Spelling, cfg: Config, host: string, valid: FieldCheck)
    requires Validated(cfg, valid) && sp.canonical(host) == host
    ensures IsDecided(cfg.modules, host,
            BestOf(ReferenceMappings(sp, cfg.modules, None, |cfg.modules|, host), host).target)
  {
    var ms := ReferenceMappings(sp, cfg.modules, None, |cfg.modules|, host);
    WalkedAreActive(sp, cfg, host, valid);
    LoopDecides(ms, host);
    var m := HostMapping(BestOf(ms, host).pattern, BestOf(ms, host).target);
    if Decides(ms, m, host) {
      assert Leads(cfg.modules, m, host);
    }
  }

  /** Without conflicts there is one leading candidate. */
  lemma DecisionUnique(modules: seq<Extension>, m: HostMapping, n: HostMapping, host: string)
    requires ConflictFree(modules) && Leads(modules, m, host) && Leads(modules, n, host)
    ensures m == n
  {
    assert Outranks(m, n, host) && Outranks(n, m, host);
    if m.pattern != host && n.pattern != host {
      EqualLengthWildcardsEqual(m.pattern, n.pattern, host);
    }
    assert Active(modules, m) && Active(modules, n);
  }

  lemma DecidedOnce(modules: seq<Extension>, host: string, s: string, t: string)
    requires ConflictFree(modules) && IsDecided(modules, host, s) && IsDecided(modules, host, t)
    ensures s == t
  {
    if m, n :| Leads(modules, m, host) && s == m.target && Leads(modules, n, host) && t == n.target {
      DecisionUnique(modules, m, n, host);
    }
  }

  lemma DecidedAlike(a: seq<Extension>, b: seq<Extension>, host: string, target: string)
    requires forall m :: Active(a, m) <==> Active(b, m)
    ensures IsDecided(a, host, target) ==> IsDecided(b, host, target)
  {
    assert forall m :: Candidate(a, m, host) <==> Candidate(b, m, host);
    if m :| Leads(a, m, host) && target == m.target {
      assert Leads(b, m, host);
    }
  }

  /** The host is captured: an active pattern matches it. */
  predicate Captured(sp: Spelling, cfg: Config, host: string) {
    AnyMatches(ActiveHostPatterns(sp, cfg, None), host)
  }

  /** A request for this port of a captured host is dialled where the mappings say. */
  predicate Intercepts(sp: Spelling, cfg: Config, host: string, portText: string) {
    cfg.enabled && Port(portText).Some? && Port(portText).value in {80, 443} && Captured(sp, cfg, host)
  }

  /**
   * The projection's answer for a validated configuration, with or without its runtime: the decided target on an
   * intercepted port of a captured host, the host itself where some extension may use the network, and otherwise
   * nothing.
   */
  lemma TargetIsDecided(
    sp: Spelling, cfg: Config, rt: Option<Runtime>, rawHost: string, portText: string, valid: FieldCheck)
    requires Validated(cfg, valid) && OwnRuntime(sp, cfg, rt)
    requires sp.canonical(sp.canonical(rawHost)) == sp.canonical(rawHost)
    ensures var host, answer := sp.canonical(rawHost), UpstreamTarget(sp, Project(sp, cfg, rt), rawHost, portText);
            if Intercepts(sp, cfg, host, portText) then
              answer.Some? && answer.value.port == Port(portText).value &&
                  IsDecided(cfg.modules, host, answer.value.host)
            else if cfg.enabled && Port(portText).Some? && Grants(cfg.modules, |cfg.modules|) then
              answer == Some(Target(host, Port(portText).value))
            else answer == None
  {
    var host := sp.canonical(rawHost);
    ProjectionIgnoresRuntime(sp, cfg, rt);
    if cfg.enabled {
      ActiveAgrees(sp, cfg, None, None, host);
      MappingsAgree(sp, cfg, None, None, |cfg.modules|, host);
      ReferenceDecides(sp, cfg, host, valid);
    }
  }

  /**
   * The answer is determined by what is active: two validated configurations with the same active mappings, switch and
   * grant, that both capture the host or both do not, dial alike.
   */
  lemma ActiveMappingsDecide(
    sp: Spelling, a: Config, b: Config, rtA: Option<Runtime>, rtB: Option<Runtime>,
    rawHost: string, portText: string, valid: FieldCheck)
    requires Validated(a, valid) && Validated(b, valid) && OwnRuntime(sp, a, rtA) && OwnRuntime(sp, b, rtB)
    requires sp.canonical(sp.canonical(rawHost)) == sp.canonical(rawHost)
    requires forall m :: Active(a.modules, m) <==> Active(b.modules, m)
    requires a.enabled == b.enabled && Grants(a.modules, |a.modules|) == Grants(b.modules, |b.modules|)
    requires Captured(sp, a, sp.canonical(rawHost)) == Captured(sp, b, sp.canonical(rawHost))
    ensures UpstreamTarget(sp, Project(sp, a, rtA), rawHost, portText) ==
            UpstreamTarget(sp, Project(sp, b, rtB), rawHost, portText)
  {
    var host := sp.canonical(rawHost);
    TargetIsDecided(sp, a, rtA, rawHost, portText, valid);
    TargetIsDecided(sp, b, rtB, rawHost, portText, valid);
    if Intercepts(sp, a, host, portText) {
      var s := UpstreamTarget(sp, Project(sp, a, rtA), rawHost, portText).value.host;
      var t := UpstreamTarget(sp, Project(sp, b, rtB), rawHost, portText).value.host;
      DecidedAlike(a.modules, b.modules, host, s);
      DecidedOnce(b.modules, host, s, t);
    }
  }

  /** In particular the order of the extensions, and the disabled ones among them, do not matter. */
  lemma TargetIgnoresOrder(
    sp: Spelling, a: Config, b: Config, rtA: Option<Runtime>, rtB: Option<Runtime>,
    rawHost: string, portText: string, valid: FieldCheck)
    requires Validated(a, valid) && Validated(b, valid) && OwnRuntime(sp, a, rtA) && OwnRuntime(sp, b, rtB)
    requires sp.canonical(sp.canonical(rawHost)) == sp.canonical(rawHost)
    requires a.enabled == b.enabled && forall e: Extension :: e.enabled ==> (e in a.modules <==> e in b.modules)
    ensures UpstreamTarget(sp, Project(sp, a, rtA), rawHost, portText) ==
            UpstreamTarget(sp, Project(sp, b, rtB), rawHost, portText)
  {
    ReorderedAlike(a.modules, b.modules);
    ReorderedCaptures(sp, a, b, sp.canonical(rawHost));
    ActiveMappingsDecide(sp, a, b, rtA, rtB, rawHost, portText, valid);
  }

  /** The same enabled extensions in another order: the same active mappings and the same grant. */
  lemma ReorderedAlike(a: seq<Extension>, b: seq<Extension>)
    requires forall e: Extension :: e.enabled ==> (e in a <==> e in b)
    ensures forall m :: Active(a, m) <==> Active(b, m)
    ensures Grants(a, |a|) == Grants(b, |b|)
  {
    forall k | 0 <= k < |a| && a[k].enabled ensures exists j :: 0 <= j < |b| && b[j] == a[k] {
      assert a[k] in b;
    }
    forall k | 0 <= k < |b| && b[k].enabled ensures exists j :: 0 <= j < |a| && a[j] == b[k] {
      assert b[k] in a;
    }
  }

  lemma ActivePatterns(sp: Spelling, cfg: Config, pattern: string)
    requires cfg.enabled
    ensures pattern in ActiveHostPatterns(sp, cfg, None) <==>
            exists e, h :: e in cfg.modules && e.enabled && h in e.captureHosts && pattern == sp.stored(h)
  {
    var hosts := EnabledHosts(cfg.modules, |cfg.modules|);
    UniqueSortedElements(sp, hosts);
    if pattern in ActiveHostPatterns(sp, cfg, None) {
      var i :| 0 <= i < |hosts| && pattern == sp.stored(hosts[i]);
      EnabledHostsAreCaptures(cfg.modules, |cfg.modules|, hosts[i]);
    }
    if e, h :| e in cfg.modules && e.enabled && h in e.captureHosts && pattern == sp.stored(h) {
      EnabledHostsAreCaptures(cfg.modules, |cfg.modules|, h);
      var i :| 0 <= i < |hosts| && hosts[i] == h;
      UniqueSortedKeeps(sp, hosts, i);
    }
  }

  lemma ReorderedCaptures(sp: Spelling, a: Config, b: Config, host: string)
    requires a.enabled == b.enabled && forall e: Extension :: e.enabled ==> (e in a.modules <==> e in b.modules)
    ensures Captured(sp, a, host) == Captured(sp, b, host)
  {
    if a.enabled {
      forall pattern
        ensures pattern in ActiveHostPatterns(sp, a, None) <==> pattern in ActiveHostPatterns(sp, b, None)
      {
        ActivePatterns(sp, a, pattern);
        ActivePatterns(sp, b, pattern);
      }
      var xs, ys := ActiveHostPatterns(sp, a, None), ActiveHostPatterns(sp, b, None);
      forall k | 0 <= k < |xs| ensures exists j :: 0 <= j < |ys| && ys[j] == xs[k] {
        assert xs[k] in ys;
      }
      forall k | 0 <= k < |ys| ensures exists j :: 0 <= j < |xs| && xs[j] == ys[k] {
        assert ys[k] in xs;
      }
    }
  }
}

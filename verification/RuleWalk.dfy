/**
 * Which actions run, and in which order: the check of the execution order, the compiled walk over it, and the filter
 * that stands in for a second walk once the response status is known.
 */
module RuleWalk {
  import opened Outcomes
  import opened ExtensionConfig
  import opened HostPatterns
  import opened Sequences
  import UpstreamTargets

  // ----- the execution order -----

  datatype OrderError = NotAnArray | WrongLength | UnknownId(id: string) | DuplicateId(id: string)

  function Ids(modules: seq<Extension>): (ids: seq<string>)
    ensures |ids| == |modules| && forall k :: 0 <= k < |modules| ==> ids[k] == modules[k].id
  {
    seq(|modules|, k requires 0 <= k < |modules| => modules[k].id)
  }

  lemma SubsetOfSameSize(a: set<string>, b: set<string>)
    requires a <= b && |a| >= |b|
    ensures a == b
  {
    assert |b - a| == |b| - |a|;
  }

  /**
   * Pigeonhole: distinct known ids, as many as there are extensions, leave no room for two extensions to share an id,
   * nor for one to be missing from the order.
   */
  lemma Pigeonhole(ids: seq<string>, order: seq<string>)
    requires |order| == |ids| && NoDuplicates(order) && forall k :: 0 <= k < |order| ==> order[k] in ids
    ensures NoDuplicates(ids) && Elements(order) == Elements(ids)
  {
    CountElements(order);
    CountElements(ids);
    SubsetOfSameSize(Elements(order), Elements(ids));
  }

  /** The order lists every extension once, and ids tell the extensions apart. */
  ghost predicate IsOrderOf(modules: seq<Extension>, order: seq<string>) {
    && UniqueIds(modules) && NoDuplicates(order)
    && forall id :: id in order <==> id in Ids(modules)
  }

  lemma OrderFromCounts(modules: seq<Extension>, order: seq<string>)
    requires |order| == |modules| && NoDuplicates(order) && forall k :: 0 <= k < |order| ==> order[k] in Ids(modules)
    ensures IsOrderOf(modules, order)
  {
    var ids := Ids(modules);
    Pigeonhole(ids, order);
    assert forall i, j :: 0 <= i < j < |modules| ==> ids[i] != ids[j];
    forall id
      ensures id in order <==> id in ids
    {
      assert id in Elements(order) <==> id in Elements(ids);
    }
  }

  lemma CountsFromOrder(modules: seq<Extension>, order: seq<string>)
    requires IsOrderOf(modules, order)
    ensures |order| == |modules|
  {
    var ids := Ids(modules);
    CountElements(order);
    CountElements(ids);
    forall id
      ensures id in Elements(order) <==> id in Elements(ids)
    {
      assert id in order <==> id in ids;
    }
    assert Elements(order) == Elements(ids);
    assert NoDuplicates(ids);
  }

  method KnownIds(modules: seq<Extension>) returns (known: set<string>)
    ensures forall id :: id in known <==> id in Ids(modules)
  {
    known := {};
    for k := 0 to |modules|
      invariant known == Elements(Ids(modules)[..k])
    {
      ElementsAppend(Ids(modules)[..k], modules[k].id);
      assert Ids(modules)[..k + 1] == Ids(modules)[..k] + [modules[k].id];
      known := known + {modules[k].id};
    }
    assert Ids(modules)[..|modules|] == Ids(modules);
  }

  /** validateExecutionOrder; None stands for a missing array. */
  method ValidateExecutionOrder(modules: seq<Extension>, order: Option<seq<string>>) returns (r: Option<OrderError>)
    ensures r.None? <==> order.Some? && IsOrderOf(modules, order.value)
    ensures r == Some(NotAnArray) <==> order.None?
    ensures r == Some(WrongLength) <==> order.Some? && |order.value| != |modules|
    ensures r.Some? && r.value.UnknownId? ==> r.value.id in order.value && r.value.id !in Ids(modules)
    ensures r.Some? && r.value.DuplicateId? ==>
              exists i, j :: 0 <= i < j < |order.value| && order.value[i] == order.value[j] == r.value.id
  {
    if order.None? {
      return Some(NotAnArray);
    }
    var ids := order.value;
    if |ids| != |modules| {
      if IsOrderOf(modules, ids) {
        CountsFromOrder(modules, ids);
      }
      return Some(WrongLength);
    }
    var known := KnownIds(modules);
    var seen: set<string> := {};
    for k := 0 to |ids|
      invariant seen == Elements(ids[..k])
      invariant forall j :: 0 <= j < k ==> ids[j] in Ids(modules)
      invariant forall i, j :: 0 <= i < j < k ==> ids[i] != ids[j]
    {
      if ids[k] !in known {
        assert ids[k] in ids && ids[k] !in Ids(modules);
        return Some(UnknownId(ids[k]));
      }
      ElementsAppend(ids[..k], ids[k]);
      assert ids[..k + 1] == ids[..k] + [ids[k]];
      if ids[k] in seen {
        return Some(DuplicateId(ids[k]));
      }
      seen := seen + {ids[k]};
    }
    OrderFromCounts(modules, ids);
    return None;
  }

  // ----- the compiled walk -----

  datatype CompiledRule = CompiledRule(rule: ScriptRule, hosts: Matcher)

  datatype CompiledModule = CompiledModule(extension: Extension, rules: seq<CompiledRule>, hosts: Matcher)

  /** What the settings decoder and the regexp, script and jq compilers accept. */
  datatype Compilers = Compilers(settings: Extension -> bool, rule: ScriptRule -> bool)

  /** Later entries win, as when a Go map is filled. */
  function ById(modules: seq<Extension>, n: nat): map<string, Extension>
    requires n <= |modules|
  {
    if n == 0 then map[] else ById(modules, n - 1)[modules[n - 1].id := modules[n - 1]]
  }

  /** The position in the order of each extension the walk visits. */
  function Positions(modules: seq<Extension>, order: seq<string>, n: nat): seq<nat>
    requires n <= |order|
  {
    if n == 0 then []
    else if IsActive(modules, order[n - 1]) then Positions(modules, order, n - 1) + [n - 1]
    else Positions(modules, order, n - 1)
  }

  predicate IsActive(modules: seq<Extension>, id: string) {
    var byId := ById(modules, |modules|);
    id in byId && byId[id].enabled
  }

  /** The extensions the walk visits, in turn. */
  function Visited(modules: seq<Extension>, order: seq<string>, n: nat): seq<Extension>
    requires n <= |order|
  {
    if n == 0 then []
    else if IsActive(modules, order[n - 1]) then
        Visited(modules, order, n - 1) + [ById(modules, |modules|)[order[n - 1]]]
    else Visited(modules, order, n - 1)
  }

  lemma {:induction false} ByIdFinds(modules: seq<Extension>, n: nat)
    requires n <= |modules|
    ensures forall id <- ById(modules, n) :: ById(modules, n)[id].id == id && ById(modules, n)[id] in modules
    ensures forall k :: 0 <= k < n ==> modules[k].id in ById(modules, n)
    ensures UniqueIds(modules) ==> forall k :: 0 <= k < n ==> ById(modules, n)[modules[k].id] == modules[k]
  {
    if n > 0 {
      ByIdFinds(modules, n - 1);
    }
  }

  lemma {:induction false} VisitedAtPositions(modules: seq<Extension>, order: seq<string>, n: nat)
    requires n <= |order|
    ensures var at, visited, byId := Positions(modules, order, n), Visited(modules, order, n), ById(modules, |modules|);
            && |at| == |visited|
            && (forall k :: 0 <= k < |at| ==>
                  at[k] < n && IsActive(modules, order[at[k]]) && visited[k] == byId[order[at[k]]] &&
                      visited[k].id == order[at[k]])
            && (forall i, j :: 0 <= i < j < |at| ==> at[i] < at[j])
            && (forall p: nat :: p < n && IsActive(modules, order[p]) ==> p in at)
  {
    ByIdFinds(modules, |modules|);
    if n > 0 {
      VisitedAtPositions(modules, order, n - 1);
    }
  }

  /** `a` comes before `b` in the order. */
  ghost predicate Precedes(order: seq<string>, a: string, b: string) {
    exists p, q :: 0 <= p < q < |order| && order[p] == a && order[q] == b
  }

  /** An enabled extension of a validated configuration is visited. */
  lemma EnabledIsVisited(modules: seq<Extension>, order: seq<string>, e: Extension)
    requires IsOrderOf(modules, order) && e in modules && e.enabled
    ensures e in Visited(modules, order, |order|)
  {
    var at, visited := Positions(modules, order, |order|), Visited(modules, order, |order|);
    VisitedAtPositions(modules, order, |order|);
    ByIdFinds(modules, |modules|);
    var k :| 0 <= k < |modules| && modules[k] == e;
    assert Ids(modules)[k] == e.id;
    assert e.id in order;
    var p :| 0 <= p < |order| && order[p] == e.id;
    var j :| 0 <= j < |at| && at[j] == p;
    assert visited[j] == e;
  }

  /** The walk visits enabled extensions of the configuration only. */
  lemma VisitedAreEnabled(modules: seq<Extension>, order: seq<string>, k: nat)
    requires k < |Visited(modules, order, |order|)|
    ensures var e := Visited(modules, order, |order|)[k]; e in modules && e.enabled
  {
    VisitedAtPositions(modules, order, |order|);
    ByIdFinds(modules, |modules|);
  }

  /** With a valid order the walk visits every enabled extension exactly once, in that order, and no other. */
  lemma WalkVisitsEachOnce(modules: seq<Extension>, order: seq<string>)
    requires IsOrderOf(modules, order)
    ensures var visited := Visited(modules, order, |order|);
            && (forall e :: e in visited <==> e in modules && e.enabled)
            && (forall i, j :: 0 <= i < j < |visited| ==> visited[i] != visited[j])
            && (forall i, j :: 0 <= i < j < |visited| ==> Precedes(order, visited[i].id, visited[j].id))
  {
    var at, visited := Positions(modules, order, |order|), Visited(modules, order, |order|);
    VisitedAtPositions(modules, order, |order|);
    forall e ensures e in visited <==> e in modules && e.enabled {
      if e in modules && e.enabled {
        EnabledIsVisited(modules, order, e);
      }
      if k :| 0 <= k < |visited| && visited[k] == e {
        VisitedAreEnabled(modules, order, k);
      }
    }
    forall i, j | 0 <= i < j < |visited|
      ensures visited[i] != visited[j] && Precedes(order, visited[i].id, visited[j].id)
    {
      assert order[at[i]] == visited[i].id && order[at[j]] == visited[j].id;
    }
  }

  function OpenRules(scripts: seq<ScriptRule>, n: nat): seq<CompiledRule>
    requires n <= |scripts|
  {
    if n == 0 then []
    else if scripts[n - 1].gateOpen then
        OpenRules(scripts, n - 1) + [CompiledRule(scripts[n - 1], Compile(scripts[n - 1].scope.hosts))]
    else OpenRules(scripts, n - 1)
  }

  function Built(e: Extension): CompiledModule {
    CompiledModule(e, OpenRules(e.scripts, |e.scripts|), Compile(e.captureHosts))
  }

  predicate Accepted(c: Compilers, e: Extension) {
    c.settings(e) && forall k :: 0 <= k < |e.scripts| && e.scripts[k].gateOpen ==> c.rule(e.scripts[k])
  }

  method CompileRules(e: Extension, c: Compilers) returns (r: Option<seq<CompiledRule>>)
    ensures r.Some? <==> forall k :: 0 <= k < |e.scripts| && e.scripts[k].gateOpen ==> c.rule(e.scripts[k])
    ensures r.Some? ==> r.value == OpenRules(e.scripts, |e.scripts|)
  {
    var rules: seq<CompiledRule> := [];
    for k := 0 to |e.scripts|
      invariant rules == OpenRules(e.scripts, k)
      invariant forall j :: 0 <= j < k && e.scripts[j].gateOpen ==> c.rule(e.scripts[j])
    {
      if e.scripts[k].gateOpen {
        if !c.rule(e.scripts[k]) {
          return None;
        }
        var hosts := NewMatcher(e.scripts[k].scope.hosts);
        rules := rules + [CompiledRule(e.scripts[k], hosts)];
      }
    }
    return Some(rules);
  }

  /** The first walk of a compile: extensions by id, the enabled ones' matchers, and the patterns they capture. */
  method IndexModules(cfg: Config)
    returns (byId: map<string, Extension>, hosts: map<string, Matcher>, patterns: seq<string>)
    ensures byId == ById(cfg.modules, |cfg.modules|) && hosts == UpstreamTargets.ModuleHosts(cfg.modules, |cfg.modules|)
    ensures patterns == if cfg.enabled then UpstreamTargets.EnabledHosts(cfg.modules, |cfg.modules|) else []
  {
    byId, hosts, patterns := map[], map[], [];
    var modules := cfg.modules;
    for k := 0 to |modules|
      invariant byId == ById(modules, k) && hosts == UpstreamTargets.ModuleHosts(modules, k)
      invariant patterns == if cfg.enabled then UpstreamTargets.EnabledHosts(modules, k) else []
    {
      byId := byId[modules[k].id := modules[k]];
      if modules[k].enabled {
        var m := NewMatcher(modules[k].captureHosts);
        hosts := hosts[modules[k].id := m];
        if cfg.enabled {
          patterns := patterns + modules[k].captureHosts;
        }
      }
    }
  }

  /** The matcher filed under an active id is the one of the extension filed under it, even where ids repeat. */
  lemma {:induction false} HostsMatchById(modules: seq<Extension>, n: nat, id: string)
    requires n <= |modules| && id in ById(modules, n) && ById(modules, n)[id].enabled
    ensures id in UpstreamTargets.ModuleHosts(modules, n)
    ensures UpstreamTargets.ModuleHosts(modules, n)[id] == Compile(ById(modules, n)[id].captureHosts)
  {
    if modules[n - 1].id != id {
      HostsMatchById(modules, n - 1, id);
    }
  }

  /** What a compile yields: the modules of the walk, and the matchers target decisions run on. */
  datatype CompiledConfig = CompiledConfig(modules: seq<CompiledModule>, runtime: UpstreamTargets.Runtime)

  ghost predicate AllAccepted(c: Compilers, es: seq<Extension>) {
    forall k :: 0 <= k < |es| ==> Accepted(c, es[k])
  }

  ghost predicate AllBuilt(compiled: seq<CompiledModule>, es: seq<Extension>) {
    |compiled| == |es| && forall k :: 0 <= k < |es| ==> compiled[k] == Built(es[k])
  }

  /**
   * Fails exactly when an extension the walk visits is not accepted; otherwise compiles each, in visiting order, and
   * carries the runtime the projection and the reference are proved against.
   */
  method CompileConfig(sp: UpstreamTargets.Spelling, cfg: Config, c: Compilers) returns (r: Option<CompiledConfig>)
    ensures r.Some? <==> AllAccepted(c, Visited(cfg.modules, cfg.executionOrder, |cfg.executionOrder|))
    ensures r.Some? ==> AllBuilt(r.value.modules, Visited(cfg.modules, cfg.executionOrder, |cfg.executionOrder|))
    ensures r.Some? ==> r.value.runtime == UpstreamTargets.CompileConfig(sp, cfg)
  {
    var byId, hosts, patterns := IndexModules(cfg);
    var sorted := UpstreamTargets.UniqueSorted(sp, patterns);
    var matcher := NewMatcher(sorted);
    var modules := CompileVisited(cfg, c, byId, hosts);
    if modules.None? {
      return None;
    }
    return Some(CompiledConfig(modules.value, UpstreamTargets.Runtime(hosts, sorted, matcher)));
  }

  /** The second walk, in execution order. */
  method CompileVisited(cfg: Config, c: Compilers, byId: map<string, Extension>, hosts: map<string, Matcher>)
    returns (r: Option<seq<CompiledModule>>)
    requires byId == ById(cfg.modules, |cfg.modules|) &&
             hosts == UpstreamTargets.ModuleHosts(cfg.modules, |cfg.modules|)
    ensures r.Some? <==> AllAccepted(c, Visited(cfg.modules, cfg.executionOrder, |cfg.executionOrder|))
    ensures r.Some? ==> AllBuilt(r.value, Visited(cfg.modules, cfg.executionOrder, |cfg.executionOrder|))
  {
    var modules, order := cfg.modules, cfg.executionOrder;
    var compiled: seq<CompiledModule> := [];
    for n := 0 to |order|
      invariant AllBuilt(compiled, Visited(modules, order, n)) && AllAccepted(c, Visited(modules, order, n))
    {
      if order[n] in byId && byId[order[n]].enabled {
        var e := byId[order[n]];
        assert Visited(modules, order, n + 1) == Visited(modules, order, n) + [e];
        HostsMatchById(modules, |modules|, order[n]);
        var rules := CompileRules(e, c);
        if !c.settings(e) || rules.None? {
          VisitedGrows(modules, order, n + 1, |order|);
          assert !Accepted(c, Visited(modules, order, n + 1)[|compiled|]);
          return None;
        }
        compiled := compiled + [CompiledModule(e, rules.value, hosts[order[n]])];
      }
    }
    return Some(compiled);
  }

  lemma {:induction false} VisitedGrows(modules: seq<Extension>, order: seq<string>, n: nat, to: nat)
    requires n <= to <= |order|
    ensures Visited(modules, order, n) <= Visited(modules, order, to)
  {
    if n < to {
      VisitedGrows(modules, order, n, to - 1);
    }
  }

  // ----- matching -----

  datatype Matched = Matched(extension: Extension, rule: ScriptRule)

  /** What is known of a message when rules are matched, its host already in canonical form. */
  datatype Probe = Probe(phase: string, host: string, scheme: string, verb: string, path: string)

  /** Everything a rule asks for but the status; `found` is the regexp library's search. */
  predicate Fits(found: (string, string) -> bool, p: Probe, rule: ScriptRule) {
    && rule.phase == p.phase && AnyMatches(rule.scope.hosts, p.host) && p.scheme in rule.scope.schemes
    && (rule.scope.methods == [] || p.verb in rule.scope.methods)
    && found(rule.scope.pathRegex, p.path)
  }

  predicate StatusAllows(rule: ScriptRule, status: int) {
    rule.scope.statusCodes == [] || status in rule.scope.statusCodes
  }

  /** A rule applies; with no status yet, one that names statuses counts as possible. */
  predicate Applies(found: (string, string) -> bool, p: Probe, status: Option<int>, rule: ScriptRule) {
    Fits(found, p, rule) && (status.None? || StatusAllows(rule, status.value))
  }

  /** Every criterion binds, and nothing else does: an empty method or status list leaves that criterion open. */
  lemma AppliesExactly(found: (string, string) -> bool, p: Probe, status: Option<int>, rule: ScriptRule)
    ensures Applies(found, p, status, rule) <==>
            && p.phase == rule.phase && p.scheme in rule.scope.schemes && found(rule.scope.pathRegex, p.path)
            && (exists h <- rule.scope.hosts :: MatchHostPattern(h, p.host))
            && (rule.scope.methods != [] ==> p.verb in rule.scope.methods)
            && (status.Some? && rule.scope.statusCodes != [] ==> status.value in rule.scope.statusCodes)
  {
    var hosts := rule.scope.hosts;
    if h :| h in hosts && MatchHostPattern(h, p.host) {
      var k :| 0 <= k < |hosts| && hosts[k] == h;
      assert AnyMatches(hosts, p.host);
    }
    if AnyMatches(hosts, p.host) {
      var k :| 0 <= k < |hosts| && MatchHostPattern(hosts[k], p.host);
      assert hosts[k] in hosts;
    }
  }

  type Test = ScriptRule -> bool

  function Applicable(found: (string, string) -> bool, p: Probe, status: Option<int>): Test {
    rule => Applies(found, p, status, rule)
  }

  function Captures(host: string): Extension -> bool {
    (e: Extension) => AnyMatches(e.captureHosts, host)
  }

  /** The open rules of one extension that pass a test, in the order they are declared. */
  function Passing(e: Extension, test: Test, n: nat): seq<Matched>
    requires n <= |e.scripts|
  {
    if n == 0 then []
    else if e.scripts[n - 1].gateOpen && test(e.scripts[n - 1]) then
        Passing(e, test, n - 1) + [Matched(e, e.scripts[n - 1])]
    else Passing(e, test, n - 1)
  }

  /** The walk: the extensions that capture the host, each with its passing rules. */
  function Walk(es: seq<Extension>, covers: Extension -> bool, test: Test, n: nat): seq<Matched>
    requires n <= |es|
  {
    if n == 0 then []
    else if covers(es[n - 1]) then Walk(es, covers, test, n - 1) + Passing(es[n - 1], test, |es[n - 1].scripts|)
    else Walk(es, covers, test, n - 1)
  }

  lemma {:induction false} PassingAre(e: Extension, test: Test, n: nat)
    requires n <= |e.scripts|
    ensures forall m :: m in Passing(e, test, n) <==>
              m.extension == e && exists k :: 0 <= k < n && e.scripts[k] == m.rule && m.rule.gateOpen && test(m.rule)
  {
    if n > 0 {
      PassingAre(e, test, n - 1);
    }
  }

  lemma {:induction false} WalkFinds(es: seq<Extension>, covers: Extension -> bool, test: Test, n: nat)
    requires n <= |es|
    ensures forall m :: m in Walk(es, covers, test, n) <==>
              covers(m.extension) && m.rule in m.extension.scripts && m.rule.gateOpen && test(m.rule)
              && exists k :: 0 <= k < n && es[k] == m.extension
  {
    if n > 0 {
      WalkFinds(es, covers, test, n - 1);
      PassingAre(es[n - 1], test, |es[n - 1].scripts|);
    }
  }

  /**
   * For a validated configuration the walk finds exactly the open, applicable rules of the enabled extensions that
   * capture the host.
   */
  lemma WalkFindsExactly(cfg: Config, covers: Extension -> bool, test: Test, m: Matched)
    requires IsOrderOf(cfg.modules, cfg.executionOrder)
    ensures var visited := Visited(cfg.modules, cfg.executionOrder, |cfg.executionOrder|);
            m in Walk(visited, covers, test, |visited|) <==>
            && m.extension in cfg.modules && m.extension.enabled && covers(m.extension)
            && m.rule in m.extension.scripts && m.rule.gateOpen && test(m.rule)
  {
    var visited := Visited(cfg.modules, cfg.executionOrder, |cfg.executionOrder|);
    WalkVisitsEachOnce(cfg.modules, cfg.executionOrder);
    WalkFinds(visited, covers, test, |visited|);
    assert m.extension in visited <==> exists k :: 0 <= k < |visited| && visited[k] == m.extension;
  }

  // ----- the order of what the walk finds, and how often -----

  /**
   * `a` stands before `b` when they come from positions `p <= q` of the walk, and within one extension from rules in
   * order.
   */
  ghost predicate WalksBefore(es: seq<Extension>, a: Matched, b: Matched, n: nat)
    requires n <= |es|
  {
    exists p, q :: 0 <= p <= q < n && es[p] == a.extension && es[q] == b.extension
                   && (p < q || DeclaredBefore(es[p], a.rule, b.rule))
  }

  ghost predicate DeclaredBefore(e: Extension, a: ScriptRule, b: ScriptRule) {
    exists i, j :: 0 <= i < j < |e.scripts| && e.scripts[i] == a && e.scripts[j] == b
  }

  lemma {:induction false} PassingInOrder(e: Extension, test: Test, n: nat, i: nat, j: nat)
    requires n <= |e.scripts| && i < j < |Passing(e, test, n)|
    ensures exists a, b :: && 0 <= a < b < n && e.scripts[a] == Passing(e, test, n)[i].rule
                           && e.scripts[b] == Passing(e, test, n)[j].rule
  {
    var before := Passing(e, test, n - 1);
    if j < |before| {
      PassingInOrder(e, test, n - 1, i, j);
    } else {
      PassingAre(e, test, n - 1);
      assert before[i] in before;
    }
  }

  lemma {:induction false} WalkInOrder(es: seq<Extension>, covers: Extension -> bool, test: Test, n: nat, i: nat,
      j: nat)
    requires n <= |es| && i < j < |Walk(es, covers, test, n)|
    ensures WalksBefore(es, Walk(es, covers, test, n)[i], Walk(es, covers, test, n)[j], n)
  {
    var before, e := Walk(es, covers, test, n - 1), es[n - 1];
    var w, more := Walk(es, covers, test, n), Passing(e, test, |e.scripts|);
    if j < |before| {
      WalkInOrder(es, covers, test, n - 1, i, j);
    } else {
      assert w == before + more;
      PassingAre(e, test, |e.scripts|);
      assert more[j - |before|] in more;
      if i < |before| {
        WalkFinds(es, covers, test, n - 1);
        assert before[i] in before;
        var p :| 0 <= p < n - 1 && es[p] == w[i].extension;
        assert p < n - 1 && es[n - 1] == w[j].extension;
      } else {
        assert more[i - |before|] in more;
        PassingInOrder(e, test, |e.scripts|, i - |before|, j - |before|);
        assert DeclaredBefore(es[n - 1], w[i].rule, w[j].rule);
      }
    }
  }

  /** A passing rule is found as often as it is declared. */
  lemma {:induction false} PassingCounts(e: Extension, test: Test, n: nat, m: Matched)
    requires n <= |e.scripts|
    ensures multiset(Passing(e, test, n))[m] ==
            if m.extension == e && m.rule.gateOpen && test(m.rule) then multiset(e.scripts[..n])[m.rule] else 0
  {
    if n > 0 {
      PassingCounts(e, test, n - 1, m);
      assert e.scripts[..n] == e.scripts[..n - 1] + [e.scripts[n - 1]];
    }
  }

  lemma {:induction false} WalkCounts(es: seq<Extension>, covers: Extension -> bool, test: Test, n: nat, m: Matched)
    requires n <= |es| && forall i, j :: 0 <= i < j < |es| ==> es[i] != es[j]
    ensures multiset(Walk(es, covers, test, n))[m] ==
            if m.extension in es[..n] && covers(m.extension) && m.rule.gateOpen && test(m.rule)
            then multiset(m.extension.scripts)[m.rule] else 0
  {
    if n > 0 {
      var e := es[n - 1];
      WalkCounts(es, covers, test, n - 1, m);
      PassingCounts(e, test, |e.scripts|, m);
      assert e.scripts[..|e.scripts|] == e.scripts;
      assert es[..n] == es[..n - 1] + [e];
      assert e !in es[..n - 1];
    }
  }

  /**
   * The matches of a validated configuration stand in execution order, the rules of one extension in the order they are
   * declared, and each open, applicable rule of an enabled extension that captures the host as often as it is declared.
   */
  lemma MatchesInExecutionOrder(cfg: Config, covers: Extension -> bool, test: Test)
    requires IsOrderOf(cfg.modules, cfg.executionOrder)
    ensures var visited := Visited(cfg.modules, cfg.executionOrder, |cfg.executionOrder|);
            var r := Walk(visited, covers, test, |visited|);
            && (forall i, j :: 0 <= i < j < |r| ==>
                  || Precedes(cfg.executionOrder, r[i].extension.id, r[j].extension.id)
                  || (r[i].extension == r[j].extension && DeclaredBefore(r[i].extension, r[i].rule, r[j].rule)))
            && (forall m: Matched :: multiset(r)[m] ==
                  if m.extension in cfg.modules && m.extension.enabled && covers(m.extension)
                     && m.rule.gateOpen && test(m.rule)
                  then multiset(m.extension.scripts)[m.rule] else 0)
  {
    var visited := Visited(cfg.modules, cfg.executionOrder, |cfg.executionOrder|);
    var r := Walk(visited, covers, test, |visited|);
    WalkVisitsEachOnce(cfg.modules, cfg.executionOrder);
    forall i, j | 0 <= i < j < |r|
      ensures || Precedes(cfg.executionOrder, r[i].extension.id, r[j].extension.id)
              || (r[i].extension == r[j].extension && DeclaredBefore(r[i].extension, r[i].rule, r[j].rule))
    {
      WalkInOrder(visited, covers, test, |visited|, i, j);
    }
    forall m: Matched
      ensures multiset(r)[m] ==
              if m.extension in cfg.modules && m.extension.enabled && covers(m.extension)
                 && m.rule.gateOpen && test(m.rule)
              then multiset(m.extension.scripts)[m.rule] else 0
    {
      WalkCounts(visited, covers, test, |visited|, m);
      assert visited[..|visited|] == visited;
    }
  }

  function PassingCompiled(e: Extension, rules: seq<CompiledRule>, test: Test, n: nat): seq<Matched>
    requires n <= |rules|
  {
    if n == 0 then []
    else if test(rules[n - 1].rule) then PassingCompiled(e, rules, test, n - 1) + [Matched(e, rules[n - 1].rule)]
    else PassingCompiled(e, rules, test, n - 1)
  }

  lemma {:induction false} OpenRulesHosts(scripts: seq<ScriptRule>, n: nat)
    requires n <= |scripts|
    ensures forall r <- OpenRules(scripts, n) :: r.hosts == Compile(r.rule.scope.hosts)
  {
    if n > 0 {
      OpenRulesHosts(scripts, n - 1);
    }
  }

  lemma {:induction false} PassingPrefix(e: Extension, rules: seq<CompiledRule>, last: CompiledRule, test: Test, n: nat)
    requires n <= |rules|
    ensures PassingCompiled(e, rules + [last], test, n) == PassingCompiled(e, rules, test, n)
  {
    if n > 0 {
      PassingPrefix(e, rules, last, test, n - 1);
    }
  }

  /** Dropping closed gates at compile time changes nothing about what passes. */
  lemma {:induction false} CompiledPass(e: Extension, test: Test, n: nat)
    requires n <= |e.scripts|
    ensures var rules := OpenRules(e.scripts, n); PassingCompiled(e, rules, test, |rules|) == Passing(e, test, n)
  {
    if n > 0 {
      CompiledPass(e, test, n - 1);
      var before := OpenRules(e.scripts, n - 1);
      PassingPrefix(e, before, CompiledRule(e.scripts[n - 1], Compile(e.scripts[n - 1].scope.hosts)), test, |before|);
    }
  }

  method MatchModule(m: CompiledModule, found: (string, string) -> bool, p: Probe,
      status: Option<int>) returns (r: seq<Matched>)
    requires m == Built(m.extension)
    ensures r == Passing(m.extension, Applicable(found, p, status), |m.extension.scripts|)
  {
    var test: Test := Applicable(found, p, status);
    r := [];
    OpenRulesHosts(m.extension.scripts, |m.extension.scripts|);
    for k := 0 to |m.rules|
      invariant r == PassingCompiled(m.extension, m.rules, test, k)
    {
      var rule := m.rules[k].rule;
      assert m.rules[k] in OpenRules(m.extension.scripts, |m.extension.scripts|);
      CompiledMatchesScan(rule.scope.hosts, p.host);
      if rule.phase != p.phase || !MatchCanonical(m.rules[k].hosts, p.host) || p.scheme !in rule.scope.schemes {
        continue;
      }
      if |rule.scope.methods| > 0 && p.verb !in rule.scope.methods {
        continue;
      }
      if status.Some? && |rule.scope.statusCodes| > 0 && status.value !in rule.scope.statusCodes {
        continue;
      }
      if found(rule.scope.pathRegex, p.path) {
        r := r + [Matched(m.extension, rule)];
      }
    }
    CompiledPass(m.extension, test, |m.extension.scripts|);
  }

  /** matchingScriptRulesParsed over a compiled configuration: the walk over its extensions. */
  method MatchingRules(compiled: seq<CompiledModule>, found: (string, string) -> bool, p: Probe, status: Option<int>)
    returns (r: seq<Matched>)
    requires forall k :: 0 <= k < |compiled| ==> compiled[k] == Built(compiled[k].extension)
    ensures var es := seq(|compiled|, k requires 0 <= k < |compiled| => compiled[k].extension);
            r == Walk(es, Captures(p.host), Applicable(found, p, status), |es|)
  {
    ghost var es := seq(|compiled|, k requires 0 <= k < |compiled| => compiled[k].extension);
    r := [];
    for k := 0 to |compiled|
      invariant r == Walk(es, Captures(p.host), Applicable(found, p, status), k)
    {
      CompiledMatchesScan(compiled[k].extension.captureHosts, p.host);
      if MatchCanonical(compiled[k].hosts, p.host) {
        var more := MatchModule(compiled[k], found, p, status);
        r := r + more;
      }
    }
  }

  /**
   * Without a prepared runtime the configuration is compiled on the spot; nothing matches one that does not compile.
   */
  method MatchingScriptRules(
    sp: UpstreamTargets.Spelling, cfg: Config, c: Compilers, found: (string, string) -> bool, p: Probe,
        status: Option<int>)
    returns (r: seq<Matched>)
    ensures var visited := Visited(cfg.modules, cfg.executionOrder, |cfg.executionOrder|);
            r == if AllAccepted(c, visited) then
                Walk(visited, Captures(p.host), Applicable(found, p, status), |visited|) else []
  {
    ghost var visited := Visited(cfg.modules, cfg.executionOrder, |cfg.executionOrder|);
    var compiled := CompileConfig(sp, cfg, c);
    if compiled.None? {
      return [];
    }
    var modules := compiled.value.modules;
    r := MatchingRules(modules, found, p, status);
    assert seq(|visited|, k requires 0 <= k < |visited| => modules[k].extension) == visited;
  }

  // ----- the status filter -----

  function Kept(s: seq<Matched>, status: int, n: nat): seq<Matched>
    requires n <= |s|
  {
    if n == 0 then []
    else if StatusAllows(s[n - 1].rule, status) then Kept(s, status, n - 1) + [s[n - 1]]
    else Kept(s, status, n - 1)
  }

  lemma {:induction false} KeptJoin(a: seq<Matched>, b: seq<Matched>, status: int, n: nat)
    requires n <= |b|
    ensures Kept(a + b, status, |a| + n) == Kept(a, status, |a|) + Kept(b, status, n)
  {
    if n > 0 {
      KeptJoin(a, b, status, n - 1);
    } else {
      KeptPrefix(a, b, status, |a|);
    }
  }

  lemma {:induction false} KeptPrefix(a: seq<Matched>, b: seq<Matched>, status: int, n: nat)
    requires n <= |a|
    ensures Kept(a + b, status, n) == Kept(a, status, n)
  {
    if n > 0 {
      KeptPrefix(a, b, status, n - 1);
    }
  }

  lemma {:induction false} KeptPassing(e: Extension, before: Test, after: Test, status: int, n: nat)
    requires n <= |e.scripts| && forall rule :: after(rule) <==> before(rule) && StatusAllows(rule, status)
    ensures var all := Passing(e, before, n); Kept(all, status, |all|) == Passing(e, after, n)
  {
    if n > 0 {
      KeptPassing(e, before, after, status, n - 1);
      var all, last := Passing(e, before, n - 1), [Matched(e, e.scripts[n - 1])];
      KeptJoin(all, last, status, 1);
    }
  }

  lemma {:induction false} KeptWalk(es: seq<Extension>, covers: Extension -> bool, before: Test, after: Test,
      status: int, n: nat)
    requires n <= |es| && forall rule :: after(rule) <==> before(rule) && StatusAllows(rule, status)
    ensures var all := Walk(es, covers, before, n); Kept(all, status, |all|) == Walk(es, covers, after, n)
  {
    if n > 0 {
      KeptWalk(es, covers, before, after, status, n - 1);
      var e := es[n - 1];
      var all, more := Walk(es, covers, before, n - 1), Passing(e, before, |e.scripts|);
      KeptJoin(all, more, status, |more|);
      KeptPassing(e, before, after, status, |e.scripts|);
    }
  }

  /** Filtering the status-agnostic match is, element by element, a fresh walk that knows the status. */
  lemma FilterIsFreshWalk(es: seq<Extension>, covers: Extension -> bool, found: (string, string) -> bool, p: Probe,
      status: int)
    ensures var candidates := Walk(es, covers, Applicable(found, p, None), |es|);
            Kept(candidates, status, |candidates|) == Walk(es, covers, Applicable(found, p, Some(status)), |es|)
  {
    KeptWalk(es, covers, Applicable(found, p, None), Applicable(found, p, Some(status)), status, |es|);
  }

  lemma {:induction false} KeptAll(s: seq<Matched>, status: int, n: nat)
    requires n <= |s|
    ensures |Kept(s, status, n)| <= n
    ensures (forall k :: 0 <= k < n ==> StatusAllows(s[k].rule, status)) ==> Kept(s, status, n) == s[..n]
  {
    if n > 0 {
      KeptAll(s, status, n - 1);
    }
  }

  /**
   * responseRulesForStatus: copies only from the first rejected candidate on, and hands back the candidates themselves
   * when none is. The candidates are never written to: nothing that existed before is modified.
   */
  method ResponseRulesForStatus(candidates: array<Matched>, status: int) returns (rules: array<Matched>, count: nat)
    ensures count <= rules.Length && rules[..count] == Kept(candidates[..], status, candidates.Length)
    ensures if forall k :: 0 <= k < candidates.Length ==> StatusAllows(candidates[k].rule, status)
            then rules == candidates && count == candidates.Length
            else fresh(rules) && count < candidates.Length
  {
    var filtered: array?<Matched> := null;
    count := 0;
    ghost var all := candidates[..];
    for k := 0 to candidates.Length
      invariant filtered == null ==> count == 0 && forall j :: 0 <= j < k ==> StatusAllows(candidates[j].rule, status)
      invariant filtered != null ==> fresh(filtered) && filtered.Length == candidates.Length && count < k
      invariant filtered != null ==> filtered[..count] == Kept(all, status, k)
      invariant filtered != null ==> exists j :: 0 <= j < k && !StatusAllows(candidates[j].rule, status)
    {
      KeptAll(all, status, k);
      var candidate := candidates[k];
      if |candidate.rule.scope.statusCodes| > 0 && status !in candidate.rule.scope.statusCodes {
        if filtered == null {
          filtered, count := CopyOfFirst(candidates, k);
        }
      } else if filtered != null {
        filtered[count] := candidate;
        count := count + 1;
        assert filtered[..count] == filtered[..count - 1] + [candidate];
      }
    }
    if filtered == null {
      KeptAll(all, status, |all|);
      return candidates, candidates.Length;
    }
    rules := filtered;
  }

  method CopyOfFirst(a: array<Matched>, n: nat) returns (copy: array<Matched>, count: nat)
    requires n < a.Length
    ensures fresh(copy) && copy.Length == a.Length && count == n && copy[..n] == a[..n]
  {
    var filler := a[n];
    copy := new Matched[a.Length](_ => filler);
    for k := 0 to n
      invariant copy[..k] == a[..k]
    {
      copy[k] := a[k];
      assert copy[..k + 1] == copy[..k] + [a[k]];
    }
    count := n;
  }
}

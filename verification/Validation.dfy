/**
 * What validation demands of a configuration, as far as hosts, mappings and the execution order go: the results about
 * every configuration the code can receive range over these.
 */
module Validation {
  import opened HostPatterns
  import opened ExtensionConfig
  import opened StringOrder
  import RuleWalk

  predicate HostCoveredBy(patterns: seq<string>, candidate: string) {
    exists k :: 0 <= k < |patterns| && HostPatternCovers(patterns[k], candidate)
  }

  /** The check of a mapping's own two fields; the source's is validHostPattern and validHostTarget. */
  type FieldCheck = HostMapping -> bool

  predicate ValidMapping(captureHosts: seq<string>, m: HostMapping, valid: FieldCheck) {
    valid(m) && HostCoveredBy(captureHosts, m.pattern)
  }

  predicate ValidMappings(captureHosts: seq<string>, mappings: seq<HostMapping>, valid: FieldCheck) {
    && (forall k :: 0 <= k < |mappings| ==> ValidMapping(captureHosts, mappings[k], valid))
    && (forall j, k :: 0 <= j < k < |mappings| ==> mappings[j].pattern != mappings[k].pattern)
  }

  /** `m` is a mapping of an enabled extension. */
  predicate Active(modules: seq<Extension>, m: HostMapping) {
    exists n :: 0 <= n < |modules| && modules[n].enabled && m in modules[n].mappings
  }

  /** Enabled extensions never map one pattern to two targets. */
  ghost predicate ConflictFree(modules: seq<Extension>) {
    forall a, b :: Active(modules, a) && Active(modules, b) && a.pattern == b.pattern ==> a.target == b.target
  }

  predicate Sorted(values: seq<string>) {
    forall j, k :: 0 <= j < k < |values| ==> !Less(values[k], values[j])
  }

  /** A capture host as the document may spell it; `canonical` is the source's canonicalHost. */
  predicate ValidCapture(canonical: string -> string, host: string) {
    ValidHostPattern(host) && canonical(host) == host
  }

  predicate ValidCaptures(canonical: string -> string, hosts: seq<string>) {
    && 0 < |hosts| <= 512 && Sorted(hosts)
    && forall k :: 0 <= k < |hosts| ==> ValidCapture(canonical, hosts[k])
  }

  /** An action names hosts, each valid and inside what its extension captures. */
  predicate ValidRuleHosts(captureHosts: seq<string>, rule: ScriptRule) {
    && rule.scope.hosts != []
    && forall k :: 0 <= k < |rule.scope.hosts| ==>
         ValidHostPattern(rule.scope.hosts[k]) && HostCoveredBy(captureHosts, rule.scope.hosts[k])
  }

  predicate ValidExtension(canonical: string -> string, valid: FieldCheck, e: Extension) {
    && 3 <= |e.id| <= 40 && ValidCaptures(canonical, e.captureHosts)
    && 1 <= |e.scripts| + |e.mappings| <= 256
    && ValidMappings(e.captureHosts, e.mappings, valid)
    && forall k :: 0 <= k < |e.scripts| ==> ValidRuleHosts(e.captureHosts, e.scripts[k])
  }

  /** A configuration validation lets through. */
  ghost predicate Admissible(canonical: string -> string, valid: FieldCheck, cfg: Config) {
    && RuleWalk.IsOrderOf(cfg.modules, cfg.executionOrder)
    && (forall n :: 0 <= n < |cfg.modules| ==> ValidExtension(canonical, valid, cfg.modules[n]))
    && ConflictFree(cfg.modules)
  }

  /** One extension's mappings cannot conflict: validation refuses a repeated pattern. */
  lemma OneExtensionConflictFree(e: Extension, valid: FieldCheck)
    requires ValidMappings(e.captureHosts, e.mappings, valid)
    ensures ConflictFree([e])
  {
    forall a, b | Active([e], a) && Active([e], b) && a.pattern == b.pattern
      ensures a == b
    {
      var i :| 0 <= i < |e.mappings| && e.mappings[i] == a;
      var j :| 0 <= j < |e.mappings| && e.mappings[j] == b;
    }
  }

  /** A configuration of one valid extension is admissible. */
  lemma OneExtensionAdmissible(canonical: string -> string, valid: FieldCheck, cfg: Config)
    requires |cfg.modules| == 1 && cfg.executionOrder == [cfg.modules[0].id]
    requires ValidExtension(canonical, valid, cfg.modules[0])
    ensures Admissible(canonical, valid, cfg)
  {
    assert cfg.modules == [cfg.modules[0]];
    assert RuleWalk.Ids(cfg.modules) == cfg.executionOrder;
    OneExtensionConflictFree(cfg.modules[0], valid);
  }
}

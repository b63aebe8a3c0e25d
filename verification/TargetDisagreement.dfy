/**
 * Where the compiled projection and the naive reference part ways: the projection canonicalises a host once less often
 * when it falls back to dialling the host itself. Which hosts that shows on is settled exactly, over the configurations
 * validation lets through.
 */
module TargetDisagreement {
  import opened Outcomes
  import opened HostPatterns
  import opened ExtensionConfig
  import opened UpstreamTargets
  import opened Validation

  function RuntimeOf(sp: Spelling, cfg: Config, compiled: bool): Option<Runtime> {
    if compiled then Some(CompileConfig(sp, cfg)) else None
  }

  /**
   * An admissible configuration on which the two sides, each with its runtime or without, answer a host differently.
   */
  ghost predicate Separates(
    sp: Spelling, valid: FieldCheck, cfg: Config, compiled: bool, otherCompiled: bool, rawHost: string,
        portText: string)
  {
    && Admissible(sp.canonical, valid, cfg)
    && UpstreamTarget(sp, Project(sp, cfg, RuntimeOf(sp, cfg, compiled)), rawHost, portText) !=
       ReferenceTarget(sp, cfg, RuntimeOf(sp, cfg, otherCompiled), rawHost, portText)
  }

  /** Some capture host a document may name, as the active set stores it, matches the host. */
  ghost predicate Capturable(sp: Spelling, host: string) {
    exists pattern :: CaptureMatches(sp, pattern, host)
  }

  // ----- a host that shows it -----

  /** An extension with one action that captures one pattern and maps nothing. */
  function Capturing(pattern: string): Config {
    var scope := RuleMatch([pattern], ["https"], [], [], "^/");
    var rule := ScriptRule("act", "request", scope, true, "none", 1024);
    Config(true, false, Proxy("", "", ""), [Extension("ext", true, [pattern], [], false, [rule])], ["ext"])
  }

  lemma CapturingAdmissible(sp: Spelling, valid: FieldCheck, pattern: string)
    requires ValidCapture(sp.canonical, pattern)
    ensures Admissible(sp.canonical, valid, Capturing(pattern))
  {
    var e := Capturing(pattern).modules[0];
    assert HostPatternCovers(e.captureHosts[0], pattern);
    assert ValidRuleHosts(e.captureHosts, e.scripts[0]);
    OneExtensionAdmissible(sp.canonical, valid, Capturing(pattern));
  }

  lemma CapturingPatterns(sp: Spelling, pattern: string)
    ensures ActiveHostPatterns(sp, Capturing(pattern), None) == [sp.stored(pattern)]
  {
    var modules := Capturing(pattern).modules;
    assert EnabledHosts(modules, 1) == EnabledHosts(modules, 0) + [pattern];
    assert EnabledHosts(modules, 1) == [pattern] && [pattern][..0] == [];
    assert UniqueSorted(sp, [pattern]) == InsertSorted(UniqueSorted(sp, []), sp.stored(pattern));
  }

  lemma CapturingMapsNothing(sp: Spelling, pattern: string, host: string)
    ensures OwnedMappings(sp, Project(sp, Capturing(pattern), None).modules, host) == []
    ensures ReferenceMappings(sp, Capturing(pattern).modules, None, 1, host) == []
  {
    var modules := Capturing(pattern).modules;
    var only := ProjectedModule(Compile([pattern]), []);
    assert ProjectModules(modules, None, 1) == ProjectModules(modules, None, 0) + [only];
    OwnedStep(sp, [], only, host);
    assert ReferenceMappings(sp, modules, None, 0, host) == [];
  }

  lemma CapturingAnswers(sp: Spelling, pattern: string, rawHost: string)
    requires MatchHostPattern(sp.stored(pattern), sp.canonical(sp.canonical(rawHost)))
    ensures UpstreamTarget(sp, Project(sp, Capturing(pattern), None), rawHost, "443") ==
            Some(Target(sp.canonical(rawHost), 443))
    ensures ReferenceTarget(sp, Capturing(pattern), None, rawHost, "443") ==
            Some(Target(sp.canonical(sp.canonical(rawHost)), 443))
  {
    var host := sp.canonical(rawHost);
    var stored := [sp.stored(pattern)];
    PortText443();
    CapturingPatterns(sp, pattern);
    assert MatchHostPattern(stored[0], sp.canonical(host));
    CompiledMatchesScan(stored, sp.canonical(host));
    CapturingMapsNothing(sp, pattern, host);
    CapturingMapsNothing(sp, pattern, sp.canonical(host));
  }

  lemma CapturingSeparates(
    sp: Spelling, valid: FieldCheck, pattern: string, compiled: bool, otherCompiled: bool, rawHost: string)
    requires ValidCapture(sp.canonical, pattern)
    requires MatchHostPattern(sp.stored(pattern), sp.canonical(sp.canonical(rawHost)))
    requires sp.canonical(sp.canonical(rawHost)) != sp.canonical(rawHost)
    ensures Separates(sp, valid, Capturing(pattern), compiled, otherCompiled, rawHost, "443")
  {
    var cfg := Capturing(pattern);
    CapturingAdmissible(sp, valid, pattern);
    CapturingAnswers(sp, pattern, rawHost);
    ProjectionIgnoresRuntime(sp, cfg, RuntimeOf(sp, cfg, compiled));
    ReferenceIgnoresRuntime(sp, cfg, RuntimeOf(sp, cfg, otherCompiled), rawHost, "443");
  }

  // ----- and no other host does -----

  lemma ActivePatternIsValid(sp: Spelling, valid: FieldCheck, cfg: Config, pattern: string)
    requires Admissible(sp.canonical, valid, cfg) && pattern in ActiveHostPatterns(sp, cfg, None)
    ensures exists host :: ValidCapture(sp.canonical, host) && sp.stored(host) == pattern
  {
    var hosts := EnabledHosts(cfg.modules, |cfg.modules|);
    UniqueSortedElements(sp, hosts);
    var i :| 0 <= i < |hosts| && pattern == sp.stored(hosts[i]);
    EnabledHostsAreCaptures(cfg.modules, |cfg.modules|, hosts[i]);
    var k :| 0 <= k < |cfg.modules| && cfg.modules[k].enabled && hosts[i] in cfg.modules[k].captureHosts;
    assert ValidExtension(sp.canonical, valid, cfg.modules[k]);
    var j :| 0 <= j < |cfg.modules[k].captureHosts| && cfg.modules[k].captureHosts[j] == hosts[i];
    assert ValidCapture(sp.canonical, cfg.modules[k].captureHosts[j]);
  }

  lemma DisagreementMeansCaptured(
    sp: Spelling, valid: FieldCheck, cfg: Config, compiled: bool, otherCompiled: bool, rawHost: string,
        portText: string)
    requires Separates(sp, valid, cfg, compiled, otherCompiled, rawHost, portText)
    ensures sp.canonical(sp.canonical(rawHost)) != sp.canonical(rawHost)
    ensures Capturable(sp, sp.canonical(sp.canonical(rawHost)))
  {
    var host := sp.canonical(rawHost);
    ProjectionIgnoresRuntime(sp, cfg, RuntimeOf(sp, cfg, compiled));
    ReferenceIgnoresRuntime(sp, cfg, RuntimeOf(sp, cfg, otherCompiled), rawHost, portText);
    if sp.canonical(host) == host {
      ProjectionRefinesReference(sp, cfg, None, None, rawHost, portText);
      assert false;
    }
    ActiveAgrees(sp, cfg, None, None, host);
    var patterns := ActiveHostPatterns(sp, cfg, None);
    assert AnyMatches(patterns, sp.canonical(host));
    var k :| 0 <= k < |patterns| && MatchHostPattern(patterns[k], sp.canonical(host));
    ActivePatternIsValid(sp, valid, cfg, patterns[k]);
    var pattern :| ValidCapture(sp.canonical, pattern) && sp.stored(pattern) == patterns[k];
    assert CaptureMatches(sp, pattern, sp.canonical(host));
  }

  /**
   * Exactly the hosts some admissible configuration separates the two on: those a second canonicalisation still
   * changes, and whose settled form a valid capture host matches.
   */
  lemma DisagreementExactly(sp: Spelling, valid: FieldCheck, compiled: bool, otherCompiled: bool, rawHost: string)
    ensures (exists cfg, portText :: Separates(sp, valid, cfg, compiled, otherCompiled, rawHost, portText)) <==>
            && sp.canonical(sp.canonical(rawHost)) != sp.canonical(rawHost)
            && Capturable(sp, sp.canonical(sp.canonical(rawHost)))
  {
    if cfg, portText :| Separates(sp, valid, cfg, compiled, otherCompiled, rawHost, portText) {
      DisagreementMeansCaptured(sp, valid, cfg, compiled, otherCompiled, rawHost, portText);
    } else if && sp.canonical(sp.canonical(rawHost)) != sp.canonical(rawHost)
              && Capturable(sp, sp.canonical(sp.canonical(rawHost))) {
      CapturableDisagrees(sp, valid, compiled, otherCompiled, rawHost);
    }
  }

  /** A valid capture host that matches `host`. */
  predicate CaptureMatches(sp: Spelling, pattern: string, host: string) {
    ValidCapture(sp.canonical, pattern) && MatchHostPattern(sp.stored(pattern), host)
  }

  lemma CaptureDisagrees(
    sp: Spelling, valid: FieldCheck, compiled: bool, otherCompiled: bool, rawHost: string, pattern: string)
    requires sp.canonical(sp.canonical(rawHost)) != sp.canonical(rawHost)
    requires CaptureMatches(sp, pattern, sp.canonical(sp.canonical(rawHost)))
    ensures exists cfg, portText :: Separates(sp, valid, cfg, compiled, otherCompiled, rawHost, portText)
  {
    CapturingSeparates(sp, valid, pattern, compiled, otherCompiled, rawHost);
  }

  lemma CapturableDisagrees(sp: Spelling, valid: FieldCheck, compiled: bool, otherCompiled: bool, rawHost: string)
    requires sp.canonical(sp.canonical(rawHost)) != sp.canonical(rawHost)
    requires Capturable(sp, sp.canonical(sp.canonical(rawHost)))
    ensures exists cfg, portText :: Separates(sp, valid, cfg, compiled, otherCompiled, rawHost, portText)
  {
    var pattern :| CaptureMatches(sp, pattern, sp.canonical(sp.canonical(rawHost)));
    CaptureDisagrees(sp, valid, compiled, otherCompiled, rawHost, pattern);
  }

  // ----- for the source's own spelling the condition can be read off the host -----

  /** The host itself, or `*` and what follows one of its dots, is a valid capture host. */
  predicate HasValidCapture(host: string) {
    || ValidCapture(CanonicalHost, host)
    || exists i {:trigger host[i..]} :: 0 < i < |host| && host[i] == '.' && ValidCapture(CanonicalHost, "*" + host[i..])
  }

  lemma {:induction false} TrimLeftKeeps(s: string)
    ensures |TrimLeft(s)| <= |s| && (|TrimLeft(s)| == |s| ==> TrimLeft(s) == s)
  {
    if s != [] && IsSpace(s[0]) {
      TrimLeftKeeps(s[1..]);
    }
  }

  lemma {:induction false} TrimRightKeeps(s: string)
    ensures |TrimRight(s)| <= |s| && (|TrimRight(s)| == |s| ==> TrimRight(s) == s)
  {
    if s != [] && IsSpace(s[|s| - 1]) {
      TrimRightKeeps(s[..|s| - 1]);
    }
  }

  /** A canonical host is stored as it is. */
  lemma CanonicalIsStored(host: string)
    requires CanonicalHost(host) == host
    ensures StoredPattern(host) == host
  {
    TrimLeftKeeps(host);
    TrimRightKeeps(TrimLeft(host));
  }

  /** A wildcard that matches a host is `*` and a tail of the host that starts at a dot. */
  lemma MatchingPatternIsTail(pattern: string, host: string)
    requires MatchHostPattern(pattern, host) && pattern != host
    ensures exists i {:trigger host[i..]} :: 0 < i < |host| && host[i] == '.' && pattern == "*" + host[i..]
  {
    var suffix := TrimPrefix(pattern, "*.");
    var i := |host| - |suffix| - 1;
    assert pattern == "*." + suffix;
    assert host[i..] == "." + suffix;
    assert "*" + host[i..] == "*." + suffix;
    assert host[i] == host[i..][0];
  }

  lemma TailMatches(host: string, i: nat)
    requires 0 < i < |host| && host[i] == '.'
    ensures MatchHostPattern("*" + host[i..], host)
  {
    var pattern := "*" + host[i..];
    assert pattern[..2] == "*." && pattern[2..] == host[i + 1..];
    assert "." + host[i + 1..] == host[i..];
  }

  lemma CapturableHasCapture(host: string, pattern: string)
    requires CaptureMatches(SourceSpelling, pattern, host)
    ensures HasValidCapture(host)
  {
    CanonicalIsStored(pattern);
    if pattern != host {
      MatchingPatternIsTail(pattern, host);
    }
  }

  lemma CanonicalCaptures(pattern: string, host: string)
    requires ValidCapture(CanonicalHost, pattern) && MatchHostPattern(pattern, host)
    ensures Capturable(SourceSpelling, host)
  {
    CanonicalIsStored(pattern);
    assert CaptureMatches(SourceSpelling, pattern, host);
  }

  lemma CapturableExactly(host: string)
    ensures Capturable(SourceSpelling, host) <==> HasValidCapture(host)
  {
    if pattern :| CaptureMatches(SourceSpelling, pattern, host) {
      CapturableHasCapture(host, pattern);
    } else if ValidCapture(CanonicalHost, host) {
      SelfMatch(host);
      CanonicalCaptures(host, host);
    } else if HasValidCapture(host) {
      var i :| 0 < i < |host| && host[i] == '.' && ValidCapture(CanonicalHost, "*" + host[i..]);
      TailMatches(host, i);
      CanonicalCaptures("*" + host[i..], host);
    }
  }

  /** The source's own two functions: what a caller can check of the host before the call. */
  lemma SourceDisagreementExactly(valid: FieldCheck, compiled: bool, otherCompiled: bool, rawHost: string)
    ensures (exists cfg, portText ::
            Separates(SourceSpelling, valid, cfg, compiled, otherCompiled, rawHost, portText)) <==>
            && CanonicalHost(CanonicalHost(rawHost)) != CanonicalHost(rawHost)
            && HasValidCapture(CanonicalHost(CanonicalHost(rawHost)))
  {
    DisagreementExactly(SourceSpelling, valid, compiled, otherCompiled, rawHost);
    CapturableExactly(CanonicalHost(CanonicalHost(rawHost)));
  }

  /** Without spaces, upper case or a port, canonicalising only removes a trailing dot. */
  lemma PlainNameCanonical(host: string)
    requires host != [] && ':' !in host
    requires forall k :: 0 <= k < |host| ==> !IsSpace(host[k]) && LowerChar(host[k]) == host[k]
    ensures CanonicalHost(host) == TrimSuffix(host, ".")
  {
    assert TrimLeft(host) == host && TrimRight(host) == host;
    assert Lower(host) == host;
  }

  lemma TrimOneDot(host: string)
    ensures TrimSuffix(host + ".", ".") == host
    ensures host != [] && host[|host| - 1] != '.' ==> TrimSuffix(host, ".") == host
  {
    assert (host + ".")[|host|..] == "." && (host + ".")[..|host|] == host;
    assert host != [] ==> host[|host| - 1..][0] == host[|host| - 1];
  }

  lemma PlainNameIsCanonical(host: string)
    requires host != [] && host[|host| - 1] != '.' && ':' !in host
    requires forall k :: 0 <= k < |host| ==> !IsSpace(host[k]) && LowerChar(host[k]) == host[k]
    ensures CanonicalHost(host) == host && CanonicalHost(host + ".") == host &&
            CanonicalHost(host + "." + ".") == host + "."
  {
    TrimOneDot(host);
    TrimOneDot(host + ".");
    PlainNameCanonical(host);
    PlainNameCanonical(host + ".");
    PlainNameCanonical(host + "." + ".");
  }

  lemma {:induction false} LastColon(name: string, port: string)
    requires ':' !in port
    ensures AfterLast(name + ":" + port, ':') == |name| + 1
  {
    var s := name + ":" + port;
    if port != [] {
      var n := |port| - 1;
      assert s[..|s| - 1] == name + ":" + port[..n];
      LastColon(name, port[..n]);
    }
  }

  lemma JoinedIsPlain(name: string, port: string)
    requires forall k :: 0 <= k < |name| ==> PlainChar(name[k])
    requires forall k :: 0 <= k < |port| ==> PlainChar(port[k])
    ensures var s := name + ":" + port;
            TrimSpace(s) == s && Lower(s) == s && forall k :: 0 <= k < |s| ==> PlainChar(s[k])
  {
    var s := name + ":" + port;
    forall k | 0 <= k < |s| ensures PlainChar(s[k]) {
      assert k < |name| ==> s[k] == name[k];
      assert k > |name| ==> s[k] == port[k - |name| - 1];
    }
    assert TrimLeft(s) == s && TrimRight(s) == s;
  }

  lemma SplitsAtColon(name: string, port: string)
    requires name != [] && ':' !in name && ':' !in port
    requires forall k :: 0 <= k < |name + ":" + port| ==> PlainChar((name + ":" + port)[k])
    ensures ':' in name + ":" + port && SplitHost(name + ":" + port) == Some(name)
  {
    var s := name + ":" + port;
    assert s[|name|] == ':' && s[0] == name[0] && s[..|name|] == name;
    LastColon(name, port);
  }

  /** A port is dropped: a plain name with any port behind it is the name. */
  lemma PortIsDropped(name: string, port: string)
    requires name != [] && name[|name| - 1] != '.' && ':' !in name && ':' !in port
    requires forall k :: 0 <= k < |name| ==> PlainChar(name[k])
    requires forall k :: 0 <= k < |port| ==> PlainChar(port[k])
    ensures CanonicalHost(name + ":" + port) == name
  {
    JoinedIsPlain(name, port);
    SplitsAtColon(name, port);
    TrimOneDot(name);
  }

  /** A character a canonical name may hold: no space, no bracket, no upper case. */
  predicate PlainChar(c: char) {
    !IsSpace(c) && LowerChar(c) == c && c != '[' && c != ']'
  }

  function UpperChar(c: char): char {
    if 'a' <= c <= 'z' then c - 'a' + 'A' else c
  }

  function Upper(s: string): string {
    seq(|s|, k requires 0 <= k < |s| => UpperChar(s[k]))
  }

  lemma LowerOfUpper(s: string)
    ensures Lower(Upper(s)) == Lower(s)
  {
  }

  lemma NoSpaceTrimsNothing(s: string)
    requires forall k :: 0 <= k < |s| ==> !IsSpace(s[k])
    ensures TrimSpace(s) == s
  {
    assert TrimLeft(s) == s && TrimRight(s) == s;
  }

  /** Upper case is folded: a host and the same host in capitals are one. */
  lemma CaseIsFolded(host: string)
    requires forall k :: 0 <= k < |host| ==> !IsSpace(host[k])
    ensures CanonicalHost(Upper(host)) == CanonicalHost(host)
  {
    NoSpaceTrimsNothing(host);
    NoSpaceTrimsNothing(Upper(host));
    LowerOfUpper(host);
  }

  /** Space around a host is not part of it. */
  lemma SpaceIsDropped(host: string, c: char)
    requires IsSpace(c)
    ensures CanonicalHost([c] + host) == CanonicalHost(host)
    ensures TrimLeft(host) == host ==> CanonicalHost(host + [c]) == CanonicalHost(host)
  {
    assert ([c] + host)[1..] == host;
    assert (host + [c])[..|host|] == host;
    if TrimLeft(host) == host {
      if host != [] {
        assert (host + [c])[0] == host[0];
        TrimLeftKeeps(host[1..]);
      } else {
        assert host + [c] == [c] && [c][1..] == [];
      }
    }
  }

  lemma TwoLabelsValid()
    ensures ValidHostPattern("a.b")
  {
    assert TrimLeft("a.b") == "a.b" && TrimRight("a.b") == "a.b" && Lower("a.b") == "a.b";
    assert "a.b"[1..] == ".b" && "a.b"[2..] == "b" && "a.b"[..1] == "a";
    assert IndexOf("a.b", '.') == 1 && IndexOf("b", '.') == 1;
    assert "b"[..1] == "b" && ValidLabels("b");
  }

  /** Two trailing dots are enough, with or without the runtimes production always has. */
  lemma TwoTrailingDotsDisagree(valid: FieldCheck, compiled: bool, otherCompiled: bool)
    ensures Separates(SourceSpelling, valid, Capturing("a.b"), compiled, otherCompiled, "a.b..", "443")
  {
    PlainNameIsCanonical("a.b");
    assert "a.b" + "." == "a.b." && "a.b." + "." == "a.b..";
    TwoLabelsValid();
    CanonicalIsStored("a.b");
    SelfMatch("a.b");
    CapturingSeparates(SourceSpelling, valid, "a.b", compiled, otherCompiled, "a.b..");
  }
}

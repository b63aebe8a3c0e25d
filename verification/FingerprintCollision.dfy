/**
 * Two configurations that pass validation, share a fingerprint and answer a host differently.
 */
module FingerprintCollision {
  import opened Outcomes
  import opened HostPatterns
  import opened ExtensionConfig
  import opened UpstreamTargets
  import opened Validation
  import opened Fingerprint
  import TargetDisagreement

  lemma {:induction false} FirstDot(part: string, rest: string)
    requires '.' !in part
    ensures IndexOf(part + "." + rest, '.') == |part|
  {
    var s := part + "." + rest;
    if part != [] {
      assert s[0] == part[0] && s[1..] == part[1..] + "." + rest;
      FirstDot(part[1..], rest);
    }
  }

  lemma LabelsJoin(part: string, rest: string)
    requires ValidLabel(part) && ValidLabels(rest)
    ensures ValidLabels(part + "." + rest)
  {
    var s := part + "." + rest;
    FirstDot(part, rest);
    assert s[..|part|] == part && s[|part| + 1..] == rest;
  }

  lemma {:induction false} NoDotIndex(part: string)
    requires '.' !in part
    ensures IndexOf(part, '.') == |part|
  {
    if part != [] {
      NoDotIndex(part[1..]);
    }
  }

  lemma OneLabel(part: string)
    requires ValidLabel(part)
    ensures ValidLabels(part)
  {
    NoDotIndex(part);
    assert part[..|part|] == part;
  }

  predicate NameChar(c: char) {
    'a' <= c <= 'z' || '0' <= c <= '9' || c == '-' || c == '.'
  }

  lemma {:induction false} LabelsArePlain(s: string)
    requires ValidLabels(s)
    ensures s != [] && s[|s| - 1] != '.' && forall k :: 0 <= k < |s| ==> NameChar(s[k])
    decreases |s|
  {
    var dot := IndexOf(s, '.');
    var part := s[..dot];
    assert forall k :: 0 <= k < dot ==> s[k] == part[k];
    if dot < |s| {
      var rest := s[dot + 1..];
      LabelsArePlain(rest);
      IndexOfFinds(s);
      assert forall k :: dot < k < |s| ==> s[k] == rest[k - dot - 1];
    }
  }

  lemma {:induction false} IndexOfFinds(s: string)
    requires IndexOf(s, '.') < |s|
    ensures s[IndexOf(s, '.')] == '.'
  {
    if s[0] != '.' {
      IndexOfFinds(s[1..]);
    }
  }

  /** Text of name characters and stars that does not end in a dot is canonical and stored as it is. */
  lemma NameIsCanonical(host: string)
    requires host != [] && host[|host| - 1] != '.' && forall k :: 0 <= k < |host| ==>
             NameChar(host[k]) || host[k] == '*'
    ensures CanonicalHost(host) == host && StoredPattern(host) == host
  {
    TargetDisagreement.PlainNameIsCanonical(host);
    TargetDisagreement.CanonicalIsStored(host);
  }

  lemma ValidFromBare(host: string, bare: string)
    requires StoredPattern(host) == host && TrimPrefix(host, "*.") == bare
    requires '*' !in bare && |bare| <= 253 && '.' in bare && ValidLabels(bare)
    ensures ValidHostPattern(host)
  {
  }

  /** A dotted name of valid labels may be captured as it is. */
  lemma ExactCapture(name: string)
    requires ValidLabels(name) && '.' in name && |name| <= 253
    ensures ValidCapture(CanonicalHost, name)
  {
    LabelsArePlain(name);
    NameIsCanonical(name);
    NoWildcard(name);
    ValidFromBare(name, name);
  }

  lemma NoWildcard(name: string)
    requires name != [] && forall k :: 0 <= k < |name| ==> NameChar(name[k])
    ensures TrimPrefix(name, "*.") == name && '*' !in name
  {
    assert |name| >= 2 ==> name[..2][0] == name[0];
  }

  lemma UnderWildcard(name: string)
    requires name != [] && name[|name| - 1] != '.' && forall k :: 0 <= k < |name| ==> NameChar(name[k])
    ensures var host := "*." + name;
            && host[|host| - 1] != '.' && (forall k :: 0 <= k < |host| ==> NameChar(host[k]) || host[k] == '*')
            && TrimPrefix(host, "*.") == name
  {
    var host := "*." + name;
    assert host[..2] == "*." && host[2..] == name;
    forall k | 0 <= k < |host| ensures NameChar(host[k]) || host[k] == '*' {
      assert k < 2 || host[k] == name[k - 2];
    }
  }

  /** And so may everything below it. */
  lemma WildcardCapture(host: string, name: string)
    requires host == "*." + name && ValidLabels(name) && '.' in name && |name| <= 253
    ensures ValidCapture(CanonicalHost, host)
  {
    LabelsArePlain(name);
    NoWildcard(name);
    UnderWildcard(name);
    NameIsCanonical(host);
    ValidFromBare(host, name);
  }

  // ----- the family -----

  /**
   * What makes a mapping of `x` to `y` beside the capture host `w` read as two more capture hosts, within validation.
   */
  predicate Collides(w: string, x: string, y: string) {
    && ValidCapture(CanonicalHost, w) && ValidCapture(CanonicalHost, x) && ValidCapture(CanonicalHost, y)
    && HostPatternCovers(w, x) && Sorted([w, x, y]) && !MatchHostPattern(w, y) && !HasPrefix(y, "server:")
    && Plain(w) && Plain(x) && Plain(y) && w != "" && x != "" && y != ""
  }

  lemma MappedAdmissible(valid: FieldCheck, w: string, x: string, y: string)
    requires Collides(w, x, y) && valid(HostMapping(x, y))
    ensures Admissible(CanonicalHost, valid, OneExtension([w], [HostMapping(x, y)], x))
  {
    var cfg := OneExtension([w], [HostMapping(x, y)], x);
    var e := cfg.modules[0];
    assert HostPatternCovers(e.captureHosts[0], x);
    assert ValidMapping(e.captureHosts, e.mappings[0], valid);
    assert ValidRuleHosts(e.captureHosts, e.scripts[0]);
    OneExtensionAdmissible(CanonicalHost, valid, cfg);
  }

  lemma ThreeCaptures(w: string, x: string, y: string)
    requires Collides(w, x, y)
    ensures ValidCaptures(CanonicalHost, [w, x, y])
  {
    var hosts := [w, x, y];
    assert hosts[0] == w && hosts[1] == x && hosts[2] == y;
    forall k | 0 <= k < |hosts| ensures ValidCapture(CanonicalHost, hosts[k]) {
      assert k == 0 || k == 1 || k == 2;
    }
  }

  lemma CapturedAdmissible(valid: FieldCheck, w: string, x: string, y: string)
    requires Collides(w, x, y)
    ensures Admissible(CanonicalHost, valid, OneExtension([w, x, y], [], x))
  {
    var cfg := OneExtension([w, x, y], [], x);
    var e := cfg.modules[0];
    assert HostPatternCovers(e.captureHosts[0], x);
    assert ValidRuleHosts(e.captureHosts, e.scripts[0]);
    ThreeCaptures(w, x, y);
    OneExtensionAdmissible(CanonicalHost, valid, cfg);
  }

  lemma OneEntryPlain(hosts: seq<string>, mappings: seq<HostMapping>, scope: string)
    requires forall v <- Values(OneExtension(hosts, mappings, scope).modules[0]) :: Plain(v) && v != ""
    ensures PlainConfig(OneExtension(hosts, mappings, scope))
  {
    OneExtensionShape(hosts, mappings, scope);
    var cfg := OneExtension(hosts, mappings, scope);
    var values := Values(cfg.modules[0]);
    forall k | 0 <= k < |values| ensures Plain(values[k]) && values[k] != "" {
      assert values[k] in values;
    }
  }

  lemma OnePair(m: HostMapping)
    ensures Pairs([m]) == [m.pattern, m.target]
  {
    PairsAppend([], m);
    assert [] + [m] == [m];
  }

  lemma OneUsable(m: HostMapping)
    requires !m.ResolverForm()
    ensures Usable([m]) == [m]
  {
    UsableStep([m], 0);
    assert [m][..1] == [m] && [m][..0] == [];
  }

  lemma MappedValues(w: string, m: HostMapping)
    requires Usable([m]) == [m]
    ensures Values(OneExtension([w], [m], m.pattern).modules[0]) == [w, m.pattern, m.target]
  {
    OnePair(m);
  }

  lemma NotResolver(x: string, y: string)
    requires CanonicalHost(y) == y && !HasPrefix(y, "server:")
    ensures !HostMapping(x, y).ResolverForm()
  {
    TargetDisagreement.CanonicalIsStored(y);
  }

  lemma BothPlain(w: string, x: string, y: string)
    requires Collides(w, x, y)
    ensures PlainConfig(OneExtension([w], [HostMapping(x, y)], x)) && PlainConfig(OneExtension([w, x, y], [], x))
  {
    NotResolver(x, y);
    OneUsable(HostMapping(x, y));
    MappedValues(w, HostMapping(x, y));
    OneEntryPlain([w], [HostMapping(x, y)], x);
    CapturedPlain(w, x, y);
  }

  lemma CapturedPlain(w: string, x: string, y: string)
    requires Collides(w, x, y)
    ensures PlainConfig(OneExtension([w, x, y], [], x))
  {
    assert Usable([]) == [] && Pairs([]) == [];
    assert Values(OneExtension([w, x, y], [], x).modules[0]) == [w, x, y];
    OneEntryPlain([w, x, y], [], x);
  }

  /**
   * Both configurations pass validation and are plain, their fingerprints are equal, and port 443 of `y` is refused by
   * the first and dialled by the second, on the runtimes production gives them.
   */
  lemma ValidatedCollision(valid: FieldCheck, w: string, x: string, y: string)
    requires Collides(w, x, y) && valid(HostMapping(x, y))
    ensures var mapped, captured := OneExtension([w], [HostMapping(x, y)], x), OneExtension([w, x, y], [], x);
            var sp := SourceSpelling;
            && Admissible(CanonicalHost, valid, mapped) && Admissible(CanonicalHost, valid, captured)
            && PlainConfig(mapped) && PlainConfig(captured) && Stream(mapped) == Stream(captured)
            && UpstreamTarget(sp, Project(sp, mapped, Some(CompileConfig(sp, mapped))), y, "443") == None
            && UpstreamTarget(sp, Project(sp, captured, Some(CompileConfig(sp, captured))), y, "443") != None
  {
    var sp := SourceSpelling;
    MappedAdmissible(valid, w, x, y);
    CapturedAdmissible(valid, w, x, y);
    BothPlain(w, x, y);
    TargetDisagreement.CanonicalIsStored(w);
    TargetDisagreement.CanonicalIsStored(y);
    NotResolver(x, y);
    MappingReadsAsCaptureHosts(
      sp, w, x, y, x, Some(CompileConfig(sp, OneExtension([w], [HostMapping(x, y)], x))),
      Some(CompileConfig(sp, OneExtension([w, x, y], [], x))));
  }

  // ----- an instance -----

  lemma ComValid()
    ensures ValidLabels("com")
  {
    OneLabel("com");
  }

  lemma AComValid()
    ensures ValidLabels("a.com")
  {
    ComValid();
    LabelsJoin("a", "com");
    assert "a" + "." + "com" == "a.com";
  }

  lemma BAComValid()
    ensures ValidLabels("b.a.com")
  {
    AComValid();
    LabelsJoin("b", "a.com");
    assert "b" + "." + "a.com" == "b.a.com";
  }

  lemma ZComValid()
    ensures ValidLabels("z.com")
  {
    ComValid();
    LabelsJoin("z", "com");
    assert "z" + "." + "com" == "z.com";
  }

  lemma StarACom()
    ensures ValidCapture(CanonicalHost, "*.a.com")
  {
    AComValid();
    StarName();
    WildcardCapture("*.a.com", "a.com");
  }

  lemma StarName()
    ensures "*.a.com" == "*." + "a.com" && '.' in "a.com"
  {
    assert "a.com"[1] == '.';
  }

  lemma BACom()
    ensures ValidCapture(CanonicalHost, "b.a.com")
  {
    BAComValid();
    assert "b.a.com"[1] == '.';
    ExactCapture("b.a.com");
  }

  lemma ZCom()
    ensures ValidCapture(CanonicalHost, "z.com")
  {
    ZComValid();
    assert "z.com"[1] == '.';
    ExactCapture("z.com");
  }

  lemma StarCovers()
    ensures HostPatternCovers("*.a.com", "b.a.com") && !MatchHostPattern("*.a.com", "z.com")
  {
    assert "*.a.com"[..2] == "*." && "*.a.com"[2..] == "a.com";
    assert "b.a.com"[..2][0] == 'b' && "b.a.com"[1..] == ".a.com" == "." + "a.com";
  }

  lemma InOrder(w: string, x: string, y: string)
    requires w != "" && x != "" && y != "" && w[0] < x[0] < y[0]
    ensures Sorted([w, x, y])
  {
  }

  lemma NamesPlain()
    ensures Plain("*.a.com") && Plain("b.a.com") && Plain("z.com") && !HasPrefix("z.com", "server:")
  {
  }

  /** The family is not empty: capturing *.a.com and sending b.a.com to z.com belongs to it. */
  lemma CollisionExists()
    ensures Collides("*.a.com", "b.a.com", "z.com")
  {
    StarACom();
    BACom();
    ZCom();
    StarCovers();
    InOrder("*.a.com", "b.a.com", "z.com");
    NamesPlain();
  }
}

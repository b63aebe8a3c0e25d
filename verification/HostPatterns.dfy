/** Host names and host patterns: canonical form, matching, coverage and the compiled matcher. */
module HostPatterns {
  import opened Outcomes

  // ----- the string library the source leans on -----

  predicate HasPrefix(s: string, prefix: string) {
    |prefix| <= |s| && s[..|prefix|] == prefix
  }

  predicate HasSuffix(s: string, suffix: string) {
    |suffix| <= |s| && s[|s| - |suffix|..] == suffix
  }

  function TrimPrefix(s: string, prefix: string): string {
    if HasPrefix(s, prefix) then s[|prefix|..] else s
  }

  function TrimSuffix(s: string, suffix: string): string {
    if HasSuffix(s, suffix) then s[..|s| - |suffix|] else s
  }

  predicate IsSpace(c: char) {
    c == ' ' || '\t' <= c <= '\r' || c == '\U{85}' || c == '\U{A0}'
  }

  function TrimLeft(s: string): string {
    if s != [] && IsSpace(s[0]) then TrimLeft(s[1..]) else s
  }

  function TrimRight(s: string): string {
    if s != [] && IsSpace(s[|s| - 1]) then TrimRight(s[..|s| - 1]) else s
  }

  function TrimSpace(s: string): string {
    TrimRight(TrimLeft(s))
  }

  function LowerChar(c: char): char {
    if 'A' <= c <= 'Z' then c - 'A' + 'a' else c
  }

  function Lower(s: string): string {
    seq(|s|, k requires 0 <= k < |s| => LowerChar(s[k]))
  }

  /** The first position of `c`, or the length. */
  function IndexOf(s: string, c: char): (i: nat)
    ensures i <= |s|
  {
    if s == [] || s[0] == c then 0 else 1 + IndexOf(s[1..], c)
  }

  /** One past the last position of `c`, or zero. */
  function AfterLast(s: string, c: char): (i: nat)
    ensures i <= |s|
  {
    if s == [] then 0 else if s[|s| - 1] == c then |s| else AfterLast(s[..|s| - 1], c)
  }

  /** The host half of net.SplitHostPort, or None where that reports an error. */
  function SplitHost(s: string): Option<string> {
    var colon := AfterLast(s, ':');
    if colon == 0 then None
    else if s[0] == '[' then
      var end := IndexOf(s, ']');
      if end + 1 != colon - 1 || '[' in s[1..] || ']' in s[end + 1..] then None else Some(s[1..end])
    else
      var host := s[..colon - 1];
      if ':' in host || '[' in s || ']' in s then None else Some(host)
  }

  /** Lower case, no surrounding space, no port, and at most one trailing dot removed. */
  function CanonicalHost(value: string): string {
    var host := Lower(TrimSpace(value));
    var bare := if ':' in host && SplitHost(host).Some? then SplitHost(host).value else host;
    TrimSuffix(bare, ".")
  }

  /** The spelling the active pattern set is stored in. */
  function StoredPattern(value: string): string {
    Lower(TrimSpace(value))
  }

  /** Canonicalising twice is not canonicalising once: each pass removes one trailing dot. */
  lemma CanonicalHostNotIdempotent()
    ensures CanonicalHost("a..") == "a." && CanonicalHost("a.") == "a"
  {
    assert TrimLeft("a..") == "a.." && TrimRight("a..") == "a..";
    assert TrimLeft("a.") == "a." && TrimRight("a.") == "a.";
    assert Lower("a..") == "a.." && Lower("a.") == "a.";
  }

  // ----- patterns -----

  /** A pattern is one host, or `*.` and the suffix every longer host must end in. */
  predicate MatchHostPattern(pattern: string, host: string) {
    if HasPrefix(pattern, "*.") then
      var suffix := TrimPrefix(pattern, "*.");
      |host| > |suffix| + 1 && HasSuffix(host, "." + suffix)
    else host == pattern
  }

  /** Every pattern matches the host spelled like it. */
  lemma SelfMatch(y: string)
    ensures MatchHostPattern(y, y)
  {
    if HasPrefix(y, "*.") {
      assert y[1] == y[..2][1] == '.';
      assert y[1..] == "." + y[2..];
    }
  }

  /**
   * A plain pattern is one host; `*.x` is every host with at least one character, a dot and `x`, and not `x` itself.
   */
  lemma MatchExactly(pattern: string, host: string)
    ensures !HasPrefix(pattern, "*.") ==> (MatchHostPattern(pattern, host) <==> host == pattern)
    ensures HasPrefix(pattern, "*.") ==>
              (MatchHostPattern(pattern, host) <==> exists front :: front != "" && host == front + "." + pattern[2..])
  {
    if HasPrefix(pattern, "*.") {
      var suffix := pattern[2..];
      if MatchHostPattern(pattern, host) {
        var front := host[..|host| - |suffix| - 1];
        assert host == front + ("." + suffix) == front + "." + suffix;
      }
      if front :| front != "" && host == front + "." + suffix {
        assert host[|host| - |suffix| - 1..] == "." + suffix;
      }
    }
  }

  predicate HostPatternCovers(allowed: string, candidate: string) {
    || allowed == candidate
    || (HasPrefix(allowed, "*.") && HasSuffix(TrimPrefix(candidate, "*."), "." + TrimPrefix(allowed, "*.")))
  }

  predicate ValidLabel(part: string) {
    && 0 < |part| <= 63 && part[0] != '-' && part[|part| - 1] != '-'
    && forall k :: 0 <= k < |part| ==> 'a' <= part[k] <= 'z' || '0' <= part[k] <= '9' || part[k] == '-'
  }

  predicate ValidLabels(s: string)
    decreases |s|
  {
    var dot := IndexOf(s, '.');
    ValidLabel(s[..dot]) && (dot < |s| ==> ValidLabels(s[dot + 1..]))
  }

  predicate ValidHostPattern(raw: string) {
    var pattern := TrimPrefix(Lower(TrimSpace(raw)), "*.");
    '*' !in pattern && |pattern| <= 253 && '.' in pattern && ValidLabels(pattern)
  }

  /** No pattern that starts with a dot is valid, whatever space surrounds it. */
  lemma DotLeadingIsInvalid(raw: string)
    requires HasPrefix(raw, ".")
    ensures !ValidHostPattern(raw)
  {
    assert raw[0] == '.' && TrimLeft(raw) == raw;
    TrimRightKeepsFirst(raw);
    var pattern := Lower(TrimSpace(raw));
    assert pattern[0] == '.' && !HasPrefix(pattern, "*.");
    assert IndexOf(pattern, '.') == 0 && pattern[..0] == [];
  }

  lemma {:induction false} TrimRightKeepsFirst(s: string)
    requires s != [] && !IsSpace(s[0])
    ensures TrimRight(s) != [] && TrimRight(s)[0] == s[0]
  {
    if IsSpace(s[|s| - 1]) {
      TrimRightKeepsFirst(s[..|s| - 1]);
    }
  }

  lemma SuffixOfSuffix(s: string, mid: string, end: string)
    requires HasSuffix(s, mid) && HasSuffix(mid, end)
    ensures HasSuffix(s, end)
  {
    assert s[|s| - |end|..] == s[|s| - |mid|..][|mid| - |end|..];
  }

  lemma CoverIsSound(allowed: string, candidate: string, host: string)
    requires !HasPrefix(candidate, ".")
    requires HostPatternCovers(allowed, candidate) && MatchHostPattern(candidate, host)
    ensures MatchHostPattern(allowed, host)
  {
    if allowed != candidate {
      var base := TrimPrefix(allowed, "*.");
      var inner := TrimPrefix(candidate, "*.");
      if HasPrefix(candidate, "*.") {
        SuffixOfSuffix(host, "." + inner, inner);
        SuffixOfSuffix(host, inner, "." + base);
      } else {
        assert inner == candidate == host;
        assert host[|host| - |base| - 1] == host[|host| - |base| - 1..][0] == '.';
        assert host[..1] != "." && host[0] == host[..1][0];
      }
    }
  }

  /** A host matching `*.d` that starts with the given letter. */
  function Witness(c: char, suffix: string): string {
    [c, '.'] + suffix
  }

  lemma WitnessMatches(c: char, pattern: string)
    requires HasPrefix(pattern, "*.")
    ensures MatchHostPattern(pattern, Witness(c, TrimPrefix(pattern, "*.")))
  {
    var suffix := TrimPrefix(pattern, "*.");
    assert Witness(c, suffix)[1..] == "." + suffix;
  }

  lemma CoverIsComplete(allowed: string, candidate: string)
    requires forall host :: MatchHostPattern(candidate, host) ==> MatchHostPattern(allowed, host)
    ensures HostPatternCovers(allowed, candidate)
  {
    if HasPrefix(candidate, "*.") {
      var inner := TrimPrefix(candidate, "*.");
      WitnessMatches('x', candidate);
      WitnessMatches('y', candidate);
      var h := Witness('x', inner);
      assert MatchHostPattern(allowed, h) && MatchHostPattern(allowed, Witness('y', inner));
      assert Witness('y', inner)[0] != h[0];
      var base := TrimPrefix(allowed, "*.");
      assert h[2..] == inner && |base| <= |inner|;
      if |base| == |inner| {
        assert h[|h| - |base| - 1..] == "." + base && h[1..] == "." + inner;
        assert base == ("." + base)[1..] == ("." + inner)[1..] == inner;
        assert allowed == "*." + base && candidate == "*." + inner;
      } else {
        assert inner[|inner| - |base| - 1..] == h[|h| - |base| - 1..];
      }
    } else {
      assert MatchHostPattern(candidate, candidate);
    }
  }

  /** Every host the candidate matches, the allowed pattern matches too. */
  ghost predicate Includes(allowed: string, candidate: string) {
    forall host :: MatchHostPattern(candidate, host) ==> MatchHostPattern(allowed, host)
  }

  lemma UndottedCoverIsInclusion(allowed: string, candidate: string)
    requires !HasPrefix(candidate, ".")
    ensures HostPatternCovers(allowed, candidate) <==> Includes(allowed, candidate)
  {
    if HostPatternCovers(allowed, candidate) {
      forall host | MatchHostPattern(candidate, host) ensures MatchHostPattern(allowed, host) {
        CoverIsSound(allowed, candidate, host);
      }
    } else if Includes(allowed, candidate) {
      CoverIsComplete(allowed, candidate);
    }
  }

  /** For a valid candidate, coverage is exactly inclusion of the matched hosts. */
  lemma CoverIsInclusion(allowed: string, candidate: string)
    requires ValidHostPattern(candidate)
    ensures HostPatternCovers(allowed, candidate) <==> Includes(allowed, candidate)
  {
    if HasPrefix(candidate, ".") {
      DotLeadingIsInvalid(candidate);
    }
    UndottedCoverIsInclusion(allowed, candidate);
  }

  /** The wildcard over what follows a leading dot covers the dotted name without matching it. */
  lemma DottedCoverIsNotInclusion(candidate: string)
    requires HasPrefix(candidate, ".")
    ensures HostPatternCovers("*" + candidate, candidate) && !Includes("*" + candidate, candidate)
  {
    var allowed, base := "*" + candidate, candidate[1..];
    assert candidate[0] == candidate[..1][0] == '.';
    assert candidate == "." + base;
    assert allowed[..2] == "*." && TrimPrefix(allowed, "*.") == base;
    assert |candidate| >= 2 ==> candidate[..2][0] == '.';
    assert TrimPrefix(candidate, "*.") == candidate;
    assert candidate[|candidate| - |"." + base|..] == candidate;
    assert MatchHostPattern(candidate, candidate) && !MatchHostPattern(allowed, candidate);
  }

  /**
   * Without validation the two agree, for every allowed pattern, exactly on candidates that do not begin with a dot.
   */
  lemma CoverIsInclusionExactly(candidate: string)
    ensures (forall allowed :: HostPatternCovers(allowed, candidate) <==> Includes(allowed, candidate)) <==>
            !HasPrefix(candidate, ".")
  {
    if HasPrefix(candidate, ".") {
      DottedCoverIsNotInclusion(candidate);
    } else {
      forall allowed ensures HostPatternCovers(allowed, candidate) <==> Includes(allowed, candidate) {
        UndottedCoverIsInclusion(allowed, candidate);
      }
    }
  }

  // ----- the compiled matcher -----

  datatype Matcher = Matcher(exact: set<string>, wildcard: seq<string>)

  function Add(m: Matcher, pattern: string): Matcher {
    if HasPrefix(pattern, "*.") then
      var suffix := TrimPrefix(pattern, "*.");
      if suffix in m.wildcard then m else m.(wildcard := m.wildcard + [suffix])
    else m.(exact := m.exact + {pattern})
  }

  function CompileFirst(patterns: seq<string>, n: nat): Matcher
    requires n <= |patterns|
  {
    if n == 0 then Matcher({}, []) else Add(CompileFirst(patterns, n - 1), patterns[n - 1])
  }

  function Compile(patterns: seq<string>): Matcher {
    CompileFirst(patterns, |patterns|)
  }

  predicate WildcardMatches(suffix: string, host: string) {
    var separator := |host| - |suffix| - 1;
    separator > 0 && host[separator] == '.' && HasSuffix(host, suffix)
  }

  /** Match for a host the caller has already canonicalised. */
  predicate MatchCanonical(m: Matcher, host: string) {
    host in m.exact || exists k :: 0 <= k < |m.wildcard| && WildcardMatches(m.wildcard[k], host)
  }

  predicate AnyMatches(patterns: seq<string>, host: string) {
    exists k :: 0 <= k < |patterns| && MatchHostPattern(patterns[k], host)
  }

  lemma WildcardForms(pattern: string, host: string)
    requires HasPrefix(pattern, "*.")
    ensures WildcardMatches(TrimPrefix(pattern, "*."), host) <==> MatchHostPattern(pattern, host)
  {
    var suffix := TrimPrefix(pattern, "*.");
    var separator := |host| - |suffix| - 1;
    if separator > 0 {
      assert host[separator..] == [host[separator]] + host[separator + 1..];
    }
    if MatchHostPattern(pattern, host) {
      assert host[separator..] == "." + suffix;
      assert host[separator + 1..] == ("." + suffix)[1..];
    }
  }

  lemma AddMatches(m: Matcher, pattern: string, host: string)
    ensures MatchCanonical(Add(m, pattern), host) <==> MatchCanonical(m, host) || MatchHostPattern(pattern, host)
  {
    if HasPrefix(pattern, "*.") {
      WildcardForms(pattern, host);
      var suffix := TrimPrefix(pattern, "*.");
      var after := Add(m, pattern);
      assert m.wildcard <= after.wildcard && suffix in after.wildcard;
    }
  }

  lemma {:induction false} CompileFirstMatches(patterns: seq<string>, n: nat, host: string)
    requires n <= |patterns|
    ensures MatchCanonical(CompileFirst(patterns, n), host) <==> AnyMatches(patterns[..n], host)
  {
    if n > 0 {
      CompileFirstMatches(patterns, n - 1, host);
      AddMatches(CompileFirst(patterns, n - 1), patterns[n - 1], host);
      assert patterns[..n] == patterns[..n - 1] + [patterns[n - 1]];
      if AnyMatches(patterns[..n - 1], host) {
        var k :| 0 <= k < n - 1 && MatchHostPattern(patterns[..n - 1][k], host);
        assert MatchHostPattern(patterns[..n][k], host);
      }
    }
  }

  /** The compiled matcher accepts exactly the hosts a linear scan of the patterns accepts. */
  lemma CompiledMatchesScan(patterns: seq<string>, host: string)
    ensures MatchCanonical(Compile(patterns), host) <==> AnyMatches(patterns, host)
  {
    CompileFirstMatches(patterns, |patterns|, host);
    assert patterns[..|patterns|] == patterns;
  }

  /** newCompiledHostMatcher, with the set that keeps wildcard suffixes unique. */
  method NewMatcher(patterns: seq<string>) returns (m: Matcher)
    ensures m == Compile(patterns)
    ensures forall host :: MatchCanonical(m, host) <==> AnyMatches(patterns, host)
    ensures forall i, j :: 0 <= i < j < |m.wildcard| ==> m.wildcard[i] != m.wildcard[j]
  {
    var exact: set<string>, wildcard: seq<string>, seen: set<string> := {}, [], {};
    for k := 0 to |patterns|
      invariant Matcher(exact, wildcard) == CompileFirst(patterns, k)
      invariant forall s :: s in seen <==> s in wildcard
      invariant forall i, j :: 0 <= i < j < |wildcard| ==> wildcard[i] != wildcard[j]
    {
      if HasPrefix(patterns[k], "*.") {
        var suffix := TrimPrefix(patterns[k], "*.");
        if suffix !in seen {
          seen := seen + {suffix};
          wildcard := wildcard + [suffix];
        }
      } else {
        exact := exact + {patterns[k]};
      }
    }
    m := Matcher(exact, wildcard);
    forall host ensures MatchCanonical(m, host) <==> AnyMatches(patterns, host) {
      CompiledMatchesScan(patterns, host);
    }
  }
}

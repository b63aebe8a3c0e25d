/**
 * Two-stage template expansion (module_rewrite.go): `{{settings.key}}` placeholders are filled first, and the result
 * is handed to the regexp library's `$` expansion, which must see the author's references and nothing of a value.
 */
module SettingsTemplate {
  import opened Outcomes

  // ----- finding a pattern -----

  /** The pattern's first `n` characters stand at `i`. */
  predicate Matches(t: string, pattern: string, i: nat, n: nat)
    requires n <= |pattern|
  {
    n == 0 || (Matches(t, pattern, i, n - 1) && i + n <= |t| && t[i + n - 1] == pattern[n - 1])
  }

  predicate At(t: string, pattern: string, i: nat) {
    i + |pattern| <= |t| && Matches(t, pattern, i, |pattern|)
  }

  /** The position of the first match among the last `n` characters. */
  function Find(t: string, pattern: string, n: nat): (r: Option<nat>)
    requires n <= |t|
    ensures r.Some? ==> |t| - n <= r.value <= |t| - |pattern|
  {
    if At(t, pattern, |t| - n) then Some(|t| - n)
    else if n == 0 then None
    else Find(t, pattern, n - 1)
  }

  /** strings.Index. */
  function Index(t: string, pattern: string): Option<nat> {
    Find(t, pattern, |t|)
  }

  /** What comes before and after the first occurrence of a pattern. */
  function Cut(t: string, pattern: string): (r: Option<(string, string)>)
    ensures r.Some? ==> |r.value.0| + |pattern| + |r.value.1| == |t|
  {
    match Index(t, pattern)
    case None => None
    case Some(k) => Some((t[..k], t[k + |pattern|..]))
  }

  lemma {:induction false} MatchesCharacters(t: string, pattern: string, i: nat, n: nat)
    requires n <= |pattern| && i + n <= |t|
    ensures Matches(t, pattern, i, n) <==> forall k :: 0 <= k < n ==> t[i + k] == pattern[k]
  {
    if n > 0 {
      MatchesCharacters(t, pattern, i, n - 1);
    }
  }

  /** The first match there is, or none. */
  lemma {:induction false} FindIsFirst(t: string, pattern: string, n: nat)
    requires n <= |t|
    ensures match Find(t, pattern, n)
            case Some(k) => At(t, pattern, k) && forall j: nat :: |t| - n <= j < k ==> !At(t, pattern, j)
            case None => forall j: nat :: |t| - n <= j ==> !At(t, pattern, j)
  {
    if !At(t, pattern, |t| - n) && n > 0 {
      FindIsFirst(t, pattern, n - 1);
    }
  }

  lemma {:induction false} MatchesAlike(t: string, i: nat, u: string, j: nat, pattern: string, n: nat)
    requires n <= |pattern| && i + n <= |t| && j + n <= |u| && t[i..i + n] == u[j..j + n]
    ensures Matches(t, pattern, i, n) <==> Matches(u, pattern, j, n)
  {
    if n > 0 {
      assert t[i..i + n][n - 1] == u[j..j + n][n - 1];
      assert t[i..i + (n - 1)] == t[i..i + n][..n - 1] && u[j..j + (n - 1)] == u[j..j + n][..n - 1];
      MatchesAlike(t, i, u, j, pattern, n - 1);
    }
  }

  lemma SliceBelow(t: string, end: nat, i: nat, j: nat)
    requires i <= j <= end <= |t|
    ensures t[..end][i..j] == t[i..j]
  {
    forall k | 0 <= k < j - i ensures t[..end][i..j][k] == t[i..j][k] {
      assert t[..end][i + k] == t[i + k];
    }
  }

  /** Two texts alike up to the end of the first match have the same first match. */
  lemma {:induction false} FindAlike(t: string, u: string, pattern: string, k: nat, n: nat)
    requires n <= |t| && Find(t, pattern, n) == Some(k) && k + |pattern| <= |u| &&
             t[..k + |pattern|] == u[..k + |pattern|]
    ensures Find(u, pattern, |u| - (|t| - n)) == Some(k)
  {
    var i, end := |t| - n, k + |pattern|;
    SliceBelow(t, end, i, i + |pattern|);
    SliceBelow(u, end, i, i + |pattern|);
    MatchesAlike(t, i, u, i, pattern, |pattern|);
    if i < k {
      FindAlike(t, u, pattern, k, n - 1);
    }
  }

  function Offset(n: nat, r: Option<nat>): Option<nat> {
    if r.Some? then Some(n + r.value) else None
  }

  /** Looking only at the end of a text. */
  lemma {:induction false} FindInSuffix(prefix: string, t: string, pattern: string, n: nat)
    requires n <= |t|
    ensures Find(prefix + t, pattern, n) == Offset(|prefix|, Find(t, pattern, n))
  {
    var u, i := prefix + t, |t| - n;
    if |pattern| <= n {
      assert u[|prefix| + i..|prefix| + i + |pattern|] == t[i..i + |pattern|];
      MatchesAlike(u, |prefix| + i, t, i, pattern, |pattern|);
    }
    if n > 0 {
      FindInSuffix(prefix, t, pattern, n - 1);
    }
  }

  /** Characters at which the pattern cannot begin do not change where it is found. */
  lemma {:induction false} FindSkips(t: string, skipped: string, start: nat, pattern: string, n: nat)
    requires pattern != [] && n <= |skipped| && start + |skipped| <= |t|
    requires forall k :: 0 <= k < |skipped| ==> t[start + k] == skipped[k] != pattern[0]
    ensures Find(t, pattern, |t| - start - |skipped| + n) == Find(t, pattern, |t| - start - |skipped|)
  {
    if n > 0 {
      var i := start + (|skipped| - n);
      assert t[i] == skipped[|skipped| - n];
      if At(t, pattern, i) {
        MatchesCharacters(t, pattern, i, |pattern|);
        assert false;
      }
      FindSkips(t, skipped, start, pattern, n - 1);
    }
  }

  lemma FoundCharacters(t: string, pattern: string, k: nat)
    requires Index(t, pattern) == Some(k)
    ensures k + |pattern| <= |t| && forall j :: 0 <= j < |pattern| ==> t[k + j] == pattern[j]
  {
    FindIsFirst(t, pattern, |t|);
    MatchesCharacters(t, pattern, k, |pattern|);
  }

  lemma FoundText(t: string, pattern: string, k: nat)
    requires Index(t, pattern) == Some(k)
    ensures t[..k] + pattern == t[..k + |pattern|]
  {
    FoundCharacters(t, pattern, k);
  }

  /** Nothing is lost by cutting, and the text up to the pattern's end cuts at the same place. */
  lemma CutRejoins(t: string, pattern: string)
    requires Cut(t, pattern).Some?
    ensures var (before, after) := Cut(t, pattern).value;
            t == before + pattern + after && Cut(before + pattern, pattern) == Some((before, ""))
  {
    var k := Index(t, pattern).value;
    FoundText(t, pattern, k);
    var u := t[..k + |pattern|];
    assert t == u + t[k + |pattern|..];
    assert u[..k + |pattern|] == u && u[..k] == t[..k] && u[k + |pattern|..] == "";
    FindAlike(t, u, pattern, k, |t|);
  }

  /** Text put after the pattern comes out behind the cut. */
  lemma CutOfJoined(before: string, pattern: string, after: string)
    requires Cut(before + pattern, pattern) == Some((before, ""))
    ensures Cut(before + pattern + after, pattern) == Some((before, after))
  {
    var t := before + pattern;
    var k := Index(t, pattern).value;
    assert |t[..k]| == |before|;
    var u := t + after;
    assert t[..k + |pattern|] == u[..k + |pattern|] && u[..k] == before && u[k + |pattern|..] == after;
    FindAlike(t, u, pattern, k, |t|);
  }

  // ----- the template grammar -----

  /** What opens and closes a placeholder. */
  datatype Marks = Marks(opening: string, closing: string)
  type Markers = m: Marks | m.closing != [] witness Marks("{{settings.", "}}")

  /** No closing can begin inside an opening, as in `{{settings.` and `}}`. */
  predicate Separate(m: Markers) {
    forall k :: 0 <= k < |m.opening| ==> m.opening[k] != m.closing[0]
  }

  const SETTINGS: Markers := Marks("{{settings.", "}}")

  lemma SettingsMarkersSeparate()
    ensures Separate(SETTINGS)
  {
  }

  /** Literal text, a placeholder's key, and what follows it; or the text after the last placeholder. */
  datatype Template = Last(text: string) | Hole(literal: string, key: string, rest: Template)

  function Render(m: Markers, p: Template): string {
    match p
    case Last(text) => text
    case Hole(literal, key, rest) => literal + m.opening + (key + m.closing + Render(m, rest))
  }

  /** The next placeholder: the text before it, its key, and what is left to read. */
  function NextHole(m: Markers, t: string): (r: Option<(string, string, string)>)
    ensures r.Some? ==> |r.value.2| < |t|
  {
    match Index(t, m.opening)
    case None => None
    case Some(start) =>
      match Find(t, m.closing, |t| - start - |m.opening|)
      case None => None
      case Some(end) => Some((t[..start], t[start + |m.opening|..end], t[end + |m.closing|..]))
  }

  function Parse(m: Markers, t: string): Template
    decreases |t|
  {
    match NextHole(m, t)
    case None => Last(t)
    case Some((literal, key, rest)) => Hole(literal, key, Parse(m, rest))
  }

  lemma FindAfter(t: string, from: nat, pattern: string)
    requires from <= |t|
    ensures Find(t, pattern, |t| - from) == Offset(from, Index(t[from..], pattern))
  {
    var before, after := t[..from], t[from..];
    assert t == before + after;
    FindInSuffix(before, after, pattern, |after|);
  }

  lemma SlicesAfter(t: string, from: nat, k: nat, n: nat)
    requires from + k + n <= |t|
    ensures t[from..][..k] == t[from..from + k] && t[from..][k + n..] == t[from + k + n..]
  {
  }

  lemma CutAfter(t: string, from: nat, pattern: string)
    requires from <= |t|
    ensures Cut(t[from..], pattern) ==
            match Find(t, pattern, |t| - from) case None => None case Some(end) =>
                Some((t[from..end], t[end + |pattern|..]))
  {
    FindAfter(t, from, pattern);
    var found := Index(t[from..], pattern);
    if found.Some? {
      SlicesAfter(t, from, found.value, |pattern|);
    }
  }

  /** The same in terms of cuts. */
  lemma HoleCuts(m: Markers, t: string)
    ensures NextHole(m, t) ==
            match Cut(t, m.opening)
            case None => None
            case Some((literal, inside)) =>
              match Cut(inside, m.closing)
              case None => None
              case Some((key, rest)) => Some((literal, key, rest))
  {
    if Index(t, m.opening).Some? {
      FoundHoleCuts(m, t, Index(t, m.opening).value);
    }
  }

  lemma FoundHoleCuts(m: Markers, t: string, start: nat)
    requires Index(t, m.opening) == Some(start)
    ensures Cut(t, m.opening) == Some((t[..start], t[start + |m.opening|..]))
    ensures NextHole(m, t) ==
            match Cut(t[start + |m.opening|..], m.closing)
            case None => None
            case Some((key, rest)) => Some((t[..start], key, rest))
  {
    var from := start + |m.opening|;
    CutAfter(t, from, m.closing);
    var end := Find(t, m.closing, |t| - from);
    if end.Some? {
      assert NextHole(m, t) == Some((t[..start], t[from..end.value], t[end.value + |m.closing|..]));
    }
  }

  /** Placeholders begin as early as possible and are closed as early as possible. */
  predicate Proper(m: Markers, p: Template) {
    match p
    case Last(text) => Cut(text, m.opening).Some? ==> Cut(Cut(text, m.opening).value.1, m.closing).None?
    case Hole(literal, key, rest) =>
      && Cut(literal + m.opening, m.opening) == Some((literal, ""))
      && Cut(key + m.closing, m.closing) == Some((key, ""))
      && Proper(m, rest)
  }

  /** Nothing of a template is lost: its pieces written one after another are the template. */
  lemma {:induction false} ParseRenders(m: Markers, t: string)
    ensures Render(m, Parse(m, t)) == t && Proper(m, Parse(m, t))
    decreases |t|
  {
    HoleCuts(m, t);
    if Cut(t, m.opening).Some? {
      CutRejoins(t, m.opening);
      var (_, inside) := Cut(t, m.opening).value;
      if Cut(inside, m.closing).Some? {
        CutRejoins(inside, m.closing);
        ParseRenders(m, Cut(inside, m.closing).value.1);
      }
    }
  }

  /** The pieces are the only such reading of the text. */
  lemma {:induction false} ParseIsTheOnlyReading(m: Markers, p: Template)
    requires Proper(m, p)
    ensures Parse(m, Render(m, p)) == p
  {
    match p
    case Last(_) => HoleCuts(m, Render(m, p));
    case Hole(literal, key, rest) =>
      CutOfJoined(literal, m.opening, key + m.closing + Render(m, rest));
      CutOfJoined(key, m.closing, Render(m, rest));
      HoleCuts(m, Render(m, p));
      ParseIsTheOnlyReading(m, rest);
  }

  /** The source looks for the closing from where the opening starts. */
  lemma ClosingFound(m: Markers, t: string, start: nat)
    requires Separate(m) && Index(t, m.opening) == Some(start)
    ensures Find(t, m.closing, |t| - start) == Find(t, m.closing, |t| - start - |m.opening|)
  {
    FoundCharacters(t, m.opening, start);
    FindSkips(t, m.opening, start, m.closing, |m.opening|);
  }

  // ----- filling -----

  /** Setting values as text, and the value maps an action may declare for some keys. */
  datatype Settings = Settings(values: map<string, string>, valueMap: map<string, map<string, string>>)

  function Value(s: Settings, key: string): Option<string> {
    if key !in s.values then None
    else if key !in s.valueMap then Some(s.values[key])
    else if s.values[key] in s.valueMap[key] then Some(s.valueMap[key][s.values[key]])
    else None
  }

  /**
   * A value map, where an action declares one, decides; without one the setting itself does; nothing else has a value.
   */
  lemma ValueExactly(s: Settings, key: string, text: string)
    ensures Value(s, key) == Some(text) <==>
            && key in s.values
            && (key in s.valueMap ==> s.values[key] in s.valueMap[key] && s.valueMap[key][s.values[key]] == text)
            && (key !in s.valueMap ==> s.values[key] == text)
  {
  }

  function Keys(p: Template): set<string> {
    match p
    case Last(_) => {}
    case Hole(_, key, rest) => {key} + Keys(rest)
  }

  predicate Resolves(p: Template, s: Settings) {
    forall key <- Keys(p) :: Value(s, key).Some?
  }

  function EscapeChar(c: char): string {
    if c == '$' then "$$" else [c]
  }

  /** Every dollar doubled. */
  function Escape(value: string): string {
    if value == [] then [] else EscapeChar(value[0]) + Escape(value[1..])
  }

  function Filled(p: Template, s: Settings): string
    requires Resolves(p, s)
  {
    match p
    case Last(text) => text
    case Hole(literal, key, rest) => literal + Escape(Value(s, key).value) + Filled(rest, s)
  }

  /** The filled template, or nothing when some placeholder cannot be filled. */
  function Expansion(p: Template, s: Settings): (r: Option<string>)
    ensures r.Some? <==> Resolves(p, s)
    ensures r.Some? ==> r.value == Filled(p, s)
  {
    match p
    case Last(text) => Some(text)
    case Hole(literal, key, rest) =>
      if Value(s, key).None? then None else Prefixed(literal + Escape(Value(s, key).value), Expansion(rest, s))
  }

  method NextPlaceholder(m: Markers, t: string) returns (hole: Option<(string, string, string)>)
    requires Separate(m)
    ensures hole == NextHole(m, t)
  {
    var start := Index(t, m.opening);
    if start.None? {
      return None;
    }
    ClosingFound(m, t, start.value);
    var end := Find(t, m.closing, |t| - start.value);
    if end.None? {
      return None;
    }
    return Some((t[..start.value], t[start.value + |m.opening|..end.value], t[end.value + |m.closing|..]));
  }

  /**
   * Declines exactly when some placeholder has no value; otherwise fills each one and looks at none of what it wrote.
   */
  method ExpandSettings(m: Markers, template: string, s: Settings) returns (r: Option<string>)
    requires Separate(m)
    ensures r == Expansion(Parse(m, template), s)
  {
    var output, rest := "", template;
    PrefixedTwice("", "", Expansion(Parse(m, template), s));
    while true
      invariant Expansion(Parse(m, template), s) == Prefixed(output, Expansion(Parse(m, rest), s))
      decreases |rest|
    {
      var hole := NextPlaceholder(m, rest);
      if hole.None? {
        return Some(output + rest);
      }
      var (literal, key, more) := hole.value;
      var value := Value(s, key);
      if value.None? {
        return None;
      }
      PrefixedTwice(output, literal + Escape(value.value), Expansion(Parse(m, more), s));
      output, rest := output + (literal + Escape(value.value)), more;
    }
  }

  /** Declining: exactly when some placeholder's key is not set, or is set to a value its map does not list. */
  lemma DeclinesExactly(p: Template, s: Settings)
    ensures Expansion(p, s).None? <==>
            exists key <- Keys(p) :: key !in s.values || (key in s.valueMap && s.values[key] !in s.valueMap[key])
  {
    if key :| key in Keys(p) && (key !in s.values || (key in s.valueMap && s.values[key] !in s.valueMap[key])) {
      assert Value(s, key).None?;
    }
    if !Resolves(p, s) {
      var key :| key in Keys(p) && Value(s, key).None?;
    }
  }

  /** A mapped placeholder inserts the mapped text, a plain one the setting, each escaped. */
  lemma HoleInserts(p: Template, s: Settings)
    requires p.Hole? && Resolves(p, s)
    ensures p.key in s.values && (p.key in s.valueMap ==> s.values[p.key] in s.valueMap[p.key])
    ensures var text := if p.key in s.valueMap then s.valueMap[p.key][s.values[p.key]] else s.values[p.key];
            Filled(p, s) == p.literal + Escape(text) + Filled(p.rest, s)
  {
    assert p.key in Keys(p);
  }

  /** expandSettingsTemplate, with the markers the source uses. */
  method ExpandSettingsTemplate(template: string, s: Settings) returns (r: Option<string>)
    ensures r == Expansion(Parse(SETTINGS, template), s)
  {
    SettingsMarkersSeparate();
    r := ExpandSettings(SETTINGS, template, s);
  }

  function Prefixed(before: string, r: Option<string>): Option<string> {
    if r.Some? then Some(before + r.value) else None
  }

  lemma PrefixedTwice(a: string, b: string, r: Option<string>)
    ensures Prefixed(a + b, r) == Prefixed(a, Prefixed(b, r)) && Prefixed("", r) == r
  {
    if r.Some? {
      assert "" + r.value == r.value;
      assert a + b + r.value == a + (b + r.value);
    }
  }

  // ----- the `$` expansion of the regexp library -----

  /** The library's letters, digits and underscore. */
  type WordClass = f: char -> bool | !f('$') && !f('{') && !f('}') witness c => false

  /** Where the word that begins `n` characters before the end of `t` stops. */
  function WordEnd(word: WordClass, t: string, n: nat): (end: nat)
    requires n <= |t|
    ensures |t| - n <= end <= |t|
  {
    if n > 0 && word(t[|t| - n]) then WordEnd(word, t, n - 1) else |t| - n
  }

  predicate Braced(t: string) {
    t != [] && t[0] == '{'
  }

  /** Where a name at the front of `t`, after its brace if it has one, stops. */
  function NameEnd(word: WordClass, t: string): (end: nat)
    ensures end <= |t| && (Braced(t) ==> 1 <= end)
  {
    if Braced(t) then WordEnd(word, t, |t| - 1) else WordEnd(word, t, |t|)
  }

  /**
   * The reference at the front of `t`, which follows a `$`: its name and how much of `t` it takes; None when malformed.
   */
  function Reference(word: WordClass, t: string): (r: Option<(string, nat)>)
    ensures r.Some? ==> 0 < r.value.1 <= |t|
  {
    var end := NameEnd(word, t);
    if !Braced(t) then (if end == 0 then None else Some((t[..end], end)))
    else if end > 1 && end < |t| && t[end] == '}' then Some((t[1..end], end + 1))
    else None
  }

  /** The first piece of a replacement template: what it expands to, and how long it is. */
  function Piece(word: WordClass, group: string -> string, t: string): (r: (string, nat))
    requires t != []
    ensures 0 < r.1 <= |t|
  {
    if t[0] != '$' then ([t[0]], 1)
    else if |t| > 1 && t[1] == '$' then ("$", 2)
    else match Reference(word, t[1..])
      case None => ("$", 1)
      case Some((name, n)) => (group(name), 1 + n)
  }

  /**
   * The expansion of a replacement template, `group` giving the text each name captured (empty when it names nothing).
   */
  function Expand(word: WordClass, group: string -> string, t: string): string
    decreases |t|
  {
    if t == [] then []
    else
      var (text, n) := Piece(word, group, t);
      text + Expand(word, group, t[n..])
  }

  /** A reference that what follows could extend: `$`, `$name`, `${` or `${name`. */
  predicate Unclosed(word: WordClass, t: string) {
    t != [] && t[0] == '$' && (|t| > 1 ==> t[1] != '$') && NameEnd(word, t[1..]) == |t| - 1
  }

  /** The unclosed reference at the end of the text, if there is one. */
  function Tail(word: WordClass, group: string -> string, t: string): (r: string)
    ensures r != [] ==> Unclosed(word, r)
    decreases |t|
  {
    if t == [] || Unclosed(word, t) then t else Tail(word, group, t[Piece(word, group, t).1..])
  }

  /** The expansion of what comes before that reference. */
  function Body(word: WordClass, group: string -> string, t: string): string
    decreases |t|
  {
    if t == [] || Unclosed(word, t) then []
    else
      var (text, n) := Piece(word, group, t);
      text + Body(word, group, t[n..])
  }

  lemma {:induction false} WordEndOfPrefix(word: WordClass, t: string, s: string, n: nat)
    requires n <= |t| && WordEnd(word, t, n) < |t|
    ensures WordEnd(word, t + s, n + |s|) == WordEnd(word, t, n)
  {
    assert (t + s)[|t| - n] == t[|t| - n];
    if word(t[|t| - n]) {
      WordEndOfPrefix(word, t, s, n - 1);
    }
  }

  lemma NameEndOfPrefix(word: WordClass, t: string, s: string)
    requires NameEnd(word, t) < |t|
    ensures Braced(t + s) == Braced(t) && NameEnd(word, t + s) == NameEnd(word, t)
  {
    assert (t + s)[0] == t[0];
    WordEndOfPrefix(word, t, s, if Braced(t) then |t| - 1 else |t|);
  }

  lemma SliceOfPrefix(t: string, s: string, end: nat)
    requires end <= |t|
    ensures (t + s)[..end] == t[..end]
    ensures 0 < end ==> (t + s)[1..end] == t[1..end]
  {
  }

  lemma ReferenceOfPrefix(word: WordClass, t: string, s: string)
    requires NameEnd(word, t) < |t|
    ensures Reference(word, t + s) == Reference(word, t)
  {
    NameEndOfPrefix(word, t, s);
    SliceOfPrefix(t, s, NameEnd(word, t));
    assert (t + s)[NameEnd(word, t)] == t[NameEnd(word, t)];
  }

  /** A piece that is not an unclosed reference is the same whatever follows. */
  lemma PieceOfPrefix(word: WordClass, group: string -> string, t: string, s: string)
    requires t != [] && !Unclosed(word, t)
    ensures Piece(word, group, t + s) == Piece(word, group, t) && !Unclosed(word, t + s)
  {
    var u := t + s;
    assert u[0] == t[0];
    if t[0] == '$' {
      assert |t| > 1 && u[1] == t[1];
      if t[1] != '$' {
        assert u[1..] == t[1..] + s;
        NameEndOfPrefix(word, t[1..], s);
        ReferenceOfPrefix(word, t[1..], s);
      }
    }
  }

  lemma RestOfPrefix(t: string, s: string, n: nat)
    requires n <= |t|
    ensures (t + s)[n..] == t[n..] + s
  {
  }

  /** Only the unclosed reference at its end ties a text to what follows. */
  lemma {:induction false} TailSplits(word: WordClass, group: string -> string, t: string, s: string)
    ensures Expand(word, group, t + s) == Body(word, group, t) + Expand(word, group, Tail(word, group, t) + s)
    ensures Tail(word, group, t + s) == Tail(word, group, Tail(word, group, t) + s)
    decreases |t|
  {
    if t != [] && !Unclosed(word, t) {
      var (text, n) := Piece(word, group, t);
      PieceOfPrefix(word, group, t, s);
      RestOfPrefix(t, s, n);
      TailSplits(word, group, t[n..], s);
      Joined(text, Body(word, group, t[n..]), Expand(word, group, Tail(word, group, t[n..]) + s));
    }
  }

  lemma Joined(a: string, b: string, c: string)
    ensures a + (b + c) == (a + b) + c
  {
  }

  lemma ExpandIsBodyAndTail(word: WordClass, group: string -> string, t: string)
    ensures Expand(word, group, t) == Body(word, group, t) + Expand(word, group, Tail(word, group, t))
  {
    TailSplits(word, group, t, []);
    NothingAppended(t);
    NothingAppended(Tail(word, group, t));
  }

  lemma NothingAppended(t: string)
    ensures t + [] == t && [] + t == t
  {
  }

  lemma ClosedSplits(word: WordClass, group: string -> string, t: string, s: string)
    requires Tail(word, group, t) == []
    ensures Expand(word, group, t + s) == Body(word, group, t) + Expand(word, group, s)
  {
    TailSplits(word, group, t, s);
    NothingAppended(s);
  }

  predicate Unfinished(word: WordClass, t: string) {
    Tail(word, NoGroups, t) != []
  }

  function NoGroups(name: string): string {
    ""
  }

  /** Which reference is left open does not depend on what was captured. */
  lemma {:induction false} TailIgnoresGroups(word: WordClass, group: string -> string, t: string)
    ensures Tail(word, group, t) == Tail(word, NoGroups, t)
    decreases |t|
  {
    if t != [] && !Unclosed(word, t) {
      TailIgnoresGroups(word, group, t[Piece(word, group, t).1..]);
    }
  }

  /** Text that leaves no reference unfinished expands on its own, whatever follows. */
  lemma FinishedSplits(word: WordClass, group: string -> string, t: string, s: string)
    requires !Unfinished(word, t)
    ensures Expand(word, group, t + s) == Expand(word, group, t) + Expand(word, group, s)
  {
    TailIgnoresGroups(word, group, t);
    ClosedSplits(word, group, t, s);
    ClosedSplits(word, group, t, []);
    NothingAppended(t);
    NothingAppended(Body(word, group, t));
  }

  lemma ExpandPlain(word: WordClass, group: string -> string, c: char, s: string)
    requires c != '$'
    ensures Expand(word, group, [c] + s) == [c] + Expand(word, group, s)
  {
    assert ([c] + s)[1..] == s;
  }

  lemma ExpandDollars(word: WordClass, group: string -> string, s: string)
    ensures Expand(word, group, "$$" + s) == "$" + Expand(word, group, s)
  {
    assert ("$$" + s)[2..] == s;
  }

  lemma EscapedChar(word: WordClass, group: string -> string, c: char, s: string)
    ensures Expand(word, group, EscapeChar(c) + s) == [c] + Expand(word, group, s)
  {
    if c == '$' {
      ExpandDollars(word, group, s);
    } else {
      ExpandPlain(word, group, c, s);
    }
  }

  /** An escaped value comes out as it went in, whatever follows. */
  lemma {:induction false} EscapedVerbatim(word: WordClass, group: string -> string, value: string, s: string)
    ensures Expand(word, group, Escape(value) + s) == value + Expand(word, group, s)
  {
    if value == [] {
      NothingAppended(s);
      NothingAppended(Expand(word, group, s));
    } else {
      var first, more := EscapeChar(value[0]), Escape(value[1..]);
      Joined(first, more, s);
      EscapedChar(word, group, value[0], more + s);
      EscapedVerbatim(word, group, value[1..], s);
      Joined([value[0]], value[1..], Expand(word, group, s));
      assert [value[0]] + value[1..] == value;
    }
  }

  // ----- both stages -----

  /** What the author means: references in the literal text expanded, setting values in between byte for byte. */
  function Meant(word: WordClass, group: string -> string, p: Template, s: Settings): string
    requires Resolves(p, s)
  {
    match p
    case Last(text) => Expand(word, group, text)
    case Hole(literal, key, rest) => Expand(word, group, literal) + Value(s, key).value + Meant(word, group, rest, s)
  }

  predicate LiteralsFinished(word: WordClass, p: Template) {
    p.Hole? ==> !Unfinished(word, p.literal) && LiteralsFinished(word, p.rest)
  }

  /** For every setting value and every match, the two stages give what the author means. */
  lemma {:induction false} TwoStagesMeant(word: WordClass, group: string -> string, p: Template, s: Settings)
    requires LiteralsFinished(word, p) && Resolves(p, s)
    ensures Expand(word, group, Filled(p, s)) == Meant(word, group, p, s)
  {
    match p
    case Last(_) =>
    case Hole(literal, key, rest) =>
      var value := Value(s, key).value;
      assert Filled(p, s) == literal + (Escape(value) + Filled(rest, s));
      FinishedSplits(word, group, literal, Escape(value) + Filled(rest, s));
      EscapedVerbatim(word, group, value, Filled(rest, s));
      TwoStagesMeant(word, group, rest, s);
  }

  // ----- the hypothesis is exact -----

  /** No capture group's name ends in the letter `w`. */
  ghost predicate NoGroupEndsIn(group: string -> string, w: char) {
    forall name: string :: name != [] && name[|name| - 1] == w ==> group(name) == []
  }

  lemma {:induction false} WordRunsOn(word: WordClass, t: string, w: char, n: nat)
    requires n <= |t| && word(w) && WordEnd(word, t, n) == |t|
    ensures WordEnd(word, t + [w, '}'], n + 2) == |t| + 1
  {
    var u := t + [w, '}'];
    if n > 0 {
      assert u[|t| - n] == t[|t| - n];
      WordRunsOn(word, t, w, n - 1);
    } else {
      assert u[|t|] == w && u[|t| + 1] == '}';
      assert WordEnd(word, u, n + 1) == |t| + 1;
    }
  }

  lemma ExpandBrace(word: WordClass, group: string -> string)
    ensures Expand(word, group, "}") == "}" && Tail(word, group, "}") == []
  {
    assert "}"[1..] == [];
    assert Piece(word, group, "}") == ("}", 1);
  }

  /** The value `w}` closes a reference that was still open. */
  lemma ReferenceRunsOn(word: WordClass, t: string, w: char)
    requires word(w) && NameEnd(word, t) == |t|
    ensures var u := t + [w, '}'];
            && NameEnd(word, u) == |t| + 1
            && Reference(word, u) == if Braced(t) then Some((t[1..] + [w], |t| + 2)) else Some((t + [w], |t| + 1))
  {
    var u := t + [w, '}'];
    assert u[|t|] == w && u[|t| + 1] == '}';
    if Braced(t) {
      WordRunsOn(word, t, w, |t| - 1);
      assert u[1..|t| + 1] == t[1..] + [w];
    } else {
      assert !Braced(u);
      WordRunsOn(word, t, w, |t|);
      assert u[..|t| + 1] == t + [w];
    }
  }

  /** An unclosed reference takes in the value `w}` that follows it, and expands to less. */
  lemma UnclosedSwallows(word: WordClass, group: string -> string, t: string, w: char)
    requires word(w) && NoGroupEndsIn(group, w) && Unclosed(word, t)
    ensures |Expand(word, group, t + [w, '}'])| <= 1 && Tail(word, group, t + [w, '}']) == []
  {
    var name := t[1..];
    var u, after := t + [w, '}'], name + [w, '}'];
    assert u[1..] == after;
    ReferenceRunsOn(word, name, w);
    var taken := if Braced(name) then |name| + 3 else |name| + 2;
    assert u[taken..] == if Braced(name) then [] else "}";
    assert Piece(word, group, u) == ("", taken);
    assert !Unclosed(word, u);
    ExpandBrace(word, group);
  }

  /**
   * Followed by `w}`, finished text expands to both and unfinished text to strictly less; neither is left unfinished.
   */
  lemma PoisonShortens(word: WordClass, group: string -> string, t: string, w: char)
    requires word(w) && NoGroupEndsIn(group, w)
    ensures !Unfinished(word, t + [w, '}'])
    ensures |Expand(word, group, t + [w, '}'])| <= |Expand(word, group, t)| + 2
    ensures Unfinished(word, t) ==> |Expand(word, group, t + [w, '}'])| < |Expand(word, group, t)| + 2
  {
    TailIgnoresGroups(word, group, t);
    TailIgnoresGroups(word, group, t + [w, '}']);
    TailSplits(word, group, t, [w, '}']);
    ExpandIsBodyAndTail(word, group, t);
    if Unfinished(word, t) {
      UnclosedSwallows(word, group, Tail(word, group, t), w);
    } else {
      assert [] + [w, '}'] == [w, '}'] && [w, '}'] == [w] + "}" && [w, '}'][1..] == "}";
      ExpandPlain(word, group, w, "}");
      ExpandBrace(word, group);
      assert Piece(word, group, [w, '}']) == ([w], 1);
    }
  }

  /** Every placeholder set to `w}`. */
  function Poison(p: Template, w: char): Settings {
    Settings(map key | key in Keys(p) :: [w, '}'], map[])
  }

  lemma {:induction false} UnfinishedShortens(word: WordClass, group: string -> string, p: Template, s: Settings,
      w: char)
    requires word(w) && NoGroupEndsIn(group, w) && forall key <- Keys(p) :: Value(s, key) == Some([w, '}'])
    ensures |Expand(word, group, Filled(p, s))| <= |Meant(word, group, p, s)|
    ensures !LiteralsFinished(word, p) ==> |Expand(word, group, Filled(p, s))| < |Meant(word, group, p, s)|
  {
    match p
    case Last(_) =>
    case Hole(literal, key, rest) =>
      var v := [w, '}'];
      assert key in Keys(p);
      assert Escape(v) == v by {
        assert v[1..] == "}" && "}"[1..] == "" && Escape("}") == "}";
      }
      assert Filled(p, s) == (literal + v) + Filled(rest, s);
      PoisonShortens(word, group, literal, w);
      FinishedSplits(word, group, literal + v, Filled(rest, s));
      UnfinishedShortens(word, group, rest, s, w);
  }

  /**
   * For any match, the two stages mean what the author wrote under all settings exactly when no literal before a
   * placeholder ends in an unfinished reference.
   */
  lemma MeantExactly(m: Markers, word: WordClass, group: string -> string, t: string, w: char)
    requires word(w) && NoGroupEndsIn(group, w)
    ensures (forall s :: Resolves(Parse(m, t), s) ==>
            Expand(word, group, Filled(Parse(m, t), s)) == Meant(word, group, Parse(m, t), s))
            <==> LiteralsFinished(word, Parse(m, t))
  {
    var p := Parse(m, t);
    if LiteralsFinished(word, p) {
      forall s | Resolves(p, s)
        ensures Expand(word, group, Filled(p, s)) == Meant(word, group, p, s)
      {
        TwoStagesMeant(word, group, p, s);
      }
    } else {
      var s := Poison(p, w);
      assert Resolves(p, s);
      UnfinishedShortens(word, group, p, s, w);
    }
  }
}

/**
 * The byte stream the transport fingerprint digests, and what it determines.
 *
 * SHA-256 is taken to be injective, so equal fingerprints are equal streams. A character stands for one byte.
 */
module Fingerprint {
  import opened Outcomes
  import opened ExtensionConfig
  import opened UpstreamTargets
  import opened HostPatterns

  type Byte = b: int | 0 <= b < 256

  const MAX_CONFIG_BYTES := 16777216

  // ----- the writers -----

  /** The low `k` bytes of `n`, most significant first. */
  function BigEndian(n: nat, k: nat): (bytes: seq<Byte>)
    ensures |bytes| == k
  {
    if k == 0 then [] else BigEndian(n / 256, k - 1) + [n % 256]
  }

  function Bytes(s: string): (bytes: seq<Byte>)
    ensures |bytes| == |s|
  {
    seq(|s|, k requires 0 <= k < |s| => s[k] as int % 256)
  }

  /** A value behind its eight-byte length. */
  function Field(s: string): (bytes: seq<Byte>)
    ensures |bytes| == 8 + |s|
  {
    BigEndian(|s|, 8) + Bytes(s)
  }

  function Flag(b: bool): (bytes: seq<Byte>)
    ensures |bytes| == 1
  {
    if b then [1] else [0]
  }

  function Fields(values: seq<string>): seq<Byte> {
    if values == [] then [] else Field(values[0]) + Fields(values[1..])
  }

  /** What one enabled extension contributes: its id, its field list and its network flag. */
  datatype Entry = Entry(id: string, values: seq<string>, network: bool)

  function Tail(e: Entry, rest: seq<Byte>): seq<Byte> {
    Fields(e.values) + (Flag(e.network) + rest)
  }

  /** The entries in order, and the combined grant last. */
  function Entries(es: seq<Entry>, grant: bool): seq<Byte> {
    if es == [] then Flag(grant) else Field(es[0].id) + Tail(es[0], Entries(es[1..], grant))
  }

  function Pairs(mappings: seq<HostMapping>): (values: seq<string>)
    ensures |values| == 2 * |mappings|
  {
    if mappings == [] then []
        else Pairs(mappings[..|mappings| - 1]) + [mappings[|mappings| - 1].pattern, mappings[|mappings| - 1].target]
  }

  /** Capture hosts and then mapping pairs, with nothing in between. */
  function Values(e: Extension): seq<string> {
    e.captureHosts + Pairs(Usable(e.mappings))
  }

  /** The enabled extensions among the first `n`. */
  function EnabledFirst(modules: seq<Extension>, n: nat): seq<Extension>
    requires n <= |modules|
  {
    if n == 0 then []
    else if modules[n - 1].enabled then EnabledFirst(modules, n - 1) + [modules[n - 1]]
    else EnabledFirst(modules, n - 1)
  }

  function EnabledModules(cfg: Config): seq<Extension> {
    EnabledFirst(cfg.modules, |cfg.modules|)
  }

  function ToEntries(es: seq<Extension>): (entries: seq<Entry>)
    ensures |entries| == |es|
  {
    seq(|es|, k requires 0 <= k < |es| => EntryOf(es[k]))
  }

  function Stream(cfg: Config): seq<Byte> {
    Field(cfg.proxy.address) + (Field(cfg.proxy.username) + (Field(cfg.proxy.password) +
    (Flag(cfg.http2) + (Flag(cfg.enabled) +
        Entries(ToEntries(EnabledModules(cfg)), Grants(cfg.modules, |cfg.modules|))))))
  }

  // ----- unique decodability -----

  /** Text of a bounded document, one byte per character. */
  predicate Plain(s: string) {
    |s| <= MAX_CONFIG_BYTES && forall k :: 0 <= k < |s| ==> s[k] as int < 256
  }

  predicate WellFormed(e: Entry) {
    && Plain(e.id) && 0 < |e.id| < 256
    && forall k :: 0 <= k < |e.values| ==> Plain(e.values[k]) && e.values[k] != ""
  }

  /** The text of a validated configuration: bounded, with short ids and no empty host, pattern or target. */
  predicate PlainConfig(cfg: Config) {
    && Plain(cfg.proxy.address) && Plain(cfg.proxy.username) && Plain(cfg.proxy.password)
    && forall k :: 0 <= k < |ToEntries(EnabledModules(cfg))| ==> WellFormed(ToEntries(EnabledModules(cfg))[k])
  }

  function Power256(k: nat): (p: nat)
    ensures p > 0
  {
    if k == 0 then 1 else 256 * Power256(k - 1)
  }

  lemma Cancel<T>(a: seq<T>, x: seq<T>, b: seq<T>, y: seq<T>)
    requires |a| == |b| && a + x == b + y
    ensures a == b && x == y
  {
    assert a == (a + x)[..|a|] && b == (b + y)[..|b|];
    assert x == (a + x)[|a|..] && y == (b + y)[|b|..];
  }

  lemma {:induction false} BigEndianInjective(m: nat, n: nat, k: nat)
    requires m < Power256(k) && n < Power256(k) && BigEndian(m, k) == BigEndian(n, k)
    ensures m == n
  {
    if k > 0 {
      Cancel(BigEndian(m / 256, k - 1), [m % 256], BigEndian(n / 256, k - 1), [n % 256]);
      assert m % 256 == [m % 256][0] == [n % 256][0] == n % 256;
      BigEndianInjective(m / 256, n / 256, k - 1);
    }
  }

  lemma {:induction false} BigEndianZero(k: nat)
    ensures forall i :: 0 <= i < k ==> BigEndian(0, k)[i] == 0
  {
    if k > 0 {
      BigEndianZero(k - 1);
    }
  }

  /** A small number leaves the leading bytes zero. */
  lemma {:induction false} BigEndianLeading(n: nat, k: nat, low: nat)
    requires n < Power256(low) && low <= k
    ensures forall i :: 0 <= i < k - low ==> BigEndian(n, k)[i] == 0
  {
    if low == 0 {
      BigEndianZero(k);
    } else if low < k {
      BigEndianLeading(n / 256, k - 1, low - 1);
    }
  }

  lemma PowerValues()
    ensures Power256(1) == 256 && Power256(4) > MAX_CONFIG_BYTES && Power256(8) > MAX_CONFIG_BYTES
  {
    assert Power256(1) == 256 * Power256(0);
    assert Power256(2) == 65536;
    assert Power256(3) == 16777216;
    assert Power256(4) == 4294967296;
    assert Power256(5) == 1099511627776;
    assert Power256(6) == 281474976710656;
    assert Power256(7) == 72057594037927936;
  }

  lemma BytesInjective(a: string, b: string)
    requires Plain(a) && Plain(b) && Bytes(a) == Bytes(b)
    ensures a == b
  {
    assert |a| == |Bytes(a)| == |b|;
    forall k | 0 <= k < |a| ensures a[k] == b[k] {
      assert Bytes(a)[k] == Bytes(b)[k];
    }
  }

  /** A field can be read off the front of any stream. */
  lemma FieldDecodes(a: string, x: seq<Byte>, b: string, y: seq<Byte>)
    requires Plain(a) && Plain(b) && Field(a) + x == Field(b) + y
    ensures a == b && x == y
  {
    PowerValues();
    assert Field(a) + x == BigEndian(|a|, 8) + (Bytes(a) + x);
    assert Field(b) + y == BigEndian(|b|, 8) + (Bytes(b) + y);
    Cancel(BigEndian(|a|, 8), Bytes(a) + x, BigEndian(|b|, 8), Bytes(b) + y);
    BigEndianInjective(|a|, |b|, 8);
    Cancel(Bytes(a), x, Bytes(b), y);
    BytesInjective(a, b);
  }

  lemma FlagDecodes(a: bool, x: seq<Byte>, b: bool, y: seq<Byte>)
    requires Flag(a) + x == Flag(b) + y
    ensures a == b && x == y
  {
    Cancel(Flag(a), x, Flag(b), y);
    assert Flag(a)[0] == Flag(b)[0];
  }

  /** What can follow an extension's network flag: the last byte of the stream, or the length of a short id. */
  predicate EndsEntry(rest: seq<Byte>) {
    |rest| == 1 || (|rest| >= 7 && forall k :: 0 <= k < 7 ==> rest[k] == 0)
  }

  lemma EntriesEndEntry(es: seq<Entry>, grant: bool)
    requires forall k :: 0 <= k < |es| ==> WellFormed(es[k])
    ensures EndsEntry(Entries(es, grant))
  {
    if es != [] {
      PowerValues();
      assert WellFormed(es[0]);
      BigEndianLeading(|es[0].id|, 8, 1);
    }
  }

  /** A flag where the other stream has a non-empty field is impossible. */
  lemma FlagIsNoField(flag: bool, rest: seq<Byte>, value: string, more: seq<Byte>)
    requires EndsEntry(rest) && Plain(value) && value != ""
    ensures Flag(flag) + rest != Field(value) + more
  {
    if Flag(flag) + rest == Field(value) + more {
      PowerValues();
      BigEndianZero(8);
      var front := BigEndian(|value|, 8);
      assert |Flag(flag) + rest| >= 9;
      forall k | 0 <= k < 8 ensures front[k] == 0 {
        assert front[k] == (Field(value) + more)[k] == (Flag(flag) + rest)[k];
        if k == 0 {
          BigEndianLeading(|value|, 8, 4);
        } else {
          assert (Flag(flag) + rest)[k] == rest[k - 1];
        }
      }
      assert front == BigEndian(0, 8);
      BigEndianInjective(|value|, 0, 8);
    }
  }

  function Shorter(e: Entry): Entry
    requires e.values != []
  {
    e.(values := e.values[1..])
  }

  lemma TailOfSome(e: Entry, rest: seq<Byte>)
    requires e.values != []
    ensures Tail(e, rest) == Field(e.values[0]) + Tail(Shorter(e), rest)
    ensures WellFormed(e) ==> WellFormed(Shorter(e))
  {
  }

  lemma TailOfNone(e: Entry, rest: seq<Byte>)
    requires e.values == []
    ensures Tail(e, rest) == Flag(e.network) + rest
  {
  }

  lemma TailMismatch(a: Entry, x: seq<Byte>, b: Entry, y: seq<Byte>)
    requires WellFormed(b) && EndsEntry(x) && a.values == [] && b.values != []
    ensures Tail(a, x) != Tail(b, y)
  {
    TailOfNone(a, x);
    TailOfSome(b, y);
    FlagIsNoField(a.network, x, b.values[0], Tail(Shorter(b), y));
  }

  /** Field list, network flag and what follows are determined by their bytes. */
  lemma {:induction false} TailDecodes(a: Entry, x: seq<Byte>, b: Entry, y: seq<Byte>)
    requires WellFormed(a) && WellFormed(b) && EndsEntry(x) && EndsEntry(y) && Tail(a, x) == Tail(b, y)
    ensures a.values == b.values && a.network == b.network && x == y
    decreases |a.values|
  {
    if a.values == [] && b.values == [] {
      TailOfNone(a, x);
      TailOfNone(b, y);
      FlagDecodes(a.network, x, b.network, y);
    } else if a.values == [] {
      TailMismatch(a, x, b, y);
    } else if b.values == [] {
      TailMismatch(b, y, a, x);
    } else {
      TailOfSome(a, x);
      TailOfSome(b, y);
      FieldDecodes(a.values[0], Tail(Shorter(a), x), b.values[0], Tail(Shorter(b), y));
      TailDecodes(Shorter(a), x, Shorter(b), y);
      assert a.values == [a.values[0]] + a.values[1..] && b.values == [b.values[0]] + b.values[1..];
    }
  }

  lemma {:induction false} EntriesDecode(xs: seq<Entry>, g: bool, ys: seq<Entry>, h: bool)
    requires forall k :: 0 <= k < |xs| ==> WellFormed(xs[k])
    requires forall k :: 0 <= k < |ys| ==> WellFormed(ys[k])
    requires Entries(xs, g) == Entries(ys, h)
    ensures xs == ys && g == h
    decreases |xs|
  {
    if xs == [] && ys == [] {
      assert Flag(g)[0] == Flag(h)[0];
    } else if xs != [] && ys != [] {
      var xRest, yRest := Entries(xs[1..], g), Entries(ys[1..], h);
      assert WellFormed(xs[0]) && WellFormed(ys[0]);
      FieldDecodes(xs[0].id, Tail(xs[0], xRest), ys[0].id, Tail(ys[0], yRest));
      EntriesEndEntry(xs[1..], g);
      EntriesEndEntry(ys[1..], h);
      TailDecodes(xs[0], xRest, ys[0], yRest);
      EntriesDecode(xs[1..], g, ys[1..], h);
      assert xs == [xs[0]] + xs[1..] && ys == [ys[0]] + ys[1..];
    } else {
      assert false;
    }
  }

  /**
   * The stream determines the proxy, the two flags and, in order, each enabled extension's id, field list and network
   * flag.
   */
  lemma StreamDecodes(a: Config, b: Config)
    requires PlainConfig(a) && PlainConfig(b) && Stream(a) == Stream(b)
    ensures a.proxy == b.proxy && a.http2 == b.http2 && a.enabled == b.enabled
    ensures ToEntries(EnabledModules(a)) == ToEntries(EnabledModules(b))
    ensures Grants(a.modules, |a.modules|) == Grants(b.modules, |b.modules|)
  {
    var ea := Entries(ToEntries(EnabledModules(a)), Grants(a.modules, |a.modules|));
    var eb := Entries(ToEntries(EnabledModules(b)), Grants(b.modules, |b.modules|));
    var a3, b3 := Flag(a.http2) + (Flag(a.enabled) + ea), Flag(b.http2) + (Flag(b.enabled) + eb);
    var a2, b2 := Field(a.proxy.password) + a3, Field(b.proxy.password) + b3;
    var a1, b1 := Field(a.proxy.username) + a2, Field(b.proxy.username) + b2;
    FieldDecodes(a.proxy.address, a1, b.proxy.address, b1);
    FieldDecodes(a.proxy.username, a2, b.proxy.username, b2);
    FieldDecodes(a.proxy.password, a3, b.proxy.password, b3);
    FlagDecodes(a.http2, Flag(a.enabled) + ea, b.http2, Flag(b.enabled) + eb);
    FlagDecodes(a.enabled, ea, b.enabled, eb);
    EntriesDecode(ToEntries(EnabledModules(a)), Grants(a.modules, |a.modules|), ToEntries(EnabledModules(b)),
        Grants(b.modules, |b.modules|));
  }

  // ----- the loop that feeds the digest -----

  lemma {:induction false} FieldsAppend(values: seq<string>, value: string)
    ensures Fields(values + [value]) == Fields(values) + Field(value)
  {
    if values == [] {
      assert [value][1..] == [] && Fields([value]) == Field(value) + Fields([]);
    } else {
      FieldsAppend(values[1..], value);
      assert (values + [value])[1..] == values[1..] + [value];
    }
  }

  function EntryBytes(e: Entry): seq<Byte> {
    Field(e.id) + Fields(e.values) + Flag(e.network)
  }

  lemma Regroup<T>(a: seq<T>, b: seq<T>, c: seq<T>)
    ensures a + b + c == a + (b + c)
  {
  }

  lemma EntriesOfCons(e: Entry, more: seq<Entry>, grant: bool)
    ensures Entries([e] + more, grant) == EntryBytes(e) + Entries(more, grant)
  {
    assert ([e] + more)[1..] == more;
    var rest := Entries(more, grant);
    Regroup(Field(e.id) + Fields(e.values), Flag(e.network), rest);
    Regroup(Field(e.id), Fields(e.values), Flag(e.network) + rest);
  }

  lemma FieldsPrefix(values: seq<string>, k: nat)
    requires k < |values|
    ensures Fields(values[..k + 1]) == Fields(values[..k]) + Field(values[k])
  {
    FieldsAppend(values[..k], values[k]);
    assert values[..k + 1] == values[..k] + [values[k]];
  }

  method WriteFields(digest: seq<Byte>, values: seq<string>) returns (out: seq<Byte>)
    ensures out == digest + Fields(values)
  {
    out := digest;
    for k := 0 to |values|
      invariant out == digest + Fields(values[..k])
    {
      FieldsPrefix(values, k);
      Regroup(digest, Fields(values[..k]), Field(values[k]));
      out := out + Field(values[k]);
    }
    assert values[..|values|] == values;
  }

  lemma PairsAppend(before: seq<HostMapping>, m: HostMapping)
    ensures Fields(Pairs(before + [m])) == Fields(Pairs(before)) + Field(m.pattern) + Field(m.target)
  {
    assert (before + [m])[..|before|] == before;
    assert Pairs(before + [m]) == Pairs(before) + [m.pattern] + [m.target];
    FieldsAppend(Pairs(before), m.pattern);
    FieldsAppend(Pairs(before) + [m.pattern], m.target);
  }

  method WriteMappings(digest: seq<Byte>, mappings: seq<HostMapping>) returns (out: seq<Byte>)
    ensures out == digest + Fields(Pairs(Usable(mappings)))
  {
    out := digest;
    for k := 0 to |mappings|
      invariant out == digest + Fields(Pairs(Usable(mappings[..k])))
    {
      UsableStep(mappings, k);
      if !mappings[k].ResolverForm() {
        ghost var before := Fields(Pairs(Usable(mappings[..k])));
        PairsAppend(Usable(mappings[..k]), mappings[k]);
        Regroup(digest, before, Field(mappings[k].pattern));
        Regroup(digest, before + Field(mappings[k].pattern), Field(mappings[k].target));
        out := out + Field(mappings[k].pattern);
        out := out + Field(mappings[k].target);
      }
    }
    assert mappings[..|mappings|] == mappings;
  }

  method WriteEntry(digest: seq<Byte>, e: Extension) returns (out: seq<Byte>)
    ensures out == digest + ExtensionBytes(e)
  {
    out := digest + Field(e.id);
    out := WriteFields(out, e.captureHosts);
    out := WriteMappings(out, e.mappings);
    out := out + Flag(e.network);
    FieldsJoin(e.captureHosts, Pairs(Usable(e.mappings)));
    Regroup5(digest, Field(e.id), Fields(e.captureHosts), Fields(Pairs(Usable(e.mappings))), Flag(e.network));
  }

  lemma Regroup5<T>(a: seq<T>, b: seq<T>, c: seq<T>, d: seq<T>, e: seq<T>)
    ensures a + b + c + d + e == a + (b + (c + d) + e)
  {
    Regroup(a + b, c, d);
    Regroup(a, b, c + d);
    Regroup(a, b + (c + d), e);
  }

  lemma {:induction false} FieldsJoin(xs: seq<string>, ys: seq<string>)
    ensures Fields(xs + ys) == Fields(xs) + Fields(ys)
  {
    if xs == [] {
      assert xs + ys == ys;
    } else {
      FieldsJoin(xs[1..], ys);
      assert (xs + ys)[1..] == xs[1..] + ys;
      Regroup(Field(xs[0]), Fields(xs[1..]), Fields(ys));
    }
  }

  function ExtensionBytes(e: Extension): seq<Byte> {
    EntryBytes(EntryOf(e))
  }

  function WrittenFirst(modules: seq<Extension>, n: nat): seq<Byte>
    requires n <= |modules|
  {
    if n == 0 then []
    else if modules[n - 1].enabled then WrittenFirst(modules, n - 1) + ExtensionBytes(modules[n - 1])
    else WrittenFirst(modules, n - 1)
  }

  lemma AppendEntry(es: seq<Extension>, e: Extension, more: seq<Entry>)
    ensures ToEntries(es) + ([EntryOf(e)] + more) == ToEntries(es + [e]) + more
  {
  }

  function EntryOf(e: Extension): Entry {
    Entry(e.id, Values(e), e.network)
  }

  /** `written` is what the extensions `es` contribute in front of `more`. */
  predicate Continues(es: seq<Extension>, written: seq<Byte>, more: seq<Entry>, grant: bool) {
    written + Entries(more, grant) == Entries(ToEntries(es) + more, grant)
  }

  lemma WrittenStep(es: seq<Extension>, e: Extension, written: seq<Byte>, more: seq<Entry>, grant: bool)
    requires Continues(es, written, [EntryOf(e)] + more, grant)
    ensures Continues(es + [e], written + ExtensionBytes(e), more, grant)
  {
    Regroup(written, ExtensionBytes(e), Entries(more, grant));
    EntriesOfCons(EntryOf(e), more, grant);
    AppendEntry(es, e, more);
  }

  lemma NothingWritten(more: seq<Entry>, grant: bool)
    ensures Continues([], [], more, grant)
  {
    assert ToEntries([]) + more == more;
  }

  lemma EnabledGrows(modules: seq<Extension>, n: nat)
    requires 0 < n <= |modules|
    ensures var e := modules[n - 1];
            if e.enabled then
              && EnabledFirst(modules, n) == EnabledFirst(modules, n - 1) + [e]
              && WrittenFirst(modules, n) == WrittenFirst(modules, n - 1) + ExtensionBytes(e)
            else
              && EnabledFirst(modules, n) == EnabledFirst(modules, n - 1)
              && WrittenFirst(modules, n) == WrittenFirst(modules, n - 1)
  {
  }

  /** The bytes written so far, followed by the entries still to come, are the entries of the whole walk. */
  lemma {:induction false} WrittenEntries(modules: seq<Extension>, n: nat, more: seq<Entry>, grant: bool)
    requires n <= |modules|
    ensures Continues(EnabledFirst(modules, n), WrittenFirst(modules, n), more, grant)
    decreases n, 1
  {
    if n == 0 {
      NothingWritten(more, grant);
    } else {
      EnabledGrows(modules, n);
      if modules[n - 1].enabled {
        WrittenEnabled(modules, n, more, grant);
      } else {
        WrittenEntries(modules, n - 1, more, grant);
      }
    }
  }

  lemma {:induction false} WrittenEnabled(modules: seq<Extension>, n: nat, more: seq<Entry>, grant: bool)
    requires 0 < n <= |modules| && modules[n - 1].enabled
    ensures Continues(EnabledFirst(modules, n - 1) + [modules[n - 1]],
                      WrittenFirst(modules, n - 1) + ExtensionBytes(modules[n - 1]), more, grant)
    decreases n, 0
  {
    WrittenEntries(modules, n - 1, [EntryOf(modules[n - 1])] + more, grant);
    WrittenStep(EnabledFirst(modules, n - 1), modules[n - 1], WrittenFirst(modules, n - 1), more, grant);
  }

  function Header(cfg: Config): seq<Byte> {
    Field(cfg.proxy.address) + Field(cfg.proxy.username) + Field(cfg.proxy.password) + Flag(cfg.http2) +
        Flag(cfg.enabled)
  }

  method WriteModules(header: seq<Byte>, modules: seq<Extension>) returns (digest: seq<Byte>, grant: bool)
    ensures digest == header + WrittenFirst(modules, |modules|)
    ensures grant == Grants(modules, |modules|)
  {
    digest, grant := header, false;
    for n := 0 to |modules|
      invariant digest == header + WrittenFirst(modules, n)
      invariant grant == Grants(modules, n)
    {
      if modules[n].enabled {
        Regroup(header, WrittenFirst(modules, n), ExtensionBytes(modules[n]));
        digest := WriteEntry(digest, modules[n]);
        if modules[n].network {
          grant := true;
        }
      }
    }
  }

  /** The digest's input, written field by field in the walk that builds the projection. */
  method WriteStream(cfg: Config) returns (digest: seq<Byte>)
    ensures digest == Stream(cfg)
  {
    var grant;
    digest, grant := WriteModules(Header(cfg), cfg.modules);
    digest := digest + Flag(grant);
    StreamShape(cfg);
  }

  lemma StreamShape(cfg: Config)
    ensures Stream(cfg) ==
            Header(cfg) + WrittenFirst(cfg.modules, |cfg.modules|) + Flag(Grants(cfg.modules, |cfg.modules|))
  {
    var es, grant := ToEntries(EnabledModules(cfg)), Grants(cfg.modules, |cfg.modules|);
    var written := WrittenFirst(cfg.modules, |cfg.modules|);
    WrittenEntries(cfg.modules, |cfg.modules|, [], grant);
    assert es + [] == es;
    Regroup7(Field(cfg.proxy.address), Field(cfg.proxy.username), Field(cfg.proxy.password), Flag(cfg.http2),
        Flag(cfg.enabled), written, Flag(grant));
  }

  lemma Regroup7<T>(a: seq<T>, b: seq<T>, c: seq<T>, d: seq<T>, e: seq<T>, f: seq<T>, g: seq<T>)
    ensures a + (b + (c + (d + (e + (f + g))))) == a + b + c + d + e + f + g
  {
    Regroup(a, b, c + (d + (e + (f + g))));
    Regroup(a + b, c, d + (e + (f + g)));
    Regroup(a + b + c, d, e + (f + g));
    Regroup(a + b + c + d, e, f + g);
    Regroup(a + b + c + d + e, f, g);
  }

  // ----- what equal fingerprints authorize -----

  /** Position by position, the enabled extensions of both list the same capture hosts and the same usable mappings. */
  predicate SameAuthorization(a: Config, b: Config) {
    && |EnabledModules(a)| == |EnabledModules(b)|
    && forall k :: 0 <= k < |EnabledModules(a)| ==> SameTargets(EnabledModules(a)[k], EnabledModules(b)[k])
  }

  predicate SameTargets(x: Extension, y: Extension) {
    x.captureHosts == y.captureHosts && Usable(x.mappings) == Usable(y.mappings)
  }

  predicate SameCaptureCounts(a: Config, b: Config) {
    && |EnabledModules(a)| == |EnabledModules(b)|
    && forall k :: 0 <= k < |EnabledModules(a)| ==>
       |EnabledModules(a)[k].captureHosts| == |EnabledModules(b)[k].captureHosts|
  }

  lemma {:induction false} PairsInjective(xs: seq<HostMapping>, ys: seq<HostMapping>)
    requires Pairs(xs) == Pairs(ys)
    ensures xs == ys
    decreases |xs|
  {
    assert |xs| == |ys|;
    if xs != [] {
      var n := |xs| - 1;
      Cancel(Pairs(xs[..n]), [xs[n].pattern, xs[n].target], Pairs(ys[..n]), [ys[n].pattern, ys[n].target]);
      assert [xs[n].pattern, xs[n].target][0] == [ys[n].pattern, ys[n].target][0];
      assert [xs[n].pattern, xs[n].target][1] == [ys[n].pattern, ys[n].target][1];
      PairsInjective(xs[..n], ys[..n]);
      assert xs == xs[..n] + [xs[n]] && ys == ys[..n] + [ys[n]];
    }
  }

  /** Under equal fingerprints the two lists agree exactly when the numbers of capture hosts do. */
  lemma EqualStreamsAgreeExactly(a: Config, b: Config)
    requires PlainConfig(a) && PlainConfig(b) && Stream(a) == Stream(b)
    ensures SameAuthorization(a, b) <==> SameCaptureCounts(a, b)
  {
    StreamDecodes(a, b);
    var xs, ys := EnabledModules(a), EnabledModules(b);
    assert |ToEntries(xs)| == |ToEntries(ys)|;
    if SameCaptureCounts(a, b) {
      forall k | 0 <= k < |xs| ensures SameTargets(xs[k], ys[k]) {
        assert ToEntries(xs)[k] == ToEntries(ys)[k];
        Cancel(xs[k].captureHosts, Pairs(Usable(xs[k].mappings)), ys[k].captureHosts, Pairs(Usable(ys[k].mappings)));
        PairsInjective(Usable(xs[k].mappings), Usable(ys[k].mappings));
      }
    }
  }

  /** Disabled extensions contribute nothing to the projection. */
  lemma {:induction false} OnlyEnabledMatters(modules: seq<Extension>, n: nat)
    requires n <= |modules|
    ensures ProjectModules(modules, None, n) == Projected(EnabledFirst(modules, n))
    ensures EnabledHosts(modules, n) == CapturedHosts(EnabledFirst(modules, n))
  {
    if n > 0 {
      OnlyEnabledMatters(modules, n - 1);
      if modules[n - 1].enabled {
        var es := EnabledFirst(modules, n);
        assert es[..|es| - 1] == EnabledFirst(modules, n - 1);
      }
    }
  }

  function Projected(es: seq<Extension>): seq<ProjectedModule> {
    if es == [] then []
    else
      Projected(es[..|es| - 1]) +
      [ProjectedModule(Compile(es[|es| - 1].captureHosts), Usable(es[|es| - 1].mappings))]
  }

  function CapturedHosts(es: seq<Extension>): seq<string> {
    if es == [] then [] else CapturedHosts(es[..|es| - 1]) + es[|es| - 1].captureHosts
  }

  lemma {:induction false} SameProjected(xs: seq<Extension>, ys: seq<Extension>)
    requires |xs| == |ys| && forall k :: 0 <= k < |xs| ==> SameTargets(xs[k], ys[k])
    ensures Projected(xs) == Projected(ys) && CapturedHosts(xs) == CapturedHosts(ys)
  {
    if xs != [] {
      SameProjected(xs[..|xs| - 1], ys[..|ys| - 1]);
      assert SameTargets(xs[|xs| - 1], ys[|ys| - 1]);
    }
  }

  /**
   * A pool kept because the fingerprint did not move is still authorized for exactly the targets it was opened for,
   * when no extension's number of capture hosts changed.
   */
  lemma EqualFingerprintEqualTargets(
    sp: Spelling, a: Config, b: Config, rtA: Option<Runtime>, rtB: Option<Runtime>, rawHost: string, portText: string)
    requires UniqueIds(a.modules) && UniqueIds(b.modules) && OwnRuntime(sp, a, rtA) && OwnRuntime(sp, b, rtB)
    requires PlainConfig(a) && PlainConfig(b) && Stream(a) == Stream(b) && SameCaptureCounts(a, b)
    ensures UpstreamTarget(sp, Project(sp, a, rtA), rawHost, portText) ==
            UpstreamTarget(sp, Project(sp, b, rtB), rawHost, portText)
  {
    ProjectionIgnoresRuntime(sp, a, rtA);
    ProjectionIgnoresRuntime(sp, b, rtB);
    StreamDecodes(a, b);
    EqualStreamsAgreeExactly(a, b);
    OnlyEnabledMatters(a.modules, |a.modules|);
    OnlyEnabledMatters(b.modules, |b.modules|);
    SameProjected(EnabledModules(a), EnabledModules(b));
    assert Project(sp, a, None) == Project(sp, b, None);
  }

  // ----- and where they do not -----

  /** One enabled extension whose only action is scoped to `scope`. */
  function OneExtension(hosts: seq<string>, mappings: seq<HostMapping>, scope: string): Config {
    var rule := ScriptRule("act", "request", RuleMatch([scope], ["https"], [], [], "^/"), true, "none", 1024);
    Config(true, true, Proxy("p", "u", "w"), [Extension("ext", true, hosts, mappings, false, [rule])], ["ext"])
  }

  lemma OneExtensionShape(hosts: seq<string>, mappings: seq<HostMapping>, scope: string)
    ensures var cfg := OneExtension(hosts, mappings, scope);
            EnabledModules(cfg) == cfg.modules && EnabledHosts(cfg.modules, 1) == hosts && !Grants(cfg.modules, 1)
  {
    var cfg := OneExtension(hosts, mappings, scope);
    assert EnabledFirst(cfg.modules, 1) == EnabledFirst(cfg.modules, 0) + [cfg.modules[0]];
    assert EnabledHosts(cfg.modules, 1) == EnabledHosts(cfg.modules, 0) + hosts;
  }

  lemma CollidingStreams(w: string, x: string, y: string, scope: string)
    requires !HostMapping(x, y).ResolverForm()
    ensures Stream(OneExtension([w], [HostMapping(x, y)], scope)) == Stream(OneExtension([w, x, y], [], scope))
  {
    var m := HostMapping(x, y);
    var mapped, captured := OneExtension([w], [m], scope), OneExtension([w, x, y], [], scope);
    OneExtensionShape([w], [m], scope);
    OneExtensionShape([w, x, y], [], scope);
    assert [m][..0] == [];
    assert Usable([m]) == [m] && Pairs([m]) == [x, y];
    assert Values(mapped.modules[0]) == Values(captured.modules[0]);
    assert ToEntries(mapped.modules) == ToEntries(captured.modules);
  }

  lemma UncapturedRefused(sp: Spelling, w: string, mappings: seq<HostMapping>, y: string, scope: string)
    requires sp.canonical(y) == y && sp.stored(w) == w && !MatchHostPattern(w, y)
    ensures UpstreamTarget(sp, Project(sp, OneExtension([w], mappings, scope), None), y, "443") == None
  {
    var cfg := OneExtension([w], mappings, scope);
    OneExtensionShape([w], mappings, scope);
    UniqueSortedElements(sp, [w]);
    var patterns := ActiveHostPatterns(sp, cfg, None);
    forall k | 0 <= k < |patterns| ensures patterns[k] == w {
      assert patterns[k] in UniqueSorted(sp, [w]);
    }
    CompiledMatchesScan(patterns, y);
  }

  lemma CapturedIsActive(sp: Spelling, hosts: seq<string>, n: nat, y: string, scope: string)
    requires sp.canonical(y) == y && n < |hosts| && sp.stored(hosts[n]) == y
    ensures Match(sp, Project(sp, OneExtension(hosts, [], scope), None).activeHosts, y)
  {
    OneExtensionShape(hosts, [], scope);
    UniqueSortedKeeps(sp, hosts, n);
    var patterns := ActiveHostPatterns(sp, OneExtension(hosts, [], scope), None);
    var k :| 0 <= k < |patterns| && patterns[k] == y;
    SelfMatch(y);
    assert MatchHostPattern(patterns[k], y);
    CompiledMatchesScan(patterns, y);
  }

  lemma CapturedAdmitted(sp: Spelling, hosts: seq<string>, n: nat, y: string, scope: string)
    requires sp.canonical(y) == y && n < |hosts| && sp.stored(hosts[n]) == y
    ensures UpstreamTarget(sp, Project(sp, OneExtension(hosts, [], scope), None), y, "443") != None
  {
    PortText443();
    CapturedIsActive(sp, hosts, n, y, scope);
    var p := Project(sp, OneExtension(hosts, [], scope), None);
    assert p.enabled;
    ActiveAnswers(sp, p, y, "443");
  }

  lemma ActiveAnswers(sp: Spelling, p: Projection, host: string, portText: string)
    requires p.enabled && Port(portText) == Some(443) && sp.canonical(host) == host && Match(sp, p.activeHosts, host)
    ensures UpstreamTarget(sp, p, host, portText) != None
  {
  }

  /**
   * Nothing separates capture hosts from mappings: a mapping of `x` to `y` and the two extra capture hosts `x` and `y`
   * feed the digest the same bytes, yet only the second configuration may dial `y`, with or without the runtimes.
   */
  lemma MappingReadsAsCaptureHosts(
    sp: Spelling, w: string, x: string, y: string, scope: string, rt: Option<Runtime>, other: Option<Runtime>)
    requires !HostMapping(x, y).ResolverForm() && sp.canonical(y) == y && sp.stored(w) == w && sp.stored(y) == y
    requires !MatchHostPattern(w, y)
    requires OwnRuntime(sp, OneExtension([w], [HostMapping(x, y)], scope), rt)
    requires OwnRuntime(sp, OneExtension([w, x, y], [], scope), other)
    ensures var mapped, captured := OneExtension([w], [HostMapping(x, y)], scope), OneExtension([w, x, y], [], scope);
            && Stream(mapped) == Stream(captured)
            && UpstreamTarget(sp, Project(sp, mapped, rt), y, "443") == None
            && UpstreamTarget(sp, Project(sp, captured, other), y, "443") != None
  {
    ProjectionIgnoresRuntime(sp, OneExtension([w], [HostMapping(x, y)], scope), rt);
    ProjectionIgnoresRuntime(sp, OneExtension([w, x, y], [], scope), other);
    CollidingStreams(w, x, y, scope);
    UncapturedRefused(sp, w, [HostMapping(x, y)], y, scope);
    CapturedAdmitted(sp, [w, x, y], 2, y, scope);
  }
}

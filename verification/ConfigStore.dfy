/**
 * The configuration store: the polled file with its two identity caches, the pushed bundle that
 * supersedes it, and the one counter that numbers the snapshots of both.
 */
module ConfigStore {
  import opened Outcomes
  import opened ExtensionConfig

  type Bytes = seq<bv8>
  type Decoder = Bytes -> Option<Config>

  /** What stat reports. An absent identity is a file the platform cannot compare with itself. */
  datatype FileInfo = FileInfo(identity: Option<nat>, size: int, modTime: int)

  /** One look at the path: what stat saw, and what opening and reading it would give. */
  datatype Observation = Observation(stat: Option<FileInfo>, read: Option<(Bytes, FileInfo)>)

  /** A decoded bundle in memory. The store compares addresses; `serial` is the activation's identity. */
  datatype Activation = Activation(addr: nat, serial: nat, config: Config)

  datatype Source = NoSource | Source(active: Option<Activation>, migrated: bool)

  datatype Snapshot = FromFile(document: Bytes, config: Config) | FromBundle(activation: Activation)

  datatype Answer = Serve(snapshot: Snapshot, generation: nat) | NoActiveBundle

  datatype Fields = Fields(
    good: Option<FileInfo>,
    bad: Option<FileInfo>,
    document: Bytes,
    config: Config,
    configGeneration: nat,
    generation: nat,
    bundle: Option<Activation>)

  predicate SameFile(a: FileInfo, b: FileInfo) {
    a.identity.Some? && a.identity == b.identity
  }

  predicate Matches(cache: Option<FileInfo>, info: FileInfo) {
    cache.Some? && info.size == cache.value.size && info.modTime == cache.value.modTime && SameFile(info, cache.value)
  }

  function Remember(info: FileInfo): Option<FileInfo> {
    if SameFile(info, info) then Some(info) else None
  }

  predicate CacheHit(f: Fields, look: Observation) {
    look.stat.Some? && (Matches(f.good, look.stat.value) || Matches(f.bad, look.stat.value))
  }

  /** The file branch: what the store becomes after looking at the path. */
  function LookAtFile(f: Fields, look: Observation, decode: Decoder): Fields {
    if CacheHit(f, look) || look.read.None? then f
    else
      var (body, info) := look.read.value;
      if body == f.document then f.(good := Remember(info), bad := None)
      else match decode(body)
        case None => f.(bad := Remember(info))
        case Some(config) =>
          f.(good := Remember(info), bad := None, document := body, config := config,
             generation := f.generation + 1, configGeneration := f.generation + 1)
  }

  /** One call of Current. */
  function Next(f: Fields, source: Source, look: Observation, decode: Decoder): Fields {
    if source.Source? && source.active.Some? then
      if f.bundle.Some? && f.bundle.value.addr == source.active.value.addr then f
      else f.(bundle := source.active, generation := f.generation + 1)
    else if source.Source? && source.migrated then f.(bundle := None)
    else LookAtFile(f, look, decode)
  }

  function Reply(f: Fields, source: Source, look: Observation, decode: Decoder): Answer {
    var after := Next(f, source, look, decode);
    if source.Source? && source.active.Some? then Serve(FromBundle(source.active.value), after.generation)
    else if source.Source? && source.migrated then NoActiveBundle
    else Serve(FromFile(after.document, after.config), after.configGeneration)
  }

  class Store {
    const decode: Decoder
    var good: Option<FileInfo>
    var bad: Option<FileInfo>
    var document: Bytes
    var config: Config
    var configGeneration: nat
    var generation: nat
    var bundle: Option<Activation>

    ghost function State(): Fields
      reads this
    {
      Fields(good, bad, document, config, configGeneration, generation, bundle)
    }

    constructor (body: Bytes, info: FileInfo, decoder: Decoder)
      requires decoder(body).Some?
      ensures decode == decoder
      ensures State() == Fields(Remember(info), None, body, decoder(body).value, 1, 1, None)
    {
      decode, document, config := decoder, body, decoder(body).value;
      configGeneration, generation := 1, 1;
      good, bad, bundle := Remember(info), None, None;
    }

    method Current(source: Source, look: Observation) returns (answer: Answer)
      modifies this
      ensures State() == Next(old(State()), source, look, decode)
      ensures answer == Reply(old(State()), source, look, decode)
    {
      if source.Source? {
        if source.active.Some? {
          if bundle.None? || bundle.value.addr != source.active.value.addr {
            bundle := source.active;
            generation := generation + 1;
          }
          return Serve(FromBundle(source.active.value), generation);
        }
        if source.migrated {
          bundle := None;
          return NoActiveBundle;
        }
      }
      if look.stat.Some? {
        if Matches(good, look.stat.value) {
          return Serve(FromFile(document, config), configGeneration);
        }
        if Matches(bad, look.stat.value) {
          return Serve(FromFile(document, config), configGeneration);
        }
      }
      if look.read.None? {
        return Serve(FromFile(document, config), configGeneration);
      }
      var (body, info) := look.read.value;
      if body == document {
        good := Remember(info);
        bad := None;
        return Serve(FromFile(document, config), configGeneration);
      }
      var decoded := decode(body);
      if decoded.None? {
        bad := Remember(info);
        return Serve(FromFile(document, config), configGeneration);
      }
      generation := generation + 1;
      configGeneration := generation;
      config := decoded.value;
      good := Remember(info);
      document := body;
      bad := None;
      return Serve(FromFile(document, config), configGeneration);
    }
  }

  // ----- the caches refine plain re-reading -----

  /** A reader without caches: keep the last document that decoded. */
  function Reread(last: Bytes, read: Option<(Bytes, FileInfo)>, decode: Decoder): Bytes {
    if read.Some? && decode(read.value.0).Some? then read.value.0 else last
  }

  /** Equal identity, size and modification time mean equal bytes. */
  predicate Faithful(look: Observation, content: FileInfo -> Bytes) {
    look.read.Some? && look.read.value.1.identity.Some? ==> look.read.value.0 == content(look.read.value.1)
  }

  /** Stat and read saw the same file. */
  predicate Settled(look: Observation) {
    look.stat.Some? && look.read.Some? ==> look.stat.value == look.read.value.1
  }

  /** The caches only name files whose bytes are the served document, or do not decode. */
  predicate Coherent(f: Fields, content: FileInfo -> Bytes, decode: Decoder) {
    && decode(f.document) == Some(f.config)
    && (f.good.Some? ==> f.good.value.identity.Some? && content(f.good.value) == f.document)
    && (f.bad.Some? ==> f.bad.value.identity.Some? && decode(content(f.bad.value)).None?)
  }

  /**
   * One call on the file behaves as one cacheless read, keeps the caches coherent, and moves the number exactly
   * when the document the reader would hold changes.
   */
  lemma CacheRefinesRereading(f: Fields, look: Observation, content: FileInfo -> Bytes, decode: Decoder)
    requires Coherent(f, content, decode) && Faithful(look, content) && Settled(look)
    ensures var after := LookAtFile(f, look, decode);
            && Coherent(after, content, decode)
            && after.document == Reread(f.document, look.read, decode)
            && after.generation ==
               (if Reread(f.document, look.read, decode) == f.document then f.generation else f.generation + 1)
            && (after.configGeneration == if after.document == f.document then f.configGeneration else after.generation)
  {
    if CacheHit(f, look) && look.read.Some? {
      var info := look.stat.value;
      if Matches(f.good, info) {
        assert info == f.good.value;
      } else {
        assert info == f.bad.value;
      }
    }
  }

  /** When the file changes between stat and read, the call saw it at one of the two instants. */
  lemma RacingReplacementSeenOnce(f: Fields, look: Observation, content: FileInfo -> Bytes, decode: Decoder)
    requires Coherent(f, content, decode) && Faithful(look, content)
    ensures var after := LookAtFile(f, look, decode);
            && Coherent(after, content, decode)
            && (|| after.document == Reread(f.document, look.read, decode)
                || (look.stat.Some? && look.stat.value.identity.Some?
                    && after.document == Reread(f.document, Some((content(look.stat.value), look.stat.value)), decode)))
  {
    if CacheHit(f, look) {
      var info := look.stat.value;
      if Matches(f.good, info) {
        assert info == f.good.value;
      } else {
        assert info == f.bad.value;
      }
    }
  }

  // ----- over a whole run of calls before migration -----

  function FieldsAfter(f: Fields, looks: seq<Observation>, n: nat, decode: Decoder): Fields
    requires n <= |looks|
  {
    if n == 0 then f else LookAtFile(FieldsAfter(f, looks, n - 1, decode), looks[n - 1], decode)
  }

  function RereadAfter(last: Bytes, looks: seq<Observation>, n: nat, decode: Decoder): Bytes
    requires n <= |looks|
  {
    if n == 0 then last else Reread(RereadAfter(last, looks, n - 1, decode), looks[n - 1].read, decode)
  }

  /** How often the cacheless reader's document changed. */
  function Changes(last: Bytes, looks: seq<Observation>, n: nat, decode: Decoder): nat
    requires n <= |looks|
  {
    if n == 0 then 0
    else Changes(last, looks, n - 1, decode) +
         if RereadAfter(last, looks, n, decode) == RereadAfter(last, looks, n - 1, decode) then 0 else 1
  }

  /**
   * For every sequence of file states and failures, the store serves what a cacheless reader keeping the last valid
   * document would, under a number that counts exactly the changes of that document.
   */
  lemma {:induction false} CachesInvisible(f: Fields, looks: seq<Observation>, n: nat, content: FileInfo -> Bytes,
      decode: Decoder)
    requires Coherent(f, content, decode) && n <= |looks| && f.configGeneration == f.generation
    requires forall k :: 0 <= k < |looks| ==> Faithful(looks[k], content) && Settled(looks[k])
    ensures var after := FieldsAfter(f, looks, n, decode);
            && Coherent(after, content, decode)
            && after.document == RereadAfter(f.document, looks, n, decode)
            && after.generation == after.configGeneration == f.generation + Changes(f.document, looks, n, decode)
    ensures decode(RereadAfter(f.document, looks, n, decode)).Some?
    ensures n == 0 || Reply(FieldsAfter(f, looks, n - 1, decode), Source(None, false), looks[n - 1], decode) ==
                      Serve(FromFile(RereadAfter(f.document, looks, n, decode),
                          decode(RereadAfter(f.document, looks, n, decode)).value),
                            f.generation + Changes(f.document, looks, n, decode))
  {
    if n > 0 {
      CachesInvisible(f, looks, n - 1, content, decode);
      CacheRefinesRereading(FieldsAfter(f, looks, n - 1, decode), looks[n - 1], content, decode);
    }
  }

  // ----- with the file replaced between stat and read -----

  /** The look as the call used it: what a matched cache stands for, or what was read. */
  function SeenBy(f: Fields, look: Observation, content: FileInfo -> Bytes): Observation {
    if CacheHit(f, look) then Observation(look.stat, Some((content(look.stat.value), look.stat.value)))
    else Observation(None, look.read)
  }

  function SeenAfter(
    f: Fields, looks: seq<Observation>, n: nat, content: FileInfo -> Bytes, decode: Decoder): (seen: seq<Observation>)
    requires n <= |looks|
    ensures |seen| == n
  {
    if n == 0 then []
    else
      SeenAfter(f, looks, n - 1, content, decode) +
      [SeenBy(FieldsAfter(f, looks, n - 1, decode), looks[n - 1], content)]
  }

  /** The file as it was at the stat, or as it was at the read. */
  predicate AtOneInstant(look: Observation, seen: Observation, content: FileInfo -> Bytes) {
    || seen.read == look.read
    || (look.stat.Some? && look.stat.value.identity.Some?
        && seen.read == Some((content(look.stat.value), look.stat.value)))
  }

  lemma {:induction false} FieldsAfterPrefix(f: Fields, looks: seq<Observation>, more: seq<Observation>, n: nat,
      decode: Decoder)
    requires n <= |looks|
    ensures FieldsAfter(f, looks + more, n, decode) == FieldsAfter(f, looks, n, decode)
  {
    if n > 0 {
      FieldsAfterPrefix(f, looks, more, n - 1, decode);
    }
  }

  lemma SeenAlike(f: Fields, look: Observation, content: FileInfo -> Bytes, decode: Decoder)
    requires Faithful(look, content)
    ensures var seen := SeenBy(f, look, content);
            && LookAtFile(f, seen, decode) == LookAtFile(f, look, decode)
            && AtOneInstant(look, seen, content) && Faithful(seen, content) && Settled(seen)
  {
  }

  /** The instants chosen are settled, and lead the store through the same fields. */
  lemma {:induction false} SeenIsSettled(
    f: Fields, looks: seq<Observation>, n: nat, content: FileInfo -> Bytes, decode: Decoder)
    requires n <= |looks| && forall k :: 0 <= k < |looks| ==> Faithful(looks[k], content)
    ensures var seen := SeenAfter(f, looks, n, content, decode);
            && FieldsAfter(f, seen, n, decode) == FieldsAfter(f, looks, n, decode)
            && forall k :: 0 <= k < n ==>
                 AtOneInstant(looks[k], seen[k], content) && Faithful(seen[k], content) && Settled(seen[k])
  {
    if n > 0 {
      SeenIsSettled(f, looks, n - 1, content, decode);
      var before, last := SeenAfter(f, looks, n - 1, content, decode), FieldsAfter(f, looks, n - 1, decode);
      FieldsAfterPrefix(f, before, [SeenBy(last, looks[n - 1], content)], n - 1, decode);
      SeenAlike(last, looks[n - 1], content, decode);
    }
  }

  /**
   * Whatever replaces the file, and whenever: there is a choice, call by call, of the instant of the stat or the
   * instant of the read under which the store serves what a cacheless reader does, numbered by the changes that reader
   * sees.
   */
  lemma RacesSeenOnce(f: Fields, looks: seq<Observation>, n: nat, content: FileInfo -> Bytes, decode: Decoder)
    requires Coherent(f, content, decode) && n <= |looks| && f.configGeneration == f.generation
    requires forall k :: 0 <= k < |looks| ==> Faithful(looks[k], content)
    ensures exists seen: seq<Observation> ::
              && |seen| == n && (forall k :: 0 <= k < n ==> AtOneInstant(looks[k], seen[k], content))
              && var after := FieldsAfter(f, looks, n, decode);
                 && after.document == RereadAfter(f.document, seen, n, decode)
                 && after.generation == after.configGeneration == f.generation + Changes(f.document, seen, n, decode)
                 && decode(after.document).Some?
                 && (n == 0 || Reply(FieldsAfter(f, looks, n - 1, decode), Source(None, false), looks[n - 1], decode) ==
                               Serve(FromFile(after.document, decode(after.document).value), after.generation))
  {
    var seen := SeenAfter(f, looks, n, content, decode);
    SeenIsSettled(f, looks, n, content, decode);
    CachesInvisible(f, seen, n, content, decode);
  }
}

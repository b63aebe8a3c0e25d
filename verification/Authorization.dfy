/**
 * The hand-over, the numbering, the pool and the fingerprint put together: what a pooled connection may be used for
 * is what the request's own snapshot allows.
 */
module Authorization {
  import opened Outcomes
  import opened ConfigStore
  import ExtensionConfig
  import Fingerprint
  import MigrationSeam
  import Runs
  import TransportPool
  import UpstreamTargets
  import Validation
  import FingerprintCollision

  function ConfigOf(s: Snapshot): ExtensionConfig.Config {
    if s.FromFile? then s.config else s.activation.config
  }

  function Fingerprints(): TransportPool.Fingerprinter {
    s => Fingerprint.Stream(ConfigOf(s))
  }

  /** Requests carry answers some Current gave; only decided closes run. */
  ghost function ServedOnly(served: seq<Answer>): (TransportPool.Pool, TransportPool.Action) -> bool {
    (p: TransportPool.Pool, a: TransportPool.Action) =>
      && (a.Acquire? ==> Serve(a.request.snapshot, a.request.number) in served)
      && (a.RunClose? ==> a.gen in p.closing)
  }

  lemma ServedRequestsAreIssued(process: MigrationSeam.Process, run: seq<TransportPool.Action>)
    requires MigrationSeam.Inv(process)
    requires Runs.Enabled(ServedOnly(process.served), TransportPool.Stepper(Fingerprints()), TransportPool.Empty, run)
    ensures Runs.Enabled(TransportPool.Guard(process.issued), TransportPool.Stepper(Fingerprints()),
            TransportPool.Empty, run)
  {
    var step := TransportPool.Stepper(Fingerprints());
    forall k | 0 <= k < |run| ensures TransportPool.Guard(process.issued)(Runs.After(step, TransportPool.Empty, run, k),
        run[k]) {
      var pool := Runs.After(step, TransportPool.Empty, run, k);
      assert ServedOnly(process.served)(pool, run[k]);
    }
  }

  /**
   * Any interleaving of commits, purges and readers, and any interleaving of the requests they lead to: a request's
   * transports were opened for a snapshot with the fingerprint of the request's own.
   */
  lemma RequestGetsItsOwnFingerprint(
    f: Fields, seam: seq<MigrationSeam.Action>, n: nat, decode: Decoder, run: seq<TransportPool.Action>, m: nat, h: nat)
    requires f.configGeneration == f.generation && f.bundle.None?
    requires n <= |seam| &&
             Runs.Enabled(MigrationSeam.Guard, MigrationSeam.Stepper(decode), MigrationSeam.Start(f), seam)
    requires var process := Runs.After(MigrationSeam.Stepper(decode), MigrationSeam.Start(f), seam, n);
             m <= |run| && Runs.Enabled(ServedOnly(process.served), TransportPool.Stepper(Fingerprints()),
                 TransportPool.Empty, run)
    requires h < |Runs.After(TransportPool.Stepper(Fingerprints()), TransportPool.Empty, run, m).handles|
    ensures var pool := Runs.After(TransportPool.Stepper(Fingerprints()), TransportPool.Empty, run, m);
            var handle := pool.handles[h];
            && handle.gen < |pool.gens|
            && Fingerprint.Stream(ConfigOf(pool.gens[handle.gen].basis)) ==
               Fingerprint.Stream(ConfigOf(handle.request.snapshot))
  {
    var process := Runs.After(MigrationSeam.Stepper(decode), MigrationSeam.Start(f), seam, n);
    MigrationSeam.EveryStateInv(f, seam, n, decode);
    ServedRequestsAreIssued(process, run);
    TransportPool.PoolAuthorization(run, m, process.issued, Fingerprints());
  }

  /** So the transports answer every host and port as the request's own snapshot would. */
  lemma RequestDialsItsOwnTargets(
    sp: UpstreamTargets.Spelling, f: Fields, seam: seq<MigrationSeam.Action>, n: nat, decode: Decoder,
    run: seq<TransportPool.Action>, m: nat, h: nat,
    ownRuntime: Option<UpstreamTargets.Runtime>, basisRuntime: Option<UpstreamTargets.Runtime>, rawHost: string,
        portText: string)
    requires f.configGeneration == f.generation && f.bundle.None?
    requires n <= |seam| &&
             Runs.Enabled(MigrationSeam.Guard, MigrationSeam.Stepper(decode), MigrationSeam.Start(f), seam)
    requires var process := Runs.After(MigrationSeam.Stepper(decode), MigrationSeam.Start(f), seam, n);
             m <= |run| && Runs.Enabled(ServedOnly(process.served), TransportPool.Stepper(Fingerprints()),
                 TransportPool.Empty, run)
    requires var pool := Runs.After(TransportPool.Stepper(Fingerprints()), TransportPool.Empty, run, m);
             && h < |pool.handles| && pool.handles[h].gen < |pool.gens|
             && var own, basis :=
                ConfigOf(pool.handles[h].request.snapshot), ConfigOf(pool.gens[pool.handles[h].gen].basis);
                && Fingerprint.PlainConfig(own) && Fingerprint.PlainConfig(basis) &&
                   Fingerprint.SameCaptureCounts(basis, own)
                && ExtensionConfig.UniqueIds(own.modules) && ExtensionConfig.UniqueIds(basis.modules)
                && UpstreamTargets.OwnRuntime(sp, own, ownRuntime) &&
                   UpstreamTargets.OwnRuntime(sp, basis, basisRuntime)
    ensures var pool := Runs.After(TransportPool.Stepper(Fingerprints()), TransportPool.Empty, run, m);
            var own, basis := ConfigOf(pool.handles[h].request.snapshot),
                ConfigOf(pool.gens[pool.handles[h].gen].basis);
            UpstreamTargets.UpstreamTarget(sp, UpstreamTargets.Project(sp, basis, basisRuntime), rawHost, portText) ==
            UpstreamTargets.UpstreamTarget(sp, UpstreamTargets.Project(sp, own, ownRuntime), rawHost, portText)
  {
    RequestGetsItsOwnFingerprint(f, seam, n, decode, run, m, h);
    var pool := Runs.After(TransportPool.Stepper(Fingerprints()), TransportPool.Empty, run, m);
    var own, basis := ConfigOf(pool.handles[h].request.snapshot), ConfigOf(pool.gens[pool.handles[h].gen].basis);
    Fingerprint.EqualFingerprintEqualTargets(sp, basis, own, basisRuntime, ownRuntime, rawHost, portText);
  }

  // ----- and where the fingerprint is not enough -----

  /** A reload of the file: one Current before the new document is there, one after. */
  function Reload(body: Bytes, info: FileInfo): seq<MigrationSeam.Action> {
    [MigrationSeam.LoadActive, MigrationSeam.LoadMigrated, MigrationSeam.Finish(Observation(None, None)),
     MigrationSeam.LoadActive, MigrationSeam.LoadMigrated, MigrationSeam.Finish(Observation(None, Some((body, info))))]
  }

  /** One Current before any bundle: two loads and a look at the file. */
  lemma OneCurrent(p: MigrationSeam.Process, look: Observation, decode: Decoder)
    requires p.reader.Outside? && p.active.None? && !p.migrated
    ensures var a := MigrationSeam.Step(p, MigrationSeam.LoadActive, decode);
            var b := MigrationSeam.Step(a, MigrationSeam.LoadMigrated, decode);
            var q := MigrationSeam.Step(b, MigrationSeam.Finish(look), decode);
            && MigrationSeam.Guard(p, MigrationSeam.LoadActive) && MigrationSeam.Guard(a, MigrationSeam.LoadMigrated)
            && MigrationSeam.Guard(b, MigrationSeam.Finish(look))
            && q.reader.Outside? && q.active.None? && !q.migrated
            && q.store == LookAtFile(p.store, look, decode)
            && q.served == p.served + [Serve(FromFile(q.store.document, q.store.config), q.store.configGeneration)]
  {
  }

  lemma ReloadServesBoth(f: Fields, body: Bytes, info: FileInfo, decode: Decoder)
    requires f.configGeneration == f.generation && f.bundle.None? && decode(body).Some? && body != f.document
    ensures var step, start, run := MigrationSeam.Stepper(decode), MigrationSeam.Start(f), Reload(body, info);
            && Runs.Enabled(MigrationSeam.Guard, step, start, run)
            && Runs.After(step, start, run, 6).served ==
               [Serve(FromFile(f.document, f.config), f.generation),
                Serve(FromFile(body, decode(body).value), f.generation + 1)]
  {
    var step, start, run := MigrationSeam.Stepper(decode), MigrationSeam.Start(f), Reload(body, info);
    assert Runs.After(step, start, run, 0) == start;
    OneCurrent(start, run[2].look, decode);
    assert Runs.After(step, start, run, 1) == MigrationSeam.Step(start, run[0], decode);
    assert Runs.After(step, start, run, 2) == MigrationSeam.Step(Runs.After(step, start, run, 1), run[1], decode);
    assert Runs.After(step, start, run, 3) == MigrationSeam.Step(Runs.After(step, start, run, 2), run[2], decode);
    OneCurrent(Runs.After(step, start, run, 3), run[5].look, decode);
    assert Runs.After(step, start, run, 4) == MigrationSeam.Step(Runs.After(step, start, run, 3), run[3], decode);
    assert Runs.After(step, start, run, 5) == MigrationSeam.Step(Runs.After(step, start, run, 4), run[4], decode);
    assert Runs.After(step, start, run, 6) == MigrationSeam.Step(Runs.After(step, start, run, 5), run[5], decode);
  }

  /** Two requests, the newer with the older one's fingerprint: the second is handed the first one's transports. */
  lemma SecondRequestSharesPool(first: TransportPool.Request, second: TransportPool.Request)
    requires 0 < first.number < second.number
    requires Fingerprints()(first.snapshot) == Fingerprints()(second.snapshot)
    ensures var run := [TransportPool.Acquire(first), TransportPool.Acquire(second)];
            var pool := Runs.After(TransportPool.Stepper(Fingerprints()), TransportPool.Empty, run, 2);
            && |pool.handles| == 2 && pool.handles[1].request == second && pool.handles[1].gen == 0
            && |pool.gens| == 1 && pool.gens[0].basis == first.snapshot
  {
    var step, run := TransportPool.Stepper(Fingerprints()),
        [TransportPool.Acquire(first), TransportPool.Acquire(second)];
    assert Runs.After(step, TransportPool.Empty, run, 0) == TransportPool.Empty;
    assert Runs.After(step, TransportPool.Empty, run, 1) ==
           TransportPool.Acquired(TransportPool.Empty, first, Fingerprints());
    assert Runs.After(step, TransportPool.Empty, run, 2) ==
           TransportPool.Acquired(Runs.After(step, TransportPool.Empty, run, 1), second, Fingerprints());
  }

  /** The answer for port 443 on the runtime production compiles. */
  function Answer443(sp: UpstreamTargets.Spelling, cfg: ExtensionConfig.Config,
      host: string): Option<UpstreamTargets.Target> {
    var runtime := Some(UpstreamTargets.CompileConfig(sp, cfg));
    UpstreamTargets.UpstreamTarget(sp, UpstreamTargets.Project(sp, cfg, runtime), host, "443")
  }

  lemma ServedRequestsEnabled(served: seq<Answer>, older: TransportPool.Request, newer: TransportPool.Request)
    requires Serve(older.snapshot, older.number) in served && Serve(newer.snapshot, newer.number) in served
    ensures Runs.Enabled(ServedOnly(served), TransportPool.Stepper(Fingerprints()), TransportPool.Empty,
                         [TransportPool.Acquire(older), TransportPool.Acquire(newer)])
  {
  }

  /** The two requests a reload leads to. */
  function Older(f: Fields): TransportPool.Request {
    TransportPool.Request(f.generation, FromFile(f.document, f.config))
  }

  function Newer(f: Fields, body: Bytes, config: ExtensionConfig.Config): TransportPool.Request {
    TransportPool.Request(f.generation + 1, FromFile(body, config))
  }

  /** The file is reloaded, each document is served once, and a request under each acquires its transports. */
  ghost predicate ReloadRun(f: Fields, body: Bytes, info: FileInfo, config: ExtensionConfig.Config, decode: Decoder) {
    var seam := MigrationSeam.Stepper(decode);
    var served := Runs.After(seam, MigrationSeam.Start(f), Reload(body, info), 6).served;
    var run := [TransportPool.Acquire(Older(f)), TransportPool.Acquire(Newer(f, body, config))];
    && Runs.Enabled(MigrationSeam.Guard, seam, MigrationSeam.Start(f), Reload(body, info))
    && Runs.Enabled(ServedOnly(served), TransportPool.Stepper(Fingerprints()), TransportPool.Empty, run)
  }

  lemma ReloadRuns(f: Fields, body: Bytes, info: FileInfo, config: ExtensionConfig.Config, decode: Decoder)
    requires f.configGeneration == f.generation && f.bundle.None? && body != f.document && decode(body) == Some(config)
    ensures ReloadRun(f, body, info, config, decode)
  {
    ReloadServesBoth(f, body, info, decode);
    var served := Runs.After(MigrationSeam.Stepper(decode), MigrationSeam.Start(f), Reload(body, info), 6).served;
    assert served[0] in served && served[1] in served;
    ServedRequestsEnabled(served, Older(f), Newer(f, body, config));
  }

  /**
   * The collision reaches the pool. The file is reloaded from one member of a colliding pair to the other, both of
   * which validation lets through; a request under the second is handed transports opened for the first, which refuse
   * port 443 of `y` where the request's own snapshot dials it.
   */
  lemma CollisionReachesPool(
    f: Fields, body: Bytes, info: FileInfo, decode: Decoder, valid: Validation.FieldCheck, w: string, x: string,
        y: string)
    requires f.configGeneration == f.generation > 0 && f.bundle.None? && body != f.document
    requires FingerprintCollision.Collides(w, x, y) && valid(ExtensionConfig.HostMapping(x, y))
    requires f.config == Fingerprint.OneExtension([w], [ExtensionConfig.HostMapping(x, y)], x)
    requires decode(body) == Some(Fingerprint.OneExtension([w, x, y], [], x))
    ensures var sp, own := UpstreamTargets.SourceSpelling, decode(body).value;
            var run := [TransportPool.Acquire(Older(f)), TransportPool.Acquire(Newer(f, body, own))];
            var pool := Runs.After(TransportPool.Stepper(Fingerprints()), TransportPool.Empty, run, 2);
            && ReloadRun(f, body, info, own, decode)
            && |pool.handles| == 2 && pool.handles[1].request == Newer(f, body, own) && pool.handles[1].gen == 0
            && |pool.gens| == 1 && pool.gens[0].basis == FromFile(f.document, f.config)
            && Validation.Admissible(sp.canonical, valid, f.config) && Validation.Admissible(sp.canonical, valid, own)
            && Answer443(sp, f.config, y) == None && Answer443(sp, own, y) != None
  {
    ReloadRuns(f, body, info, decode(body).value, decode);
    FingerprintCollision.ValidatedCollision(valid, w, x, y);
    SecondRequestSharesPool(Older(f), Newer(f, body, decode(body).value));
  }
}

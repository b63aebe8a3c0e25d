/**
 * The durable half of the bundle lifecycle: what is on disk, which single durable
 * writes the manager may issue, and what a restart makes of any disk.
 *
 * SHA-256 is taken to be injective, so a document stands for its own digest and a
 * record that passes its integrity check is a record that was written whole.
 * `decodeConfig` is a deterministic partial function and is passed around as a `Decoder`.
 */
module BundleDisk {
  import opened Outcomes
  import opened ExtensionConfig

  type Id = string
  type Document = seq<bv8>
  type Digest = Document
  type Decoder = Document -> Option<Config>

  datatype State = Staged | Active | Superseded

  datatype Record = Record(id: Id, state: State, digest: Digest, document: Document, stagedAt: int, activatedAt: int)

  /** A record file: readable, or failing its schema, JSON or integrity check. */
  datatype Entry = Readable(record: Record) | Damaged

  datatype Pointer = NoPointer | Pointer(active: Id, previous: Id) | DamagedPointer

  datatype Disk = Disk(records: map<Id, Entry>, pointer: Pointer)

  datatype Error = BadId | NotFound | Corrupt | Conflict | WrongState | InvalidDocument | Io

  predicate ValidId(id: Id) {
    && 0 < |id| <= 128
    && (forall k :: 0 <= k < |id| ==> LegalIdByte(id[k]))
    && id[0] != '.'
  }

  predicate LegalIdByte(c: char) {
    'a' <= c <= 'z' || 'A' <= c <= 'Z' || '0' <= c <= '9' || c == '-' || c == '_' || c == '.'
  }

  /** An id names one file of the store's own directory: no separator, no hidden name, no way up. */
  lemma IdsNameOneFile(id: Id)
    requires ValidId(id)
    ensures '/' !in id && '\\' !in id && '\0' !in id && id != "." && id != ".." && 0 < |id| <= 128
  {
  }

  /** What the store finds when no read fails: the integrity-checked record under `id`. */
  function Lookup(disk: Disk, id: Id): Result<Record, Error> {
    if !ValidId(id) then Err(BadId)
    else if id !in disk.records then Err(NotFound)
    else if disk.records[id].Damaged? || disk.records[id].record.id != id then Err(Corrupt)
    else Ok(disk.records[id].record)
  }

  /** The bundle designated as live on disk, or the empty id. */
  function Pointed(disk: Disk): Id {
    if disk.pointer.Pointer? then disk.pointer.active else ""
  }

  datatype Recovered = Nothing | Unusable | Live(id: Id, digest: Digest, config: Config)

  /** What a freshly started process serves from `disk`. */
  function RecoverFrom(disk: Disk, decode: Decoder): Recovered {
    if disk.pointer.DamagedPointer? then Unusable
    else if Pointed(disk) == "" then Nothing
    else match Lookup(disk, Pointed(disk))
      case Err(_) => Unusable
      case Ok(record) =>
        match decode(record.document)
        case None => Unusable
        case Some(config) => Live(record.id, record.digest, config)
  }

  /** The stored record under `id` exists, passes its checks and decodes. */
  predicate Servable(disk: Disk, id: Id, decode: Decoder) {
    Lookup(disk, id).Ok? && decode(Lookup(disk, id).value.document).Some?
  }

  /** A non-empty pointer names a stored ACTIVE record that decodes. */
  predicate Consistent(disk: Disk, decode: Decoder) {
    && !disk.pointer.DamagedPointer?
    && (Pointed(disk) != "" ==>
       Servable(disk, Pointed(disk), decode) && Lookup(disk, Pointed(disk)).value.state == Active)
  }

  /** Every readable record carries the digest of its own document. */
  predicate HonestDigests(disk: Disk) {
    forall id :: id in disk.records && disk.records[id].Readable? ==>
        disk.records[id].record.digest == disk.records[id].record.document
  }

  // ----- single durable writes -----

  datatype Write =
    | PutStaged(record: Record)                 // Stage
    | PutActive(id: Id, at: int)                // Commit, first write
    | PointAt(id: Id, previous: Id)             // Commit, second write
    | PutSuperseded(id: Id)                     // Commit, third write
    | Remove(id: Id)                            // Abort and the sweep
    | Wipe                                      // a purge that reached the pointer
    | Erase(ids: set<Id>)                       // a purge that stopped before the pointer

  function WithState(disk: Disk, id: Id, state: State, at: int): Disk
    requires Lookup(disk, id).Ok?
  {
    disk.(records := disk.records[id := Readable(Lookup(disk, id).value.(state := state, activatedAt := at))])
  }

  lemma LookupWithState(disk: Disk, id: Id, state: State, at: int, other: Id)
    requires Lookup(disk, id).Ok?
    ensures Lookup(WithState(disk, id, state, at), other) ==
            if other == id then Ok(Lookup(disk, id).value.(state := state, activatedAt := at)) else Lookup(disk, other)
  {
  }

  /** The guard under which the manager issues each write. */
  predicate Allowed(w: Write, disk: Disk, decode: Decoder) {
    match w
    case PutStaged(r) =>
      ValidId(r.id) && r.id !in disk.records && r.state == Staged && r.digest == r.document && decode(r.document).Some?
    case PutActive(id, at) => Servable(disk, id, decode)
    case PointAt(id, previous) => Servable(disk, id, decode) && Lookup(disk, id).value.state == Active
    case PutSuperseded(id) => Lookup(disk, id).Ok? && id != Pointed(disk)
    case Remove(id) => Lookup(disk, id).Ok? && Lookup(disk, id).value.state != Active
    case Wipe => true
    case Erase(ids) => true
  }

  function Apply(w: Write, disk: Disk): Disk {
    match w
    case PutStaged(r) => disk.(records := disk.records[r.id := Readable(r)])
    case PutActive(id, at) => if Lookup(disk, id).Ok? then WithState(disk, id, Active, at) else disk
    case PointAt(id, previous) => disk.(pointer := Pointer(id, previous))
    case PutSuperseded(id) =>
      if Lookup(disk, id).Ok? then WithState(disk, id, Superseded, Lookup(disk, id).value.activatedAt) else disk
    case Remove(id) => disk.(records := disk.records - {id})
    case Wipe => Disk(map[], NoPointer)
    case Erase(ids) => disk.(records := disk.records - ids)
  }

  /** The disk after the first `n` writes of `ws`. */
  function DiskAfter(disk: Disk, ws: seq<Write>, n: nat): Disk
    requires n <= |ws|
  {
    if n == 0 then disk else Apply(ws[n - 1], DiskAfter(disk, ws, n - 1))
  }

  /** Every write of `ws` was issued under its guard. */
  predicate Legal(disk: Disk, ws: seq<Write>, decode: Decoder) {
    forall k {:trigger Allowed(ws[k], DiskAfter(disk, ws, k), decode)} :: 0 <= k < |ws| ==>
        Allowed(ws[k], DiskAfter(disk, ws, k), decode)
  }

  /** The one write that can break the pointer: a purge that removes its record and stops there. */
  predicate Tears(w: Write, disk: Disk) {
    w.Erase? && Pointed(disk) in w.ids && Pointed(disk) != ""
  }

  predicate Untorn(disk: Disk, ws: seq<Write>) {
    forall k {:trigger Tears(ws[k], DiskAfter(disk, ws, k))} :: 0 <= k < |ws| ==> !Tears(ws[k], DiskAfter(disk, ws, k))
  }

  // ----- consistency of every reachable disk -----

  /** One guarded write keeps the pointer consistent exactly when it does not tear it. */
  lemma WriteKeepsConsistent(disk: Disk, w: Write, decode: Decoder)
    requires Consistent(disk, decode) && Allowed(w, disk, decode)
    ensures Consistent(Apply(w, disk), decode) <==> !Tears(w, disk)
  {
    var after := Apply(w, disk);
    var p := Pointed(disk);
    if w.PutActive? {
      assert Lookup(after, w.id).Ok?;
    }
    if p != "" && !w.Erase? && !w.Wipe? && !w.PointAt? {
      assert Lookup(after, p).Ok?;
    }
  }

  lemma ConsistentRecovers(disk: Disk, decode: Decoder)
    requires Consistent(disk, decode)
    ensures RecoverFrom(disk, decode) != Unusable
  {
  }

  /** `ws` are guarded writes that lead from one disk to the other. */
  predicate Run(before: Disk, ws: seq<Write>, after: Disk, decode: Decoder) {
    Legal(before, ws, decode) && after == DiskAfter(before, ws, |ws|)
  }

  /** A journal can be replayed in two goes. */
  lemma {:induction false} DiskAfterBoth(disk: Disk, first: seq<Write>, rest: seq<Write>, n: nat)
    requires n <= |first + rest|
    ensures DiskAfter(disk, first + rest, n) ==
            if n <= |first| then DiskAfter(disk, first, n)
                else DiskAfter(DiskAfter(disk, first, |first|), rest, n - |first|)
  {
    if n > 0 {
      DiskAfterBoth(disk, first, rest, n - 1);
    }
  }

  /** A write that was guarded in its own journal is guarded in the joined one. */
  lemma JoinedAllowed(a: Disk, first: seq<Write>, b: Disk, rest: seq<Write>, k: nat, decode: Decoder)
    requires Run(a, first, b, decode) && Legal(b, rest, decode) && k < |first + rest|
    ensures Allowed((first + rest)[k], DiskAfter(a, first + rest, k), decode)
  {
    DiskAfterBoth(a, first, rest, k);
    if k < |first| {
      assert (first + rest)[k] == first[k];
      assert Allowed(first[k], DiskAfter(a, first, k), decode);
    } else {
      assert (first + rest)[k] == rest[k - |first|];
      assert Allowed(rest[k - |first|], DiskAfter(b, rest, k - |first|), decode);
    }
  }

  /** The journals of two calls, one after the other, are the journal of both. */
  lemma RunJoin(a: Disk, first: seq<Write>, b: Disk, rest: seq<Write>, c: Disk, decode: Decoder)
    requires Run(a, first, b, decode) && Run(b, rest, c, decode)
    ensures Run(a, first + rest, c, decode)
  {
    DiskAfterBoth(a, first, rest, |first + rest|);
    forall k | 0 <= k < |first + rest| ensures Allowed((first + rest)[k], DiskAfter(a, first + rest, k), decode) {
      JoinedAllowed(a, first, b, rest, k, decode);
    }
  }

  lemma RunOne(disk: Disk, w: Write, decode: Decoder)
    requires Allowed(w, disk, decode)
    ensures Run(disk, [w], Apply(w, disk), decode)
  {
    assert DiskAfter(disk, [w], 1) == Apply(w, DiskAfter(disk, [w], 0));
  }

  /**
   * Crash consistency over whole runs: a crash may fall after any durable write of any
   * number of stages, commits, aborts, sweeps, purges and restarts, and the disk it leaves
   * is consistent, because every cut of the journal is.
   */
  lemma {:induction false} EveryCrashPointConsistent(disk: Disk, ws: seq<Write>, cut: nat, decode: Decoder)
    requires Consistent(disk, decode) && Legal(disk, ws, decode) && Untorn(disk, ws)
    requires cut <= |ws|
    ensures Consistent(DiskAfter(disk, ws, cut), decode)
    ensures RecoverFrom(DiskAfter(disk, ws, cut), decode) != Unusable
    decreases cut
  {
    if cut > 0 {
      EveryCrashPointConsistent(disk, ws, cut - 1, decode);
      assert Allowed(ws[cut - 1], DiskAfter(disk, ws, cut - 1), decode) &&
             !Tears(ws[cut - 1], DiskAfter(disk, ws, cut - 1));
      WriteKeepsConsistent(DiskAfter(disk, ws, cut - 1), ws[cut - 1], decode);
    }
    ConsistentRecovers(DiskAfter(disk, ws, cut), decode);
  }

  ghost predicate EveryCutConsistent(disk: Disk, ws: seq<Write>, decode: Decoder) {
    forall cut :: 0 <= cut <= |ws| ==> Consistent(DiskAfter(disk, ws, cut), decode)
  }

  /** Every crash point of a guarded journal is consistent if and only if no purge in it was torn. */
  lemma CrashConsistencyExactly(disk: Disk, ws: seq<Write>, decode: Decoder)
    requires Consistent(disk, decode) && Legal(disk, ws, decode)
    ensures EveryCutConsistent(disk, ws, decode) <==> Untorn(disk, ws)
  {
    if Untorn(disk, ws) {
      forall cut | 0 <= cut <= |ws| ensures Consistent(DiskAfter(disk, ws, cut), decode) {
        EveryCrashPointConsistent(disk, ws, cut, decode);
      }
    }
    if EveryCutConsistent(disk, ws, decode) {
      forall k | 0 <= k < |ws| ensures !Tears(ws[k], DiskAfter(disk, ws, k)) {
        assert Allowed(ws[k], DiskAfter(disk, ws, k), decode);
        WriteKeepsConsistent(DiskAfter(disk, ws, k), ws[k], decode);
        assert Consistent(DiskAfter(disk, ws, k + 1), decode);
      }
    }
  }

  lemma WriteKeepsHonest(disk: Disk, w: Write, decode: Decoder)
    requires HonestDigests(disk) && Allowed(w, disk, decode)
    ensures HonestDigests(Apply(w, disk))
  {
    var after := Apply(w, disk);
    forall id | id in after.records && after.records[id].Readable?
      ensures after.records[id].record.digest == after.records[id].record.document
    {
      assert w.PutStaged? || id in disk.records;
    }
  }

  lemma {:induction false} EveryCrashPointHonest(disk: Disk, ws: seq<Write>, cut: nat, decode: Decoder)
    requires HonestDigests(disk) && Legal(disk, ws, decode) && cut <= |ws|
    ensures HonestDigests(DiskAfter(disk, ws, cut))
    decreases cut
  {
    if cut > 0 {
      EveryCrashPointHonest(disk, ws, cut - 1, decode);
      WriteKeepsHonest(DiskAfter(disk, ws, cut - 1), ws[cut - 1], decode);
    }
  }

  // ----- the crash inside Commit -----

  /** The durable writes one Commit(id) can have issued, in order, when `current` was live in memory. */
  predicate CommitJournal(ws: seq<Write>, id: Id, current: Id) {
    && (|ws| >= 1 ==> ws[0].PutActive? && ws[0].id == id)
    && (|ws| >= 2 ==> ws[1] == PointAt(id, current))
    && (forall k :: 2 <= k < |ws| ==> ws[k] == PutSuperseded(current) || ws[k].Remove?)
  }

  /** After the pointer has moved, neither marking the old record nor the sweep changes what a restart serves. */
  lemma TailKeepsRecovery(disk: Disk, w: Write, decode: Decoder)
    requires Consistent(disk, decode) && Allowed(w, disk, decode)
    requires w.PutActive? || w.PutSuperseded? || w.Remove? || w.PutStaged?
    ensures RecoverFrom(Apply(w, disk), decode) == RecoverFrom(disk, decode)
  {
    WriteKeepsConsistent(disk, w, decode);
    if Pointed(disk) != "" {
      assert Lookup(Apply(w, disk), Pointed(disk)).Ok?;
    }
  }

  /** Activating a servable record and then pointing at it makes a restart serve that record. */
  lemma PointerWriteSwitches(disk: Disk, id: Id, previous: Id, at: int, decode: Decoder)
    requires Servable(disk, id, decode)
    ensures var r := Lookup(disk, id).value;
            RecoverFrom(Apply(PointAt(id, previous), Apply(PutActive(id, at), disk)), decode) ==
                Live(id, r.digest, decode(r.document).value)
  {
    var activated := Apply(PutActive(id, at), disk);
    assert Lookup(activated, id) == Ok(Lookup(disk, id).value.(state := Active, activatedAt := at));
    assert Lookup(Apply(PointAt(id, previous), activated), id) == Lookup(activated, id);
  }

  lemma CommitJournalUntorn(disk: Disk, ws: seq<Write>, id: Id, current: Id)
    requires CommitJournal(ws, id, current)
    ensures Untorn(disk, ws)
  {
    forall k | 0 <= k < |ws| ensures !ws[k].Erase? {
    }
  }

  /** What a restart serves once `id` has been committed. */
  function Committed(disk: Disk, id: Id, decode: Decoder): Recovered
    requires Servable(disk, id, decode)
  {
    Live(id, Lookup(disk, id).value.digest, decode(Lookup(disk, id).value.document).value)
  }

  /** One more write at a crash point that is not the pointer write recovers the same bundle. */
  lemma SameRecoveryOneWriteLater(disk: Disk, ws: seq<Write>, id: Id, current: Id, cut: nat, decode: Decoder)
    requires Consistent(disk, decode) && Legal(disk, ws, decode) && CommitJournal(ws, id, current)
    requires cut < |ws| && cut != 1
    ensures RecoverFrom(DiskAfter(disk, ws, cut + 1), decode) == RecoverFrom(DiskAfter(disk, ws, cut), decode)
  {
    CommitJournalUntorn(disk, ws, id, current);
    EveryCrashPointConsistent(disk, ws, cut, decode);
    TailKeepsRecovery(DiskAfter(disk, ws, cut), ws[cut], decode);
  }

  lemma SecondWriteSwitches(disk: Disk, ws: seq<Write>, id: Id, current: Id, decode: Decoder)
    requires CommitJournal(ws, id, current) && Servable(disk, id, decode) && |ws| >= 2
    ensures RecoverFrom(DiskAfter(disk, ws, 2), decode) == Committed(disk, id, decode)
  {
    var put := DiskAfter(disk, ws, 1);
    assert put == Apply(ws[0], DiskAfter(disk, ws, 0));
    assert DiskAfter(disk, ws, 2) == Apply(ws[1], put);
    PointerWriteSwitches(disk, id, current, ws[0].at, decode);
  }

  /**
   * A crash anywhere inside Commit(id) restores what the pointer named before the call or the
   * committed bundle, and switches from the first to the second at exactly one write.
   */
  lemma {:induction false} CommitSwitchesOnce(disk: Disk, ws: seq<Write>, id: Id, current: Id, cut: nat,
      decode: Decoder)
    requires Consistent(disk, decode) && Legal(disk, ws, decode) && CommitJournal(ws, id, current)
    requires Servable(disk, id, decode)
    requires cut <= |ws|
    ensures RecoverFrom(DiskAfter(disk, ws, cut), decode) == if cut < 2 then RecoverFrom(disk, decode)
            else Committed(disk, id, decode)
    decreases cut
  {
    if cut == 2 {
      SecondWriteSwitches(disk, ws, id, current, decode);
    } else if cut > 0 {
      CommitSwitchesOnce(disk, ws, id, current, cut - 1, decode);
      SameRecoveryOneWriteLater(disk, ws, id, current, cut - 1, decode);
    }
  }

  // ----- purge -----

  /**
   * A purge removes records one by one and the pointer last. Cut short, the disk stays consistent exactly
   * when the pointed record has not been reached, and a restart serves the old bundle or fails closed.
   */
  lemma PurgeCutShort(disk: Disk, ids: set<Id>, decode: Decoder)
    requires Consistent(disk, decode)
    ensures var left := Apply(Erase(ids), disk);
            && (Consistent(left, decode) <==> !(Pointed(disk) != "" && Pointed(disk) in ids))
            && RecoverFrom(left, decode) ==
               (if Pointed(disk) != "" && Pointed(disk) in ids then Unusable else RecoverFrom(disk, decode))
  {
    WriteKeepsConsistent(disk, Erase(ids), decode);
  }

  /**
   * The pointer consistency does not survive a torn purge: staging the torn id again, without committing
   * it, makes the next restart serve a record that is only STAGED.
   */
  lemma TornPurgeResurrectsStagedRecord(document: Document, decode: Decoder)
    requires decode(document).Some?
    ensures var record := Record("b", Active, document, document, 0, 0);
            var disk := Disk(map["b" := Readable(record)], Pointer("b", ""));
            var ws := [Erase({"b"}), PutStaged(record.(state := Staged))];
            && Consistent(disk, decode) && Legal(disk, ws, decode)
            && !Consistent(DiskAfter(disk, ws, 2), decode)
            && RecoverFrom(DiskAfter(disk, ws, 2), decode) == Live("b", document, decode(document).value)
  {
    var record := Record("b", Active, document, document, 0, 0);
    var disk := Disk(map["b" := Readable(record)], Pointer("b", ""));
    var ws := [Erase({"b"}), PutStaged(record.(state := Staged))];
    assert ValidId("b");
    assert DiskAfter(disk, ws, 1) == Apply(ws[0], DiskAfter(disk, ws, 0));
    assert DiskAfter(disk, ws, 1) == Disk(map[], Pointer("b", ""));
    assert DiskAfter(disk, ws, 2) == Apply(ws[1], DiskAfter(disk, ws, 1));
  }
}

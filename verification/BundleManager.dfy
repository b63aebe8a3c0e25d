/**
 * The bundle store and the manager on top of it, as the objects the control API drives.
 *
 * A durable write can succeed, fail with nothing changed, or fail after taking effect (the directory
 * fsync follows the rename); a read can fail. Every write that took effect is appended to a journal, so
 * the disk a crash leaves behind is the replay of some prefix of it.
 */
module BundleManager {
  import opened Outcomes
  import opened ExtensionConfig
  import opened BundleDisk
  import opened BundleCalls
  import opened Sequences
  import SweepOrder
  import StringOrder

  const RETAINED_GENERATIONS := 3

  /**
   * How one operation on the store goes: as asked, not at all, in full and then reported as failed, or, for a purge, as
   * far as some records.
   */
  datatype Fault = Fine | Lost | Unsure | Partial(ids: set<Id>)

  /** The store under any schedule of faults: `fault(n)` befalls its operation number `n`. */
  class BundleStore {
    const fault: nat -> Fault
    var clock: nat
    var disk: Disk

    /** No fault befalls the operations from `from` up to, but not including, `to`. */
    predicate Quiet(from: nat, to: nat) {
      forall k {:trigger fault(k)} :: from <= k < to ==> fault(k) == Fine
    }

    constructor (files: Disk, schedule: nat -> Fault)
      ensures disk == files && fault == schedule && clock == 0
    {
      disk, fault, clock := files, schedule, 0;
    }

    /** The fate of the operation that starts now. */
    method Tick() returns (f: Fault)
      modifies this`clock
      ensures f == fault(old(clock)) && clock == old(clock) + 1
    {
      f := fault(clock);
      clock := clock + 1;
    }

    method Get(id: Id) returns (r: Result<Record, Error>)
      modifies this`clock
      ensures clock == old(clock) + 1
      ensures r == if ValidId(id) && fault(old(clock)) != Fine then Err(Io) else Lookup(disk, id)
    {
      var f := Tick();
      if ValidId(id) && f != Fine {
        return Err(Io);
      }
      r := Lookup(disk, id);
    }

    /** The bundle the pointer file names, or the empty id. */
    method GetPointer() returns (r: Result<Id, Error>)
      modifies this`clock
      ensures clock == old(clock) + 1
      ensures r == if fault(old(clock)) != Fine then Err(Io)
                   else if disk.pointer.DamagedPointer? then Err(Corrupt) else Ok(Pointed(disk))
    {
      var f := Tick();
      if f != Fine {
        return Err(Io);
      }
      r := if disk.pointer.DamagedPointer? then Err(Corrupt) else Ok(Pointed(disk));
    }

    method List() returns (r: Option<set<Id>>)
      modifies this`clock
      ensures clock == old(clock) + 1
      ensures r == if fault(old(clock)) == Fine then Some(disk.records.Keys) else None
    {
      var f := Tick();
      r := if f != Fine then None else Some(disk.records.Keys);
    }

    /** An atomic write: rename, then fsync of the directory. `landed` says whether the rename took effect. */
    method Put(record: Record) returns (ok: bool, ghost landed: bool)
      modifies this
      ensures clock == old(clock) + 1
      ensures ok <==> ValidId(record.id) && fault(old(clock)) == Fine
      ensures landed <==> ValidId(record.id) && (fault(old(clock)) == Fine || fault(old(clock)) == Unsure)
      ensures disk == if landed then old(disk).(records := old(disk).records[record.id := Readable(record)])
              else old(disk)
    {
      var f := Tick();
      if !ValidId(record.id) || (f != Fine && f != Unsure) {
        return false, false;
      }
      disk := disk.(records := disk.records[record.id := Readable(record)]);
      return f == Fine, true;
    }

    method SetPointer(active: Id, previous: Id) returns (ok: bool, ghost landed: bool)
      modifies this
      ensures clock == old(clock) + 1
      ensures ok <==> fault(old(clock)) == Fine
      ensures landed <==> fault(old(clock)) == Fine || fault(old(clock)) == Unsure
      ensures disk == if landed then old(disk).(pointer := Pointer(active, previous)) else old(disk)
    {
      var f := Tick();
      if f != Fine && f != Unsure {
        return false, false;
      }
      disk := disk.(pointer := Pointer(active, previous));
      return f == Fine, true;
    }

    method Delete(id: Id) returns (ok: bool, ghost landed: bool)
      modifies this
      ensures clock == old(clock) + 1
      ensures ok <==> ValidId(id) && fault(old(clock)) == Fine
      ensures landed <==> ValidId(id) && (fault(old(clock)) == Fine || fault(old(clock)) == Unsure)
      ensures disk == if landed then old(disk).(records := old(disk).records - {id}) else old(disk)
    {
      var f := Tick();
      if !ValidId(id) || (f != Fine && f != Unsure) {
        return false, false;
      }
      disk := disk.(records := disk.records - {id});
      return f == Fine, true;
    }

    /** Removes every record, then the pointer; it can stop anywhere on the way. */
    method Purge() returns (ok: bool, ghost w: Write)
      modifies this
      ensures clock == old(clock) + 1
      ensures w == match fault(old(clock))
                   case Fine => Wipe
                   case Unsure => Wipe
                   case Lost => Erase({})
                   case Partial(ids) => Erase(ids)
      ensures disk == Apply(w, old(disk)) && (ok <==> fault(old(clock)) == Fine)
    {
      var f := Tick();
      var ids := match f case Lost => {} case Partial(reached) => reached case _ => disk.records.Keys;
      disk := disk.(records := disk.records - ids);
      if f.Lost? || f.Partial? {
        return false, Erase(ids);
      }
      disk := disk.(pointer := NoPointer);
      assert disk.records == map[];
      return f == Fine, Wipe;
    }
  }

  /** The records a sweep may drop: superseded, readable, and not the one just replaced. */
  function Sweepable(disk: Disk, kept: Id): set<Id> {
    set id | id in disk.records && id != kept && Lookup(disk, id).Ok? && Lookup(disk, id).value.state == Superseded
  }

  function ActivationTimes(disk: Disk, ids: set<Id>): map<Id, int> {
    map id | id in ids :: if Lookup(disk, id).Ok? then Lookup(disk, id).value.activatedAt else 0
  }

  /**
   * What a completed sweep leaves: at most two sweepable records, each newer than every one it dropped,
   * and nothing else touched.
   */
  ghost predicate Swept(before: Disk, after: Disk, kept: Id) {
    var had, has := Sweepable(before, kept), Sweepable(after, kept);
    var at := ActivationTimes(before, had);
    && after == before.(records := before.records - (had - has))
    && has <= had && |has| <= RETAINED_GENERATIONS - 1
    && (has == had || |has| == RETAINED_GENERATIONS - 1)
    && forall x, y :: x in has && y in had - has ==> SweepOrder.Newer(at, x, y)
  }

  function AllSuperseded(disk: Disk): set<Id> {
    set id | id in disk.records && Lookup(disk, id).Ok? && Lookup(disk, id).value.state == Superseded
  }

  /** How many of a commit's writes precede its sweep. */
  function BeforeSweep(ws: seq<Write>, current: Id): nat {
    if |ws| >= 3 && ws[2] == PutSuperseded(current) then 3 else if |ws| >= 2 then 2 else |ws|
  }

  lemma SweptBound(before: Disk, after: Disk, kept: Id)
    requires Swept(before, after, kept)
    ensures |AllSuperseded(after)| <= RETAINED_GENERATIONS
    ensures kept in AllSuperseded(before) ==> kept in AllSuperseded(after)
  {
    SubsetSize(AllSuperseded(after), Sweepable(after, kept) + {kept});
    KeptSurvives(before, after, kept);
  }

  /** No record a completed sweep dropped was activated after one it kept, and of equals it kept the larger ids. */
  lemma SweptKeepsNewest(before: Disk, after: Disk, kept: Id, x: Id, y: Id)
    requires Swept(before, after, kept) && x in Sweepable(after, kept)
    requires y in Sweepable(before, kept) && y !in Sweepable(after, kept)
    ensures var times := ActivationTimes(before, {x, y});
            times[x] > times[y] || (times[x] == times[y] && StringOrder.Less(y, x))
  {
    assert SweepOrder.Newer(ActivationTimes(before, Sweepable(before, kept)), x, y);
  }

  lemma KeptSurvives(before: Disk, after: Disk, kept: Id)
    requires Swept(before, after, kept)
    ensures kept in AllSuperseded(before) ==> kept in AllSuperseded(after)
  {
    if kept in AllSuperseded(before) {
      assert kept !in Sweepable(before, kept);
      assert after.records[kept] == before.records[kept];
    }
  }

  lemma {:induction false} SubsetSize(a: set<Id>, b: set<Id>)
    requires a <= b
    ensures |a| <= |b|
  {
    if a != {} {
      var x :| x in a;
      SubsetSize(a - {x}, b - {x});
    }
  }

  // ----- what each call answers when no operation of it fails -----

  function RecoverReply(disk: Disk, decode: Decoder): Result<(), Error> {
    if disk.pointer.DamagedPointer? then Err(Corrupt)
    else if Pointed(disk) == "" then Ok(())
    else match Lookup(disk, Pointed(disk))
      case Err(e) => Err(e)
      case Ok(record) => if decode(record.document).None? then Err(InvalidDocument) else Ok(())
  }

  function StageReply(disk: Disk, id: Id, document: Document, decode: Decoder): Result<Digest, Error> {
    if !ValidId(id) then Err(BadId)
    else if decode(document).None? then Err(InvalidDocument)
    else match Lookup(disk, id)
      case Err(e) => if e == NotFound then Ok(document) else Err(e)
      case Ok(record) => if record.digest == document then Ok(document) else Err(WrongState)
  }

  function CommitReply(live: Id, digest: Digest, disk: Disk, id: Id, expected: Id,
      decode: Decoder): Result<Digest, Error> {
    if live == id then Ok(digest)
    else if live != expected then Err(Conflict)
    else match Lookup(disk, id)
      case Err(e) => Err(e)
      case Ok(record) => if decode(record.document).None? then Err(InvalidDocument) else Ok(record.digest)
  }

  function AbortReply(live: Id, disk: Disk, id: Id): Result<(), Error> {
    if live == id then Err(WrongState)
    else match Lookup(disk, id)
      case Err(e) => Err(e)
      case Ok(record) => if record.state == Active then Err(WrongState) else Ok(())
  }

  /** When success is owed: exactly in these cases, and otherwise an error says which check failed. */
  lemma RepliesExactly(disk: Disk, live: Id, digest: Digest, id: Id, expected: Id, document: Document, decode: Decoder)
    ensures RecoverReply(disk, decode).Ok? <==> RecoverFrom(disk, decode) != Unusable
    ensures StageReply(disk, id, document, decode).Ok? <==>
            && ValidId(id) && decode(document).Some?
            && (id !in disk.records || (Lookup(disk, id).Ok? && Lookup(disk, id).value.digest == document))
    ensures CommitReply(live, digest, disk, id, expected, decode).Ok? <==>
            live == id || (live == expected && Servable(disk, id, decode))
    ensures CommitReply(live, digest, disk, id, expected, decode) == Err(Conflict) <==> live != id && live != expected
    ensures AbortReply(live, disk, id).Ok? <==>
            live != id && Lookup(disk, id).Ok? && Lookup(disk, id).value.state != Active
  {
  }

  class Manager {
    const decode: Decoder
    const store: BundleStore
    var active: Option<Config>
    var activeId: Id
    var activeDigest: Digest
    var migrated: bool
    var generation: nat
    var staged: set<Id>

    ghost predicate Valid()
      reads this
    {
      && (active.Some? <==> activeId != "")
      && (active.Some? ==> migrated && generation > 0)
    }

    /** What this process serves, in the terms a restart would report it. */
    ghost function Memory(): Recovered
      requires Valid()
      reads this
    {
      if active.None? then Nothing else Live(activeId, activeDigest, active.value)
    }

    /** Memory and disk together. */
    ghost function View(): Process
      requires Valid()
      reads this, store
    {
      Process(Memory(), store.disk)
    }

    constructor (files: BundleStore, decoder: Decoder)
      ensures Valid() && store == files && decode == decoder
      ensures Memory() == Nothing && generation == 0 && !migrated && staged == {}
    {
      store, decode := files, decoder;
      active, activeId, activeDigest, migrated, generation, staged := None, "", [], false, 0, {};
    }

    /** Publishes a bundle to the data plane and latches the migration. */
    method SetActive(id: Id, digest: Digest, config: Config)
      modifies this`active, this`activeId, this`activeDigest, this`migrated
      ensures active == Some(config) && activeId == id && activeDigest == digest && migrated
    {
      active := Some(config);
      activeId := id;
      activeDigest := digest;
      migrated := true;
    }

    /**
     * Serves the bundle designated as live on disk; a designation or record it cannot use leaves the process serving
     * nothing.
     */
    method Recover() returns (r: Result<(), Error>)
      requires Valid() && active.None?
      modifies this, store`clock
      ensures Valid() && staged == old(staged)
      ensures r == RecoverReply(store.disk, decode) || (r == Err(Io) && !store.Quiet(old(store.clock), store.clock))
      ensures r.Ok? ==> Memory() == RecoverFrom(store.disk, decode)
      ensures r.Ok? && active.Some? ==> generation == 1
      ensures active.None? ==> migrated == old(migrated) && generation == old(generation)
      ensures r.Err? ==> active.None?
      ensures RecoverFrom(store.disk, decode) == Unusable ==> r.Err?
      ensures CallStep(old(View()), RestartCall(r.Ok?, []), View(), decode)
    {
      var pointed := store.GetPointer();
      if pointed.Err? {
        return Err(pointed.error);
      }
      if pointed.value == "" {
        return Ok(());
      }
      var found := store.Get(pointed.value);
      if found.Err? {
        return Err(found.error);
      }
      var config := decode(found.value.document);
      if config.None? {
        return Err(InvalidDocument);
      }
      generation := 1;
      SetActive(found.value.id, found.value.digest, config.value);
      r := Ok(());
    }

    /** Durably stages a document under a new id; repeats an identical stage; never replaces a record. */
    method Stage(id: Id, document: Document, now: int) returns (r: Result<Digest, Error>, ghost ws: seq<Write>)
      requires Valid()
      modifies this`staged, store
      ensures Valid()
      ensures Run(old(store.disk), ws, store.disk, decode)
      ensures ws == [] || (ws == [PutStaged(Record(id, Staged, document, document, now, 0))] &&
              Lookup(old(store.disk), id) == Err(NotFound))
      ensures r.Ok? ==> r.value == document
      ensures r.Ok? ==> Lookup(store.disk, id).Ok? && Lookup(store.disk, id).value.digest == document
      ensures r.Ok? && Lookup(old(store.disk), id).Err? ==> ws != []
      ensures r.Ok? && HonestDigests(old(store.disk)) ==>
              Servable(store.disk, id, decode) && Lookup(store.disk, id).value.document == document
      ensures staged == if r.Ok? && Lookup(store.disk, id).value.state == Staged then old(staged) + {id}
              else old(staged)
      ensures !ValidId(id) ==> r == Err(BadId)
      ensures ValidId(id) && decode(document).None? ==> r == Err(InvalidDocument)
      ensures Lookup(old(store.disk), id).Ok? && Lookup(old(store.disk), id).value.digest != document ==> r.Err?
      ensures CallStep(old(View()), StageCall(ws), View(), decode)
      ensures var reply := StageReply(old(store.disk), id, document, decode);
              || (r == reply && (ws == [] <==> reply.Err? || Lookup(old(store.disk), id).Ok?))
              || (r == Err(Io) && !store.Quiet(old(store.clock), store.clock))
    {
      ws := [];
      if !ValidId(id) {
        return Err(BadId), [];
      }
      if decode(document).None? {
        return Err(InvalidDocument), [];
      }
      var existing := store.Get(id);
      if existing.Ok? {
        if existing.value.digest != document {
          return Err(WrongState), [];
        }
        if existing.value.state == Staged {
          staged := staged + {id};
        }
        return Ok(document), [];
      }
      if existing.error != NotFound {
        return Err(existing.error), [];
      }
      var record := Record(id, Staged, document, document, now, 0);
      var ok;
      ghost var landed;
      RunOne(store.disk, PutStaged(record), decode);
      ok, landed := store.Put(record);
      ws := if landed then [PutStaged(record)] else [];
      if !ok {
        return Err(Io), ws;
      }
      staged := staged + {id};
      r := Ok(document);
    }

    /** The superseded records the store can show, other than the one just replaced, with their times. */
    method SupersededTimes(justSuperseded: Id) returns (complete: bool, activated: map<Id, int>)
      modifies store`clock
      ensures store.clock >= old(store.clock) && (store.Quiet(old(store.clock), store.clock) ==> complete)
      ensures activated.Keys <= Sweepable(store.disk, justSuperseded)
      ensures forall id :: id in activated ==> activated[id] == Lookup(store.disk, id).value.activatedAt
      ensures complete ==> activated == ActivationTimes(store.disk, Sweepable(store.disk, justSuperseded))
    {
      activated := map[];
      var listed := store.List();
      if listed.None? {
        return false, map[];
      }
      complete := true;
      var left := listed.value;
      while left != {}
        invariant store.clock >= old(store.clock) && (store.Quiet(old(store.clock), store.clock) ==> complete)
        invariant left <= store.disk.records.Keys
        invariant activated.Keys <= Sweepable(store.disk, justSuperseded)
        invariant complete ==> activated.Keys == Sweepable(store.disk, justSuperseded) - left
        invariant forall id :: id in activated ==> activated[id] == Lookup(store.disk, id).value.activatedAt
        decreases left
      {
        var id :| id in left;
        left := left - {id};
        if id != justSuperseded {
          var found := store.Get(id);
          complete := complete && found != Err(Io);
          if found.Ok? && found.value.state == Superseded {
            activated := activated[id := found.value.activatedAt];
          }
        }
      }
    }

    /** Deletes the given records in turn, stopping at the first delete that reports failure. */
    method DropInOrder(ids: seq<Id>) returns (complete: bool, ghost gone: nat)
      requires forall k :: 0 <= k < |ids| ==> ValidId(ids[k])
      modifies store
      ensures gone <= |ids| && (complete ==> gone == |ids|)
      ensures store.clock >= old(store.clock)
      ensures store.Quiet(old(store.clock), store.clock) ==> complete
      ensures Dropped(old(store.disk), store.disk, ids[..gone])
    {
      ghost var before := store.disk;
      gone := 0;
      for k := 0 to |ids|
        invariant gone == k && store.clock >= old(store.clock)
        invariant Dropped(before, store.disk, ids[..k])
      {
        DropNext(before, store.disk, ids, k);
        var ok;
        ghost var landed;
        ok, landed := store.Delete(ids[k]);
        gone := if landed then k + 1 else k;
        if !ok {
          return false, gone;
        }
      }
      complete := true;
    }

    /** Drops superseded records past the retained depth; stops at the first failed delete. */
    method PruneSuperseded(justSuperseded: Id) returns (complete: bool, ghost removes: seq<Write>)
      modifies store
      ensures Run(old(store.disk), removes, store.disk, decode) && OnlyRemoves(removes)
      ensures store.disk.pointer == old(store.disk.pointer)
      ensures Spared(old(store.disk), store.disk, justSuperseded)
      ensures complete ==> Swept(old(store.disk), store.disk, justSuperseded)
      ensures store.clock >= old(store.clock) && (store.Quiet(old(store.clock), store.clock) ==> complete)
    {
      removes := [];
      ghost var before := store.disk;
      var activated;
      complete, activated := SupersededTimes(justSuperseded);
      var older := RETAINED_GENERATIONS - 1;
      if |activated| <= older {
        assert complete ==> activated.Keys == Sweepable(before, justSuperseded);
        NothingToSweep(before, justSuperseded);
        return;
      }
      var order := SweepOrder.Sort(activated);
      CountElements(order);
      assert |order| > older;
      OrderIsValid(before, activated, order, justSuperseded);
      var dropped;
      ghost var gone;
      dropped, gone := DropInOrder(order[older..]);
      removes := Removals(order[older..], gone);
      SweepRun(before, store.disk, activated, order, older, gone, justSuperseded, decode);
      if complete && dropped {
        assert order[older..][..gone] == order[older..];
        SweepResult(before, store.disk, justSuperseded, order);
      }
      complete := complete && dropped;
    }

    /** The first two durable writes of a commit, the second issued only once the first has reported success. */
    method Activate(id: Id, record: Record, current: Id, now: int)
      returns (ok: bool, ghost landed: nat, ghost put: bool, ghost ws: seq<Write>)
      requires Lookup(store.disk, id) == Ok(record) && decode(record.document).Some?
      modifies store
      // `put` is what the record write reported, `ok` what the last write issued reported
      ensures (landed == 2 ==> put) && (ok ==> put && landed == 2) && (put ==> landed >= 1) && landed <= 2
      ensures ws == [PutActive(id, now), PointAt(id, current)][..landed]
      ensures Run(old(store.disk), ws, store.disk, decode) && CommitJournal(ws, id, current)
      ensures store.disk == Activated(old(store.disk), record, current, now, landed)
      ensures old(store.clock) <= store.clock <= old(store.clock) + 2
      ensures ok <==> store.Quiet(old(store.clock), old(store.clock) + 2)
    {
      ghost var before, hit := store.disk, false;
      ok, hit := store.Put(record.(state := Active, activatedAt := now));
      put, landed := ok, if hit then 1 else 0;
      if ok {
        ok, hit := store.SetPointer(id, current);
        landed := if hit then 2 else 1;
      }
      ActivationRun(before, record, id, current, now, landed, decode);
      ws := [PutActive(id, now), PointAt(id, current)][..landed];
    }

    /** The third write: the replaced record becomes SUPERSEDED. A failure is logged and ignored. */
    method MarkSuperseded(current: Id) returns (ghost ws: seq<Write>)
      requires current != Pointed(store.disk)
      modifies store
      ensures ws == [] || (ws == [PutSuperseded(current)] && Lookup(old(store.disk), current).Ok?)
      ensures Run(old(store.disk), ws, store.disk, decode)
      ensures store.clock >= old(store.clock)
      ensures store.Quiet(old(store.clock), store.clock) ==>
              (ws != [] <==> current != "" && Lookup(old(store.disk), current).Ok?)
    {
      ws := [];
      if current != "" {
        var prev := store.Get(current);
        if prev.Ok? {
          RunOne(store.disk, PutSuperseded(current), decode);
          var marked;
          ghost var landed;
          marked, landed := store.Put(prev.value.(state := Superseded));
          ws := if landed then [PutSuperseded(current)] else [];
        }
      }
    }

    /** The durable half of a commit, before the sweep. */
    method Switch(id: Id, record: Record, current: Id, now: int) returns (ok: bool, ghost ws: seq<Write>)
      requires current != id && Lookup(store.disk, id) == Ok(record) && decode(record.document).Some?
      modifies store
      ensures Run(old(store.disk), ws, store.disk, decode) && CommitJournal(ws, id, current)
      ensures ok ==> SwitchedTo(store.disk, ws, id, record.(state := Active, activatedAt := now), current)
      ensures !ok ==> |ws| <= 2
      ensures store.clock >= old(store.clock) && (ok <==> store.Quiet(old(store.clock), old(store.clock) + 2))
      ensures ok && store.Quiet(old(store.clock), store.clock) && current != "" &&
              Lookup(old(store.disk), current).Ok? ==>
              PutSuperseded(current) in ws
    {
      ghost var before := store.disk;
      ghost var landed, put;
      ok, landed, put, ws := Activate(id, record, current, now);
      ActivationRun(before, record, id, current, now, landed, decode);
      if !ok {
        return;
      }
      ghost var pointed := store.disk;
      ghost var mark := MarkSuperseded(current);
      RunJoin(before, ws, pointed, mark, store.disk, decode);
      MarkedDisk(pointed, store.disk, id, current, now, mark, decode);
      ws := ws + mark;
    }

    /** The sweep that ends a commit: `all` is the journal of the whole call, `ws` that of the switch before it. */
    method Sweep(id: Id, record: Record, current: Id, ghost before: Disk, ghost ws: seq<Write>)
      returns (swept: bool, ghost all: seq<Write>)
      requires Run(before, ws, store.disk, decode) && CommitJournal(ws, id, current)
      requires SwitchedTo(store.disk, ws, id, record, current) && record.state == Active
      modifies store
      ensures |all| >= 2 && Run(before, all, store.disk, decode) && CommitJournal(all, id, current)
      ensures store.disk.pointer == Pointer(id, current) && Lookup(store.disk, id) == Ok(record)
      ensures PutSuperseded(current) in all ==> current in AllSuperseded(store.disk)
      ensures swept ==> Swept(DiskAfter(before, all, BeforeSweep(all, current)), store.disk, current)
      ensures swept ==> |AllSuperseded(store.disk)| <= RETAINED_GENERATIONS
      ensures PutSuperseded(current) in ws ==> PutSuperseded(current) in all
      ensures store.clock >= old(store.clock) && (store.Quiet(old(store.clock), store.clock) ==> swept)
    {
      ghost var switched, removes := store.disk, [];
      swept, removes := PruneSuperseded(current);
      SweptDisk(before, switched, store.disk, ws, removes, id, record, current, decode);
      all := ws + removes;
      if swept {
        SweptBound(switched, store.disk, current);
      }
    }

    /** The in-memory half of a commit. */
    method Adopt(id: Id, digest: Digest, config: Config)
      requires Valid() && id != ""
      modifies this
      ensures Valid() && Memory() == Live(id, digest, config)
      ensures generation == old(generation) + 1 && migrated && staged == old(staged) - {id}
    {
      SetActive(id, digest, config);
      generation := generation + 1;
      staged := staged - {id};
    }

    /**
     * Makes a stored bundle live, guarded by a compare-and-swap on the bundle believed live. `ws` are the
     * durable writes that took effect and `swept` says whether the sweep ran to its end.
     */
    method Commit(id: Id, expectedActive: Id, now: int) returns (r: Result<Digest, Error>, swept: bool,
        ghost ws: seq<Write>)
      requires Valid()
      modifies this, store
      ensures Valid()
      // compare and swap
      ensures old(activeId) == id ==> r == Ok(old(activeDigest)) && ws == []
      ensures old(activeId) != id ==> (r == Err(Conflict) <==> old(activeId) != expectedActive)
      ensures r == Err(Conflict) ==> ws == []
      // what is answered: another error than these only after a fault in one of the first three operations
      ensures || r == CommitReply(old(activeId), old(activeDigest), old(store.disk), id, expectedActive, decode)
              || (r == Err(Io) && !store.Quiet(old(store.clock), old(store.clock) + 3))
      // without a fault the predecessor is marked and the sweep runs to its end
      ensures store.Quiet(old(store.clock), store.clock) && r.Ok? && old(activeId) != id ==>
                && swept
                && (old(activeId) != "" && Lookup(old(store.disk), old(activeId)).Ok? ==>
                      old(activeId) in AllSuperseded(store.disk))
      // the in-memory swap: all of it or none of it
      ensures r.Err? || old(activeId) == id ==>
        Memory() == old(Memory()) && generation == old(generation) && staged == old(staged) && migrated == old(migrated)
      ensures r.Ok? && old(activeId) != id ==>
        && Servable(old(store.disk), id, decode)
        && var record := Lookup(old(store.disk), id).value;
        && r == Ok(record.digest) && Memory() == Committed(old(store.disk), id, decode)
        && generation == old(generation) + 1 && migrated && staged == old(staged) - {id}
        && store.disk.pointer == Pointer(id, expectedActive)
        && Lookup(store.disk, id) == Ok(record.(state := Active, activatedAt := now))
      // a crash after any durable write of this call
      ensures Run(old(store.disk), ws, store.disk, decode) && CommitJournal(ws, id, old(activeId))
      ensures Consistent(old(store.disk), decode) ==> CrashSafe(old(store.disk), ws, id, decode)
      // whether a restart would serve what the process serves
      ensures CallStep(old(View()), CommitCall(id, r.Ok?, ws), View(), decode)
      ensures Consistent(old(store.disk), decode) && Agrees(old(View()), decode) ==>
                (Agrees(View(), decode) <==> !(r.Err? && |ws| == 2))
      // the sweep
      ensures PutSuperseded(old(activeId)) in ws ==> old(activeId) in AllSuperseded(store.disk)
      ensures swept ==> Swept(DiskAfter(old(store.disk), ws, BeforeSweep(ws, old(activeId))), store.disk, old(activeId))
      ensures swept ==> |AllSuperseded(store.disk)| <= RETAINED_GENERATIONS
    {
      swept, ws := false, [];
      ghost var before := store.disk;
      NoCrashPoint(before, id, decode);
      var current := activeId;
      if current == id {
        return Ok(activeDigest), false, [];
      }
      if current != expectedActive {
        return Err(Conflict), false, [];
      }
      var found := store.Get(id);
      if found.Err? {
        return Err(found.error), false, [];
      }
      var config := decode(found.value.document);
      if config.None? {
        return Err(InvalidDocument), false, [];
      }
      var ok;
      ok, swept, ws := MakeLive(id, found.value, config.value, now);
      CrashSafety(before, ws, id, current, decode);
      r := if ok then Ok(found.value.digest) else Err(Io);
    }

    /** The rest of a commit once the record is read and decoded: durable switch, memory, sweep. */
    method MakeLive(id: Id, record: Record, config: Config, now: int) returns (ok: bool, swept: bool,
        ghost ws: seq<Write>)
      requires Valid() && activeId != id && Lookup(store.disk, id) == Ok(record) &&
               decode(record.document) == Some(config)
      modifies this, store
      ensures Valid() && store.clock >= old(store.clock)
      ensures ok <==> store.Quiet(old(store.clock), old(store.clock) + 2)
      ensures Run(old(store.disk), ws, store.disk, decode) && CommitJournal(ws, id, old(activeId))
      ensures if ok then |ws| >= 2 else |ws| <= 2 && !swept
      ensures !ok ==>
        Memory() == old(Memory()) && generation == old(generation) && staged == old(staged) && migrated == old(migrated)
      ensures ok ==>
        && Memory() == Live(id, record.digest, config)
        && generation == old(generation) + 1 && migrated && staged == old(staged) - {id}
        && store.disk.pointer == Pointer(id, old(activeId))
        && Lookup(store.disk, id) == Ok(record.(state := Active, activatedAt := now))
      ensures PutSuperseded(old(activeId)) in ws ==> old(activeId) in AllSuperseded(store.disk)
      ensures swept ==> Swept(DiskAfter(old(store.disk), ws, BeforeSweep(ws, old(activeId))), store.disk, old(activeId))
      ensures swept ==> |AllSuperseded(store.disk)| <= RETAINED_GENERATIONS
      ensures ok && store.Quiet(old(store.clock), store.clock) ==>
                && swept
                && (old(activeId) != "" && Lookup(old(store.disk), old(activeId)).Ok? ==>
                      old(activeId) in AllSuperseded(store.disk))
    {
      ghost var before := store.disk;
      var current := activeId;
      swept := false;
      ok, ws := Switch(id, record, current, now);
      if !ok {
        return;
      }
      Adopt(id, record.digest, config);
      swept, ws := Sweep(id, record.(state := Active, activatedAt := now), current, before, ws);
    }

    /** Discards a record that is not live, in memory or on disk. */
    method Abort(id: Id) returns (r: Result<(), Error>, ghost ws: seq<Write>)
      requires Valid()
      modifies this`staged, store
      ensures Valid()
      ensures Run(old(store.disk), ws, store.disk, decode) && (ws == [] || ws == [Remove(id)])
      ensures activeId == id ==> r == Err(WrongState)
      ensures r.Ok? ==> activeId != id
      ensures r.Ok? ==> Lookup(old(store.disk), id).Ok? && Lookup(old(store.disk), id).value.state != Active
      ensures r.Ok? ==> id !in store.disk.records && staged == old(staged) - {id}
      ensures Consistent(old(store.disk), decode) ==>
                Consistent(store.disk, decode) &&
                    RecoverFrom(store.disk, decode) == RecoverFrom(old(store.disk), decode)
      ensures CallStep(old(View()), AbortCall(ws), View(), decode)
      ensures || (r == AbortReply(activeId, old(store.disk), id) && (ws == [] <==> r.Err?))
              || (r == Err(Io) && !store.Quiet(old(store.clock), store.clock))
    {
      ws := [];
      if activeId == id {
        return Err(WrongState), [];
      }
      var found := store.Get(id);
      if found.Err? {
        return Err(found.error), [];
      }
      if found.value.state == Active {
        return Err(WrongState), [];
      }
      staged := staged - {id};
      RunOne(store.disk, Remove(id), decode);
      if Consistent(store.disk, decode) {
        WriteKeepsConsistent(store.disk, Remove(id), decode);
        TailKeepsRecovery(store.disk, Remove(id), decode);
      }
      var ok;
      ghost var landed;
      ok, landed := store.Delete(id);
      ws := if landed then [Remove(id)] else [];
      r := if ok then Ok(()) else Err(Io);
    }

    /** Withdraws everything. The process serves nothing from the first statement on, whatever the disk does. */
    method Purge() returns (ok: bool, ghost ws: seq<Write>)
      requires Valid()
      modifies this, store
      ensures Valid() && Memory() == Nothing && generation == 0 && staged == {} && migrated == old(migrated)
      ensures Run(old(store.disk), ws, store.disk, decode)
      ensures ok ==> store.disk == Disk(map[], NoPointer)
      ensures ok <==> store.Quiet(old(store.clock), store.clock)
      ensures Consistent(old(store.disk), decode) ==>
                RecoverFrom(store.disk, decode) in {Nothing, Unusable, RecoverFrom(old(store.disk), decode)}
      ensures |ws| == 1 && CallStep(old(View()), PurgeCall(ws[0]), View(), decode)
    {
      active, generation, activeId, activeDigest, staged := None, 0, "", [], {};
      ghost var before := store.disk;
      ghost var w;
      ok, w := store.Purge();
      ws := [w];
      RunOne(before, w, decode);
      if Consistent(before, decode) && w.Erase? {
        PurgeCutShort(before, w.ids, decode);
      }
    }
  }

  // ----- the value-level facts the methods above rest on -----

  /** `after` is `before` without the given records. */
  ghost predicate Dropped(before: Disk, after: Disk, ids: seq<Id>) {
    after == before.(records := before.records - Elements(ids))
  }

  ghost predicate OnlyRemoves(ws: seq<Write>) {
    forall k :: 0 <= k < |ws| ==> ws[k].Remove?
  }

  /** Nothing but sweepable records was touched. */
  ghost predicate Spared(before: Disk, after: Disk, kept: Id) {
    forall id :: id in before.records && id !in Sweepable(before, kept) ==>
        id in after.records && after.records[id] == before.records[id]
  }

  ghost function Removals(ids: seq<Id>, n: nat): seq<Write>
    requires n <= |ids|
  {
    seq(n, k requires 0 <= k < n => Remove(ids[k]))
  }

  lemma DropNext(before: Disk, now: Disk, ids: seq<Id>, k: nat)
    requires k < |ids| && Dropped(before, now, ids[..k])
    ensures Dropped(before, now.(records := now.records - {ids[k]}), ids[..k + 1])
  {
    assert Elements(ids[..k + 1]) == Elements(ids[..k]) + {ids[k]};
  }

  lemma NothingToSweep(disk: Disk, kept: Id)
    ensures |Sweepable(disk, kept)| <= RETAINED_GENERATIONS - 1 ==> Swept(disk, disk, kept)
  {
    assert disk.records - {} == disk.records;
  }

  lemma DistinctOrder(at: map<Id, int>, order: seq<Id>)
    requires SweepOrder.NewestFirst(at, order)
    ensures forall j, k :: 0 <= j < k < |order| ==> order[j] != order[k]
  {
    forall j, k | 0 <= j < k < |order| ensures order[j] != order[k] {
      SweepOrder.NewerIsTotal(at, order[j], order[k]);
    }
  }

  /** Deleting distinct records that are not ACTIVE is a run of guarded removals. */
  lemma {:induction false} RemovalRun(before: Disk, ids: seq<Id>, n: nat, decode: Decoder)
    requires n <= |ids|
    requires forall j, k :: 0 <= j < k < |ids| ==> ids[j] != ids[k]
    requires forall k :: 0 <= k < |ids| ==> Allowed(Remove(ids[k]), before, decode)
    ensures Run(before, Removals(ids, n), before.(records := before.records - Elements(ids[..n])), decode)
    decreases n
  {
    if n == 0 {
      assert before.records - Elements(ids[..0]) == before.records;
    } else {
      RemovalRun(before, ids, n - 1, decode);
      var now := before.(records := before.records - Elements(ids[..n - 1]));
      assert ids[n - 1] !in Elements(ids[..n - 1]);
      assert Lookup(now, ids[n - 1]) == Lookup(before, ids[n - 1]);
      RunOne(now, Remove(ids[n - 1]), decode);
      DropNext(before, now, ids, n - 1);
      RunJoin(before, Removals(ids, n - 1), now, [Remove(ids[n - 1])], Apply(Remove(ids[n - 1]), now), decode);
      assert Removals(ids, n) == Removals(ids, n - 1) + [Remove(ids[n - 1])];
    }
  }

  /** What the sweep drops has been read, so it has a valid id. */
  lemma OrderIsValid(disk: Disk, at: map<Id, int>, order: seq<Id>, kept: Id)
    requires SweepOrder.NewestFirst(at, order) && at.Keys <= Sweepable(disk, kept)
    ensures forall k :: 0 <= k < |order| ==> ValidId(order[k])
  {
  }

  lemma SweepRun(before: Disk, after: Disk, at: map<Id, int>, order: seq<Id>, from: nat, gone: nat, kept: Id,
      decode: Decoder)
    requires SweepOrder.NewestFirst(at, order) && at.Keys <= Sweepable(before, kept)
    requires from <= |order| && gone <= |order| - from && Dropped(before, after, order[from..][..gone])
    ensures Run(before, Removals(order[from..], gone), after, decode)
    ensures Spared(before, after, kept)
  {
    DistinctOrder(at, order);
    RemovalRun(before, order[from..], gone, decode);
  }

  lemma SweepResult(before: Disk, after: Disk, kept: Id, order: seq<Id>)
    requires var at := ActivationTimes(before, Sweepable(before, kept));
             SweepOrder.NewestFirst(at, order) && Elements(order) == at.Keys
    requires |order| >= 2 && after == before.(records := before.records - Elements(order[2..]))
    ensures Swept(before, after, kept)
  {
    var had := Sweepable(before, kept);
    var at := ActivationTimes(before, had);
    DistinctOrder(at, order);
    var newest := {order[0], order[1]};
    assert forall k :: 0 <= k < |order| ==> order[k] in Elements(order);
    assert forall k :: 2 <= k < |order| ==> order[k] == order[2..][k - 2];
    forall id | id in had ensures id in newest || (exists k :: 2 <= k < |order| && order[k] == id) {
      assert id in Elements(order);
    }
    assert had - newest == Elements(order[2..]);
    assert Sweepable(after, kept) == newest;
    forall y | y in had - newest ensures SweepOrder.Newer(at, order[0], y) && SweepOrder.Newer(at, order[1], y) {
      var k :| 2 <= k < |order| && order[k] == y;
    }
  }

  /** The disk after the first `landed` of the two activation writes. */
  ghost function Activated(disk: Disk, record: Record, current: Id, now: int, landed: nat): Disk {
    var put := disk.(records := disk.records[record.id := Readable(record.(state := Active, activatedAt := now))]);
    if landed == 0 then disk else if landed == 1 then put else put.(pointer := Pointer(record.id, current))
  }

  lemma ActivationRun(before: Disk, record: Record, id: Id, current: Id, now: int, landed: nat, decode: Decoder)
    requires Lookup(before, id) == Ok(record) && decode(record.document).Some? && landed <= 2
    ensures var ws := [PutActive(id, now), PointAt(id, current)][..landed];
            Run(before, ws, Activated(before, record, current, now, landed), decode) && CommitJournal(ws, id, current)
    ensures landed == 2 ==> var after := Activated(before, record, current, now, 2);
            after.pointer == Pointer(id, current) &&
                Lookup(after, id) == Ok(record.(state := Active, activatedAt := now))
  {
    var first, second := PutActive(id, now), PointAt(id, current);
    var put := Activated(before, record, current, now, 1);
    LookupWithState(before, id, Active, now, id);
    RunOne(before, first, decode);
    RunOne(put, second, decode);
    RunJoin(before, [first], put, [second], Apply(second, put), decode);
    assert [first] + [second] == [first, second] && [first, second][..1] == [first] &&
           [first, second][..2] == [first, second];
  }

  /** The state a commit's durable writes leave for the sweep. */
  ghost predicate SwitchedTo(disk: Disk, ws: seq<Write>, id: Id, record: Record, current: Id) {
    && |ws| >= 2 && BeforeSweep(ws, current) == |ws|
    && disk.pointer == Pointer(id, current) && Lookup(disk, id) == Ok(record)
    && (PutSuperseded(current) in ws ==> current in AllSuperseded(disk))
  }

  lemma MarkedDisk(pointed: Disk, after: Disk, id: Id, current: Id, now: int, mark: seq<Write>, decode: Decoder)
    requires pointed.pointer == Pointer(id, current) && current != id && Lookup(pointed, id).Ok?
    requires Run(pointed, mark, after, decode)
    requires mark == [] || (mark == [PutSuperseded(current)] && Lookup(pointed, current).Ok?)
    ensures var ws := [PutActive(id, now), PointAt(id, current)] + mark;
            CommitJournal(ws, id, current) && SwitchedTo(after, ws, id, Lookup(pointed, id).value, current)
  {
    if mark != [] {
      var at := Lookup(pointed, current).value.activatedAt;
      assert DiskAfter(pointed, mark, 1) == Apply(mark[0], DiskAfter(pointed, mark, 0));
      LookupWithState(pointed, current, Superseded, at, id);
      LookupWithState(pointed, current, Superseded, at, current);
      assert current in AllSuperseded(after);
    }
  }

  /** What the sweep leaves of a switched disk, and the journal of the whole commit. */
  lemma SweptDisk(before: Disk, switched: Disk, after: Disk, ws: seq<Write>, removes: seq<Write>, id: Id,
      record: Record, current: Id, decode: Decoder)
    requires Run(before, ws, switched, decode) && Run(switched, removes, after, decode)
    requires CommitJournal(ws, id, current) && OnlyRemoves(removes) && Spared(switched, after, current)
    requires SwitchedTo(switched, ws, id, record, current) && record.state == Active
    ensures Run(before, ws + removes, after, decode) && CommitJournal(ws + removes, id, current)
    ensures DiskAfter(before, ws + removes, BeforeSweep(ws + removes, current)) == switched
    ensures Lookup(after, id) == Ok(record)
    ensures PutSuperseded(current) in ws + removes ==> current in AllSuperseded(after)
  {
    RunJoin(before, ws, switched, removes, after, decode);
    DiskAfterBoth(before, ws, removes, |ws|);
    assert id !in Sweepable(switched, current);
    assert forall k :: 0 <= k < |removes| ==> (ws + removes)[|ws| + k] == removes[k];
  }

  /** Every crash point of a commit recovers the old state up to the pointer write, and `id` from it on. */
  ghost predicate CrashSafe(before: Disk, ws: seq<Write>, id: Id, decode: Decoder) {
    forall cut :: 0 <= cut <= |ws| ==>
      && Consistent(DiskAfter(before, ws, cut), decode)
      && RecoverFrom(DiskAfter(before, ws, cut), decode) ==
         if cut < 2 || !Servable(before, id, decode) then RecoverFrom(before, decode) else Committed(before, id, decode)
  }

  lemma CrashSafety(before: Disk, ws: seq<Write>, id: Id, current: Id, decode: Decoder)
    requires Servable(before, id, decode) && Legal(before, ws, decode) && CommitJournal(ws, id, current)
    ensures Consistent(before, decode) ==> CrashSafe(before, ws, id, decode)
  {
    if Consistent(before, decode) {
      CommitJournalUntorn(before, ws, id, current);
      forall cut | 0 <= cut <= |ws|
        ensures Consistent(DiskAfter(before, ws, cut), decode)
        ensures RecoverFrom(DiskAfter(before, ws, cut), decode) == if cut < 2 then RecoverFrom(before, decode)
                else Committed(before, id, decode)
      {
        EveryCrashPointConsistent(before, ws, cut, decode);
        CommitSwitchesOnce(before, ws, id, current, cut, decode);
      }
    }
  }

  lemma NoCrashPoint(before: Disk, id: Id, decode: Decoder)
    ensures Run(before, [], before, decode)
    ensures Consistent(before, decode) ==> CrashSafe(before, [], id, decode)
  {
  }
}

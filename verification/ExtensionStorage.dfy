/**
 * Durable key-value storage for extensions: snapshots that are immutable once published, copied on write, persisted
 * before they are published, and bounded per extension and per action.
 *
 * Strings are sequences of bytes, as Go's are.
 */
module ExtensionStorage {
  import opened Outcomes
  import Runs

  const MAX_STORE := 4 * 1024 * 1024
  const MAX_MODULE := 1024 * 1024
  const MAX_KEYS := 256
  const MAX_KEY := 256
  const MAX_VALUE := 64 * 1024
  const MAX_COMMITS := 32

  type Entries = map<string, string>
  type Modules = map<string, Entries>

  /** How a persist ends: done, lost, or done and reported as failed (the directory sync follows the rename). */
  datatype Fault = Fine | Lost | Unsure

  /** Whether there is a store file at all, and how many bytes a snapshot takes in it. */
  datatype Medium = Medium(durable: bool, size: Modules -> nat)

  // ----- sizes -----

  /** Keys and values together. */
  ghost function Bytes(b: Entries): nat {
    if b == map[] then 0 else var k :| k in b; |k| + |b[k]| + Bytes(b - {k})
  }

  /** Any key may be counted first. */
  lemma {:induction false} BytesWithout(b: Entries, k: string)
    requires k in b
    ensures Bytes(b) == |k| + |b[k]| + Bytes(b - {k})
    decreases |b|
  {
    var first :| first in b && Bytes(b) == |first| + |b[first]| + Bytes(b - {first});
    if first != k {
      assert (b - {first}) - {k} == (b - {k}) - {first};
      BytesWithout(b - {first}, k);
      BytesWithout(b - {k}, first);
    }
  }

  method BucketBytes(b: Entries) returns (total: nat)
    ensures total == Bytes(b)
  {
    total := 0;
    var left := b;
    while left != map[]
      invariant left.Keys <= b.Keys && forall k :: k in left ==> left[k] == b[k]
      invariant total + Bytes(left) == Bytes(b)
      decreases |left|
    {
      var k :| k in left;
      BytesWithout(left, k);
      total := total + |k| + |left[k]|;
      left := left - {k};
    }
  }

  // ----- what a call does, on values -----

  function Bucket(m: Modules, id: string): Entries {
    if id in m then m[id] else map[]
  }

  /** What a call sees and leaves: the published snapshot, the store file, and the action's commit count. */
  datatype Cell = Cell(published: Modules, disk: Option<Modules>, commits: nat)

  /** The cell afterwards, whether a persist was attempted, and the reply to the script. */
  datatype Effect = Effect(after: Cell, attempted: bool, reply: bool)

  function Persist(medium: Medium, disk: Option<Modules>, next: Modules, fault: Fault): (Option<Modules>, bool) {
    if !medium.durable then (disk, true)
    else if medium.size(next) > MAX_STORE then (disk, false)
    else match fault
      case Fine => (Some(next), true)
      case Lost => (disk, false)
      case Unsure => (Some(next), false)
  }

  function Commit(medium: Medium, c: Cell, next: Modules, fault: Fault): Effect {
    var (disk, ok) := Persist(medium, c.disk, next, fault);
    Effect(c.(published := if ok then next else c.published, disk := disk), true, ok)
  }

  predicate SpendAllowed(c: Cell) {
    c.commits + 1 <= MAX_COMMITS
  }

  function Refused(c: Cell): Effect {
    Effect(c, false, false)
  }

  predicate ValidEntry(key: string, value: string) {
    0 < |key| <= MAX_KEY && |value| <= MAX_VALUE
  }

  ghost function SetCall(medium: Medium, loaded: bool, c: Cell, id: string, key: string, value: string,
      fault: Fault): Effect {
    var b := Bucket(c.published, id);
    var spent := c.(commits := c.commits + 1);
    if !ValidEntry(key, value) || !loaded then Refused(c)
    else if |b| >= MAX_KEYS && key !in b then Refused(c)
    else if key in b && b[key] == value then Effect(c, false, true)
    else if !SpendAllowed(c) || Bytes(b[key := value]) > MAX_MODULE then Refused(spent)
    else Commit(medium, spent, c.published[id := b[key := value]], fault)
  }

  function DeleteCall(medium: Medium, loaded: bool, c: Cell, id: string, key: string, fault: Fault): Effect {
    var b := Bucket(c.published, id);
    var spent := c.(commits := c.commits + 1);
    if !loaded || key !in b then Refused(c)
    else if !SpendAllowed(c) then Refused(spent)
    else Commit(medium, spent, c.published[id := b - {key}], fault)
  }

  function ClearCall(medium: Medium, loaded: bool, c: Cell, id: string, fault: Fault): Effect {
    var spent := c.(commits := c.commits + 1);
    if !loaded then Refused(c)
    else if id !in c.published then Effect(c, false, true)
    else if !SpendAllowed(c) then Refused(spent)
    else Commit(medium, spent, c.published - {id}, fault)
  }

  // ----- the objects -----

  /** A Go map of one extension's entries. */
  class EntryMap {
    var entries: Entries

    constructor ()
      ensures entries == map[]
    {
      entries := map[];
    }
  }

  class Snapshot {
    var modules: map<string, EntryMap>

    constructor ()
      ensures modules == map[]
    {
      modules := map[];
    }

    /** The snapshot as a value. */
    ghost function Contents(): Modules
      reads this, modules.Values
    {
      map id | id in modules :: modules[id].entries
    }
  }

  method CloneBucket(b: EntryMap?) returns (clone: EntryMap)
    ensures fresh(clone) && clone.entries == if b == null then map[] else b.entries
  {
    clone := new EntryMap();
    if b != null {
      var left := b.entries.Keys;
      while left != {}
        invariant left <= b.entries.Keys && fresh(clone)
        invariant clone.entries.Keys == b.entries.Keys - left
        invariant forall k :: k in clone.entries ==> clone.entries[k] == b.entries[k]
      {
        var k :| k in left;
        clone.entries := clone.entries[k := b.entries[k]];
        left := left - {k};
      }
    }
  }

  /** Copies the outer map and shares the buckets. */
  method CloneModules(s: Snapshot) returns (clone: Snapshot)
    ensures fresh(clone) && clone.modules == s.modules
  {
    clone := new Snapshot();
    var left := s.modules.Keys;
    while left != {}
      invariant left <= s.modules.Keys && fresh(clone)
      invariant clone.modules.Keys == s.modules.Keys - left
      invariant forall id :: id in clone.modules ==> clone.modules[id] == s.modules[id]
    {
      var id :| id in left;
      clone.modules := clone.modules[id := s.modules[id]];
      left := left - {id};
    }
  }

  /** The part of the script runtime every action shares. */
  class Store {
    const medium: Medium
    var persistent: Snapshot
    var loaded: bool
    var disk: Option<Modules>

    constructor (medium: Medium, initial: Snapshot, loaded: bool, disk: Option<Modules>)
      ensures this.medium == medium && persistent == initial && this.loaded == loaded && this.disk == disk
    {
      this.medium, persistent, this.loaded, this.disk := medium, initial, loaded, disk;
    }

    method PersistSnapshot(next: Snapshot, fault: Fault) returns (ok: bool)
      modifies this`disk
      ensures (disk, ok) == Persist(medium, old(disk), next.Contents(), fault)
    {
      ghost var contents := next.Contents();
      ok := true;
      if medium.durable {
        var written := Marshalled(next);
        if medium.size(written) > MAX_STORE {
          ok := false;
        } else {
          if fault != Lost {
            disk := Some(written);
          }
          ok := fault == Fine;
        }
      }
    }
  }

  /** The document a snapshot is written as. */
  method Marshalled(s: Snapshot) returns (document: Modules)
    ensures document == s.Contents()
  {
    document := map id | id in s.modules :: s.modules[id].entries;
  }

  /** What one action's `storage` object is: the extension it belongs to and its own commit counter. */
  class StorageObject {
    const store: Store
    const moduleID: string
    var commits: nat

    constructor (store: Store, moduleID: string)
      ensures this.store == store && this.moduleID == moduleID && commits == 0
    {
      this.store, this.moduleID, commits := store, moduleID, 0;
    }

    ghost function View(): Cell
      reads this, store, store.persistent, store.persistent.modules.Values
    {
      Cell(store.persistent.Contents(), store.disk, commits)
    }

    method Spend() returns (ok: bool)
      modifies this
      ensures commits == old(commits) + 1 && (ok <==> commits <= MAX_COMMITS)
    {
      commits := commits + 1;
      ok := commits <= MAX_COMMITS;
    }

    method Get(key: string) returns (r: Option<string>)
      ensures var b := Bucket(View().published, moduleID); r == if key in b then Some(b[key]) else None
    {
      var modules := store.persistent.modules;
      if moduleID in modules && key in modules[moduleID].entries {
        return Some(modules[moduleID].entries[key]);
      }
      return None;
    }

    method CurrentBucket() returns (b: EntryMap?)
      ensures b == null <==> moduleID !in store.persistent.modules
      ensures b != null ==> b == store.persistent.modules[moduleID]
      ensures (if b == null then map[] else b.entries) == Bucket(View().published, moduleID)
    {
      b := if moduleID in store.persistent.modules then store.persistent.modules[moduleID] else null;
    }

    /** Persists a private copy and, only when that succeeds, publishes it; nothing else is touched. */
    method PublishCopy(next: Snapshot, fault: Fault) returns (reply: bool)
      modifies store
      ensures Effect(View(), true, reply) == Commit(store.medium, old(View()), old(next.Contents()), fault)
      ensures store.persistent == (if reply then next else old(store.persistent)) && store.loaded == old(store.loaded)
    {
      reply := store.PersistSnapshot(next, fault);
      if reply {
        store.persistent := next;
      }
    }

    /** A private copy of the snapshot with this extension's bucket replaced; the other buckets are shared. */
    method CopyWith(bucket: EntryMap) returns (next: Snapshot)
      ensures fresh(next) && next.Contents() == View().published[moduleID := bucket.entries]
    {
      next := CloneModules(store.persistent);
      next.modules := next.modules[moduleID := bucket];
    }

    method WriteEntry(bucket: EntryMap?, key: string, value: string, fault: Fault) returns (reply: bool,
        attempted: bool)
      requires (if bucket == null then map[] else bucket.entries) == Bucket(View().published, moduleID)
      modifies store
      ensures var b := old(Bucket(View().published, moduleID))[key := value];
              Effect(View(), attempted, reply)
              == if Bytes(b) > MAX_MODULE then Refused(old(View()))
                 else Commit(store.medium, old(View()), old(View()).published[moduleID := b], fault)
      ensures store.loaded == old(store.loaded)
    {
      var nextBucket := CloneBucket(bucket);
      nextBucket.entries := nextBucket.entries[key := value];
      var total := BucketBytes(nextBucket.entries);
      if total > MAX_MODULE {
        return false, false;
      }
      var next := CopyWith(nextBucket);
      reply := PublishCopy(next, fault);
      attempted := true;
    }

    /** The rest of a set that changes something: one commit is spent, whether or not the quota then lets it write. */
    method SpendAndWrite(bucket: EntryMap?, key: string, value: string, fault: Fault)
      returns (reply: bool, attempted: bool)
      requires (if bucket == null then map[] else bucket.entries) == Bucket(View().published, moduleID)
      modifies this, store
      ensures var c, spent := old(View()), old(View()).(commits := old(commits) + 1);
              var b := Bucket(c.published, moduleID)[key := value];
              Effect(View(), attempted, reply) ==
              if !SpendAllowed(c) || Bytes(b) > MAX_MODULE then Refused(spent)
              else Commit(store.medium, spent, c.published[moduleID := b], fault)
      ensures store.loaded == old(store.loaded)
    {
      var ok := Spend();
      if !ok {
        return false, false;
      }
      reply, attempted := WriteEntry(bucket, key, value, fault);
    }

    method RemoveEntry(bucket: EntryMap, key: string, fault: Fault) returns (reply: bool)
      requires bucket.entries == Bucket(View().published, moduleID)
      modifies store
      ensures var b := old(Bucket(View().published, moduleID)) - {key};
              Effect(View(), true, reply) ==
                  Commit(store.medium, old(View()), old(View()).published[moduleID := b], fault)
      ensures store.loaded == old(store.loaded)
    {
      var nextBucket := CloneBucket(bucket);
      nextBucket.entries := nextBucket.entries - {key};
      var next := CopyWith(nextBucket);
      reply := PublishCopy(next, fault);
    }

    /** The published snapshot is not among what may be modified: readers that loaded it keep what they saw. */
    method Set(key: string, value: string, fault: Fault) returns (reply: bool, attempted: bool)
      modifies this, store
      ensures Effect(View(), attempted, reply) ==
              SetCall(store.medium, store.loaded, old(View()), moduleID, key, value, fault)
      ensures old(store.persistent).Contents() == old(store.persistent.Contents()) && store.loaded == old(store.loaded)
    {
      if |key| == 0 || |key| > MAX_KEY || |value| > MAX_VALUE || !store.loaded {
        return false, false;
      }
      var bucket := CurrentBucket();
      var entries := if bucket == null then map[] else bucket.entries;
      if |entries| >= MAX_KEYS && key !in entries {
        return false, false;
      }
      if key in entries && entries[key] == value {
        return true, false;
      }
      reply, attempted := SpendAndWrite(bucket, key, value, fault);
    }

    method Delete(key: string, fault: Fault) returns (reply: bool, attempted: bool)
      modifies this, store
      ensures Effect(View(), attempted, reply) ==
              DeleteCall(store.medium, store.loaded, old(View()), moduleID, key, fault)
      ensures old(store.persistent).Contents() == old(store.persistent.Contents()) && store.loaded == old(store.loaded)
    {
      if !store.loaded {
        return false, false;
      }
      var bucket := CurrentBucket();
      if bucket == null || key !in bucket.entries {
        return false, false;
      }
      var ok := Spend();
      if !ok {
        return false, false;
      }
      reply := RemoveEntry(bucket, key, fault);
      attempted := true;
    }

    method Clear(fault: Fault) returns (reply: bool, attempted: bool)
      modifies this, store
      ensures Effect(View(), attempted, reply) == ClearCall(store.medium, store.loaded, old(View()), moduleID, fault)
      ensures old(store.persistent).Contents() == old(store.persistent.Contents()) && store.loaded == old(store.loaded)
    {
      if !store.loaded {
        return false, false;
      }
      if moduleID !in store.persistent.modules {
        return true, false;
      }
      var ok := Spend();
      if !ok {
        return false, false;
      }
      reply := RemoveBucket(fault);
      attempted := true;
    }

    method RemoveBucket(fault: Fault) returns (reply: bool)
      modifies store
      ensures Effect(View(), true, reply) ==
              Commit(store.medium, old(View()), old(View()).published - {moduleID}, fault)
      ensures store.loaded == old(store.loaded)
    {
      var next := CloneModules(store.persistent);
      next.modules := next.modules - {moduleID};
      assert next.Contents() == store.persistent.Contents() - {moduleID};
      reply := PublishCopy(next, fault);
    }
  }

  // ----- every run -----

  datatype Call = Set(key: string, value: string) | Delete(key: string) | Clear

  /** A call by action `who`, which runs for extension `id`; calls are serialised by the write lock. */
  datatype Op = Op(who: nat, id: string, call: Call, fault: Fault)

  datatype State = State(published: Modules, disk: Option<Modules>, loaded: bool, commits: map<nat, nat>,
      attempts: map<nat, nat>)

  function Count(m: map<nat, nat>, who: nat): nat {
    if who in m then m[who] else 0
  }

  /** Every entry passes the checks a load makes. */
  predicate Checked(m: Modules) {
    forall id <- m :: |m[id]| <= MAX_KEYS && forall key <- m[id] :: ValidEntry(key, m[id][key])
  }

  predicate Loadable(medium: Medium, m: Modules) {
    medium.size(m) <= MAX_STORE && Checked(m)
  }

  /** The state a process starts in, given the store file. */
  function Boot(medium: Medium, disk: Option<Modules>): State {
    if !medium.durable || disk.None? then State(map[], disk, true, map[], map[])
    else if Loadable(medium, disk.value) then State(disk.value, disk, true, map[], map[])
    else State(map[], disk, false, map[], map[])
  }

  /** What a load lets through, in numbers: 4 MiB, 256 keys, keys of 1 to 256 bytes, values of up to 64 KiB. */
  lemma LoadsExactly(medium: Medium, m: Modules)
    requires medium.durable
    ensures Boot(medium, Some(m)).loaded <==>
            && medium.size(m) <= 4194304
            && (forall id <- m :: |m[id]| <= 256)
            && (forall id <- m, key <- m[id] :: 1 <= |key| <= 256 && |m[id][key]| <= 65536)
    ensures Boot(medium, Some(m)).published == (if Boot(medium, Some(m)).loaded then m else map[])
    ensures Boot(medium, None).loaded && Boot(medium, None).published == map[]
  {
  }

  ghost function CallEffect(medium: Medium, loaded: bool, c: Cell, o: Op): Effect {
    match o.call
    case Set(key, value) => SetCall(medium, loaded, c, o.id, key, value, o.fault)
    case Delete(key) => DeleteCall(medium, loaded, c, o.id, key, o.fault)
    case Clear => ClearCall(medium, loaded, c, o.id, o.fault)
  }

  ghost function EffectOf(medium: Medium, s: State, o: Op): Effect {
    CallEffect(medium, s.loaded, Cell(s.published, s.disk, Count(s.commits, o.who)), o)
  }

  ghost function Step(medium: Medium, s: State, o: Op): State {
    var e := EffectOf(medium, s, o);
    State(e.after.published, e.after.disk, s.loaded,
          s.commits[o.who := e.after.commits],
          s.attempts[o.who := Count(s.attempts, o.who) + if e.attempted then 1 else 0])
  }

  ghost function Stepper(medium: Medium): (State, Op) -> State {
    (s, o) => Step(medium, s, o)
  }

  ghost function Reached(medium: Medium, disk: Option<Modules>, run: seq<Op>, n: nat): State
    requires n <= |run|
  {
    Runs.After(Stepper(medium), Boot(medium, disk), run, n)
  }

  /** The snapshot a call would publish. */
  function Proposal(m: Modules, id: string, call: Call): Modules {
    match call
    case Set(key, value) => m[id := Bucket(m, id)[key := value]]
    case Delete(key) => m[id := Bucket(m, id) - {key}]
    case Clear => m - {id}
  }

  /** What has to hold of it before a persist is attempted. */
  ghost predicate Acceptable(m: Modules, id: string, call: Call) {
    var b := Bucket(m, id);
    match call
    case Set(key, value) =>
      ValidEntry(key, value) && (|b| < MAX_KEYS || key in b) && !(key in b && b[key] == value) &&
          Bytes(b[key := value]) <= MAX_MODULE
    case Delete(key) => key in b
    case Clear => id in m
  }

  /** Every call either commits its proposal, or leaves snapshot and file alone. */
  lemma CallShape(medium: Medium, loaded: bool, c: Cell, o: Op)
    ensures var e := CallEffect(medium, loaded, c, o);
            && c.commits <= e.after.commits <= c.commits + 1
            && if e.attempted then
                 && e == Commit(medium, c.(commits := c.commits + 1), Proposal(c.published, o.id, o.call), o.fault)
                 && loaded && c.commits < MAX_COMMITS && Acceptable(c.published, o.id, o.call)
               else e.after.published == c.published && e.after.disk == c.disk
  {
  }

  /** A set or a delete leaves the other keys of the caller's own bucket with the values they had. */
  lemma OtherKeysKept(medium: Medium, loaded: bool, c: Cell, o: Op, key: string)
    requires (o.call.Set? || o.call.Delete?) && key != o.call.key
    ensures var before, after :=
            Bucket(c.published, o.id), Bucket(CallEffect(medium, loaded, c, o).after.published, o.id);
            (key in after <==> key in before) && (key in before ==> after[key] == before[key])
  {
    CallShape(medium, loaded, c, o);
  }

  /** The call would change something, and no check but the quota and the commit budget stands in its way. */
  predicate Changes(m: Modules, id: string, call: Call) {
    var b := Bucket(m, id);
    match call
    case Set(key, value) => ValidEntry(key, value) && (if key in b then b[key] != value else |b| < MAX_KEYS)
    case Delete(key) => key in b
    case Clear => id in m
  }

  /**
   * Exactly when a persist is attempted, when the script is told true, and when a commit is spent: nothing is refused
   * that the limits allow.
   */
  lemma CallExactly(medium: Medium, loaded: bool, c: Cell, o: Op)
    ensures var e, next := CallEffect(medium, loaded, c, o), Proposal(c.published, o.id, o.call);
            && (e.attempted <==> loaded && c.commits < MAX_COMMITS && Acceptable(c.published, o.id, o.call))
            && (e.attempted ==> (e.reply <==> !medium.durable || (medium.size(next) <= MAX_STORE && o.fault == Fine)))
            && e.after.commits == c.commits + (if loaded && Changes(c.published, o.id, o.call) then 1 else 0)
  {
  }

  lemma ProposalElsewhere(m: Modules, o: Op, id: string)
    requires id != o.id
    ensures var next := Proposal(m, o.id, o.call); (id in next <==> id in m) && Bucket(next, id) == Bucket(m, id)
  {
  }

  lemma SizesOfEdits(b: Entries, key: string, value: string)
    ensures |b[key := value]| == (if key in b then |b| else |b| + 1) && |b - {key}| <= |b|
  {
    assert b[key := value].Keys == b.Keys + {key};
    assert (b - {key}).Keys == b.Keys - {key};
    assert |b.Keys| == |b| && |(b - {key}).Keys| == |b - {key}|;
    assert |b.Keys - {key}| <= |b.Keys|;
  }

  predicate CheckedBucket(b: Entries) {
    |b| <= MAX_KEYS && forall key <- b :: ValidEntry(key, b[key])
  }

  lemma ProposedBucketChecked(m: Modules, o: Op)
    requires Checked(m) && Acceptable(m, o.id, o.call)
    ensures CheckedBucket(Bucket(Proposal(m, o.id, o.call), o.id))
  {
    var b := Bucket(m, o.id);
    assert CheckedBucket(b);
    match o.call
    case Set(key, value) => SizesOfEdits(b, key, value);
    case Delete(key) => SizesOfEdits(b, key, "");
    case Clear =>
  }

  lemma ProposalChecked(m: Modules, o: Op)
    requires Checked(m) && Acceptable(m, o.id, o.call)
    ensures Checked(Proposal(m, o.id, o.call))
  {
    var next := Proposal(m, o.id, o.call);
    ProposedBucketChecked(m, o);
    forall id | id in next
      ensures CheckedBucket(next[id])
    {
      if id != o.id {
        ProposalElsewhere(m, o, id);
        assert next[id] == m[id];
      } else {
        assert next[id] == Bucket(next, id);
      }
    }
  }

  predicate Budgeted(s: State, who: nat) {
    Count(s.attempts, who) <= Count(s.commits, who) && Count(s.attempts, who) <= MAX_COMMITS
  }

  ghost predicate Inv(medium: Medium, s: State) {
    && Checked(s.published)
    && (s.loaded && s.disk.Some? && medium.durable ==> Loadable(medium, s.disk.value))
    && forall who: nat :: Budgeted(s, who)
  }

  lemma StepKeepsInv(medium: Medium, s: State, o: Op)
    requires Inv(medium, s)
    ensures Inv(medium, Step(medium, s, o))
  {
    CallShape(medium, s.loaded, Cell(s.published, s.disk, Count(s.commits, o.who)), o);
    if EffectOf(medium, s, o).attempted {
      ProposalChecked(s.published, o);
    }
    forall who: nat
      ensures Budgeted(Step(medium, s, o), who)
    {
      assert Budgeted(s, who) && Budgeted(s, o.who);
    }
  }

  lemma Always(medium: Medium, inv: State -> bool, allowed: Op -> bool, disk: Option<Modules>, run: seq<Op>, from: nat,
      n: nat)
    requires from <= n <= |run| && forall o <- run :: allowed(o)
    requires inv(Reached(medium, disk, run, from))
    requires forall s, o :: inv(s) && allowed(o) ==> inv(Step(medium, s, o))
    ensures inv(Reached(medium, disk, run, n))
    decreases n - from
  {
    if from < n {
      var s := Reached(medium, disk, run, from);
      assert run[from] in run;
      assert Reached(medium, disk, run, from + 1) == Step(medium, s, run[from]);
      Always(medium, inv, allowed, disk, run, from + 1, n);
    }
  }

  /**
   * Over any run of calls by any actions, with any persists failing: every published snapshot passes the load checks
   * (so no bucket exceeds 256 keys), no action attempts more than 32 persists, and a store this process could read when
   * it started stays readable, so a restart at any point succeeds.
   */
  lemma EveryRunSound(medium: Medium, disk: Option<Modules>, run: seq<Op>, n: nat)
    requires n <= |run|
    ensures var s := Reached(medium, disk, run, n);
            && Checked(s.published)
            && (forall who: nat :: Count(s.attempts, who) <= MAX_COMMITS)
            && (Boot(medium, disk).loaded ==> Boot(medium, s.disk).loaded)
  {
    var boot := Boot(medium, disk).loaded;
    forall s, o | Inv(medium, s) && s.loaded == boot
      ensures Inv(medium, Step(medium, s, o)) && Step(medium, s, o).loaded == boot
    {
      StepKeepsInv(medium, s, o);
    }
    Always(medium, s => Inv(medium, s) && s.loaded == boot, o => true, disk, run, 0, n);
    forall who: nat
      ensures Count(Reached(medium, disk, run, n).attempts, who) <= MAX_COMMITS
    {
      assert Budgeted(Reached(medium, disk, run, n), who);
    }
  }

  /** A snapshot is published only by a call whose persist reported success, and it is then what the file holds. */
  lemma PublishedMeansPersisted(medium: Medium, s: State, o: Op)
    ensures var t := Step(medium, s, o);
            && (t.published != s.published ==> EffectOf(medium, s, o).attempted && EffectOf(medium, s, o).reply)
            && (t.published != s.published && medium.durable ==> o.fault == Fine && t.disk == Some(t.published))
            && (t.disk != s.disk ==> o.fault != Lost && EffectOf(medium, s, o).attempted)
  {
    CallShape(medium, s.loaded, Cell(s.published, s.disk, Count(s.commits, o.who)), o);
  }

  /** An extension that makes no call keeps its bucket, whatever the others do. */
  lemma OthersUntouched(medium: Medium, disk: Option<Modules>, run: seq<Op>, id: string, from: nat, n: nat)
    requires from <= n <= |run| && forall o <- run :: o.id != id
    ensures var s, t := Reached(medium, disk, run, from), Reached(medium, disk, run, n);
            (id in t.published <==> id in s.published) && Bucket(t.published, id) == Bucket(s.published, id)
  {
    var was := Reached(medium, disk, run, from).published;
    var inv := (s: State) => (id in s.published <==> id in was) && Bucket(s.published, id) == Bucket(was, id);
    forall s, o: Op | inv(s) && o.id != id
      ensures inv(Step(medium, s, o))
    {
      CallShape(medium, s.loaded, Cell(s.published, s.disk, Count(s.commits, o.who)), o);
      ProposalElsewhere(s.published, o, id);
    }
    Always(medium, inv, (o: Op) => o.id != id, disk, run, from, n);
  }

  lemma ProposalKeepsQuota(m: Modules, o: Op, id: string)
    requires Acceptable(m, o.id, o.call) && Bytes(Bucket(m, id)) <= MAX_MODULE
    ensures Bytes(Bucket(Proposal(m, o.id, o.call), id)) <= MAX_MODULE
  {
    if id != o.id {
      ProposalElsewhere(m, o, id);
    } else if o.call.Delete? {
      BytesWithout(Bucket(m, id), o.call.key);
    }
  }

  /** A bucket within the quota never leaves it; a fresh store starts within it. */
  lemma QuotaKept(medium: Medium, disk: Option<Modules>, run: seq<Op>, id: string, from: nat, n: nat)
    requires from <= n <= |run| && Bytes(Bucket(Reached(medium, disk, run, from).published, id)) <= MAX_MODULE
    ensures Bytes(Bucket(Reached(medium, disk, run, n).published, id)) <= MAX_MODULE
  {
    var inv := (s: State) => Bytes(Bucket(s.published, id)) <= MAX_MODULE;
    forall s, o | inv(s)
      ensures inv(Step(medium, s, o))
    {
      CallShape(medium, s.loaded, Cell(s.published, s.disk, Count(s.commits, o.who)), o);
      if EffectOf(medium, s, o).attempted {
        ProposalKeepsQuota(s.published, o, id);
      }
    }
    Always(medium, inv, o => true, disk, run, from, n);
  }

  /** The file holds what is published, or nothing has been written yet. */
  predicate InStep(s: State) {
    s.disk == Some(s.published) || (s.disk == None && s.published == map[])
  }

  /** A persist that fits the store, took effect, and reported failure all the same. */
  ghost predicate LeftInDoubt(medium: Medium, s: State, o: Op) {
    && EffectOf(medium, s, o).attempted && o.fault == Unsure
    && medium.size(Proposal(s.published, o.id, o.call)) <= MAX_STORE
  }

  /** What a call would publish is never what is published already. */
  lemma ProposalDiffers(m: Modules, id: string, call: Call)
    requires Acceptable(m, id, call)
    ensures Proposal(m, id, call) != m
  {
    var next := Proposal(m, id, call);
    match call
    case Set(key, value) => assert next[id][key] == value;
    case Delete(key) => assert key !in next[id] && key in m[id];
    case Clear => assert id !in next;
  }

  /** One call keeps file and snapshot in step if and only if it does not leave a persist in doubt. */
  lemma CallKeepsStep(medium: Medium, s: State, o: Op)
    requires medium.durable && InStep(s)
    ensures InStep(Step(medium, s, o)) <==> !LeftInDoubt(medium, s, o)
  {
    CallShape(medium, s.loaded, Cell(s.published, s.disk, Count(s.commits, o.who)), o);
    if EffectOf(medium, s, o).attempted {
      ProposalDiffers(s.published, o.id, o.call);
    }
  }

  /** A restart from such a state would find exactly what is published. */
  function Restorable(medium: Medium): State -> bool {
    (s: State) => Boot(medium, s.disk).published == s.published
  }

  ghost function Doubtful(medium: Medium): (State, Op) -> bool {
    (s, o) => LeftInDoubt(medium, s, o)
  }

  lemma RestorableMeansInStep(medium: Medium, disk: Option<Modules>, run: seq<Op>, n: nat)
    requires n <= |run| && medium.durable && Boot(medium, disk).loaded
    ensures Restorable(medium)(Reached(medium, disk, run, n)) <==> InStep(Reached(medium, disk, run, n))
  {
    EveryRunSound(medium, disk, run, n);
  }

  lemma RestorableThroughout(medium: Medium, disk: Option<Modules>, run: seq<Op>)
    requires medium.durable && Boot(medium, disk).loaded
    ensures Runs.Throughout(Restorable(medium), Stepper(medium), Boot(medium, disk), run) <==>
            Runs.Throughout(InStep, Stepper(medium), Boot(medium, disk), run)
  {
    var step, boot := Stepper(medium), Boot(medium, disk);
    forall n | 0 <= n <= |run|
      ensures Restorable(medium)(Runs.After(step, boot, run, n)) <==> InStep(Runs.After(step, boot, run, n))
    {
      RestorableMeansInStep(medium, disk, run, n);
    }
  }

  lemma StepperKeepsStep(medium: Medium, s: State, o: Op)
    requires medium.durable && InStep(s)
    ensures InStep(Stepper(medium)(s, o)) <==> !Doubtful(medium)(s, o)
  {
    CallKeepsStep(medium, s, o);
  }

  /**
   * A restart at any point of a run finds exactly what was published there if and only if no persist of the run that
   * fits the store took effect and reported failure.
   */
  lemma RestartRestores(medium: Medium, disk: Option<Modules>, run: seq<Op>)
    requires medium.durable && Boot(medium, disk).loaded
    ensures Runs.Throughout(Restorable(medium), Stepper(medium), Boot(medium, disk), run) <==>
            Runs.NoneBad(Doubtful(medium), Stepper(medium), Boot(medium, disk), run)
  {
    var step, bad := Stepper(medium), Doubtful(medium);
    forall s, o | InStep(s) ensures InStep(step(s, o)) <==> !bad(s, o) {
      StepperKeepsStep(medium, s, o);
    }
    RestorableThroughout(medium, disk, run);
    Runs.KeptExactly(bad, step, InStep, Boot(medium, disk), run);
  }

  ghost predicate TookEffect(before: Modules, o: Op, after: Modules) {
    match o.call
    case Set(key, value) => key in Bucket(after, o.id) && Bucket(after, o.id)[key] == value
    case Delete(key) => key in Bucket(before, o.id) && key !in Bucket(after, o.id)
    case Clear => o.id !in after
  }

  lemma ReplyIsTruthful(medium: Medium, c: Cell, o: Op)
    requires Checked(c.published)
    ensures var e := CallEffect(medium, true, c, o); e.reply <==> TookEffect(c.published, o, e.after.published)
  {
    CallShape(medium, true, c, o);
    assert o.id in c.published ==> CheckedBucket(c.published[o.id]);
  }

  /** What the script is told is what is so: true exactly when the call's effect is in the published snapshot. */
  lemma RepliesAreTruthful(medium: Medium, disk: Option<Modules>, run: seq<Op>, n: nat)
    requires n < |run| && Boot(medium, disk).loaded
    ensures var s, t := Reached(medium, disk, run, n), Reached(medium, disk, run, n + 1);
            EffectOf(medium, s, run[n]).reply <==> TookEffect(s.published, run[n], t.published)
  {
    var s, o := Reached(medium, disk, run, n), run[n];
    EveryRunSound(medium, disk, run, n);
    StaysLoaded(medium, disk, run, n);
    ReplyIsTruthful(medium, Cell(s.published, s.disk, Count(s.commits, o.who)), o);
    assert Reached(medium, disk, run, n + 1) == Step(medium, s, o);
  }

  lemma StaysLoaded(medium: Medium, disk: Option<Modules>, run: seq<Op>, n: nat)
    requires n <= |run|
    ensures Reached(medium, disk, run, n).loaded == Boot(medium, disk).loaded
  {
    Always(medium, (s: State) => s.loaded == Boot(medium, disk).loaded, o => true, disk, run, 0, n);
  }
}

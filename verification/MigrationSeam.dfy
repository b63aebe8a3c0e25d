/**
 * The hand-over from the polled file to the pushed bundle, as the interleaving it really is.
 *
 * The manager publishes a bundle with four separate atomic stores under its own mutex; a reader inside
 * configStore.Current loads `active` and then `migrated` without that mutex. Readers exclude each other.
 * Addresses of decoded bundles may be reused once nothing in the process refers to them.
 */
module MigrationSeam {
  import opened Outcomes
  import opened ConfigStore
  import Runs

  /** How far the manager is inside setActive. */
  datatype Writer = Idle | StoredActive | StoredId | StoredDigest

  /** How far the reader is inside Current. */
  datatype Reader = Outside | SawActive(active: Option<Activation>) | SawBoth(active: Option<Activation>,
      migrated: bool)

  datatype Process = Process(
    active: Option<Activation>,
    migrated: bool,
    writer: Writer,
    reader: Reader,
    store: Fields,
    allocations: nat,
    served: seq<Answer>,
    issued: map<nat, Snapshot>)

  datatype Action =
    | StoreActive(activation: Activation)  // setActive, first store
    | StoreId                              // setActive, second store
    | StoreDigest                          // setActive, third store
    | LatchMigrated                        // setActive, last store
    | Withdraw                             // Purge
    | LoadActive                           // Current: manager.Active()
    | LoadMigrated                         // Current: manager.Migrated()
    | Finish(look: Observation)            // Current: the rest, under the store's mutex

  /** The bundles something in the process still refers to. */
  function Referenced(p: Process): set<Activation> {
    (if p.active.Some? then {p.active.value} else {}) +
    (if p.store.bundle.Some? then {p.store.bundle.value} else {}) +
    (if !p.reader.Outside? && p.reader.active.Some? then {p.reader.active.value} else {})
  }

  predicate Guard(p: Process, a: Action) {
    match a
    case StoreActive(new_) =>
      p.writer.Idle? && new_.serial == p.allocations && forall old_ :: old_ in Referenced(p) ==> old_.addr != new_.addr
    case StoreId => p.writer.StoredActive?
    case StoreDigest => p.writer.StoredId?
    case LatchMigrated => p.writer.StoredDigest?
    case Withdraw => p.writer.Idle?
    case LoadActive => p.reader.Outside?
    case LoadMigrated => p.reader.SawActive?
    case Finish(_) => p.reader.SawBoth?
  }

  function Step(p: Process, a: Action, decode: Decoder): Process {
    match a
    case StoreActive(activation) =>
      p.(active := Some(activation), writer := StoredActive, allocations := p.allocations + 1)
    case StoreId => p.(writer := StoredId)
    case StoreDigest => p.(writer := StoredDigest)
    case LatchMigrated => p.(migrated := true, writer := Idle)
    case Withdraw => p.(active := None)
    case LoadActive => p.(reader := SawActive(p.active))
    case LoadMigrated => if p.reader.SawActive? then p.(reader := SawBoth(p.reader.active, p.migrated)) else p
    case Finish(look) => if p.reader.SawBoth? then Finished(p, Source(p.reader.active, p.reader.migrated), look, decode)
      else p
  }

  function Finished(p: Process, source: Source, look: Observation, decode: Decoder): Process {
    var answer := Reply(p.store, source, look, decode);
    p.(store := Next(p.store, source, look, decode),
       reader := Outside,
       served := p.served + [answer],
       issued := if answer.Serve? && answer.generation !in p.issued then p.issued[answer.generation := answer.snapshot]
           else p.issued)
  }

  function Stepper(decode: Decoder): (Process, Action) -> Process {
    (p, a) => Step(p, a, decode)
  }

  function Start(f: Fields): Process {
    Process(None, false, Idle, Outside, f, 0, [], map[f.generation := FromFile(f.document, f.config)])
  }

  predicate ServesBundle(answer: Answer) {
    answer.Serve? && answer.snapshot.FromBundle?
  }

  predicate ServesFile(answer: Answer) {
    answer.Serve? && answer.snapshot.FromFile?
  }

  predicate BundleServed(p: Process) {
    exists k :: 0 <= k < |p.served| && ServesBundle(p.served[k])
  }

  /** A bundle has been, or is being, made live. */
  predicate Crossing(p: Process) {
    p.migrated || !p.writer.Idle?
  }

  // ----- the invariant -----

  predicate SeamInv(p: Process) {
    && (!p.writer.Idle? ==> p.active.Some?)
    && (p.active.Some? ==> Crossing(p))
    && (!p.reader.Outside? && p.reader.active.Some? ==> Crossing(p))
    && (p.store.bundle.Some? ==> BundleServed(p))
    && (BundleServed(p) ==> Crossing(p))
    && (p.reader.SawActive? && p.reader.active.None? && BundleServed(p) ==> p.migrated)
    && (p.reader.SawBoth? && p.reader.active.None? && BundleServed(p) ==> p.reader.migrated)
  }

  predicate OrderInv(p: Process) {
    forall j, k :: 0 <= j < k < |p.served| && ServesBundle(p.served[j]) ==> !ServesFile(p.served[k])
  }

  /** Two references with one address are one activation. */
  predicate PointerInv(p: Process) {
    && (forall a, b :: a in Referenced(p) && b in Referenced(p) && a.addr == b.addr ==> a == b)
    && (forall a :: a in Referenced(p) ==> a.serial < p.allocations)
  }

  /** The number last handed out is the newest, and belongs to what the store now holds. */
  predicate NumberInv(p: Process) {
    && (forall g :: g in p.issued ==> g <= p.store.generation)
    && p.store.generation in p.issued
    && (p.store.bundle.Some? ==> p.issued[p.store.generation] == FromBundle(p.store.bundle.value))
    && (BundleServed(p)
        || (p.store.configGeneration == p.store.generation
            && p.issued[p.store.generation] == FromFile(p.store.document, p.store.config)))
    && (forall k :: 0 <= k < |p.served| && p.served[k].Serve? ==>
          p.served[k].generation in p.issued && p.issued[p.served[k].generation] == p.served[k].snapshot)
    && (forall j, k :: 0 <= j < k < |p.served| && p.served[j].Serve? && p.served[k].Serve? ==>
       p.served[j].generation <= p.served[k].generation)
  }

  predicate Inv(p: Process) {
    SeamInv(p) && OrderInv(p) && PointerInv(p) && NumberInv(p)
  }

  lemma FinishSource(p: Process)
    requires SeamInv(p) && p.reader.SawBoth?
    ensures p.reader.active.None? && !p.reader.migrated ==> !BundleServed(p) && p.store.bundle.None?
  {
  }

  lemma ServedGrows(p: Process, source: Source, look: Observation, decode: Decoder)
    ensures var q := Finished(p, source, look, decode);
            BundleServed(q) <==> BundleServed(p) || ServesBundle(Reply(p.store, source, look, decode))
  {
    var q := Finished(p, source, look, decode);
    assert q.served[|p.served|] == Reply(p.store, source, look, decode);
    if BundleServed(p) {
      var k :| 0 <= k < |p.served| && ServesBundle(p.served[k]);
      assert ServesBundle(q.served[k]);
    }
  }

  lemma FinishKeepsSeam(p: Process, look: Observation, decode: Decoder)
    requires Inv(p) && p.reader.SawBoth?
    ensures var q := Finished(p, Source(p.reader.active, p.reader.migrated), look, decode);
            SeamInv(q) && OrderInv(q) && PointerInv(q)
  {
    ServedGrows(p, Source(p.reader.active, p.reader.migrated), look, decode);
    FinishSource(p);
  }

  lemma FinishKeepsNumbers(p: Process, look: Observation, decode: Decoder)
    requires Inv(p) && p.reader.SawBoth?
    ensures NumberInv(Finished(p, Source(p.reader.active, p.reader.migrated), look, decode))
  {
    var source := Source(p.reader.active, p.reader.migrated);
    ServedGrows(p, source, look, decode);
    FinishSource(p);
    if p.reader.active.Some? && p.store.bundle.Some? && p.store.bundle.value.addr == p.reader.active.value.addr {
      assert p.reader.active.value in Referenced(p) && p.store.bundle.value in Referenced(p);
    }
  }

  lemma StepKeepsInv(p: Process, a: Action, decode: Decoder)
    requires Inv(p) && Guard(p, a)
    ensures Inv(Step(p, a, decode))
  {
    if a.Finish? {
      FinishKeepsSeam(p, a.look, decode);
      FinishKeepsNumbers(p, a.look, decode);
    } else {
      OthersKeepSeam(p, a, decode);
      OthersKeepPointers(p, a, decode);
    }
  }

  /** Everything but a finishing Current leaves what was served, and the store, alone. */
  lemma OthersKeepSeam(p: Process, a: Action, decode: Decoder)
    requires Inv(p) && Guard(p, a) && !a.Finish?
    ensures var q := Step(p, a, decode); SeamInv(q) && OrderInv(q) && NumberInv(q)
  {
    assert BundleServed(Step(p, a, decode)) <==> BundleServed(p);
  }

  lemma OthersKeepPointers(p: Process, a: Action, decode: Decoder)
    requires PointerInv(p) && Guard(p, a) && !a.Finish?
    ensures PointerInv(Step(p, a, decode))
  {
  }

  lemma {:induction false} EveryStateInv(f: Fields, run: seq<Action>, n: nat, decode: Decoder)
    requires f.configGeneration == f.generation && f.bundle.None?
    requires n <= |run| && Runs.Enabled(Guard, Stepper(decode), Start(f), run)
    ensures Inv(Runs.After(Stepper(decode), Start(f), run, n))
  {
    forall p: Process, a | Inv(p) && Guard(p, a) ensures Inv(Stepper(decode)(p, a)) {
      StepKeepsInv(p, a, decode);
    }
    Runs.Kept(Guard, Stepper(decode), Inv, Start(f), run, n);
  }

  // ----- what the seam promises -----

  /** Once any Current has answered with a bundle, no later one answers with the file, in any interleaving. */
  lemma FileNeverReturns(f: Fields, run: seq<Action>, n: nat, decode: Decoder, j: nat, k: nat)
    requires f.configGeneration == f.generation && f.bundle.None?
    requires n <= |run| && Runs.Enabled(Guard, Stepper(decode), Start(f), run)
    requires var served := Runs.After(Stepper(decode), Start(f), run, n).served;
             j < k < |served| && ServesBundle(served[j])
    ensures !ServesFile(Runs.After(Stepper(decode), Start(f), run, n).served[k])
  {
    EveryStateInv(f, run, n, decode);
  }

  /**
   * The numbers handed out never decrease, and one number always means one snapshot, across file reloads,
   * activations, withdrawals and address reuse.
   */
  lemma NumbersIdentifySnapshots(f: Fields, run: seq<Action>, n: nat, decode: Decoder, j: nat, k: nat)
    requires f.configGeneration == f.generation && f.bundle.None?
    requires n <= |run| && Runs.Enabled(Guard, Stepper(decode), Start(f), run)
    requires var served := Runs.After(Stepper(decode), Start(f), run, n).served;
             j < k < |served| && served[j].Serve? && served[k].Serve?
    ensures var served := Runs.After(Stepper(decode), Start(f), run, n).served;
            && served[j].generation <= served[k].generation
            && (served[j].generation == served[k].generation ==> served[j].snapshot == served[k].snapshot)
  {
    EveryStateInv(f, run, n, decode);
  }

  /** After a commit has returned, every Current that starts later answers with a bundle or with nothing. */
  lemma CommittedMeansNoFile(p: Process, run: seq<Action>, n: nat, decode: Decoder, k: nat)
    requires p.migrated && p.reader.Outside?
    requires n <= |run| && Runs.Enabled(Guard, Stepper(decode), p, run)
    requires |p.served| <= k < |Runs.After(Stepper(decode), p, run, n).served|
    ensures !ServesFile(Runs.After(Stepper(decode), p, run, n).served[k])
  {
    var settled := (q: Process) =>
      && q.migrated && (q.reader.SawBoth? ==> q.reader.migrated)
      && forall i :: |p.served| <= i < |q.served| ==> !ServesFile(q.served[i]);
    Runs.Kept(Guard, Stepper(decode), settled, p, run, n);
  }

  // ----- what each Current answers -----

  /** The bundle published by the first `n` actions: the last one stored, unless it was withdrawn since. */
  function Published(run: seq<Action>, n: nat): Option<Activation>
    requires n <= |run|
  {
    if n == 0 then None
    else if run[n - 1].StoreActive? then Some(run[n - 1].activation)
    else if run[n - 1].Withdraw? then None
    else Published(run, n - 1)
  }

  /** A bundle has been made live among the first `n` actions. */
  predicate Latched(run: seq<Action>, n: nat)
    requires n <= |run|
  {
    exists k :: 0 <= k < n && run[k].LatchMigrated?
  }

  /** The published bundle and the latch are what the writers of the run made them. */
  lemma {:induction false} WritersDecide(f: Fields, run: seq<Action>, n: nat, decode: Decoder)
    requires n <= |run| && Runs.Enabled(Guard, Stepper(decode), Start(f), run)
    ensures var p := Runs.After(Stepper(decode), Start(f), run, n);
            p.active == Published(run, n) && p.migrated == Latched(run, n)
  {
    if n > 0 {
      WritersDecide(f, run, n - 1, decode);
    }
  }

  predicate ReaderAction(a: Action) {
    a.LoadActive? || a.LoadMigrated? || a.Finish?
  }

  /** One Current: it loads `active` at `i`, loads `migrated` at `j` and finishes at `k`. */
  predicate OneCall(run: seq<Action>, i: nat, j: nat, k: nat) {
    && i < j < k < |run| && run[i].LoadActive? && run[j].LoadMigrated? && run[k].Finish?
    && forall m :: i < m < k && m != j ==> !ReaderAction(run[m])
  }

  /** Writers do not disturb a reader. */
  lemma {:induction false} ReaderUndisturbed(f: Fields, run: seq<Action>, from: nat, to: nat, decode: Decoder)
    requires from <= to <= |run| && forall m :: from <= m < to ==> !ReaderAction(run[m])
    ensures var p, q := Runs.After(Stepper(decode), Start(f), run, from),
            Runs.After(Stepper(decode), Start(f), run, to);
            q.reader == p.reader && q.store == p.store && q.served == p.served
  {
    if from < to {
      ReaderUndisturbed(f, run, from, to - 1, decode);
    }
  }

  /**
   * What a call that saw `active` and `migrated` leaves of the process: the answer, its number, and the bundle held.
   */
  ghost predicate Answers(p: Process, active: Option<Activation>, migrated: bool, look: Observation, q: Process,
      decode: Decoder) {
    match active
    case Some(bundle) =>
      && q.store.bundle == active
      && q.store.generation == (if p.store.bundle == active then p.store.generation else p.store.generation + 1)
      && q.served == p.served + [Serve(FromBundle(bundle), q.store.generation)]
    case None =>
      if migrated then q.store == p.store.(bundle := None) && q.served == p.served + [NoActiveBundle]
      else
        && q.store == LookAtFile(p.store, look, decode)
        && q.served == p.served + [Serve(FromFile(q.store.document, q.store.config), q.store.configGeneration)]
  }

  lemma FinishAnswers(p: Process, look: Observation, decode: Decoder)
    requires PointerInv(p) && p.reader.SawBoth?
    ensures Answers(p, p.reader.active, p.reader.migrated, look, Step(p, Finish(look), decode), decode)
  {
    if p.reader.active.Some? && p.store.bundle.Some? {
      assert p.reader.active.value in Referenced(p) && p.store.bundle.value in Referenced(p);
    }
  }

  lemma LoadSees(f: Fields, run: seq<Action>, i: nat, to: nat, decode: Decoder)
    requires Runs.Enabled(Guard, Stepper(decode), Start(f), run) && i < to <= |run| && run[i].LoadActive?
    requires forall m :: i < m < to ==> !ReaderAction(run[m])
    ensures Runs.After(Stepper(decode), Start(f), run, to).reader == SawActive(Published(run, i))
  {
    WritersDecide(f, run, i, decode);
    assert Runs.After(Stepper(decode), Start(f), run, i + 1).reader == SawActive(Published(run, i));
    ReaderUndisturbed(f, run, i + 1, to, decode);
  }

  /** What a call has loaded when it finishes. */
  lemma CallSees(f: Fields, run: seq<Action>, i: nat, j: nat, k: nat, decode: Decoder)
    requires Runs.Enabled(Guard, Stepper(decode), Start(f), run) && OneCall(run, i, j, k)
    ensures Runs.After(Stepper(decode), Start(f), run, k).reader == SawBoth(Published(run, i), Latched(run, j))
  {
    LoadSees(f, run, i, j, decode);
    WritersDecide(f, run, j, decode);
    assert Runs.After(Stepper(decode), Start(f), run, j + 1).reader == SawBoth(Published(run, i), Latched(run, j));
    ReaderUndisturbed(f, run, j + 1, k, decode);
  }

  /**
   * Which answer every Current of every run gives, read off the run alone: the bundle that was published when it loaded
   * `active`, under a number that moves exactly when that is another bundle than the last one served; no bundle, and
   * nothing held on to, when none was published and the process had migrated; and otherwise the file.
   */
  lemma CurrentAnswers(f: Fields, run: seq<Action>, i: nat, j: nat, k: nat, decode: Decoder)
    requires f.configGeneration == f.generation && f.bundle.None?
    requires Runs.Enabled(Guard, Stepper(decode), Start(f), run) && OneCall(run, i, j, k)
    ensures Answers(Runs.After(Stepper(decode), Start(f), run, k), Published(run, i), Latched(run, j), run[k].look,
                    Runs.After(Stepper(decode), Start(f), run, k + 1), decode)
  {
    var p := Runs.After(Stepper(decode), Start(f), run, k);
    EveryStateInv(f, run, k, decode);
    CallSees(f, run, i, j, k, decode);
    FinishAnswers(p, run[k].look, decode);
    assert Runs.After(Stepper(decode), Start(f), run, k + 1) == Step(p, run[k], decode);
  }

  /** A Current that starts after a withdrawal, with no bundle stored in between, serves none. */
  lemma WithdrawnMeansNone(f: Fields, run: seq<Action>, w: nat, i: nat, j: nat, k: nat, decode: Decoder)
    requires f.configGeneration == f.generation && f.bundle.None?
    requires Runs.Enabled(Guard, Stepper(decode), Start(f), run) && OneCall(run, i, j, k)
    requires w < i && run[w].Withdraw? && Latched(run, j) && forall m :: w < m < i ==> !run[m].StoreActive?
    ensures var q := Runs.After(Stepper(decode), Start(f), run, k + 1);
            q.served != [] && q.served[|q.served| - 1] == NoActiveBundle && q.store.bundle == None
  {
    NothingPublishedSince(run, w, i);
    CurrentAnswers(f, run, i, j, k, decode);
  }

  lemma {:induction false} NothingPublishedSince(run: seq<Action>, w: nat, n: nat)
    requires w < n <= |run| && run[w].Withdraw? && forall m :: w < m < n ==> !run[m].StoreActive?
    ensures Published(run, n) == None
  {
    if w < n - 1 {
      NothingPublishedSince(run, w, n - 1);
    }
  }

  /** A Current that starts after a bundle was stored, with none stored or withdrawn since, serves that bundle. */
  lemma StoredIsServed(f: Fields, run: seq<Action>, w: nat, i: nat, j: nat, k: nat, decode: Decoder)
    requires f.configGeneration == f.generation && f.bundle.None?
    requires Runs.Enabled(Guard, Stepper(decode), Start(f), run) && OneCall(run, i, j, k)
    requires w < i && run[w].StoreActive? && forall m :: w < m < i ==> !run[m].StoreActive? && !run[m].Withdraw?
    ensures var q := Runs.After(Stepper(decode), Start(f), run, k + 1);
            q.served != [] && q.served[|q.served| - 1] == Serve(FromBundle(run[w].activation), q.store.generation)
  {
    StillPublished(run, w, i);
    CurrentAnswers(f, run, i, j, k, decode);
  }

  lemma {:induction false} StillPublished(run: seq<Action>, w: nat, n: nat)
    requires w < n <= |run| && run[w].StoreActive?
    requires forall m :: w < m < n ==> !run[m].StoreActive? && !run[m].Withdraw?
    ensures Published(run, n) == Some(run[w].activation)
  {
    if w < n - 1 {
      StillPublished(run, w, n - 1);
    }
  }
}

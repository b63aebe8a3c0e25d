/**
 * The manager's calls on values: what a call leaves in memory and on disk, and exactly when a restart would serve what
 * the process serves. The manager's methods are proved to be such calls.
 */
module BundleCalls {
  import opened BundleDisk

  /** What the process serves, in the terms a restart would report it, and what is on disk. */
  datatype Process = Process(memory: Recovered, disk: Disk)

  /** A call, or a crash, with the durable writes that took effect; `ok` is what it reported. */
  datatype Call =
    | StageCall(ws: seq<Write>)
    | CommitCall(id: Id, ok: bool, ws: seq<Write>)
    | AbortCall(ws: seq<Write>)
    | PurgeCall(w: Write)
    | RestartCall(ok: bool, ws: seq<Write>)   // a crash after these writes of an unfinished call, then Recover

  function LiveId(p: Process): Id {
    if p.memory.Live? then p.memory.id else ""
  }

  ghost predicate CommitStep(before: Process, id: Id, ok: bool, ws: seq<Write>, after: Process, decode: Decoder) {
    && Run(before.disk, ws, after.disk, decode) && CommitJournal(ws, id, LiveId(before))
    && if id == LiveId(before) then ok && ws == [] && after == before
       else if ok then |ws| >= 2 && Servable(before.disk, id, decode) &&
           after.memory == Committed(before.disk, id, decode)
       else |ws| <= 2 && (ws != [] ==> Servable(before.disk, id, decode)) && after.memory == before.memory
  }

  /** What each of the manager's methods promises. */
  ghost predicate CallStep(before: Process, c: Call, after: Process, decode: Decoder) {
    match c
    case StageCall(ws) =>
      Run(before.disk, ws, after.disk, decode) && (ws == [] || (|ws| == 1 && ws[0].PutStaged?)) &&
          after.memory == before.memory
    case CommitCall(id, ok, ws) => CommitStep(before, id, ok, ws, after, decode)
    case AbortCall(ws) =>
      Run(before.disk, ws, after.disk, decode) && (ws == [] || (|ws| == 1 && ws[0].Remove?)) &&
          after.memory == before.memory
    case PurgeCall(w) => (w.Erase? || w.Wipe?) && after == Process(Nothing, Apply(w, before.disk))
    case RestartCall(ok, ws) =>
      && Run(before.disk, ws, after.disk, decode) && Untorn(before.disk, ws)
      && after.memory == if ok then RecoverFrom(after.disk, decode) else Nothing
  }

  /** A restart would serve what the process serves. */
  predicate Agrees(p: Process, decode: Decoder) {
    p.memory == RecoverFrom(p.disk, decode)
  }

  /**
   * The ways a call leaves memory and disk apart: a commit that reported failure after its pointer write took effect, a
   * purge of a live bundle that stopped short of the pointer, and a recovery that failed although a bundle is pointed
   * at.
   */
  predicate InDoubt(before: Process, c: Call) {
    || (c.CommitCall? && !c.ok && |c.ws| == 2)
    || (c.PurgeCall? && c.w.Erase? && before.memory != Nothing)
    || (c.RestartCall? && !c.ok && Pointed(DiskAfter(before.disk, c.ws, |c.ws|)) != "")
  }

  /** A journal of one harmless write changes nothing a restart serves. */
  lemma OneWriteKeeps(before: Disk, ws: seq<Write>, after: Disk, decode: Decoder)
    requires Consistent(before, decode) && Run(before, ws, after, decode)
    requires ws == [] || (|ws| == 1 && (ws[0].PutStaged? || ws[0].Remove? || ws[0].PutActive?))
    ensures Consistent(after, decode) && RecoverFrom(after, decode) == RecoverFrom(before, decode)
  {
    if ws != [] {
      assert Allowed(ws[0], DiskAfter(before, ws, 0), decode);
      assert after == Apply(ws[0], DiskAfter(before, ws, 0));
      WriteKeepsConsistent(before, ws[0], decode);
      TailKeepsRecovery(before, ws[0], decode);
    }
  }

  lemma CommitConsistent(before: Process, id: Id, ok: bool, ws: seq<Write>, after: Process, decode: Decoder)
    requires CommitStep(before, id, ok, ws, after, decode) && Consistent(before.disk, decode)
    ensures Consistent(after.disk, decode)
    ensures RecoverFrom(after.disk, decode) ==
            if |ws| < 2 then RecoverFrom(before.disk, decode) else Committed(before.disk, id, decode)
  {
    CommitJournalUntorn(before.disk, ws, id, LiveId(before));
    EveryCrashPointConsistent(before.disk, ws, |ws|, decode);
    if ws != [] {
      CommitSwitchesOnce(before.disk, ws, id, LiveId(before), |ws|, decode);
    }
  }

  /** One call keeps memory and disk in agreement if and only if it is not in doubt. */
  lemma CallKeepsAgreement(before: Process, c: Call, after: Process, decode: Decoder)
    requires CallStep(before, c, after, decode) && Consistent(before.disk, decode) && Agrees(before, decode)
    ensures Agrees(after, decode) <==> !InDoubt(before, c)
    ensures !InDoubt(before, c) ==> Consistent(after.disk, decode)
  {
    match c
    case StageCall(ws) => OneWriteKeeps(before.disk, ws, after.disk, decode);
    case AbortCall(ws) => OneWriteKeeps(before.disk, ws, after.disk, decode);
    case CommitCall(id, ok, ws) => CommitConsistent(before, id, ok, ws, after, decode);
    case PurgeCall(w) =>
      if w.Erase? {
        PurgeCutShort(before.disk, w.ids, decode);
      }
    case RestartCall(_, ws) => EveryCrashPointConsistent(before.disk, ws, |ws|, decode);
  }

  /** The states a sequence of calls passes through. */
  ghost predicate CallRun(states: seq<Process>, calls: seq<Call>, decode: Decoder) {
    && |states| == |calls| + 1
    && forall k {:trigger calls[k]} :: 0 <= k < |calls| ==> CallStep(states[k], calls[k], states[k + 1], decode)
  }

  lemma {:induction false} NoDoubtKeepsAgreement(states: seq<Process>, calls: seq<Call>, n: nat, decode: Decoder)
    requires CallRun(states, calls, decode) && n <= |calls|
    requires Consistent(states[0].disk, decode) && Agrees(states[0], decode)
    requires forall k {:trigger calls[k]} :: 0 <= k < n ==> !InDoubt(states[k], calls[k])
    ensures Consistent(states[n].disk, decode) && Agrees(states[n], decode)
  {
    if n > 0 {
      NoDoubtKeepsAgreement(states, calls, n - 1, decode);
      CallKeepsAgreement(states[n - 1], calls[n - 1], states[n], decode);
    }
  }

  /** Memory and disk agree after every call of a run if and only if no call of it is in doubt. */
  lemma AgreementExactly(states: seq<Process>, calls: seq<Call>, decode: Decoder)
    requires CallRun(states, calls, decode) && Consistent(states[0].disk, decode) && Agrees(states[0], decode)
    ensures (forall k :: 0 <= k < |states| ==> Agrees(states[k], decode)) <==>
            (forall k {:trigger calls[k]} :: 0 <= k < |calls| ==> !InDoubt(states[k], calls[k]))
  {
    if forall k {:trigger calls[k]} :: 0 <= k < |calls| ==> !InDoubt(states[k], calls[k]) {
      forall k | 0 <= k < |states| ensures Agrees(states[k], decode) {
        NoDoubtKeepsAgreement(states, calls, k, decode);
      }
    } else {
      var k := FirstDoubt(states, calls);
      NoDoubtKeepsAgreement(states, calls, k, decode);
      CallKeepsAgreement(states[k], calls[k], states[k + 1], decode);
      assert !Agrees(states[k + 1], decode);
    }
  }

  lemma FirstDoubt(states: seq<Process>, calls: seq<Call>) returns (first: nat)
    requires |states| == |calls| + 1 && exists k {:trigger calls[k]} :: 0 <= k < |calls| && InDoubt(states[k], calls[k])
    ensures first < |calls| && InDoubt(states[first], calls[first])
    ensures forall k {:trigger calls[k]} :: 0 <= k < first ==> !InDoubt(states[k], calls[k])
  {
    first := 0;
    while !InDoubt(states[first], calls[first])
      invariant first < |calls| && forall k {:trigger calls[k]} :: 0 <= k < first ==> !InDoubt(states[k], calls[k])
      invariant exists k {:trigger calls[k]} :: first <= k < |calls| && InDoubt(states[k], calls[k])
      decreases |calls| - first
    {
      first := first + 1;
    }
  }

  /**
   * Agreement comes back, from any consistent disk, with a commit of another bundle that succeeds, a full purge, and a
   * recovery.
   */
  lemma AgreementRestored(before: Process, c: Call, after: Process, decode: Decoder)
    requires CallStep(before, c, after, decode) && Consistent(before.disk, decode)
    requires (c.CommitCall? && c.ok && c.id != LiveId(before)) || (c.PurgeCall? && c.w.Wipe?) ||
             (c.RestartCall? && c.ok)
    ensures Agrees(after, decode) && Consistent(after.disk, decode)
  {
    if c.CommitCall? {
      CommitConsistent(before, c.id, c.ok, c.ws, after, decode);
    } else if c.RestartCall? {
      EveryCrashPointConsistent(before.disk, c.ws, |c.ws|, decode);
    }
  }

  /**
   * A success that does not survive a restart. Bundle `a` is live and `b` is stored. Commit(b) moves the pointer and
   * then reports failure; the coordinator commits `a` again and is told that it succeeded, as a repeat; a restart
   * serves `b`.
   */
  lemma RepeatedSuccessNotDurable(disk: Disk, b: Id, at: int, decode: Decoder)
    requires Consistent(disk, decode) && RecoverFrom(disk, decode).Live? && Servable(disk, b, decode)
    requires b != RecoverFrom(disk, decode).id
    ensures var a := RecoverFrom(disk, decode).id;
            var ws := [PutActive(b, at), PointAt(b, a)];
            var live, torn := Process(RecoverFrom(disk, decode), disk),
                Process(RecoverFrom(disk, decode), DiskAfter(disk, ws, 2));
            && CallStep(live, CommitCall(b, false, ws), torn, decode)
            && CallStep(torn, CommitCall(a, true, []), torn, decode)
            && torn.memory.id == a && RecoverFrom(torn.disk, decode) == Committed(disk, b, decode) != torn.memory
  {
    var a := RecoverFrom(disk, decode).id;
    var first, second := PutActive(b, at), PointAt(b, a);
    var put := Apply(first, disk);
    LookupWithState(disk, b, Active, at, b);
    RunOne(disk, first, decode);
    RunOne(put, second, decode);
    RunJoin(disk, [first], put, [second], Apply(second, put), decode);
    assert [first] + [second] == [first, second];
    PointerWriteSwitches(disk, b, a, at, decode);
  }

  /** Two bundles are enough for such a disk. */
  lemma TwoBundlesSuffice(document: Document, decode: Decoder)
    requires decode(document).Some?
    ensures var disk := Disk(map["a" := Readable(Record("a", Active, document, document, 0, 0)),
                                 "b" := Readable(Record("b", Staged, document, document, 0, 0))], Pointer("a", ""));
            && Consistent(disk, decode) && RecoverFrom(disk, decode).Live? && Servable(disk, "b", decode)
            && RecoverFrom(disk, decode).id == "a"
  {
    assert ValidId("a") && ValidId("b");
  }
}

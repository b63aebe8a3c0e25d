/**
 * Admission of resident body bytes: the shared budget, the reservations the matched rules call for, and the
 * reserve, shrink and release protocol every exchange follows through ServeHTTP, on all of its exits.
 */
module BodyBudget {
  import opened ExtensionConfig
  import Runs

  const MAX_BODY := 64 * 1024 * 1024
  const LIMIT := 4 * MAX_BODY

  // ----- what to reserve -----

  /** What configuration validation demands of an action's limit. */
  predicate ValidRules(rules: seq<ScriptRule>) {
    forall k :: 0 <= k < |rules| ==> 1024 <= rules[k].maxBodyBytes <= MAX_BODY
  }

  predicate Reads(rule: ScriptRule) {
    rule.bodyMode != "none"
  }

  /** The largest limit among the rules that count, or zero when none does. */
  ghost predicate IsWidest(rules: seq<ScriptRule>, counts: ScriptRule -> bool, w: int) {
    && w >= 0
    && (forall k :: 0 <= k < |rules| && counts(rules[k]) ==> rules[k].maxBodyBytes <= w)
    && (w == 0 || exists k :: 0 <= k < |rules| && counts(rules[k]) && rules[k].maxBodyBytes == w)
  }

  function WidestOf(rules: seq<ScriptRule>, counts: ScriptRule -> bool, n: nat): int
    requires n <= |rules|
  {
    if n == 0 then 0
    else if counts(rules[n - 1]) && rules[n - 1].maxBodyBytes > WidestOf(rules, counts, n - 1) then
        rules[n - 1].maxBodyBytes
    else WidestOf(rules, counts, n - 1)
  }

  /** It is the largest limit that counts, and nothing else is. */
  lemma {:induction false} WidestIsMaximum(rules: seq<ScriptRule>, counts: ScriptRule -> bool, n: nat)
    requires n <= |rules|
    ensures forall w :: IsWidest(rules[..n], counts, w) <==> w == WidestOf(rules, counts, n)
  {
    if n > 0 {
      WidestIsMaximum(rules, counts, n - 1);
      var before, now := WidestOf(rules, counts, n - 1), WidestOf(rules, counts, n);
      assert IsWidest(rules[..n - 1], counts, before);
      assert forall k :: 0 <= k < n - 1 ==> rules[..n - 1][k] == rules[..n][k];
      assert rules[..n][n - 1] == rules[n - 1];
      assert IsWidest(rules[..n], counts, now);
    }
  }

  method Widest(rules: seq<ScriptRule>, counts: ScriptRule -> bool) returns (w: int)
    ensures IsWidest(rules, counts, w) && forall v :: IsWidest(rules, counts, v) ==> v == w
  {
    w := 0;
    for k := 0 to |rules|
      invariant w == WidestOf(rules, counts, k)
    {
      if counts(rules[k]) && rules[k].maxBodyBytes > w {
        w := rules[k].maxBodyBytes;
      }
    }
    WidestIsMaximum(rules, counts, |rules|);
    assert rules[..|rules|] == rules;
    assert IsWidest(rules, counts, WidestOf(rules, counts, |rules|));
  }

  /** The most that will be read: the widest limit of a rule that reads, or the process-wide cap. */
  ghost predicate IsReadLimit(rules: seq<ScriptRule>, limit: int) {
    && 0 < limit <= MAX_BODY
    && forall w :: IsWidest(rules, Reads, w) ==> limit == if 0 < w <= MAX_BODY then w else MAX_BODY
  }

  method ReadLimit(rules: seq<ScriptRule>) returns (limit: int)
    ensures IsReadLimit(rules, limit)
  {
    var w := Widest(rules, Reads);
    limit := if w <= 0 || w > MAX_BODY then MAX_BODY else w;
  }

  /** Room for the declared length as far as it will be read, and for whatever any matched rule may hand back. */
  ghost predicate CoversRequest(declared: int, rules: seq<ScriptRule>, r: int) {
    && (forall k :: 0 <= k < |rules| ==> rules[k].maxBodyBytes <= r)
    && (forall limit :: IsReadLimit(rules, limit) ==>
          (declared > 0 ==> r >= if declared < limit then declared else limit) && (rules == [] ==> r >= limit))
  }

  /** The least reservation that covers the request, when the rules are valid. */
  method RequestReservation(declared: int, rules: seq<ScriptRule>) returns (r: int)
    ensures CoversRequest(declared, rules, r)
    ensures ValidRules(rules) ==> forall q :: CoversRequest(declared, rules, q) ==> r <= q
    ensures r > 0 && (ValidRules(rules) ==> r <= MAX_BODY)
  {
    var limit := ReadLimit(rules);
    var widest := Widest(rules, _ => true);
    assert ValidRules(rules) && rules != [] ==> widest >= rules[0].maxBodyBytes > 0;
    if widest == 0 {
      widest := limit;
    }
    r := widest;
    if declared > 0 {
      var length := if declared > limit then limit else declared;
      if length > widest {
        r := length;
      }
    }
    OneReadLimit(rules, limit);
  }

  lemma OneReadLimit(rules: seq<ScriptRule>, limit: int)
    requires IsReadLimit(rules, limit)
    ensures forall other :: IsReadLimit(rules, other) ==> other == limit
  {
    WidestIsMaximum(rules, Reads, |rules|);
    assert rules[..|rules|] == rules;
    assert IsWidest(rules, Reads, WidestOf(rules, Reads, |rules|));
  }

  /** Room for everything the buffered response path will read, and for whatever a rule may hand back. */
  ghost predicate CoversResponse(declared: int, rules: seq<ScriptRule>, r: int) {
    && (forall k :: 0 <= k < |rules| ==> rules[k].maxBodyBytes <= r)
    && (forall limit :: IsReadLimit(rules, limit) ==> r >= if 0 < declared < limit then declared else limit)
  }

  /** The least reservation that covers the response. */
  method ResponseReservation(declared: int, rules: seq<ScriptRule>) returns (r: int)
    ensures CoversResponse(declared, rules, r)
    ensures forall q :: CoversResponse(declared, rules, q) ==> r <= q
    ensures r > 0 && (ValidRules(rules) ==> r <= MAX_BODY)
  {
    r := ReadLimit(rules);
    OneReadLimit(rules, r);
    if 0 < declared < r {
      r := declared;
    }
    var widest := Widest(rules, _ => true);
    if widest > r {
      r := widest;
    }
  }

  // ----- the budget -----

  function Clamp(limit: int, want: int): int {
    if want < 0 then 0 else if want > limit then limit else want
  }

  function Released(limit: int, used: int, want: int): int {
    if used - Clamp(limit, want) < 0 then 0 else used - Clamp(limit, want)
  }

  class Budget {
    const limit: int
    var used: int

    constructor (limit: int)
      ensures this.limit == limit && used == 0
    {
      this.limit, used := limit, 0;
    }

    /** One look at the budget under the lock; a caller that is not admitted waits and looks again, or gives up. */
    method Acquire(want: int) returns (ok: bool)
      modifies this
      ensures ok <==> old(used) + Clamp(limit, want) <= limit
      ensures used == if ok then old(used) + Clamp(limit, want) else old(used)
    {
      var bytes := Clamp(limit, want);
      ok := used + bytes <= limit;
      if ok {
        used := used + bytes;
      }
    }

    method Release(want: int)
      modifies this
      ensures used == Released(limit, old(used), want)
    {
      used := used - Clamp(limit, want);
      if used < 0 {
        used := 0;
      }
    }
  }

  /**
   * Giving a reservation back in two parts returns what was taken, exactly when it was not clamped or nothing was kept:
   * this is why every reservation has to fit the budget.
   */
  lemma TwoPartReleaseExact(limit: int, reserved: int, kept: int)
    requires 0 < limit && 0 <= kept < reserved
    ensures Clamp(limit, reserved - kept) + Clamp(limit, kept) == Clamp(limit, reserved) <==>
            reserved <= limit || kept == 0
  {
  }

  // ----- one exchange -----

  datatype Phase = Admission | Preparing | RoundTrip | ResponseAdmission | Responding | Unwinding | Done

  /** The handler's locals: what it holds for the request leg, and for the response leg. */
  datatype Exchange = Exchange(phase: Phase, slotHeld: bool, reserved: int, responseHeld: bool, responseReserved: int)

  /** The bytes this exchange has taken and still owes. */
  function Outstanding(e: Exchange): int {
    (if e.slotHeld && e.phase != Admission && e.phase != Done then e.reserved else 0)
    + (if e.responseHeld then e.responseReserved else 0)
  }

  /** How a release changes the counter: as written, or with plain subtraction. */
  function GiveBack(exact: bool, used: int, want: int): int {
    if exact then used - want else Released(LIMIT, used, want)
  }

  function Take(exact: bool, want: int): int {
    if exact then want else Clamp(LIMIT, want)
  }

  predicate Fits(used: int, want: int) {
    used + Clamp(LIMIT, want) <= LIMIT
  }

  function Admitted(exact: bool, used: int, e: Exchange): (int, Exchange) {
    (used + Take(exact, e.reserved), e.(phase := Preparing))
  }

  function ResponseAdmitted(exact: bool, used: int, e: Exchange): (int, Exchange) {
    (used + Take(exact, e.responseReserved), e.(phase := Responding, responseHeld := true))
  }

  /** After preparation: an unused slot goes back, an oversized one shrinks to what the buffer holds. */
  function Prepared(exact: bool, used: int, e: Exchange, retained: bool, bytes: int): (int, Exchange) {
    var next := e.(phase := RoundTrip);
    if e.slotHeld && !retained then (GiveBack(exact, used, e.reserved), next.(slotHeld := false))
    else if e.slotHeld && bytes < e.reserved then (GiveBack(exact, used, e.reserved - bytes), next.(reserved := bytes))
    else (used, next)
  }

  /** One deferred release, last registered first; the handler is gone after the last. */
  function Unwound(exact: bool, used: int, e: Exchange): (int, Exchange) {
    if e.responseHeld then (GiveBack(exact, used, e.responseReserved), e.(phase := Unwinding, responseHeld := false))
    else if e.slotHeld then (GiveBack(exact, used, e.reserved), e.(phase := Done))
    else (used, e.(phase := Done))
  }

  class Handler {
    const budget: Budget
    var phase: Phase
    var bodySlotHeld: bool
    var bodyReserved: int
    var responseSlotHeld: bool
    var responseReserved: int

    function View(): Exchange
      reads this
    {
      Exchange(phase, bodySlotHeld, bodyReserved, responseSlotHeld, responseReserved)
    }

    constructor (budget: Budget, needsSlot: bool, declared: int, rules: seq<ScriptRule>)
      ensures this.budget == budget && bodySlotHeld == needsSlot && !responseSlotHeld
      ensures phase == if needsSlot then Admission else Preparing
      ensures CoversRequest(declared, rules, bodyReserved) && bodyReserved > 0 &&
              (ValidRules(rules) ==> bodyReserved <= MAX_BODY)
    {
      this.budget, bodySlotHeld, responseSlotHeld, responseReserved := budget, needsSlot, false, 0;
      phase := if needsSlot then Admission else Preparing;
      var r := RequestReservation(declared, rules);
      bodyReserved := r;
    }

    /** One look at the budget; a caller that gives up returns before anything is registered for release. */
    method Admit(gaveUp: bool)
      requires phase == Admission && budget.limit == LIMIT
      modifies this, budget
      ensures (budget.used, View()) ==
              if Fits(old(budget.used), old(bodyReserved)) then Admitted(false, old(budget.used), old(View()))
              else (old(budget.used), old(View()).(phase := if gaveUp then Done else Admission))
    {
      var ok := budget.Acquire(bodyReserved);
      phase := if ok then Preparing else if gaveUp then Done else Admission;
    }

    method AfterPreparation(retained: bool, bytes: int)
      requires phase == Preparing && budget.limit == LIMIT
      modifies this, budget
      ensures (budget.used, View()) == Prepared(false, old(budget.used), old(View()), retained, bytes)
    {
      if bodySlotHeld && !retained {
        budget.Release(bodyReserved);
        bodySlotHeld := false;
      } else if bodySlotHeld && bytes < bodyReserved {
        budget.Release(bodyReserved - bytes);
        bodyReserved := bytes;
      }
      phase := RoundTrip;
    }

    method BeginResponse(declared: int, rules: seq<ScriptRule>)
      requires phase == RoundTrip
      modifies this
      ensures View() == old(View()).(phase := ResponseAdmission, responseReserved := responseReserved)
      ensures CoversResponse(declared, rules, responseReserved) && responseReserved > 0
      ensures ValidRules(rules) ==> responseReserved <= MAX_BODY
    {
      responseReserved := ResponseReservation(declared, rules);
      phase := ResponseAdmission;
    }

    /** Taken on top of whatever the request leg still holds. */
    method AdmitResponse()
      requires phase == ResponseAdmission && budget.limit == LIMIT
      modifies this, budget
      ensures (budget.used, View()) ==
              if Fits(old(budget.used), old(responseReserved)) then
                  ResponseAdmitted(false, old(budget.used), old(View()))
              else (old(budget.used), old(View()))
    {
      var ok := budget.Acquire(responseReserved);
      if ok {
        responseSlotHeld := true;
        phase := Responding;
      }
    }

    /** Early return, error and panic alike run the deferred releases. */
    method RunDeferred()
      requires budget.limit == LIMIT
      modifies this, budget
      ensures (budget.used, View()) == Unwound(false, old(budget.used), old(View()))
    {
      if responseSlotHeld {
        budget.Release(responseReserved);
        responseSlotHeld := false;
        phase := Unwinding;
      } else {
        if bodySlotHeld {
          budget.Release(bodyReserved);
        }
        phase := Done;
      }
    }
  }

  // ----- all exchanges at once -----

  datatype State = State(used: int, exchanges: seq<Exchange>)

  /** One atomic section of one exchange, with whatever the network and the actions made of it. */
  datatype Action =
    | Arrive(needsSlot: bool, reserved: int)
    | Admit(i: nat)
    | GiveUp(i: nat)
    | Prepare(i: nat, retained: bool, bytes: int)
    | Respond(i: nat, reserved: int)
    | AdmitResponse(i: nat)
    | Unwind(i: nat)

  const Idle := State(0, [])

  predicate In(s: State, i: nat, phases: set<Phase>) {
    i < |s.exchanges| && s.exchanges[i].phase in phases
  }

  /** Reservations come from RequestReservation and ResponseReservation over validated rules. */
  predicate Guard(s: State, a: Action) {
    match a
    case Arrive(_, reserved) => 0 < reserved <= MAX_BODY
    case Admit(i) => In(s, i, {Admission}) && Fits(s.used, s.exchanges[i].reserved)
    case GiveUp(i) => In(s, i, {Admission})
    case Prepare(i, _, bytes) => In(s, i, {Preparing}) && 0 <= bytes
    case Respond(i, reserved) => In(s, i, {RoundTrip}) && 0 < reserved <= MAX_BODY
    case AdmitResponse(i) => In(s, i, {ResponseAdmission}) && Fits(s.used, s.exchanges[i].responseReserved)
    case Unwind(i) => In(s, i, {Preparing, RoundTrip, ResponseAdmission, Responding, Unwinding})
  }

  function With(s: State, i: nat, r: (int, Exchange)): State
    requires i < |s.exchanges|
  {
    State(r.0, s.exchanges[i := r.1])
  }

  function StepBy(exact: bool, s: State, a: Action): State
    requires Guard(s, a)
  {
    match a
    case Arrive(needsSlot, reserved) =>
      s.(exchanges := s.exchanges +
          [Exchange(if needsSlot then Admission else Preparing, needsSlot, reserved, false, 0)])
    case Admit(i) => With(s, i, Admitted(exact, s.used, s.exchanges[i]))
    case GiveUp(i) => With(s, i, (s.used, s.exchanges[i].(phase := Done)))
    case Prepare(i, retained, bytes) => With(s, i, Prepared(exact, s.used, s.exchanges[i], retained, bytes))
    case Respond(i, reserved) =>
      With(s, i, (s.used, s.exchanges[i].(phase := ResponseAdmission, responseReserved := reserved)))
    case AdmitResponse(i) => With(s, i, ResponseAdmitted(exact, s.used, s.exchanges[i]))
    case Unwind(i) => With(s, i, Unwound(exact, s.used, s.exchanges[i]))
  }

  /** As the code does it. */
  function Step(s: State, a: Action): State {
    if Guard(s, a) then StepBy(false, s, a) else s
  }

  function Total(es: seq<Exchange>, n: nat): int
    requires n <= |es|
  {
    if n == 0 then 0 else Total(es, n - 1) + Outstanding(es[n - 1])
  }

  predicate Sound(e: Exchange) {
    && 0 <= e.reserved <= MAX_BODY && 0 <= e.responseReserved <= MAX_BODY
    && (e.responseHeld ==> e.phase == Responding) && (e.phase == Admission ==> e.slotHeld)
  }

  ghost predicate Inv(s: State) {
    && s.used == Total(s.exchanges, |s.exchanges|)
    && 0 <= s.used <= LIMIT
    && forall i :: 0 <= i < |s.exchanges| ==> Sound(s.exchanges[i])
  }

  lemma {:induction false} TotalUpdate(es: seq<Exchange>, i: nat, e: Exchange, n: nat)
    requires i < |es| && n <= |es|
    ensures Total(es[i := e], n) == Total(es, n) + if i < n then Outstanding(e) - Outstanding(es[i]) else 0
  {
    if n > 0 {
      TotalUpdate(es, i, e, n - 1);
    }
  }

  lemma {:induction false} TotalPrefix(es: seq<Exchange>, e: Exchange, n: nat)
    requires n <= |es|
    ensures Total(es + [e], n) == Total(es, n)
  {
    if n > 0 {
      TotalPrefix(es, e, n - 1);
    }
  }

  /** No exchange owes more than is in use. */
  lemma {:induction false} TotalCovers(es: seq<Exchange>, n: nat)
    requires n <= |es| && forall i :: 0 <= i < n ==> Sound(es[i])
    ensures forall i :: 0 <= i < n ==> 0 <= Outstanding(es[i]) <= Total(es, n)
    ensures 0 <= Total(es, n)
  {
    if n > 0 {
      TotalCovers(es, n - 1);
    }
  }

  /** What an exchange owes after each of its sections. */
  lemma OwedAfter(s: State, a: Action)
    requires Inv(s) && Guard(s, a)
    ensures var t := StepBy(false, s, a);
            match a
            case Arrive(needsSlot, _) => Outstanding(t.exchanges[|s.exchanges|]) == 0
            case Admit(i) => Outstanding(t.exchanges[i]) == s.exchanges[i].reserved
            case GiveUp(i) => Outstanding(t.exchanges[i]) == 0
            case Prepare(i, retained, bytes) =>
              var reserved := s.exchanges[i].reserved;
              Outstanding(t.exchanges[i]) ==
              if !s.exchanges[i].slotHeld || !retained then 0 else if bytes < reserved then bytes else reserved
            case Respond(i, _) => Outstanding(t.exchanges[i]) == Outstanding(s.exchanges[i])
            case AdmitResponse(i) =>
              Outstanding(t.exchanges[i]) == Outstanding(s.exchanges[i]) + s.exchanges[i].responseReserved
            case Unwind(i) =>
              Outstanding(t.exchanges[i]) ==
              if s.exchanges[i].responseHeld && s.exchanges[i].slotHeld then s.exchanges[i].reserved else 0
  {
    assert !a.Arrive? ==> Sound(s.exchanges[a.i]);
  }

  /** In a sound state no clamp fires: every atomic section is plain addition or subtraction. */
  lemma NoClampFires(s: State, a: Action)
    requires Inv(s) && Guard(s, a)
    ensures StepBy(false, s, a) == StepBy(true, s, a)
  {
    TotalCovers(s.exchanges, |s.exchanges|);
  }

  /** One exchange's atomic section moves the counter by exactly the change in what it owes. */
  lemma OneExchangeBalances(s: State, a: Action, i: nat)
    requires Inv(s) && Guard(s, a) && !a.Arrive? && a.i == i
    ensures var t := StepBy(true, s, a);
            && |t.exchanges| == |s.exchanges| && t.exchanges == s.exchanges[i := t.exchanges[i]]
            && t.used - s.used == Outstanding(t.exchanges[i]) - Outstanding(s.exchanges[i])
            && Sound(t.exchanges[i])
  {
  }

  lemma StepKeepsInv(s: State, a: Action)
    requires Inv(s) && Guard(s, a)
    ensures Inv(Step(s, a))
  {
    NoClampFires(s, a);
    var t := StepBy(true, s, a);
    if a.Arrive? {
      TotalPrefix(s.exchanges, t.exchanges[|s.exchanges|], |s.exchanges|);
    } else {
      OneExchangeBalances(s, a, a.i);
      TotalUpdate(s.exchanges, a.i, t.exchanges[a.i], |s.exchanges|);
      TotalCovers(t.exchanges, |t.exchanges|);
      TotalCovers(s.exchanges, |s.exchanges|);
    }
  }

  /**
   * Over any interleaving of any number of exchanges, the counter is the sum of what is outstanding, stays between
   * zero and the limit, and every atomic section changes it by exactly what it takes or gives back.
   */
  lemma EveryRunConserves(run: seq<Action>, n: nat)
    requires n <= |run| && Runs.Enabled(Guard, Step, Idle, run)
    ensures Inv(Runs.After(Step, Idle, run, n))
    ensures n < |run| ==> Runs.After(Step, Idle, run, n + 1) == StepBy(true, Runs.After(Step, Idle, run, n), run[n])
  {
    forall s, a | Inv(s) && Guard(s, a)
      ensures Inv(Step(s, a))
    {
      StepKeepsInv(s, a);
    }
    Runs.Kept(Guard, Step, s => Inv(s), Idle, run, n);
    if n < |run| {
      var s := Runs.After(Step, Idle, run, n);
      assert Guard(s, run[n]);
      NoClampFires(s, run[n]);
    }
  }

  lemma {:induction false} NothingOwed(es: seq<Exchange>, n: nat)
    requires n <= |es| && forall i :: 0 <= i < n ==> es[i].phase in {Admission, Done} && !es[i].responseHeld
    ensures Total(es, n) == 0
  {
    if n > 0 {
      NothingOwed(es, n - 1);
    }
  }

  /** Once every exchange has returned, by whatever exit, the whole budget is free again. */
  lemma AllReturnedFreesAll(run: seq<Action>)
    requires Runs.Enabled(Guard, Step, Idle, run)
    requires forall e <- Runs.After(Step, Idle, run, |run|).exchanges :: e.phase == Done
    ensures Runs.After(Step, Idle, run, |run|).used == 0
  {
    EveryRunConserves(run, |run|);
    var s := Runs.After(Step, Idle, run, |run|);
    forall i | 0 <= i < |s.exchanges|
      ensures s.exchanges[i].phase == Done && !s.exchanges[i].responseHeld
    {
      assert s.exchanges[i] in s.exchanges;
      assert Sound(s.exchanges[i]);
    }
    NothingOwed(s.exchanges, |s.exchanges|);
  }

  /** No exchange can be stuck holding bytes: one that owes any is always able to give them back. */
  lemma WhoeverOwesCanReturn(run: seq<Action>, n: nat, i: nat)
    requires n <= |run| && Runs.Enabled(Guard, Step, Idle, run)
    requires i < |Runs.After(Step, Idle, run, n).exchanges| &&
             Outstanding(Runs.After(Step, Idle, run, n).exchanges[i]) > 0
    ensures var s := Runs.After(Step, Idle, run, n);
            && Guard(s, Unwind(i))
            && (var t := Step(s, Unwind(i));
                Outstanding(t.exchanges[i]) == 0 ||
                    (Guard(t, Unwind(i)) && Outstanding(Step(t, Unwind(i)).exchanges[i]) == 0))
  {
    EveryRunConserves(run, n);
    var s := Runs.After(Step, Idle, run, n);
    assert Sound(s.exchanges[i]);
    StepKeepsInv(s, Unwind(i));
  }
}

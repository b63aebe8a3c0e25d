/**
 * The upstream transport pool: reference-counted generations of pooled connections, retired under the
 * lock and closed outside it, kept across configuration changes while the fingerprint of what they are
 * authorized for stays the same.
 */
module TransportPool {
  import opened Outcomes
  import opened ConfigStore
  import Runs

  /** What a snapshot's fingerprint digests; SHA-256 is taken to be injective. */
  type Fingerprinter = Snapshot -> seq<int>

  /** The configuration snapshot one request runs under. */
  datatype Request = Request(number: nat, snapshot: Snapshot)

  /** Pooled transports; `basis` is the snapshot whose projection they were built from. */
  datatype Generation = Generation(number: nat, basis: Snapshot, refs: nat, retired: bool, closed: bool)

  /** One caller's reference to a generation, given back at most once. */
  datatype Handle = Handle(gen: nat, request: Request, released: bool)

  datatype Pool = Pool(
    gens: seq<Generation>,
    upstream: Option<nat>,
    handles: seq<Handle>,
    closing: set<nat>)         // closes decided under the lock and not yet run

  datatype Action =
    | Acquire(request: Request)
    | Release(handle: nat)
    | Shutdown
    | RunClose(gen: nat)

  const Empty := Pool([], None, [], {})

  // ----- the atomic sections -----

  function WithHandle(p: Pool, g: nat, request: Request): Pool
    requires g < |p.gens|
  {
    p.(gens := p.gens[g := p.gens[g].(refs := p.gens[g].refs + 1)], handles := p.handles + [Handle(g, request, false)])
  }

  function WithNew(p: Pool, request: Request, retired: bool): Pool {
    p.(gens := p.gens + [Generation(request.number, request.snapshot, 0, retired, false)])
  }

  /** The published generation leaves service; it is closed at once when nobody holds it. */
  function Retire(p: Pool): Pool {
    if p.upstream.None? || p.upstream.value >= |p.gens| then p.(upstream := None)
    else
      var u := p.upstream.value;
      p.(upstream := None, gens := p.gens[u := p.gens[u].(retired := true)],
         closing := if p.gens[u].refs == 0 then p.closing + {u} else p.closing)
  }

  predicate Carries(p: Pool, request: Request, fingerprint: Fingerprinter) {
    p.upstream.Some? && p.upstream.value < |p.gens| &&
        fingerprint(request.snapshot) == fingerprint(p.gens[p.upstream.value].basis)
  }

  function Acquired(p: Pool, request: Request, fingerprint: Fingerprinter): Pool {
    if request.number == 0 then
      WithHandle(WithNew(p, request, true), |p.gens|, request)
    else if p.upstream.None? || p.upstream.value >= |p.gens| || request.number > p.gens[p.upstream.value].number then
      if Carries(p, request, fingerprint) then
        var u := p.upstream.value;
        WithHandle(p.(gens := p.gens[u := p.gens[u].(number := request.number)]), u, request)
      else
        WithHandle(WithNew(Retire(p), request, false).(upstream := Some(|p.gens|)), |p.gens|, request)
    else if request.number < p.gens[p.upstream.value].number then
      WithHandle(WithNew(p, request, true), |p.gens|, request)
    else
      WithHandle(p, p.upstream.value, request)
  }

  function Released(p: Pool, h: nat): Pool {
    if h >= |p.handles| || p.handles[h].released || p.handles[h].gen >= |p.gens| then p
    else
      var g := p.handles[h].gen;
      var refs := if p.gens[g].refs > 0 then p.gens[g].refs - 1 else 0;
      p.(gens := p.gens[g := p.gens[g].(refs := refs)],
         handles := p.handles[h := p.handles[h].(released := true)],
         closing := if p.gens[g].retired && refs == 0 then p.closing + {g} else p.closing)
  }

  function Closed(p: Pool, g: nat): Pool {
    if g >= |p.gens| then p else p.(gens := p.gens[g := p.gens[g].(closed := true)], closing := p.closing - {g})
  }

  function Step(p: Pool, a: Action, fingerprint: Fingerprinter): Pool {
    match a
    case Acquire(request) => Acquired(p, request, fingerprint)
    case Release(h) => Released(p, h)
    case Shutdown => Retire(p)
    case RunClose(g) => Closed(p, g)
  }

  function Stepper(fingerprint: Fingerprinter): (Pool, Action) -> Pool {
    (p, a) => Step(p, a, fingerprint)
  }

  /** Requests carry the snapshot their number was issued for; only decided closes run. */
  function Guard(issued: map<nat, Snapshot>): (Pool, Action) -> bool {
    (p: Pool, a: Action) =>
      && (a.Acquire? && a.request.number != 0 ==>
         a.request.number in issued && issued[a.request.number] == a.request.snapshot)
      && (a.RunClose? ==> a.gen in p.closing)
  }

  class Pooled {
    const fingerprint: Fingerprinter
    var gens: seq<Generation>
    var upstream: Option<nat>
    var handles: seq<Handle>
    var closing: set<nat>

    ghost function State(): Pool
      reads this
    {
      Pool(gens, upstream, handles, closing)
    }

    ghost predicate Valid()
      reads this
    {
      upstream.Some? ==> upstream.value < |gens|
    }

    constructor (fingerprinter: Fingerprinter)
      ensures Valid() && State() == Empty && fingerprint == fingerprinter
    {
      fingerprint, gens, upstream, handles, closing := fingerprinter, [], None, [], {};
    }

    /** The section of acquireUpstreamTransportGeneration that runs under the lock. */
    method Acquire(request: Request) returns (handle: nat)
      requires Valid()
      modifies this
      ensures Valid() && State() == Acquired(old(State()), request, fingerprint)
      ensures handle == |old(handles)| == |handles| - 1 && handles[handle].request == request &&
              !handles[handle].released
    {
      var made := Generation(request.number, request.snapshot, 0, false, false);
      var g;
      if request.number == 0 {
        g := |gens|;
        gens := gens + [made.(retired := true)];
      } else if upstream.None? || request.number > gens[upstream.value].number {
        if upstream.Some? && fingerprint(request.snapshot) == fingerprint(gens[upstream.value].basis) {
          g := upstream.value;
          gens := gens[g := gens[g].(number := request.number)];
        } else {
          var previous := upstream;
          g := |gens|;
          gens := gens + [made];
          upstream := Some(g);
          if previous.Some? {
            var u := previous.value;
            gens := gens[u := gens[u].(retired := true)];
            if gens[u].refs == 0 {
              closing := closing + {u};
            }
          }
        }
      } else if request.number < gens[upstream.value].number {
        g := |gens|;
        gens := gens + [made.(retired := true)];
      } else {
        g := upstream.value;
      }
      gens := gens[g := gens[g].(refs := gens[g].refs + 1)];
      handle := |handles|;
      handles := handles + [Handle(g, request, false)];
    }

    /** The release function handed out with a generation; it acts once. */
    method Release(h: nat)
      requires Valid() && h < |handles| && handles[h].gen < |gens|
      modifies this
      ensures Valid() && State() == Released(old(State()), h)
    {
      if handles[h].released {
        return;
      }
      handles := handles[h := handles[h].(released := true)];
      var g := handles[h].gen;
      if gens[g].refs > 0 {
        gens := gens[g := gens[g].(refs := gens[g].refs - 1)];
      }
      if gens[g].retired && gens[g].refs == 0 {
        closing := closing + {g};
      }
    }

    method CloseUpstreamTransports()
      requires Valid()
      modifies this
      ensures Valid() && State() == Retire(old(State()))
    {
      if upstream.Some? {
        var u := upstream.value;
        gens := gens[u := gens[u].(retired := true)];
        if gens[u].refs == 0 {
          closing := closing + {u};
        }
        upstream := None;
      }
    }

    /** close(), run by whichever goroutine decided it, after the lock is gone. */
    method Close(g: nat)
      requires Valid() && g < |gens|
      modifies this
      ensures Valid() && State() == Closed(old(State()), g)
    {
      gens := gens[g := gens[g].(closed := true)];
      closing := closing - {g};
    }
  }

  // ----- what every interleaving keeps -----

  /** How many handles on `g` have not been given back. */
  function Held(handles: seq<Handle>, g: nat): nat {
    if handles == [] then 0
    else Held(handles[..|handles| - 1], g) + if handles[|handles| - 1].gen == g && !handles[|handles| - 1].released then
        1 else 0
  }

  lemma HeldAppend(handles: seq<Handle>, h: Handle, g: nat)
    ensures Held(handles + [h], g) == Held(handles, g) + if h.gen == g && !h.released then 1 else 0
  {
    assert (handles + [h])[..|handles|] == handles;
  }

  lemma {:induction false} HeldRelease(handles: seq<Handle>, h: nat, g: nat)
    requires h < |handles| && !handles[h].released
    ensures Held(handles[h := handles[h].(released := true)], g) == Held(handles, g) - if handles[h].gen == g then 1
            else 0
  {
    var n := |handles| - 1;
    var after := handles[h := handles[h].(released := true)];
    if h == n {
      assert after[..n] == handles[..n];
    } else {
      HeldRelease(handles[..n], h, g);
      assert after[..n] == handles[..n][h := handles[h].(released := true)];
    }
  }

  lemma {:induction false} HeldPositive(handles: seq<Handle>, h: nat)
    requires h < |handles| && !handles[h].released
    ensures Held(handles, handles[h].gen) > 0
  {
    var n := |handles| - 1;
    if h < n {
      HeldPositive(handles[..n], h);
    }
  }

  lemma {:induction false} HeldNowhere(handles: seq<Handle>, g: nat)
    requires forall h :: 0 <= h < |handles| ==> handles[h].gen != g
    ensures Held(handles, g) == 0
  {
    if handles != [] {
      HeldNowhere(handles[..|handles| - 1], g);
    }
  }

  /** Reference counting, retirement and closing. */
  predicate LifetimeInv(p: Pool) {
    && (forall h :: 0 <= h < |p.handles| ==> p.handles[h].gen < |p.gens|)
    && (forall g :: 0 <= g < |p.gens| ==> p.gens[g].refs == Held(p.handles, g))
    && (p.upstream.Some? ==> p.upstream.value < |p.gens|)
    && (forall g :: 0 <= g < |p.gens| ==> (p.gens[g].retired <==> p.upstream != Some(g)))
    && (forall g :: g in p.closing ==> 0 <= g < |p.gens|)
    && (forall g :: 0 <= g < |p.gens| ==>
       (p.gens[g].closed || g in p.closing <==> p.gens[g].retired && p.gens[g].refs == 0))
  }

  /** Every handle's transport carries the fingerprint of the handle's own snapshot. */
  predicate AuthorizationInv(p: Pool, issued: map<nat, Snapshot>, fingerprint: Fingerprinter) {
    && (forall h :: 0 <= h < |p.handles| ==>
       p.handles[h].gen < |p.gens| &&
           fingerprint(p.gens[p.handles[h].gen].basis) == fingerprint(p.handles[h].request.snapshot))
    && (p.upstream.None?
        || (p.upstream.value < |p.gens| && p.gens[p.upstream.value].number in issued
            && fingerprint(p.gens[p.upstream.value].basis) == fingerprint(issued[p.gens[p.upstream.value].number])))
  }

  lemma NewKeepsLifetime(p: Pool, request: Request)
    requires LifetimeInv(p)
    ensures LifetimeInv(WithHandle(WithNew(p, request, true), |p.gens|, request))
  {
    HeldNowhere(p.handles, |p.gens|);
    forall g | 0 <= g <= |p.gens| ensures Held(p.handles + [Handle(|p.gens|, request, false)], g) ==
        Held(p.handles, g) + if g == |p.gens| then 1 else 0 {
      HeldAppend(p.handles, Handle(|p.gens|, request, false), g);
    }
  }

  lemma PublishKeepsLifetime(p: Pool, request: Request)
    requires LifetimeInv(p) && p.upstream.None?
    ensures LifetimeInv(WithHandle(WithNew(p, request, false).(upstream := Some(|p.gens|)), |p.gens|, request))
  {
    HeldNowhere(p.handles, |p.gens|);
    forall g | 0 <= g <= |p.gens| ensures Held(p.handles + [Handle(|p.gens|, request, false)], g) ==
        Held(p.handles, g) + if g == |p.gens| then 1 else 0 {
      HeldAppend(p.handles, Handle(|p.gens|, request, false), g);
    }
  }

  lemma ReuseKeepsLifetime(p: Pool, request: Request)
    requires LifetimeInv(p) && p.upstream.Some?
    ensures LifetimeInv(WithHandle(p, p.upstream.value, request))
  {
    forall g | 0 <= g < |p.gens| ensures Held(p.handles + [Handle(p.upstream.value, request, false)], g) ==
        Held(p.handles, g) + if g == p.upstream.value then 1 else 0 {
      HeldAppend(p.handles, Handle(p.upstream.value, request, false), g);
    }
  }

  lemma RetireKeepsLifetime(p: Pool)
    requires LifetimeInv(p)
    ensures LifetimeInv(Retire(p))
  {
  }

  lemma RenumberKeepsLifetime(p: Pool, number: nat)
    requires LifetimeInv(p) && p.upstream.Some?
    ensures LifetimeInv(p.(gens := p.gens[p.upstream.value := p.gens[p.upstream.value].(number := number)]))
  {
  }

  lemma ReleaseKeepsLifetime(p: Pool, h: nat)
    requires LifetimeInv(p)
    ensures LifetimeInv(Released(p, h))
  {
    if h < |p.handles| && !p.handles[h].released {
      HeldPositive(p.handles, h);
      forall g | 0 <= g < |p.gens|
        ensures Held(p.handles[h := p.handles[h].(released := true)], g) == Held(p.handles, g) - if p.handles[h].gen ==
                g then 1 else 0
      {
        HeldRelease(p.handles, h, g);
      }
    }
  }

  lemma AcquireKeepsLifetime(p: Pool, request: Request, fingerprint: Fingerprinter)
    requires LifetimeInv(p)
    ensures LifetimeInv(Acquired(p, request, fingerprint))
  {
    if request.number == 0 || (p.upstream.Some? && request.number < p.gens[p.upstream.value].number) {
      NewKeepsLifetime(p, request);
    } else if p.upstream.None? || request.number > p.gens[p.upstream.value].number {
      if Carries(p, request, fingerprint) {
        RenumberKeepsLifetime(p, request.number);
        ReuseKeepsLifetime(p.(gens := p.gens[p.upstream.value := p.gens[p.upstream.value].(number := request.number)]),
            request);
      } else {
        RetireKeepsLifetime(p);
        PublishKeepsLifetime(Retire(p), request);
      }
    } else {
      ReuseKeepsLifetime(p, request);
    }
  }

  lemma StepKeepsLifetime(p: Pool, a: Action, issued: map<nat, Snapshot>, fingerprint: Fingerprinter)
    requires LifetimeInv(p) && Guard(issued)(p, a)
    ensures LifetimeInv(Step(p, a, fingerprint))
  {
    match a
    case Acquire(request) => AcquireKeepsLifetime(p, request, fingerprint);
    case Release(h) => ReleaseKeepsLifetime(p, h);
    case Shutdown => RetireKeepsLifetime(p);
    case RunClose(g) =>
  }

  lemma StepKeepsAuthorization(p: Pool, a: Action, issued: map<nat, Snapshot>, fingerprint: Fingerprinter)
    requires AuthorizationInv(p, issued, fingerprint) && Guard(issued)(p, a)
    ensures AuthorizationInv(Step(p, a, fingerprint), issued, fingerprint)
  {
  }

  /**
   * Pool lifetime, in every interleaving of acquisitions, releases, shutdowns and late closes: reference counts
   * equal the handles not given back, the published generation is neither retired nor closed, nothing is closed
   * while held, and a retired generation nobody holds is closed or about to be.
   */
  lemma PoolLifetime(run: seq<Action>, n: nat, issued: map<nat, Snapshot>, fingerprint: Fingerprinter)
    requires n <= |run| && Runs.Enabled(Guard(issued), Stepper(fingerprint), Empty, run)
    ensures var p := Runs.After(Stepper(fingerprint), Empty, run, n);
            && LifetimeInv(p)
            && (p.upstream.Some? ==> !p.gens[p.upstream.value].retired && !p.gens[p.upstream.value].closed)
            && (forall h :: 0 <= h < |p.handles| && !p.handles[h].released ==> !p.gens[p.handles[h].gen].closed)
            && (p.closing == {} ==> forall g :: 0 <= g < |p.gens| && p.gens[g].retired && p.gens[g].refs == 0 ==>
               p.gens[g].closed)
  {
    forall p, a | LifetimeInv(p) && Guard(issued)(p, a) ensures LifetimeInv(Stepper(fingerprint)(p, a)) {
      StepKeepsLifetime(p, a, issued, fingerprint);
    }
    Runs.Kept(Guard(issued), Stepper(fingerprint), LifetimeInv, Empty, run, n);
    var p := Runs.After(Stepper(fingerprint), Empty, run, n);
    forall h | 0 <= h < |p.handles| && !p.handles[h].released ensures !p.gens[p.handles[h].gen].closed {
      HeldPositive(p.handles, h);
    }
  }

  /**
   * Pool authorization: whatever the order of old and new snapshots, a request gets transports of its own fingerprint.
   */
  lemma PoolAuthorization(run: seq<Action>, n: nat, issued: map<nat, Snapshot>, fingerprint: Fingerprinter)
    requires n <= |run| && Runs.Enabled(Guard(issued), Stepper(fingerprint), Empty, run)
    ensures AuthorizationInv(Runs.After(Stepper(fingerprint), Empty, run, n), issued, fingerprint)
  {
    var inv := (p: Pool) => AuthorizationInv(p, issued, fingerprint);
    forall p, a | inv(p) && Guard(issued)(p, a) ensures inv(Stepper(fingerprint)(p, a)) {
      StepKeepsAuthorization(p, a, issued, fingerprint);
    }
    Runs.Kept(Guard(issued), Stepper(fingerprint), inv, Empty, run, n);
  }

  // ----- who gets which transports -----

  /** The published generation may serve the request: it has its number, or an older one and the same fingerprint. */
  predicate Serves(p: Pool, request: Request, fingerprint: Fingerprinter) {
    && p.upstream.Some? && p.upstream.value < |p.gens| && request.number != 0
    && var published := p.gens[p.upstream.value];
       || request.number == published.number
       || (request.number > published.number && fingerprint(request.snapshot) == fingerprint(published.basis))
  }

  /** Why a request needs a generation of its own. */
  predicate NeedsNew(p: Pool, request: Request, fingerprint: Fingerprinter) {
    || request.number == 0 || p.upstream.None? || p.upstream.value >= |p.gens|
    || request.number < p.gens[p.upstream.value].number
    || (request.number > p.gens[p.upstream.value].number
        && fingerprint(request.snapshot) != fingerprint(p.gens[p.upstream.value].basis))
  }

  /** The request is one to publish for: numbered, and newer than what is published. */
  predicate Newest(p: Pool, request: Request) {
    request.number != 0
    && (p.upstream.None? || p.upstream.value >= |p.gens| || request.number > p.gens[p.upstream.value].number)
  }

  /** The outcome of an acquisition: what is shared, what is added, and what is published afterwards. */
  ghost predicate Hands(p: Pool, request: Request, fingerprint: Fingerprinter, q: Pool) {
    && |q.handles| == |p.handles| + 1 && q.handles[..|p.handles|] == p.handles
    && q.handles[|p.handles|].request == request && !q.handles[|p.handles|].released
    && (Serves(p, request, fingerprint) ==>
          && |q.gens| == |p.gens| && q.upstream == p.upstream && q.handles[|p.handles|].gen == p.upstream.value
          && q.gens[p.upstream.value].number == request.number
          && q.gens[p.upstream.value].basis == p.gens[p.upstream.value].basis)
    && (NeedsNew(p, request, fingerprint) ==>
          && |q.gens| == |p.gens| + 1 && q.handles[|p.handles|].gen == |p.gens|
          && q.gens[|p.gens|].number == request.number && q.gens[|p.gens|].basis == request.snapshot
          && q.upstream == if Newest(p, request) then Some(|p.gens|) else p.upstream)
    && forall g :: 0 <= g < |p.gens| && p.upstream != Some(g) ==>
         q.gens[g].number == p.gens[g].number && q.gens[g].basis == p.gens[g].basis
  }

  lemma AcquireHands(p: Pool, request: Request, fingerprint: Fingerprinter)
    requires LifetimeInv(p)
    ensures Serves(p, request, fingerprint) <==> !NeedsNew(p, request, fingerprint)
    ensures Hands(p, request, fingerprint, Acquired(p, request, fingerprint))
  {
  }

  /**
   * In any run, a request with the published number, or a newer one and the published fingerprint, shares the published
   * generation and adds none; exactly the others get one of their own, which is published when the request is the
   * newest.
   */
  lemma AcquireInAnyRun(run: seq<Action>, n: nat, issued: map<nat, Snapshot>, fingerprint: Fingerprinter)
    requires n < |run| && Runs.Enabled(Guard(issued), Stepper(fingerprint), Empty, run) && run[n].Acquire?
    ensures var p := Runs.After(Stepper(fingerprint), Empty, run, n);
            && (Serves(p, run[n].request, fingerprint) <==> !NeedsNew(p, run[n].request, fingerprint))
            && Hands(p, run[n].request, fingerprint, Runs.After(Stepper(fingerprint), Empty, run, n + 1))
  {
    PoolLifetime(run, n, issued, fingerprint);
    AcquireHands(Runs.After(Stepper(fingerprint), Empty, run, n), run[n].request, fingerprint);
  }

  // ----- handles, releases and closes are those of the run -----

  /** The requests among the first `n` actions, in order. */
  function Requests(run: seq<Action>, n: nat): seq<Request>
    requires n <= |run|
  {
    if n == 0 then []
    else if run[n - 1].Acquire? then Requests(run, n - 1) + [run[n - 1].request]
    else Requests(run, n - 1)
  }

  /** The handle of request number `h` was given back among the first `n` actions. */
  predicate GivenBack(run: seq<Action>, n: nat, h: nat)
    requires n <= |run|
  {
    exists k :: 0 <= k < n && run[k] == Release(h) && h < |Requests(run, k)|
  }

  predicate CloseRan(run: seq<Action>, n: nat, g: nat)
    requires n <= |run|
  {
    exists k :: 0 <= k < n && run[k] == RunClose(g)
  }

  ghost predicate HandlesFollow(run: seq<Action>, n: nat, p: Pool)
    requires n <= |run|
  {
    && |p.handles| == |Requests(run, n)|
    && forall h :: 0 <= h < |p.handles| ==>
         p.handles[h].request == Requests(run, n)[h] && (p.handles[h].released <==> GivenBack(run, n, h))
  }

  ghost predicate ClosesFollow(run: seq<Action>, n: nat, p: Pool)
    requires n <= |run|
  {
    && (forall g :: 0 <= g < |p.gens| ==> (p.gens[g].closed <==> CloseRan(run, n, g)))
    && (forall g: nat :: CloseRan(run, n, g) ==> g < |p.gens|)
  }

  lemma {:induction false} GivenBackOnlyOpen(run: seq<Action>, n: nat, h: nat)
    requires n <= |run| && GivenBack(run, n, h)
    ensures h < |Requests(run, n)|
  {
    var k :| 0 <= k < n && run[k] == Release(h) && h < |Requests(run, k)|;
    RequestsGrow(run, k, n);
  }

  lemma {:induction false} RequestsGrow(run: seq<Action>, k: nat, n: nat)
    requires k <= n <= |run|
    ensures |Requests(run, k)| <= |Requests(run, n)|
  {
    if k < n {
      RequestsGrow(run, k, n - 1);
    }
  }

  lemma HandlesStep(run: seq<Action>, n: nat, p: Pool, fingerprint: Fingerprinter)
    requires n < |run| && LifetimeInv(p) && HandlesFollow(run, n, p)
    ensures HandlesFollow(run, n + 1, Step(p, run[n], fingerprint))
  {
    var q := Step(p, run[n], fingerprint);
    if run[n].Acquire? {
      AcquireHands(p, run[n].request, fingerprint);
    }
    forall h: nat | h < |q.handles|
      ensures q.handles[h].request == Requests(run, n + 1)[h] && (q.handles[h].released <==> GivenBack(run, n + 1, h))
    {
      assert GivenBack(run, n + 1, h) <==> GivenBack(run, n, h) || (run[n] == Release(h) && h < |Requests(run, n)|);
      if h < |p.handles| {
        assert q.handles[h].request == p.handles[h].request;
      } else if GivenBack(run, n, h) {
        GivenBackOnlyOpen(run, n, h);
      }
    }
  }

  lemma ClosesStep(run: seq<Action>, n: nat, p: Pool, issued: map<nat, Snapshot>, fingerprint: Fingerprinter)
    requires n < |run| && LifetimeInv(p) && ClosesFollow(run, n, p) && Guard(issued)(p, run[n])
    ensures ClosesFollow(run, n + 1, Step(p, run[n], fingerprint))
  {
    CloseRanStep(run, n);
  }

  lemma CloseRanStep(run: seq<Action>, n: nat)
    requires n < |run|
    ensures forall g: nat :: CloseRan(run, n + 1, g) <==> CloseRan(run, n, g) || run[n] == RunClose(g)
  {
  }

  /**
   * In any run the handles are the requests made, in order, and one counts as given back exactly when it was released.
   */
  lemma RunDecidesHandles(run: seq<Action>, n: nat, issued: map<nat, Snapshot>, fingerprint: Fingerprinter)
    requires n <= |run| && Runs.Enabled(Guard(issued), Stepper(fingerprint), Empty, run)
    ensures HandlesFollow(run, n, Runs.After(Stepper(fingerprint), Empty, run, n))
  {
    var guard, step := Guard(issued), Stepper(fingerprint);
    var follows := (k: nat, p: Pool) => k <= |run| && HandlesFollow(run, k, p);
    forall p, a | LifetimeInv(p) && guard(p, a) ensures LifetimeInv(step(p, a)) {
      StepKeepsLifetime(p, a, issued, fingerprint);
    }
    forall k: nat, p | k < |run| && LifetimeInv(p) && guard(p, run[k]) &&
        follows(k, p) ensures follows(k + 1, step(p, run[k])) {
      HandlesStep(run, k, p, fingerprint);
    }
    Runs.FollowsRun(guard, step, LifetimeInv, follows, Empty, run, n);
  }

  /** A generation is closed exactly when its close ran. With PoolLifetime, every count and every close is the run's. */
  lemma RunDecidesCloses(run: seq<Action>, n: nat, issued: map<nat, Snapshot>, fingerprint: Fingerprinter)
    requires n <= |run| && Runs.Enabled(Guard(issued), Stepper(fingerprint), Empty, run)
    ensures ClosesFollow(run, n, Runs.After(Stepper(fingerprint), Empty, run, n))
  {
    var guard, step := Guard(issued), Stepper(fingerprint);
    var follows := (k: nat, p: Pool) => k <= |run| && ClosesFollow(run, k, p);
    forall p, a | LifetimeInv(p) && guard(p, a) ensures LifetimeInv(step(p, a)) {
      StepKeepsLifetime(p, a, issued, fingerprint);
    }
    forall k: nat, p | k < |run| && LifetimeInv(p) && guard(p, run[k]) &&
        follows(k, p) ensures follows(k + 1, step(p, run[k])) {
      ClosesStep(run, k, p, issued, fingerprint);
    }
    Runs.FollowsRun(guard, step, LifetimeInv, follows, Empty, run, n);
  }

  /** Only an acquisition publishes, and a shutdown leaves nothing published. */
  lemma PublishedByAcquireOnly(p: Pool, a: Action, fingerprint: Fingerprinter)
    ensures a.Shutdown? ==> Step(p, a, fingerprint).upstream == None
    ensures a.Release? || a.RunClose? ==> Step(p, a, fingerprint).upstream == p.upstream
    ensures !a.Acquire? ==> |Step(p, a, fingerprint).gens| == |p.gens|
  {
  }
}

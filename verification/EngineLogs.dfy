/**
 * The engine log hub: a fixed ring of payloads, a cursor and a one-token wake channel per subscriber.
 *
 * Every atomic section is one action; a subscription's Next is split at the point where it lets go of the mutex
 * and waits. Each subscription has one consumer, as in serveEngineLogWebSocket. Sending on a closed channel, or
 * closing one twice, would panic and is recorded as such.
 */
module EngineLogs {
  import opened Outcomes
  import Runs

  type Payload = seq<bv8>

  const RING_CAPACITY := 1000

  /** One payload handed to a subscriber. */
  datatype Delivery = Delivery(sequence: nat, payload: Payload)

  datatype Subscription = Subscription(
    cursor: nat,
    token: bool,          // the wake channel's buffer
    wakeClosed: bool,
    closed: bool,
    waiting: bool,        // inside Next, past the check, blocked on the wake channel
    start: nat,
    received: seq<Delivery>)

  datatype Hub = Hub(
    ring: seq<Payload>,
    next: nat,
    closed: bool,
    readers: set<nat>,
    subscribers: int,
    subs: seq<Subscription>,
    published: seq<Payload>,
    panicked: bool)

  datatype Action =
    | Publish(payload: Payload)   // the second section: the payload has been normalised and encoded
    | Subscribe
    | Check(sub: nat)             // Next, under the mutex
    | Wake(sub: nat)              // Next, receiving from the wake channel
    | GiveUp(sub: nat)            // Next, its context ended
    | CloseSub(sub: nat)
    | CloseHub

  function Fresh(capacity: nat): Hub
    requires capacity > 0
  {
    Hub(seq(capacity, _ => []), 0, false, {}, 0, [], [], false)
  }

  function Oldest(h: Hub): nat {
    if h.next > |h.ring| then h.next - |h.ring| else 0
  }

  // ----- the atomic sections -----

  function Nudge(s: Subscription): Subscription {
    if s.wakeClosed then s else s.(token := true)
  }

  function Nudged(subs: seq<Subscription>, readers: set<nat>): seq<Subscription> {
    seq(|subs|, k requires 0 <= k < |subs| => if k in readers then Nudge(subs[k]) else subs[k])
  }

  predicate AnyClosed(subs: seq<Subscription>, readers: set<nat>) {
    exists k :: 0 <= k < |subs| && k in readers && subs[k].wakeClosed
  }

  function AfterPublish(h: Hub, payload: Payload): Hub {
    if h.closed || |h.ring| == 0 then h
    else h.(ring := h.ring[h.next % |h.ring| := payload], next := h.next + 1, published := h.published + [payload],
            subs := Nudged(h.subs, h.readers), panicked := h.panicked || AnyClosed(h.subs, h.readers))
  }

  function AfterSubscribe(h: Hub): Hub {
    if h.closed then h
    else h.(subs := h.subs + [Subscription(h.next, false, false, false, false, h.next, [])],
            readers := h.readers + {|h.subs|}, subscribers := h.subscribers + 1)
  }

  function Delivered(h: Hub, s: Subscription): Subscription
    requires |h.ring| > 0
  {
    var cursor := if s.cursor < Oldest(h) then Oldest(h) else s.cursor;
    if cursor < h.next then
        s.(cursor := cursor + 1, received := s.received + [Delivery(cursor, h.ring[cursor % |h.ring|])])
    else s.(cursor := cursor, waiting := true)
  }

  function AfterCheck(h: Hub, k: nat): Hub {
    if k >= |h.subs| || h.subs[k].closed || h.closed || |h.ring| == 0 then h
    else h.(subs := h.subs[k := Delivered(h, h.subs[k])])
  }

  function AfterWake(h: Hub, k: nat): Hub {
    if k >= |h.subs| then h else h.(subs := h.subs[k := h.subs[k].(token := false, waiting := false)])
  }

  function AfterGiveUp(h: Hub, k: nat): Hub {
    if k >= |h.subs| then h else h.(subs := h.subs[k := h.subs[k].(waiting := false)])
  }

  function AfterCloseSub(h: Hub, k: nat): Hub {
    if k >= |h.subs| || h.subs[k].closed then h
    else h.(subs := h.subs[k := h.subs[k].(closed := true, wakeClosed := true)], readers := h.readers - {k},
            subscribers := h.subscribers - 1, panicked := h.panicked || h.subs[k].wakeClosed)
  }

  function Shut(subs: seq<Subscription>, readers: set<nat>): seq<Subscription> {
    seq(|subs|, k requires 0 <= k < |subs| => if k in readers then subs[k].(closed := true, wakeClosed := true)
        else subs[k])
  }

  function AfterCloseHub(h: Hub): Hub {
    if h.closed then h
    else h.(closed := true, subs := Shut(h.subs, h.readers), readers := {}, subscribers := 0,
            panicked := h.panicked || AnyClosed(h.subs, h.readers))
  }

  /** When each section can run: a consumer checks when it is not waiting, and wakes when the channel has something. */
  predicate Guard(h: Hub, a: Action) {
    match a
    case Publish(_) => true
    case Subscribe => true
    case Check(k) => k < |h.subs| && !h.subs[k].waiting
    case Wake(k) => k < |h.subs| && h.subs[k].waiting && (h.subs[k].token || h.subs[k].wakeClosed)
    case GiveUp(k) => k < |h.subs| && h.subs[k].waiting
    case CloseSub(k) => k < |h.subs|
    case CloseHub => true
  }

  function Step(h: Hub, a: Action): Hub {
    match a
    case Publish(payload) => AfterPublish(h, payload)
    case Subscribe => AfterSubscribe(h)
    case Check(k) => AfterCheck(h, k)
    case Wake(k) => AfterWake(h, k)
    case GiveUp(k) => AfterGiveUp(h, k)
    case CloseSub(k) => AfterCloseSub(h, k)
    case CloseHub => AfterCloseHub(h)
  }

  // ----- the object -----

  class EngineLogHub {
    const ring: array<Payload>
    var next: nat
    var closed: bool
    var readers: set<nat>
    var subscribers: int
    var subs: seq<Subscription>
    var published: seq<Payload>
    var panicked: bool

    ghost function State(): Hub
      reads this, ring
    {
      Hub(ring[..], next, closed, readers, subscribers, subs, published, panicked)
    }

    ghost predicate Valid()
      reads this
    {
      ring.Length > 0 && forall k :: k in readers ==> k < |subs|
    }

    constructor (capacity: int)
      ensures Valid() && fresh(ring)
      ensures State() == Fresh(if capacity <= 0 || capacity > RING_CAPACITY then RING_CAPACITY else capacity)
    {
      var size := if capacity <= 0 || capacity > RING_CAPACITY then RING_CAPACITY else capacity;
      ring := new Payload[size](_ => []);
      next, closed, readers, subscribers, subs, published, panicked := 0, false, {}, 0, [], [], false;
      new;
      assert ring[..] == seq(size, _ => []);
    }

    /** Stores the payload and leaves every reader one wake token. */
    method Publish(payload: Payload)
      requires Valid()
      modifies this, ring
      ensures Valid() && State() == AfterPublish(old(State()), payload)
    {
      if closed {
        return;
      }
      ring[next % ring.Length] := payload;
      next := next + 1;
      published := published + [payload];
      WakeReaders();
    }

    /** One non-blocking send per reader. */
    method WakeReaders()
      requires forall k :: k in readers ==> k < |subs|
      modifies `subs, `panicked
      ensures subs == Nudged(old(subs), readers)
      ensures panicked == (old(panicked) || AnyClosed(old(subs), readers))
    {
      ghost var before := subs;
      var left := readers;
      while left != {}
        invariant left <= readers && |subs| == |before|
        invariant subs == Nudged(before, readers - left)
        invariant panicked == (old(panicked) || AnyClosed(before, readers - left))
        decreases left
      {
        var k :| k in left;
        if subs[k].wakeClosed {
          panicked := true;
        } else {
          subs := subs[k := subs[k].(token := true)];
        }
        AnyClosedStep(before, readers - left, k);
        assert readers - (left - {k}) == (readers - left) + {k};
        left := left - {k};
      }
      assert readers - {} == readers;
    }

    method Subscribe() returns (k: Option<nat>)
      requires Valid()
      modifies this
      ensures Valid() && State() == AfterSubscribe(old(State()))
      ensures k == if old(closed) then None else Some(|old(subs)|)
    {
      if closed {
        return None;
      }
      k := Some(|subs|);
      readers := readers + {|subs|};
      subs := subs + [Subscription(next, false, false, false, false, next, [])];
      subscribers := subscribers + 1;
    }

    /** The part of Next under the mutex. It returns a payload, reports the end, or goes on to wait. */
    method Next(k: nat) returns (payload: Option<Payload>, ended: bool)
      requires Valid() && k < |subs|
      modifies this
      ensures Valid() && State() == AfterCheck(old(State()), k)
      ensures ended == (old(subs[k].closed) || old(closed))
      ensures payload.Some? ==>
              |subs[k].received| == |old(subs[k]).received| + 1 &&
                  payload.value == subs[k].received[|old(subs[k]).received|].payload
      ensures payload.None? && !ended ==> subs[k].waiting
    {
      if subs[k].closed || closed {
        return None, true;
      }
      var oldest := 0;
      if next > ring.Length {
        oldest := next - ring.Length;
      }
      var cursor := subs[k].cursor;
      if cursor < oldest {
        cursor := oldest;
      }
      if cursor < next {
        var entry := ring[cursor % ring.Length];
        subs := subs[k := subs[k].(cursor := cursor + 1, received := subs[k].received + [Delivery(cursor, entry)])];
        return Some(entry), false;
      }
      subs := subs[k := subs[k].(cursor := cursor, waiting := true)];
      return None, false;
    }

    method CloseSubscription(k: nat)
      requires Valid() && k < |subs|
      modifies this
      ensures Valid() && State() == AfterCloseSub(old(State()), k)
    {
      if !subs[k].closed {
        panicked := panicked || subs[k].wakeClosed;
        subs := subs[k := subs[k].(closed := true, wakeClosed := true)];
        readers := readers - {k};
        subscribers := subscribers - 1;
      }
    }

    method Close()
      requires Valid()
      modifies this
      ensures Valid() && State() == AfterCloseHub(old(State()))
    {
      if closed {
        return;
      }
      closed := true;
      CloseReaders();
      subscribers := 0;
    }

    /** Closes every reader's wake channel and forgets the reader. */
    method CloseReaders()
      requires forall k :: k in readers ==> k < |subs|
      modifies `subs, `readers, `panicked
      ensures subs == Shut(old(subs), old(readers)) && readers == {}
      ensures panicked == (old(panicked) || AnyClosed(old(subs), old(readers)))
    {
      ghost var before, all := subs, readers;
      while readers != {}
        invariant readers <= all && |subs| == |before|
        invariant subs == Shut(before, all - readers)
        invariant panicked == (old(panicked) || AnyClosed(before, all - readers))
        decreases readers
      {
        var k :| k in readers;
        panicked := panicked || subs[k].wakeClosed;
        subs := subs[k := subs[k].(closed := true, wakeClosed := true)];
        AnyClosedStep(before, all - readers, k);
        assert all - (readers - {k}) == (all - readers) + {k};
        readers := readers - {k};
      }
      assert all - {} == all;
    }
  }

  lemma AnyClosedStep(subs: seq<Subscription>, done: set<nat>, k: nat)
    requires k < |subs|
    ensures AnyClosed(subs, done + {k}) <==> AnyClosed(subs, done) || subs[k].wakeClosed
  {
  }

  // ----- what every interleaving keeps -----

  /** The window of the ring holds the last payloads published, each in its own slot. */
  predicate RingInv(h: Hub) {
    && |h.ring| > 0 && h.next == |h.published|
    && forall q :: Oldest(h) <= q < h.next ==> h.ring[q % |h.ring|] == h.published[q]
  }

  predicate ReaderInv(h: Hub) {
    && !h.panicked
    && (forall k :: k in h.readers ==> k < |h.subs|)
    && (forall k :: 0 <= k < |h.subs| ==> (k in h.readers <==> !h.subs[k].closed))
    && (forall k :: 0 <= k < |h.subs| ==> h.subs[k].wakeClosed == h.subs[k].closed)
    && (h.closed ==> h.readers == {})
    && h.subscribers == |h.readers|
  }

  /** A blocked consumer with something to read has a token waiting for it. */
  predicate NoLostWakeup(h: Hub) {
    forall k :: 0 <= k < |h.subs| && h.subs[k].waiting && h.subs[k].cursor < h.next ==>
        h.subs[k].token || h.subs[k].wakeClosed
  }

  /** What one subscriber has been handed, in order. */
  predicate FaithfulStream(s: Subscription, published: seq<Payload>, size: nat) {
    && s.start <= s.cursor <= |published|
    && s.cursor == (if s.received == [] then s.start else s.received[|s.received| - 1].sequence + 1)
    && (forall i :: 0 <= i < |s.received| ==> FaithfulDelivery(s, i, published, size))
  }

  /** A ring of `size` slots no longer holds number `q`: a later payload has taken its slot. */
  predicate Overwritten(q: nat, published: seq<Payload>, size: nat) {
    q + size < |published|
  }

  /**
   * The payload published under that number, after the previous one; when numbers were skipped, the last was
   * overwritten, and so all.
   */
  predicate FaithfulDelivery(s: Subscription, i: nat, published: seq<Payload>, size: nat)
    requires i < |s.received|
  {
    var from := if i == 0 then s.start else s.received[i - 1].sequence + 1;
    && from <= s.received[i].sequence < |published|
    && s.received[i].payload == published[s.received[i].sequence]
    && (from < s.received[i].sequence ==> Overwritten(s.received[i].sequence - 1, published, size))
  }

  predicate Inv(h: Hub) {
    && RingInv(h) && ReaderInv(h) && NoLostWakeup(h)
    && forall k :: 0 <= k < |h.subs| ==> FaithfulStream(h.subs[k], h.published, |h.ring|)
  }

  lemma SlotsDiffer(q: nat, n: nat, size: nat)
    requires size > 0 && q < n < q + size
    ensures q % size != n % size
  {
    var turns := n / size - q / size;
    assert n - q == size * turns + (n % size - q % size);
    if turns <= 0 {
      assert size * turns <= 0;
    } else {
      assert size * turns >= size;
    }
  }

  lemma PublishKeepsRing(h: Hub, payload: Payload)
    requires RingInv(h)
    ensures RingInv(AfterPublish(h, payload))
  {
    var after := AfterPublish(h, payload);
    if !h.closed {
      forall q | Oldest(after) <= q < after.next ensures after.ring[q % |after.ring|] == after.published[q] {
        if q < h.next {
          SlotsDiffer(q, h.next, |h.ring|);
        }
      }
    }
  }

  lemma StreamGrows(s: Subscription, published: seq<Payload>, payload: Payload, size: nat)
    requires FaithfulStream(s, published, size)
    ensures FaithfulStream(s, published + [payload], size)
  {
    forall i | 0 <= i < |s.received| ensures FaithfulDelivery(s, i, published + [payload], size) {
      assert FaithfulDelivery(s, i, published, size);
    }
  }

  lemma PublishKeepsInv(h: Hub, payload: Payload)
    requires Inv(h)
    ensures Inv(AfterPublish(h, payload))
  {
    PublishKeepsRing(h, payload);
    var after := AfterPublish(h, payload);
    if !h.closed {
      forall k | 0 <= k < |h.subs| ensures FaithfulStream(after.subs[k], after.published, |h.ring|) {
        StreamGrows(h.subs[k], h.published, payload, |h.ring|);
        SameStream(h.subs[k], after.subs[k], after.published, |h.ring|);
      }
    }
  }

  /** Only cursor, start and what was received matter to the stream. */
  lemma SameStream(s: Subscription, t: Subscription, published: seq<Payload>, size: nat)
    requires FaithfulStream(s, published, size) && t.cursor == s.cursor && t.start == s.start &&
             t.received == s.received
    ensures FaithfulStream(t, published, size)
  {
    forall i | 0 <= i < |t.received| ensures FaithfulDelivery(t, i, published, size) {
      assert FaithfulDelivery(s, i, published, size);
    }
  }

  lemma DeliveryKeepsStream(h: Hub, s: Subscription)
    requires RingInv(h) && FaithfulStream(s, h.published, |h.ring|)
    ensures FaithfulStream(Delivered(h, s), h.published, |h.ring|)
  {
    var cursor := if s.cursor < Oldest(h) then Oldest(h) else s.cursor;
    if cursor < h.next {
      AppendKeepsStream(s, Delivery(cursor, h.ring[cursor % |h.ring|]), h.published, |h.ring|);
    } else {
      SameStream(s, Delivered(h, s), h.published, |h.ring|);
    }
  }

  /**
   * One more delivery at or after the cursor, of the payload published there, with only overwritten numbers between.
   */
  lemma AppendKeepsStream(s: Subscription, d: Delivery, published: seq<Payload>, size: nat)
    requires FaithfulStream(s, published, size) && s.cursor <= d.sequence < |published|
    requires d.payload == published[d.sequence]
    requires s.cursor < d.sequence ==> Overwritten(d.sequence - 1, published, size)
    ensures FaithfulStream(s.(cursor := d.sequence + 1, received := s.received + [d]), published, size)
  {
    var t := s.(cursor := d.sequence + 1, received := s.received + [d]);
    forall i | 0 <= i < |t.received| ensures FaithfulDelivery(t, i, published, size) {
      if i < |s.received| {
        assert FaithfulDelivery(s, i, published, size);
        assert t.received[i] == s.received[i];
      }
    }
  }

  lemma UpdateKeepsInv(h: Hub, k: nat, s: Subscription)
    requires Inv(h) && k < |h.subs|
    requires s.closed == h.subs[k].closed && s.wakeClosed == h.subs[k].wakeClosed &&
             FaithfulStream(s, h.published, |h.ring|)
    requires s.waiting && s.cursor < h.next ==> s.token || s.wakeClosed
    ensures Inv(h.(subs := h.subs[k := s]))
  {
  }

  lemma SubscribeKeepsReaders(h: Hub)
    requires ReaderInv(h)
    ensures ReaderInv(AfterSubscribe(h))
  {
    var after := AfterSubscribe(h);
    assert |h.subs| !in h.readers;
    forall k | 0 <= k < |after.subs| && !h.closed
      ensures (k in after.readers <==> !after.subs[k].closed) && after.subs[k].wakeClosed == after.subs[k].closed
    {
      assert k < |h.subs| ==> after.subs[k] == h.subs[k];
    }
  }

  lemma SubscribeKeepsInv(h: Hub)
    requires Inv(h)
    ensures Inv(AfterSubscribe(h))
  {
    SubscribeKeepsReaders(h);
    var after := AfterSubscribe(h);
    assert RingInv(after) && NoLostWakeup(after);
    forall k | 0 <= k < |after.subs| ensures FaithfulStream(after.subs[k], after.published, |after.ring|) {
      assert k < |h.subs| ==> after.subs[k] == h.subs[k];
    }
  }

  lemma CheckKeepsInv(h: Hub, k: nat)
    requires Inv(h) && k < |h.subs| && !h.subs[k].waiting
    ensures Inv(AfterCheck(h, k))
  {
    DeliveryKeepsStream(h, h.subs[k]);
    UpdateKeepsInv(h, k, Delivered(h, h.subs[k]));
  }

  lemma LeaveKeepsInv(h: Hub, k: nat, token: bool)
    requires Inv(h) && k < |h.subs|
    ensures Inv(h.(subs := h.subs[k := h.subs[k].(token := token, waiting := false)]))
  {
    SameStream(h.subs[k], h.subs[k].(token := token, waiting := false), h.published, |h.ring|);
    UpdateKeepsInv(h, k, h.subs[k].(token := token, waiting := false));
  }

  lemma StepKeepsInv(h: Hub, a: Action)
    requires Inv(h) && Guard(h, a)
    ensures Inv(Step(h, a))
  {
    match a
    case Publish(payload) => PublishKeepsInv(h, payload);
    case Subscribe => SubscribeKeepsInv(h);
    case Check(k) => CheckKeepsInv(h, k);
    case Wake(k) => LeaveKeepsInv(h, k, false);
    case GiveUp(k) => LeaveKeepsInv(h, k, h.subs[k].token);
    case CloseSub(k) => CloseSubKeepsInv(h, k);
    case CloseHub => CloseHubKeepsInv(h);
  }

  lemma CloseSubKeepsInv(h: Hub, k: nat)
    requires Inv(h) && k < |h.subs|
    ensures Inv(AfterCloseSub(h, k))
  {
    if !h.subs[k].closed {
      assert k in h.readers;
      SameStream(h.subs[k], h.subs[k].(closed := true, wakeClosed := true), h.published, |h.ring|);
    }
  }

  lemma CloseHubKeepsInv(h: Hub)
    requires Inv(h)
    ensures Inv(AfterCloseHub(h))
  {
    var after := AfterCloseHub(h);
    forall k | 0 <= k < |h.subs| ensures FaithfulStream(after.subs[k], after.published, |h.ring|) {
      SameStream(h.subs[k], after.subs[k], h.published, |h.ring|);
    }
  }

  /**
   * Every reachable hub, in every interleaving of publishers, subscribers and both closes: no send or close on a
   * closed channel, the subscriber count is the number of readers, no blocked reader misses its wake-up, and every
   * subscriber has been handed exactly the payloads published, in order, skipping only overwritten ones.
   */
  lemma EveryInterleaving(capacity: nat, run: seq<Action>, n: nat)
    requires capacity > 0 && n <= |run| && Runs.Enabled(Guard, Step, Fresh(capacity), run)
    ensures Inv(Runs.After(Step, Fresh(capacity), run, n))
  {
    forall h, a | Inv(h) && Guard(h, a) ensures Inv(Step(h, a)) {
      StepKeepsInv(h, a);
    }
    Runs.Kept(Guard, Step, Inv, Fresh(capacity), run, n);
  }

  /**
   * `d` is what a subscriber at `cursor` should be handed now: the first number from there on that the ring still
   * holds.
   */
  ghost predicate FirstHeld(h: Hub, cursor: nat, d: Delivery) {
    && cursor <= d.sequence < |h.published| && d.payload == h.published[d.sequence]
    && !Overwritten(d.sequence, h.published, |h.ring|)
    && forall q :: cursor <= q < d.sequence ==> Overwritten(q, h.published, |h.ring|)
  }

  lemma DeliversFirstHeld(h: Hub, s: Subscription)
    requires RingInv(h) && FaithfulStream(s, h.published, |h.ring|)
    ensures var t := Delivered(h, s);
            if s.cursor == h.next then t == s.(waiting := true)
            else exists d :: && FirstHeld(h, s.cursor, d)
                             && t == s.(cursor := d.sequence + 1, received := s.received + [d])
  {
    if s.cursor < h.next {
      var cursor := if s.cursor < Oldest(h) then Oldest(h) else s.cursor;
      assert FirstHeld(h, s.cursor, Delivery(cursor, h.ring[cursor % |h.ring|]));
    }
  }

  /** At the moment of delivery nothing the ring still held is passed over, in any run. */
  lemma NothingHeldIsSkipped(capacity: nat, run: seq<Action>, n: nat, k: nat)
    requires capacity > 0 && n < |run| && Runs.Enabled(Guard, Step, Fresh(capacity), run) && run[n] == Check(k)
    requires var h := Runs.After(Step, Fresh(capacity), run, n); k < |h.subs| && !h.subs[k].closed && !h.closed
    ensures var h := Runs.After(Step, Fresh(capacity), run, n);
            var after, s := Runs.After(Step, Fresh(capacity), run, n + 1), h.subs[k];
            && |after.subs| == |h.subs|
            && if s.cursor == h.next then after.subs[k] == s.(waiting := true)
               else exists d :: && FirstHeld(h, s.cursor, d)
                                && after.subs[k] == s.(cursor := d.sequence + 1, received := s.received + [d])
  {
    EveryInterleaving(capacity, run, n);
    var h := Runs.After(Step, Fresh(capacity), run, n);
    DeliversFirstHeld(h, h.subs[k]);
    assert Runs.After(Step, Fresh(capacity), run, n + 1) == AfterCheck(h, k);
  }

  /** The sequence numbers a subscriber sees strictly increase, from its subscription point on. */
  lemma {:induction false} SequencesIncrease(s: Subscription, published: seq<Payload>, size: nat, i: nat, j: nat)
    requires FaithfulStream(s, published, size) && i < j < |s.received|
    ensures s.start <= s.received[i].sequence < s.received[j].sequence
    decreases j
  {
    assert FaithfulDelivery(s, j, published, size);
    if i < j - 1 {
      SequencesIncrease(s, published, size, i, j - 1);
    } else {
      NotBeforeStart(s, published, size, i);
    }
  }

  lemma {:induction false} NotBeforeStart(s: Subscription, published: seq<Payload>, size: nat, i: nat)
    requires FaithfulStream(s, published, size) && i < |s.received|
    ensures s.start <= s.received[i].sequence
  {
    assert FaithfulDelivery(s, i, published, size);
    if i > 0 {
      NotBeforeStart(s, published, size, i - 1);
    }
  }

  // ----- the history is the run's -----

  predicate HubClosed(run: seq<Action>, n: nat)
    requires n <= |run|
  {
    exists k :: 0 <= k < n && run[k].CloseHub?
  }

  /** The payloads published before the hub was closed, in order. */
  function Accepted(run: seq<Action>, n: nat): seq<Payload>
    requires n <= |run|
  {
    if n == 0 then []
    else if run[n - 1].Publish? && !HubClosed(run, n - 1) then Accepted(run, n - 1) + [run[n - 1].payload]
    else Accepted(run, n - 1)
  }

  /** For each subscription, in order, how many payloads had been published when it was made. */
  function Starts(run: seq<Action>, n: nat): seq<nat>
    requires n <= |run|
  {
    if n == 0 then []
    else if run[n - 1].Subscribe? && !HubClosed(run, n - 1) then Starts(run, n - 1) + [|Accepted(run, n - 1)|]
    else Starts(run, n - 1)
  }

  /** Subscription `k` was closed, by itself or with the hub. */
  predicate SubClosed(run: seq<Action>, n: nat, k: nat)
    requires n <= |run|
  {
    exists j :: 0 <= j < n && k < |Starts(run, j)| && (run[j] == CloseSub(k) || run[j].CloseHub?)
  }

  ghost predicate Follows(run: seq<Action>, n: nat, h: Hub)
    requires n <= |run|
  {
    && h.closed == HubClosed(run, n) && h.published == Accepted(run, n) && |h.subs| == |Starts(run, n)|
    && forall k :: 0 <= k < |h.subs| ==>
         h.subs[k].start == Starts(run, n)[k] && (h.subs[k].closed <==> SubClosed(run, n, k))
  }

  lemma {:induction false} StartsGrow(run: seq<Action>, j: nat, n: nat)
    requires j <= n <= |run|
    ensures |Starts(run, j)| <= |Starts(run, n)|
  {
    if j < n {
      StartsGrow(run, j, n - 1);
    }
  }

  lemma SubClosedStep(run: seq<Action>, n: nat, k: nat)
    requires n < |run|
    ensures SubClosed(run, n + 1, k) <==>
            SubClosed(run, n, k) || (k < |Starts(run, n)| && (run[n] == CloseSub(k) || run[n].CloseHub?))
    ensures SubClosed(run, n, k) ==> k < |Starts(run, n)|
  {
    if SubClosed(run, n, k) {
      var j :| 0 <= j < n && k < |Starts(run, j)| && (run[j] == CloseSub(k) || run[j].CloseHub?);
      StartsGrow(run, j, n);
    }
  }

  lemma HubClosedStep(run: seq<Action>, n: nat)
    requires n < |run|
    ensures HubClosed(run, n + 1) <==> HubClosed(run, n) || run[n].CloseHub?
  {
  }

  /** A step leaves the earlier subscriptions' starting points alone, and their closing to the two closes. */
  lemma SubsStep(h: Hub, a: Action, k: nat)
    requires ReaderInv(h) && |h.ring| > 0 && Guard(h, a) && k < |h.subs|
    ensures var g := Step(h, a);
            && k < |g.subs| && g.subs[k].start == h.subs[k].start
            && (g.subs[k].closed <==> h.subs[k].closed || a == CloseSub(k) || a.CloseHub?)
  {
  }

  lemma StepFollows(run: seq<Action>, n: nat, h: Hub)
    requires n < |run| && Inv(h) && Guard(h, run[n]) && Follows(run, n, h)
    ensures Follows(run, n + 1, Step(h, run[n]))
  {
    var g := Step(h, run[n]);
    HubClosedStep(run, n);
    assert g.published == Accepted(run, n + 1) && g.closed == HubClosed(run, n + 1) && |g.subs| == |Starts(run, n + 1)|;
    forall k: nat | k < |g.subs|
      ensures g.subs[k].start == Starts(run, n + 1)[k] && (g.subs[k].closed <==> SubClosed(run, n + 1, k))
    {
      SubClosedStep(run, n, k);
      if k < |h.subs| {
        SubsStep(h, run[n], k);
      }
    }
  }

  ghost function FollowsFrom(run: seq<Action>): (nat, Hub) -> bool {
    (k: nat, h: Hub) => k <= |run| && Follows(run, k, h)
  }

  lemma FreshFollows(capacity: nat, run: seq<Action>)
    requires capacity > 0
    ensures Inv(Fresh(capacity)) && FollowsFrom(run)(0, Fresh(capacity))
  {
  }

  lemma FollowsOn(run: seq<Action>, k: nat, h: Hub)
    requires k < |run| && Inv(h) && Guard(h, run[k]) && FollowsFrom(run)(k, h)
    ensures FollowsFrom(run)(k + 1, Step(h, run[k]))
  {
    StepFollows(run, k, h);
  }

  ghost function Sound(): Hub -> bool {
    (h: Hub) => Inv(h)
  }

  lemma RunFollows(capacity: nat, run: seq<Action>, n: nat)
    requires capacity > 0 && n <= |run| && Runs.Enabled(Guard, Step, Fresh(capacity), run)
    ensures Sound()(Runs.After(Step, Fresh(capacity), run, n)) &&
            FollowsFrom(run)(n, Runs.After(Step, Fresh(capacity), run, n))
  {
    var inv, follows := Sound(), FollowsFrom(run);
    forall h, a | inv(h) && Guard(h, a) ensures inv(Step(h, a)) {
      StepKeepsInv(h, a);
    }
    forall k: nat, h | k < |run| && inv(h) && Guard(h, run[k]) &&
        follows(k, h) ensures follows(k + 1, Step(h, run[k])) {
      FollowsOn(run, k, h);
    }
    FreshFollows(capacity, run);
    Runs.FollowsRun(Guard, Step, inv, follows, Fresh(capacity), run, n);
  }

  /**
   * In any run, what counts as published is, in order, every payload handed to Publish before the hub was closed; each
   * subscription starts at the number of payloads published before it was made; and it is closed exactly when it or the
   * hub was. All the deliveries above are thereby deliveries of the run's own events.
   */
  lemma RunDecidesHistory(capacity: nat, run: seq<Action>, n: nat)
    requires capacity > 0 && n <= |run| && Runs.Enabled(Guard, Step, Fresh(capacity), run)
    ensures Follows(run, n, Runs.After(Step, Fresh(capacity), run, n))
    ensures Runs.After(Step, Fresh(capacity), run, n).next == |Accepted(run, n)|
  {
    RunFollows(capacity, run, n);
    assert Inv(Runs.After(Step, Fresh(capacity), run, n));
  }
}

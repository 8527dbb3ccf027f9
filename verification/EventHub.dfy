// deploy/jelleo-sse.py, _broadcast and the subscriber loop of _handle_sse: one
// bounded queue per connection, the oldest event dropped when it is full.
module EventHub {
  import opened Bytes
  import opened LogTail

  const MAXSIZE := 200

  // ---- one queue -----------------------------------------------------------

  /** put_nowait, and on QueueFull get_nowait and put_nowait. */
  function Put(queue: seq<Event>, e: Event): (r: seq<Event>)
    ensures |queue| <= MAXSIZE ==> |r| <= MAXSIZE
  {
    if |queue| < MAXSIZE then queue + [e] else queue[1..] + [e]
  }

  function Get(queue: seq<Event>): seq<Event> {
    if queue == [] then [] else queue[1..]
  }

  /** What happens to one subscription. */
  datatype Use = Publish(e: Event) | Take

  /** A subscription with its history. */
  datatype Seat = Seat(queue: seq<Event>, delivered: seq<Event>, dropped: nat)

  const NEW_SEAT := Seat([], [], 0)

  function UseSeat(s: Seat, u: Use): Seat {
    match u
    case Publish(e) => Seat(Put(s.queue, e), s.delivered, s.dropped + if |s.queue| < MAXSIZE then 0 else 1)
    case Take => Seat(Get(s.queue), s.delivered + if s.queue == [] then [] else [s.queue[0]], s.dropped)
  }

  function Seated(uses: seq<Use>): Seat {
    if uses == [] then NEW_SEAT else UseSeat(Seated(uses[..|uses| - 1]), uses[|uses| - 1])
  }

  function Published(uses: seq<Use>): seq<Event> {
    if uses == [] then []
    else
      Published(uses[..|uses| - 1]) +
      match uses[|uses| - 1]
      case Publish(e) => [e]
      case Take => []
  }

  /** `some` is `all` with `left` elements left out, the order kept. */
  ghost predicate Thinned<T>(some: seq<T>, all: seq<T>, left: nat)
    decreases |all|
  {
    if all == [] then some == [] && left == 0
    else
      var last := all[|all| - 1];
      (some != [] && some[|some| - 1] == last && Thinned(some[..|some| - 1], all[..|all| - 1], left)) ||
      (left > 0 && Thinned(some, all[..|all| - 1], left - 1))
  }

  lemma ThinnedGrows<T>(some: seq<T>, all: seq<T>, left: nat, x: T)
    requires Thinned(some, all, left)
    ensures Thinned(some + [x], all + [x], left)
    ensures Thinned(some, all + [x], left + 1)
  {
    assert (some + [x])[..|some|] == some && (all + [x])[..|all|] == all;
  }

  lemma {:induction false} ThinnedCounts<T>(some: seq<T>, all: seq<T>, left: nat)
    requires Thinned(some, all, left)
    ensures |some| + left == |all|
    ensures left == 0 ==> some == all
    decreases |all|
  {
    if all != [] {
      var n := |all| - 1;
      if some != [] && some[|some| - 1] == all[n] && Thinned(some[..|some| - 1], all[..n], left) {
        ThinnedCounts(some[..|some| - 1], all[..n], left);
      } else {
        ThinnedCounts(some, all[..n], left - 1);
      }
    }
  }

  /** Published is `gone` and then the queue; the delivered events are `gone`, thinned by the drops. */
  ghost predicate Accounted(s: Seat, gone: seq<Event>, published: seq<Event>) {
    |s.queue| <= MAXSIZE && published == gone + s.queue && Thinned(s.delivered, gone, s.dropped)
  }

  lemma Shift(gone: seq<Event>, queue: seq<Event>, tail: seq<Event>)
    requires queue != []
    ensures gone + queue + tail == (gone + [queue[0]]) + (queue[1..] + tail)
  {
  }

  lemma PublishAccounted(s: Seat, gone: seq<Event>, published: seq<Event>, e: Event) returns (gone': seq<Event>)
    requires Accounted(s, gone, published)
    ensures Accounted(UseSeat(s, Publish(e)), gone', published + [e])
  {
    if |s.queue| < MAXSIZE {
      gone' := gone;
      assert published + [e] == gone + (s.queue + [e]);
    } else {
      gone' := gone + [s.queue[0]];
      Shift(gone, s.queue, [e]);
      ThinnedGrows(s.delivered, gone, s.dropped, s.queue[0]);
    }
  }

  lemma TakeAccounted(s: Seat, gone: seq<Event>, published: seq<Event>) returns (gone': seq<Event>)
    requires Accounted(s, gone, published)
    ensures Accounted(UseSeat(s, Take), gone', published)
  {
    if s.queue == [] {
      gone' := gone;
      assert s.delivered + [] == s.delivered;
    } else {
      gone' := gone + [s.queue[0]];
      Shift(gone, s.queue, []);
      assert s.queue[1..] + [] == s.queue[1..] && gone + s.queue + [] == gone + s.queue;
      ThinnedGrows(s.delivered, gone, s.dropped, s.queue[0]);
    }
  }

  lemma {:induction false} EverySeatAccounted(uses: seq<Use>) returns (gone: seq<Event>)
    ensures Accounted(Seated(uses), gone, Published(uses))
  {
    gone := [];
    if uses != [] {
      var before := uses[..|uses| - 1];
      gone := EverySeatAccounted(before);
      match uses[|uses| - 1]
      case Publish(e) =>
        gone := PublishAccounted(Seated(before), gone, Published(before), e);
      case Take =>
        gone := TakeAccounted(Seated(before), gone, Published(before));
        assert Published(before) + [] == Published(before);
    }
  }

  lemma AccountedIsSuffix(s: Seat, gone: seq<Event>, published: seq<Event>)
    requires Accounted(s, gone, published)
    ensures |s.queue| <= |published|
    ensures gone == published[..|published| - |s.queue|] && s.queue == published[|published| - |s.queue|..]
  {
  }

  /**
   * Under every interleaving: the queue is bounded and the most recent suffix, the delivered events
   * are the others but for the drops, in order, and delivered plus dropped plus queued is published.
   */
  lemma BoundedQueue(uses: seq<Use>)
    ensures var s := Seated(uses);
            var published := Published(uses);
            |s.queue| <= MAXSIZE && |s.queue| <= |published| &&
            s.queue == published[|published| - |s.queue|..] &&
            Thinned(s.delivered, published[..|published| - |s.queue|], s.dropped) &&
            |s.delivered| + s.dropped + |s.queue| == |published|
  {
    var s := Seated(uses);
    var gone := EverySeatAccounted(uses);
    AccountedIsSuffix(s, gone, Published(uses));
    ThinnedCounts(s.delivered, gone, s.dropped);
  }

  /** Nothing is lost exactly when no drop is counted. */
  lemma LosslessIffNoDrop(uses: seq<Use>)
    ensures Seated(uses).dropped == 0 <==> Seated(uses).delivered + Seated(uses).queue == Published(uses)
  {
    var s := Seated(uses);
    var gone := EverySeatAccounted(uses);
    ThinnedCounts(s.delivered, gone, s.dropped);
    assert |Published(uses)| == |gone| + |s.queue| && |s.delivered + s.queue| == |s.delivered| + |s.queue|;
  }

  // ---- all queues ----------------------------------------------------------

  function CustomerOf(e: Event): string {
    if "customer_id" in e then e["customer_id"] else "demo"
  }

  type Subscribers = map<string, set<nat>>

  /** A defaultdict(set). */
  function Of(subscribers: Subscribers, key: string): set<nat> {
    if key in subscribers then subscribers[key] else {}
  }

  function With(subscribers: Subscribers, key: string, q: nat): (r: Subscribers)
    ensures forall k :: Of(r, k) == if k == key then Of(subscribers, k) + {q} else Of(subscribers, k)
  {
    subscribers[key := Of(subscribers, key) + {q}]
  }

  function Without(subscribers: Subscribers, key: string, q: nat): (r: Subscribers)
    ensures forall k :: Of(r, k) == if k == key then Of(subscribers, k) - {q} else Of(subscribers, k)
  {
    subscribers[key := Of(subscribers, key) - {q}]
  }

  function Addressed(subscribers: Subscribers, e: Event): set<nat> {
    Of(subscribers, CustomerOf(e)) + Of(subscribers, "*")
  }

  type Queues = map<nat, seq<Event>>

  function PutAll(queues: Queues, to: set<nat>, e: Event): Queues {
    map q | q in queues :: if q in to then Put(queues[q], e) else queues[q]
  }

  function Full(queues: Queues, to: set<nat>): set<nat> {
    set q | q in to && q in queues && |queues[q]| >= MAXSIZE
  }

  /** A defaultdict(int). */
  function CountDrops(dropped: map<string, nat>, customer: string, n: nat): map<string, nat> {
    if n == 0 then dropped else dropped[customer := n + if customer in dropped then dropped[customer] else 0]
  }

  /** Queues are numbered in the order in which they are made. */
  datatype HubState = HubState(subscribers: Subscribers, queues: Queues, dropped: map<string, nat>, next: nat)

  datatype Op =
    | Subscribe(customer: string)
    | Unsubscribe(customer: string, q: nat)
    | Broadcast(e: Event)
    | Next(q: nat)

  function Step(s: HubState, op: Op): HubState {
    match op
    case Subscribe(customer) =>
      s.(subscribers := With(s.subscribers, customer, s.next),
         queues := s.queues[s.next := []], next := s.next + 1)
    case Unsubscribe(customer, q) =>
      s.(subscribers := Without(s.subscribers, customer, q))
    case Broadcast(e) =>
      var to := Addressed(s.subscribers, e);
      s.(queues := PutAll(s.queues, to, e), dropped := CountDrops(s.dropped, CustomerOf(e), |Full(s.queues, to)|))
    case Next(q) =>
      if q in s.queues then s.(queues := s.queues[q := Get(s.queues[q])]) else s
  }

  ghost predicate WellFormed(s: HubState) {
    (forall key :: Of(s.subscribers, key) <= s.queues.Keys) && forall q :: q in s.queues ==> q < s.next
  }

  class Hub {
    var subscribers: Subscribers
    var queues: Queues
    var dropped: map<string, nat>
    var next: nat

    ghost function State(): HubState
      reads this
    {
      HubState(subscribers, queues, dropped, next)
    }

    constructor ()
      ensures State() == HubState(map[], map[], map[], 0)
    {
      subscribers, queues, dropped, next := map[], map[], map[], 0;
    }

    method AddQueue(customer: string) returns (q: nat)
      modifies this
      ensures State() == Step(old(State()), Subscribe(customer)) && q == old(next)
    {
      q := next;
      next := next + 1;
      queues := queues[q := []];
      subscribers := With(subscribers, customer, q);
    }

    method Discard(customer: string, q: nat)
      modifies this
      ensures State() == Step(old(State()), Unsubscribe(customer, q))
    {
      subscribers := Without(subscribers, customer, q);
    }

    /** put_nowait; when the queue is full its oldest event makes room. */
    method Offer(q: nat, e: Event, customer: string)
      requires q in queues
      modifies this`queues, this`dropped
      ensures queues == old(queues)[q := Put(old(queues)[q], e)]
      ensures dropped == if |old(queues)[q]| < MAXSIZE then old(dropped) else CountDrops(old(dropped), customer, 1)
    {
      var queue := queues[q];
      if |queue| < MAXSIZE {
        queues := queues[q := queue + [e]];
      } else {
        queues := queues[q := queue[1..]];
        queues := queues[q := queues[q] + [e]];
        dropped := dropped[customer := 1 + if customer in dropped then dropped[customer] else 0];
      }
    }

    method Publish(e: Event)
      requires WellFormed(State())
      modifies this`queues, this`dropped
      ensures State() == Step(old(State()), Broadcast(e))
    {
      var customer := CustomerOf(e);
      var to := Addressed(subscribers, e);
      var todo := to;
      ghost var done: set<nat> := {};
      ghost var before, counts := queues, dropped;
      OfferNone(before, e);
      AddressedExist(State(), e);
      while todo != {}
        invariant todo <= to <= before.Keys && done == to - todo
        invariant queues == PutAll(before, done, e)
        invariant dropped == CountDrops(counts, customer, |Full(before, done)|)
        decreases |todo|
      {
        var q :| q in todo;
        MoveOne(to, todo, done, q);
        OfferOne(before, counts, customer, done, q, e);
        done := done + {q};
        todo := todo - {q};
        Offer(q, e, customer);
      }
      assert done == to;
    }

    /** Waiting for an event; None is the heartbeat after 15 quiet seconds. */
    method Receive(q: nat) returns (r: Option<Event>)
      requires q in queues
      modifies this
      ensures State() == Step(old(State()), Next(q))
      ensures r == if old(queues)[q] == [] then None else Some(old(queues)[q][0])
    {
      if queues[q] == [] {
        r := None;
        assert queues[q := []] == queues;
      } else {
        r := Some(queues[q][0]);
        queues := queues[q := queues[q][1..]];
      }
    }
  }

  lemma MoveOne(to: set<nat>, todo: set<nat>, done: set<nat>, q: nat)
    requires todo <= to && done == to - todo && q in todo
    ensures q !in done && done + {q} == to - (todo - {q}) && todo - {q} <= to
  {
  }

  lemma OfferNone(queues: Queues, e: Event)
    ensures PutAll(queues, {}, e) == queues && Full(queues, {}) == {}
  {
  }

  lemma AddressedExist(s: HubState, e: Event)
    requires WellFormed(s)
    ensures Addressed(s.subscribers, e) <= s.queues.Keys
  {
  }

  lemma PutOne(queues: Queues, done: set<nat>, q: nat, e: Event)
    requires q !in done && q in queues
    ensures PutAll(queues, done, e)[q] == queues[q]
    ensures PutAll(queues, done + {q}, e) == PutAll(queues, done, e)[q := Put(queues[q], e)]
  {
  }

  lemma FullGrows(queues: Queues, done: set<nat>, q: nat)
    requires q !in done && q in queues
    ensures |Full(queues, done + {q})| == |Full(queues, done)| + if |queues[q]| >= MAXSIZE then 1 else 0
  {
    if |queues[q]| >= MAXSIZE {
      assert Full(queues, done + {q}) == Full(queues, done) + {q};
    } else {
      assert Full(queues, done + {q}) == Full(queues, done);
    }
  }

  /** One more queue takes the event. */
  lemma OfferOne(queues: Queues, counts: map<string, nat>, customer: string, done: set<nat>, q: nat, e: Event)
    requires q !in done && q in queues
    ensures q in PutAll(queues, done, e)
    ensures var queue := PutAll(queues, done, e)[q];
            var dropped := CountDrops(counts, customer, |Full(queues, done)|);
            PutAll(queues, done + {q}, e) == PutAll(queues, done, e)[q := Put(queue, e)] &&
            CountDrops(counts, customer, |Full(queues, done + {q})|) ==
            if |queue| < MAXSIZE then dropped else CountDrops(dropped, customer, 1)
  {
    PutOne(queues, done, q, e);
    FullGrows(queues, done, q);
  }

  // ---- what one subscriber sees --------------------------------------------

  function Run(s: HubState, ops: seq<Op>): HubState {
    if ops == [] then s else Step(Run(s, ops[..|ops| - 1]), ops[|ops| - 1])
  }

  lemma {:induction false} RunsAreWellFormed(s: HubState, ops: seq<Op>)
    requires WellFormed(s)
    ensures WellFormed(Run(s, ops))
  {
    if ops != [] {
      RunsAreWellFormed(s, ops[..|ops| - 1]);
    }
  }

  /** What an operation is to queue `q` of a subscriber to `customer`. */
  function UseOf(q: nat, customer: string, op: Op): Option<Use> {
    match op
    case Broadcast(e) => if customer == CustomerOf(e) || customer == "*" then Some(Use.Publish(e)) else None
    case Next(q') => if q' == q then Some(Take) else None
    case _ => None
  }

  function UsesOf(q: nat, customer: string, ops: seq<Op>): seq<Use> {
    if ops == [] then []
    else
      var before := UsesOf(q, customer, ops[..|ops| - 1]);
      match UseOf(q, customer, ops[|ops| - 1])
      case None => before
      case Some(u) => before + [u]
  }

  /** What the connection that owns `q` has been given. */
  function Delivered(s: HubState, q: nat, ops: seq<Op>): seq<Event> {
    if ops == [] then []
    else
      var n := |ops| - 1;
      var queues := Run(s, ops[..n]).queues;
      Delivered(s, q, ops[..n]) +
      if ops[n] == Next(q) && q in queues && queues[q] != [] then [queues[q][0]] else []
  }

  /** `q` belongs to a live subscription of `customer`, and to no other. */
  ghost predicate Owned(s: HubState, q: nat, customer: string) {
    q in s.queues && q < s.next && forall key :: q in Of(s.subscribers, key) <==> key == customer
  }

  lemma StaysOwned(s: HubState, q: nat, customer: string, op: Op)
    requires Owned(s, q, customer) && !(op.Unsubscribe? && op.q == q)
    ensures Owned(Step(s, op), q, customer)
  {
  }

  lemma OneStep(s: HubState, q: nat, customer: string, op: Op, seat: Seat)
    requires Owned(s, q, customer) && !(op.Unsubscribe? && op.q == q) && seat.queue == s.queues[q]
    ensures q in Step(s, op).queues
    ensures match UseOf(q, customer, op)
            case None => Step(s, op).queues[q] == s.queues[q] && op != Next(q)
            case Some(u) => Step(s, op).queues[q] == UseSeat(seat, u).queue
  {
    if op.Broadcast? {
      assert q in Of(s.subscribers, CustomerOf(op.e)) <==> CustomerOf(op.e) == customer;
      assert q in Of(s.subscribers, "*") <==> "*" == customer;
    }
  }

  lemma SeatedSnoc(uses: seq<Use>, u: Use)
    ensures Seated(uses + [u]) == UseSeat(Seated(uses), u)
  {
    assert (uses + [u])[..|uses|] == uses;
  }

  predicate Leaves(op: Op, q: nat) {
    op.Unsubscribe? && op.q == q
  }

  /** Whatever the other connections do, a queue is what its own broadcasts and gets make of it. */
  lemma {:induction false} SubscriberIsAlone(s: HubState, q: nat, customer: string, ops: seq<Op>)
    requires Owned(s, q, customer) && s.queues[q] == []
    requires forall op :: op in ops ==> !Leaves(op, q)
    ensures Owned(Run(s, ops), q, customer)
    ensures Run(s, ops).queues[q] == Seated(UsesOf(q, customer, ops)).queue
    ensures Delivered(s, q, ops) == Seated(UsesOf(q, customer, ops)).delivered
  {
    if ops != [] {
      var n := |ops| - 1;
      var op := ops[n];
      var uses := UsesOf(q, customer, ops[..n]);
      assert !Leaves(op, q);
      SubscriberIsAlone(s, q, customer, ops[..n]);
      OneStep(Run(s, ops[..n]), q, customer, op, Seated(uses));
      StaysOwned(Run(s, ops[..n]), q, customer, op);
      if u :| UseOf(q, customer, op) == Some(u) {
        SeatedSnoc(uses, u);
      }
    }
  }

  /** A new subscription owns its queue, and that queue is empty. */
  lemma SubscribingOwns(s: HubState, customer: string)
    requires WellFormed(s)
    ensures Owned(Step(s, Subscribe(customer)), s.next, customer)
    ensures Step(s, Subscribe(customer)).queues[s.next] == []
  {
    assert s.next !in s.queues.Keys;
    assert forall key :: s.next !in Of(s.subscribers, key);
  }

  // ---- the drop counter of a customer --------------------------------------

  function Counter(s: HubState, customer: string): nat {
    if customer in s.dropped then s.dropped[customer] else 0
  }

  /** A broadcast of this customer's reaches queue `q` while it holds 200 events. */
  predicate Overflows(s: HubState, op: Op, customer: string, q: nat) {
    op.Broadcast? && CustomerOf(op.e) == customer && q in s.queues && |s.queues[q]| >= 200 &&
    (q in Of(s.subscribers, customer) || q in Of(s.subscribers, "*"))
  }

  /** How often that happens to one queue in a run. */
  function DropsAt(s: HubState, ops: seq<Op>, customer: string, q: nat): nat {
    if ops == [] then 0
    else
      var n := |ops| - 1;
      DropsAt(s, ops[..n], customer, q) + if Overflows(Run(s, ops[..n]), ops[n], customer, q) then 1 else 0
  }

  /** And to all queues below n. */
  function DropsBelow(s: HubState, ops: seq<Op>, customer: string, n: nat): nat {
    if n == 0 then 0 else DropsBelow(s, ops, customer, n - 1) + DropsAt(s, ops, customer, n - 1)
  }

  function CountBelow(qs: set<nat>, n: nat): nat {
    if n == 0 then 0 else CountBelow(qs, n - 1) + if n - 1 in qs then 1 else 0
  }

  lemma {:induction false} CountAll(qs: set<nat>, n: nat)
    requires forall q :: q in qs ==> q < n
    ensures CountBelow(qs, n) == |qs|
  {
    if n > 0 {
      var less := qs - {n - 1};
      CountAll(less, n - 1);
      CountWithout(qs, n - 1);
      assert n - 1 in qs ==> qs == less + {n - 1};
      assert n - 1 !in qs ==> qs == less;
    } else {
      assert qs == {};
    }
  }

  lemma {:induction false} CountWithout(qs: set<nat>, n: nat)
    ensures CountBelow(qs, n) == CountBelow(qs - {n}, n)
  {
    CountSame(qs, qs - {n}, n);
  }

  lemma {:induction false} CountSame(xs: set<nat>, ys: set<nat>, n: nat)
    requires forall q :: q < n ==> (q in xs <==> q in ys)
    ensures CountBelow(xs, n) == CountBelow(ys, n)
  {
    if n > 0 {
      CountSame(xs, ys, n - 1);
    }
  }

  function Overflowing(s: HubState, op: Op, customer: string): set<nat> {
    set q | q in s.queues && Overflows(s, op, customer, q)
  }

  lemma {:induction false} DropsSnoc(s: HubState, ops: seq<Op>, customer: string, n: nat)
    requires ops != []
    ensures var k := |ops| - 1;
            DropsBelow(s, ops, customer, n) ==
            DropsBelow(s, ops[..k], customer, n) + CountBelow(Overflowing(Run(s, ops[..k]), ops[k], customer), n)
  {
    if n > 0 {
      DropsSnoc(s, ops, customer, n - 1);
    }
  }

  lemma StepCounts(s: HubState, op: Op, customer: string)
    ensures Counter(Step(s, op), customer) == Counter(s, customer) + |Overflowing(s, op, customer)|
  {
    if op.Broadcast? && CustomerOf(op.e) == customer {
      assert Overflowing(s, op, customer) == Full(s.queues, Addressed(s.subscribers, op.e));
    } else {
      assert Overflowing(s, op, customer) == {};
    }
  }

  /** The counter of a customer grows by what is dropped from the queues its events reach, each drop once. */
  lemma {:induction false} CounterIsTheDrops(s: HubState, ops: seq<Op>, customer: string, n: nat)
    requires WellFormed(s) && Run(s, ops).next <= n
    ensures Counter(Run(s, ops), customer) == Counter(s, customer) + DropsBelow(s, ops, customer, n)
    decreases |ops|
  {
    if ops == [] {
      NoDrops(s, customer, n);
    } else {
      var k := |ops| - 1;
      var before := Run(s, ops[..k]);
      RunsAreWellFormed(s, ops[..k]);
      assert before.next <= Run(s, ops).next;
      CounterIsTheDrops(s, ops[..k], customer, n);
      StepCounts(before, ops[k], customer);
      DropsSnoc(s, ops, customer, n);
      CountAll(Overflowing(before, ops[k], customer), n);
    }
  }

  lemma {:induction false} NoDrops(s: HubState, customer: string, n: nat)
    ensures DropsBelow(s, [], customer, n) == 0
  {
    if n > 0 {
      NoDrops(s, customer, n - 1);
    }
  }

  /** What a subscriber's own account says was dropped is what its customer's broadcasts dropped from its queue. */
  lemma {:induction false} SeatDropsAreCounted(s: HubState, q: nat, customer: string, other: string, ops: seq<Op>)
    requires Owned(s, q, customer) && s.queues[q] == [] && customer != "*"
    requires forall op :: op in ops ==> !Leaves(op, q)
    ensures DropsAt(s, ops, other, q) == if other == customer then Seated(UsesOf(q, customer, ops)).dropped else 0
  {
    if ops != [] {
      var n := |ops| - 1;
      var op, before := ops[n], Run(s, ops[..n]);
      var uses := UsesOf(q, customer, ops[..n]);
      SeatDropsAreCounted(s, q, customer, other, ops[..n]);
      SubscriberIsAlone(s, q, customer, ops[..n]);
      assert q in Of(before.subscribers, other) <==> other == customer;
      assert q in Of(before.subscribers, "*") <==> "*" == customer;
      if u :| UseOf(q, customer, op) == Some(u) {
        SeatedSnoc(uses, u);
      }
    }
  }

  lemma {:induction false} PublishedIsAddressed(q: nat, customer: string, ops: seq<Op>, e: Event)
    requires customer != "*" && e in Published(UsesOf(q, customer, ops))
    ensures CustomerOf(e) == customer
  {
    if ops != [] {
      var n := |ops| - 1;
      var before := UsesOf(q, customer, ops[..n]);
      match UseOf(q, customer, ops[n])
      case None => PublishedIsAddressed(q, customer, ops[..n], e);
      case Some(u) =>
        assert (before + [u])[..|before|] == before;
        if e in Published(before) {
          PublishedIsAddressed(q, customer, ops[..n], e);
        }
    }
  }

  lemma {:induction false} ThinnedWithin<T>(some: seq<T>, all: seq<T>, left: nat, x: T)
    requires Thinned(some, all, left) && x in some
    ensures x in all
    decreases |all|
  {
    if all != [] {
      var n := |all| - 1;
      if some[|some| - 1] == all[n] && Thinned(some[..|some| - 1], all[..n], left) {
        if x in some[..|some| - 1] {
          ThinnedWithin(some[..|some| - 1], all[..n], left, x);
        }
      } else {
        ThinnedWithin(some, all[..n], left - 1, x);
      }
    }
  }

  /** A subscriber never receives, nor has queued, an event of another customer. */
  lemma CustomersAreIsolated(s: HubState, customer: string, ops: seq<Op>, e: Event)
    requires WellFormed(s) && customer != "*"
    requires forall op :: op in ops ==> !Leaves(op, s.next)
    ensures var joined := Step(s, Subscribe(customer));
            s.next in Run(joined, ops).queues &&
            (e in Run(joined, ops).queues[s.next] || e in Delivered(joined, s.next, ops) ==> CustomerOf(e) == customer)
  {
    var joined := Step(s, Subscribe(customer));
    var q := s.next;
    SubscribingOwns(s, customer);
    SubscriberIsAlone(joined, q, customer, ops);
    var uses := UsesOf(q, customer, ops);
    var seat := Seated(uses);
    var gone := EverySeatAccounted(uses);
    if e in seat.delivered {
      ThinnedWithin(seat.delivered, gone, seat.dropped, e);
    }
    if e in Published(uses) {
      PublishedIsAddressed(q, customer, ops, e);
    }
  }

  /** Whatever customer a log line names, the tailer sends it to the customer of its workspace. */
  lemma {:induction false} TailedEventsStayHome(lines: seq<string>, parse: Parser, cycle: string, customer: string,
                                                e: Event)
    requires e in Sent(lines, parse, cycle, customer)
    ensures CustomerOf(e) == customer
  {
    if lines != [] && e in Sent(lines[1..], parse, cycle, customer) {
      TailedEventsStayHome(lines[1..], parse, cycle, customer, e);
    }
  }
}

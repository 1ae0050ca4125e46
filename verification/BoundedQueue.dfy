/**
 The bounded queue under interleaving: producers run `Enqueue` step by step, consumers
 take items off at any time. A run is a list of such steps.
 */
module BoundedQueue {
  import opened Bytes

  /** Where a producer is in `Enqueue`. */
  datatype Place<T> =
    | Idle
    | Waiting(item: T)     // saw a full queue, wants the lock
    | Looking(item: T)     // holds the lock, about to look at the count
    | Dumping(item: T)     // holds the lock, about to take the oldest item off
    | Leaving(item: T)     // saw room, about to give the lock back
    | Ready(item: T)       // about to insert

  datatype State<T> = State(
    capacity: nat,
    queue: seq<T>,
    lock: Option<nat>,
    producers: seq<Place<T>>,
    inserted: seq<T>,
    removed: seq<T>)

  datatype Action<T> =
    | Begin(p: nat, item: T)
    | Acquire(p: nat)
    | Look(p: nat)
    | Dump(p: nat)
    | Release(p: nat)
    | Insert(p: nat)
    | Consume

  function At<T>(s: State<T>, p: nat): Place<T> {
    if p < |s.producers| then s.producers[p] else Idle
  }

  function Goto<T>(s: State<T>, p: nat, place: Place<T>): State<T>
    requires p < |s.producers|
  {
    s.(producers := s.producers[p := place])
  }

  /** `TryDequeue`: the oldest item goes, if there is one. */
  function Dequeued<T>(s: State<T>): State<T> {
    if s.queue == [] then s else s.(queue := s.queue[1..], removed := s.removed + [s.queue[0]])
  }

  /** One step, or nothing if it cannot be taken. */
  function Step<T>(s: State<T>, a: Action<T>): Option<State<T>> {
    match a
    case Begin(p, item) =>
      if p < |s.producers| && At(s, p).Idle? then
        Some(Goto(s, p, if |s.queue| >= s.capacity then Waiting(item) else Ready(item)))
      else None
    case Acquire(p) =>
      if p < |s.producers| && At(s, p).Waiting? && s.lock.None? then
        Some(Goto(s, p, Looking(At(s, p).item)).(lock := Some(p)))
      else None
    case Look(p) =>
      if p < |s.producers| && At(s, p).Looking? then
        var item := At(s, p).item;
        Some(Goto(s, p, if |s.queue| >= s.capacity then Dumping(item) else Leaving(item)))
      else None
    case Dump(p) =>
      if p < |s.producers| && At(s, p).Dumping? then
        Some(Dequeued(Goto(s, p, Looking(At(s, p).item))))
      else None
    case Release(p) =>
      if p < |s.producers| && At(s, p).Leaving? then
        Some(Goto(s, p, Ready(At(s, p).item)).(lock := None))
      else None
    case Insert(p) =>
      if p < |s.producers| && At(s, p).Ready? then
        var item := At(s, p).item;
        Some(Goto(s, p, Idle).(queue := s.queue + [item], inserted := s.inserted + [item]))
      else None
    case Consume => Some(Dequeued(s))
  }

  function Run<T>(s: State<T>, actions: seq<Action<T>>): Option<State<T>>
    decreases |actions|
  {
    if actions == [] then Some(s)
    else
      match Step(s, actions[0])
      case None => None
      case Some(next) => Run(next, actions[1..])
  }

  function Empty<T>(capacity: nat, k: nat): State<T> {
    State(capacity, [], None, seq(k, _ => Idle), [], [])
  }

  /** Producers that have seen room and not inserted yet. */
  function Committed<T>(producers: seq<Place<T>>): (n: nat)
    ensures n <= |producers|
  {
    if producers == [] then 0
    else (if producers[0].Leaving? || producers[0].Ready? then 1 else 0) + Committed(producers[1..])
  }

  function IsCommitted<T>(place: Place<T>): nat {
    if place.Leaving? || place.Ready? then 1 else 0
  }

  lemma {:induction false} CommittedUpdate<T>(producers: seq<Place<T>>, p: nat, place: Place<T>)
    requires p < |producers|
    ensures Committed(producers[p := place]) == Committed(producers) - IsCommitted(producers[p]) + IsCommitted(place)
  {
    if p == 0 {
      assert producers[p := place][1..] == producers[1..];
    } else {
      CommittedUpdate(producers[1..], p - 1, place);
      assert producers[p := place][1..] == producers[1..][p - 1 := place];
    }
  }

  predicate HoldsLock<T>(place: Place<T>) {
    place.Looking? || place.Dumping? || place.Leaving?
  }

  /** The queue and the producers about to insert, together, are bounded. */
  predicate Counted<T>(s: State<T>) {
    s.capacity > 0 && |s.queue| + Committed(s.producers) <= s.capacity - 1 + |s.producers|
  }

  /** Items leave in the order in which they came. */
  ghost predicate Ordered<T>(s: State<T>) {
    s.removed + s.queue == s.inserted
  }

  /** One producer at a time holds the lock. */
  predicate Locked<T>(s: State<T>) {
    && (forall p | 0 <= p < |s.producers| :: HoldsLock(s.producers[p]) <==> s.lock == Some(p))
    && (s.lock.Some? ==> s.lock.value < |s.producers|)
  }

  ghost predicate Invariant<T>(s: State<T>) {
    Counted(s) && Ordered(s) && Locked(s)
  }

  lemma StepCounts<T>(s: State<T>, a: Action<T>)
    requires Counted(s) && Step(s, a).Some?
    ensures var next := Step(s, a).value;
            Counted(next) && next.capacity == s.capacity && |next.producers| == |s.producers|
  {
    if !a.Consume? {
      var next := Step(s, a).value;
      CommittedUpdate(s.producers, a.p, next.producers[a.p]);
      assert next.producers == s.producers[a.p := next.producers[a.p]];
    }
  }

  lemma StepOrders<T>(s: State<T>, a: Action<T>)
    requires Ordered(s) && Step(s, a).Some?
    ensures Ordered(Step(s, a).value) && s.inserted <= Step(s, a).value.inserted
  {
    DequeueOrders(s);
    match a {
      case Insert(p) => assert s.removed + (s.queue + [At(s, p).item]) == (s.removed + s.queue) + [At(s, p).item];
      case Dump(p) => DequeueOrders(Goto(s, p, Looking(At(s, p).item)));
      case _ =>
    }
  }

  lemma DequeueOrders<T>(s: State<T>)
    requires Ordered(s)
    ensures Ordered(Dequeued(s)) && Dequeued(s).inserted == s.inserted
  {
    if s.queue != [] {
      assert s.queue == [s.queue[0]] + s.queue[1..];
      assert (s.removed + [s.queue[0]]) + s.queue[1..] == s.removed + s.queue;
    }
  }

  lemma StepLocks<T>(s: State<T>, a: Action<T>)
    requires Locked(s) && Step(s, a).Some?
    ensures Locked(Step(s, a).value)
  {
  }

  lemma {:induction false} RunKeeps<T>(s: State<T>, actions: seq<Action<T>>)
    requires Invariant(s) && Run(s, actions).Some?
    ensures var end := Run(s, actions).value;
            Invariant(end) && end.capacity == s.capacity && |end.producers| == |s.producers|
    decreases |actions|
  {
    hide Step, Counted, Ordered, Locked;
    if actions != [] {
      StepCounts(s, actions[0]);
      StepOrders(s, actions[0]);
      StepLocks(s, actions[0]);
      RunKeeps(Step(s, actions[0]).value, actions[1..]);
    }
  }

  lemma EmptyKeeps<T>(capacity: nat, k: nat)
    requires capacity > 0
    ensures Invariant(Empty<T>(capacity, k))
  {
    var s := Empty<T>(capacity, k);
    NoneCommitted(s.producers);
    assert forall p | 0 <= p < |s.producers| :: s.producers[p].Idle?;
  }

  lemma {:induction false} NoneCommitted<T>(producers: seq<Place<T>>)
    requires forall p | 0 <= p < |producers| :: producers[p].Idle?
    ensures Committed(producers) == 0
  {
    if producers != [] {
      NoneCommitted(producers[1..]);
    }
  }

  /** Whatever the interleaving of `k` producers and any consumers, the queue is bounded and in order. */
  lemma Bounded<T>(capacity: nat, k: nat, actions: seq<Action<T>>)
    requires capacity > 0 && Run(Empty<T>(capacity, k), actions).Some?
    ensures var end := Run(Empty<T>(capacity, k), actions).value;
            && |end.queue| <= capacity + k - 1 && |end.producers| == k
            && end.removed <= end.inserted
            && end.removed + end.queue == end.inserted
            && forall p, q | 0 <= p < q < k :: !(HoldsLock(end.producers[p]) && HoldsLock(end.producers[q]))
  {
    hide Run, Committed;
    EmptyKeeps<T>(capacity, k);
    RunKeeps(Empty<T>(capacity, k), actions);
  }

  // ----- the bound is reached -----

  lemma {:induction false} RunAppend<T>(s: State<T>, a: seq<Action<T>>, b: seq<Action<T>>)
    requires Run(s, a).Some?
    ensures Run(s, a + b) == Run(Run(s, a).value, b)
    decreases |a|
  {
    if a == [] {
      assert a + b == b;
    } else {
      assert (a + b)[1..] == a[1..] + b;
      hide Step;
      RunAppend(Step(s, a[0]).value, a[1..], b);
    }
  }

  /** One producer puts `n` items in, one after another. */
  function Filling<T>(x: T, n: nat): seq<Action<T>> {
    if n == 0 then [] else Filling(x, n - 1) + [Begin(0, x), Insert(0)]
  }

  lemma {:induction false} FillingRuns<T>(x: T, capacity: nat, k: nat, n: nat)
    requires n < capacity && 0 < k
    ensures var r := Run(Empty<T>(capacity, k), Filling(x, n));
            && r.Some?
            && r.value.queue == r.value.inserted && |r.value.queue| == n
            && r.value == Empty<T>(capacity, k).(queue := r.value.queue, inserted := r.value.inserted)
  {
    if n > 0 {
      FillingRuns(x, capacity, k, n - 1);
      var e := Empty<T>(capacity, k);
      RunAppend(e, Filling(x, n - 1), [Begin(0, x), Insert(0)]);
      var s := Run(e, Filling(x, n - 1)).value;
      InsertOne(s, x);
    }
  }

  lemma InsertOne<T>(s: State<T>, x: T)
    requires s.producers != [] && s.producers[0].Idle? && |s.queue| < s.capacity
    ensures Run(s, [Begin(0, x), Insert(0)]) == Some(s.(queue := s.queue + [x], inserted := s.inserted + [x]))
  {
    var mid := Step(s, Begin(0, x)).value;
    assert mid.producers == s.producers[0 := Ready(x)];
    assert mid.producers[0 := Idle] == s.producers;
    assert [Begin(0, x), Insert(0)][1..] == [Insert(0)];
    OneStep(mid, Insert(0));
  }

  /** Producers `0` to `n` all look while there is room. */
  function Beginning<T>(x: T, n: nat): seq<Action<T>> {
    seq(n, p requires 0 <= p < n => Begin(p, x))
  }

  function Inserting<T>(n: nat): seq<Action<T>> {
    seq(n, p requires 0 <= p < n => Insert(p))
  }

  lemma {:induction false} BeginningRuns<T>(s: State<T>, x: T, n: nat)
    requires n <= |s.producers| && |s.queue| < s.capacity
    requires forall p | 0 <= p < n :: s.producers[p].Idle?
    ensures Run(s, Beginning(x, n)) ==
            Some(s.(producers := seq(n, _ => Ready(x)) + s.producers[n..]))
  {
    if n == 0 {
      assert seq(0, _ => Ready(x)) + s.producers[0..] == s.producers;
    } else {
      BeginningRuns(s, x, n - 1);
      assert Beginning(x, n) == Beginning(x, n - 1) + [Begin(n - 1, x)];
      RunAppend(s, Beginning(x, n - 1), [Begin(n - 1, x)]);
      var mid := Run(s, Beginning(x, n - 1)).value;
      assert mid.producers[n - 1].Idle?;
      OneStep(mid, Begin(n - 1, x));
      assert mid.producers[n - 1 := Ready(x)] == seq(n, _ => Ready(x)) + s.producers[n..];
    }
  }

  lemma OneStep<T>(s: State<T>, a: Action<T>)
    ensures Run(s, [a]) == Step(s, a)
  {
    assert [a][1..] == [];
  }

  lemma {:induction false} InsertingRuns<T>(s: State<T>, x: T, n: nat)
    requires n <= |s.producers| && forall p | 0 <= p < n :: s.producers[p] == Ready(x)
    ensures Run(s, Inserting(n)).Some? && |Run(s, Inserting(n)).value.queue| == |s.queue| + n
    ensures var end := Run(s, Inserting(n)).value;
            |end.producers| == |s.producers| && end.producers[n..] == s.producers[n..]
  {
    if n > 0 {
      InsertingRuns(s, x, n - 1);
      assert Inserting<T>(n) == Inserting(n - 1) + [Insert(n - 1)];
      RunAppend(s, Inserting(n - 1), [Insert(n - 1)]);
      var mid := Run(s, Inserting(n - 1)).value;
      assert mid.producers[n - 1] == mid.producers[n - 1..][0] == s.producers[n - 1];
      OneStep(mid, Insert(n - 1));
      assert mid.producers[n - 1 := Idle][n..] == mid.producers[n - 1..][1..] == s.producers[n..];
    } else {
      assert Inserting<T>(0) == [];
    }
  }

  /** The bound is reached: all producers look while one place is free, and all insert. */
  lemma BoundReached<T>(capacity: nat, k: nat, x: T) returns (actions: seq<Action<T>>)
    requires capacity > 0 && k > 0
    ensures var r := Run(Empty<T>(capacity, k), actions);
            r.Some? && |r.value.queue| == capacity + k - 1
  {
    hide Run, Step;
    var e := Empty<T>(capacity, k);
    var fill, look := Filling(x, capacity - 1), Beginning(x, k);
    FillingRuns(x, capacity, k, capacity - 1);
    var full := Run(e, fill).value;
    BeginningRuns(full, x, k);
    var ready := Run(full, look).value;
    InsertingRuns(ready, x, k);
    RunAppend(e, fill, look);
    RunAppend(e, fill + look, Inserting(k));
    actions := fill + look + Inserting(k);
  }

  // ----- when items are dumped -----

  /** The state in front of action `i` of a run. */
  function Before<T>(s: State<T>, actions: seq<Action<T>>, i: nat): Option<State<T>>
    requires i <= |actions|
  {
    Run(s, actions[..i])
  }

  lemma NextState<T>(s: State<T>, actions: seq<Action<T>>, i: nat)
    requires i < |actions| && Before(s, actions, i + 1).Some?
    ensures Before(s, actions, i).Some? && Before(s, actions, i + 1) == Step(Before(s, actions, i).value, actions[i])
  {
    assert actions[..i + 1] == actions[..i] + [actions[i]];
    RunSplits(s, actions[..i], [actions[i]]);
    RunAppend(s, actions[..i], [actions[i]]);
    OneStep(Before(s, actions, i).value, actions[i]);
  }

  lemma {:induction false} RunSplits<T>(s: State<T>, a: seq<Action<T>>, b: seq<Action<T>>)
    requires Run(s, a + b).Some?
    ensures Run(s, a).Some?
    decreases |a|
  {
    if a != [] {
      assert (a + b)[1..] == a[1..] + b;
      hide Step;
      RunSplits(Step(s, a[0]).value, a[1..], b);
    }
  }

  /** Producer `p` looked at `j`, saw a full queue, and has done nothing since. */
  ghost predicate SawFull<T>(s: State<T>, actions: seq<Action<T>>, j: nat, i: nat, p: nat) {
    && j < i <= |actions| && actions[j] == Look(p)
    && Before(s, actions, j).Some?
    && |Before(s, actions, j).value.queue| >= Before(s, actions, j).value.capacity
    && forall m | j < m < i :: actions[m].Consume? || actions[m].p != p
  }

  lemma {:induction false} DumpingSawFull<T>(s: State<T>, actions: seq<Action<T>>, i: nat, p: nat) returns (j: nat)
    requires i <= |actions| && Before(s, actions, i).Some?
    requires forall q | 0 <= q < |s.producers| :: s.producers[q].Idle?
    requires At(Before(s, actions, i).value, p).Dumping?
    ensures SawFull(s, actions, j, i, p)
  {
    if i == 0 {
      assert false;
    } else {
      NextState(s, actions, i - 1);
      var was := Before(s, actions, i - 1).value;
      if actions[i - 1] == Look(p) {
        j := i - 1;
      } else {
        OthersStay(was, actions[i - 1], p);
        j := DumpingSawFull(s, actions, i - 1, p);
      }
    }
  }

  /** Only its own look makes a producer dump. */
  lemma OthersStay<T>(s: State<T>, a: Action<T>, p: nat)
    requires Step(s, a).Some? && At(Step(s, a).value, p).Dumping? && a != Look(p)
    ensures At(s, p).Dumping? && (a.Consume? || a.p != p)
  {
  }

  /**
   An item is dumped only by a producer whose last look, with nothing of its own since, saw
   the queue at capacity or above.
   */
  lemma DumpedAfterFull<T>(capacity: nat, k: nat, actions: seq<Action<T>>, i: nat) returns (j: nat)
    requires Run(Empty<T>(capacity, k), actions).Some? && i < |actions| && actions[i].Dump?
    ensures SawFull(Empty<T>(capacity, k), actions, j, i, actions[i].p)
  {
    var s := Empty<T>(capacity, k);
    assert actions == actions[..i + 1] + actions[i + 1..];
    RunSplits(s, actions[..i + 1], actions[i + 1..]);
    NextState(s, actions, i);
    j := DumpingSawFull(s, actions, i, actions[i].p);
  }

  function Inserts<T>(actions: seq<Action<T>>): nat
    decreases |actions|
  {
    if actions == [] then 0 else (if actions[0].Insert? then 1 else 0) + Inserts(actions[1..])
  }

  function Least(a: nat, b: nat): nat {
    if a < b then a else b
  }

  /** A lone producer, which has inserted up to `total` items: how long the queue is at each place. */
  predicate Lone<T>(s: State<T>, total: nat) {
    && |s.producers| == 1 && s.capacity > 0
    && match s.producers[0]
       case Idle => |s.queue| == Least(s.capacity, total)
       case Waiting(_) => |s.queue| == s.capacity <= total
       case Looking(_) => s.capacity - 1 <= |s.queue| <= s.capacity <= total
       case Dumping(_) => |s.queue| == s.capacity <= total
       case Leaving(_) => |s.queue| == s.capacity - 1 && s.capacity <= total
       case Ready(_) => |s.queue| == Least(s.capacity - 1, total)
  }

  /**
   One producer without consumers drops items only when the queue would overflow: whenever it
   is between two calls the queue holds all items, or as many as the capacity.
   */
  lemma {:induction false} LoneProducer<T>(s: State<T>, actions: seq<Action<T>>, total: nat)
    requires Lone(s, total) && Run(s, actions).Some?
    requires forall i | 0 <= i < |actions| :: !actions[i].Consume?
    ensures Lone(Run(s, actions).value, total + Inserts(actions))
    decreases |actions|
  {
    if actions != [] {
      LoneStep(s, actions[0], total);
      hide Step, Lone;
      LoneProducer(Step(s, actions[0]).value, actions[1..], total + if actions[0].Insert? then 1 else 0);
    }
  }

  lemma LoneStep<T>(s: State<T>, a: Action<T>, total: nat)
    requires Lone(s, total) && Step(s, a).Some? && !a.Consume?
    ensures Lone(Step(s, a).value, total + if a.Insert? then 1 else 0)
  {
  }

  /** So between two calls on a full queue exactly one item goes, the oldest. */
  lemma OneOutOneIn<T>(s: State<T>, actions: seq<Action<T>>)
    requires |s.producers| == 1 && s.producers[0].Idle? && |s.queue| == s.capacity > 0 && Ordered(s)
    requires Run(s, actions).Some? && forall i | 0 <= i < |actions| :: !actions[i].Consume?
    requires Run(s, actions).value.producers == s.producers && Inserts(actions) == 1
    ensures var end := Run(s, actions).value;
            end.removed == s.removed + [s.queue[0]] && |end.inserted| == |s.inserted| + 1
  {
    hide Run, Inserts, Lone, Step;
    assert Lone(s, s.capacity) by {
      LoneFull(s);
    }
    LoneProducer(s, actions, s.capacity);
    RunKeepsOrder(s, actions);
    var end := Run(s, actions).value;
    assert Lone(end, s.capacity + 1);
    LoneIdle(end, s.capacity + 1);
    OldestGone(s.removed, s.queue, end.removed, end.queue, s.inserted, end.inserted);
  }

  lemma LoneFull<T>(s: State<T>)
    requires |s.producers| == 1 && s.producers[0].Idle? && |s.queue| == s.capacity > 0
    ensures Lone(s, s.capacity)
  {
  }

  lemma LoneIdle<T>(s: State<T>, total: nat)
    requires Lone(s, total) && s.producers[0].Idle?
    ensures |s.queue| == Least(s.capacity, total)
  {
  }

  lemma {:induction false} RunKeepsOrder<T>(s: State<T>, actions: seq<Action<T>>)
    requires Ordered(s) && Run(s, actions).Some?
    ensures var end := Run(s, actions).value;
            && Ordered(end) && s.inserted <= end.inserted && end.capacity == s.capacity
            && |end.inserted| == |s.inserted| + Inserts(actions)
    decreases |actions|
  {
    if actions != [] {
      StepOrders(s, actions[0]);
      StepInserts(s, actions[0]);
      hide Step, Ordered;
      RunKeepsOrder(Step(s, actions[0]).value, actions[1..]);
    }
  }

  lemma StepInserts<T>(s: State<T>, a: Action<T>)
    requires Step(s, a).Some?
    ensures |Step(s, a).value.inserted| == |s.inserted| + (if a.Insert? then 1 else 0)
    ensures Step(s, a).value.capacity == s.capacity
  {
  }

  lemma OldestGone<T>(r: seq<T>, q: seq<T>, r': seq<T>, q': seq<T>, all: seq<T>, all': seq<T>)
    requires r + q == all && r' + q' == all' && all <= all'
    requires |q| == |q'| > 0 && |all'| == |all| + 1
    ensures r' == r + [q[0]]
  {
    assert r' == all'[..|r|+ 1] == all[..|r| + 1];
  }
}

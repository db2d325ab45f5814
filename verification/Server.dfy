/** server.c as a labelled transition system: one acceptor and a pool of workers around the shared queue.

    Each critical section is one step. A condition variable wakes at least one waiter per signal and may wake
    any waiter spuriously. Requests are numbered in order of arrival, since descriptors are recycled; the logs
    `dispatched`, `dropped` and `finished` are history only.
 */
module Server {
  import opened LinkedQueue

  datatype Policy = Block | DropTail | DropHead | BlockFlush | Dynamic | Random

  datatype Config = Config(policy: Policy, threads: nat, queueSize: int, maxSize: int)

  /** Where the acceptor is. */
  datatype Main =
    | Accepting
    | Checking(id: nat)      // accepted, before the overload test (server.c:75-77)
    | Overloaded(id: nat)    // in handle_overloading
    | Asleep2(id: nat)       // waiting on cond2
    | Flushed(id: nat)       // past the bf loop, before Close
    | Admitting(id: nat)     // about to enqueue
    | Signalling             // enqueued, before the signal on cond

  /** Where a worker is. */
  datatype Worker =
    | Trying                 // about to dequeue for the first time
    | Asleep                 // waiting on cond
    | Woken                  // returned from the wait, about to dequeue again
    | Serving(id: nat)       // dequeued, counted as working
    | Leaving(id: nat)       // decremented, before the signal on cond2
    | Closing(id: nat)       // signalled, before Close

  datatype State = State(
    main: Main, workers: seq<Worker>, queue: seq<nat>, working: int, capacity: int,
    arrived: nat, dispatched: seq<nat>, dropped: seq<nat>, finished: seq<nat>)

  datatype Label =
    | Accept
    | Check
    | Overload(rands: seq<nat>)
    | WakeMain
    | CloseFlushed
    | Enqueue
    | Signal(w: nat)
    | SignalNone
    | Dequeue(w: nat)
    | WakeWorker(w: nat)
    | Decrement(w: nat)
    | Signal2(w: nat)
    | CloseServed(w: nat)

  function Init(c: Config): State {
    State(Accepting, seq(c.threads, i => Trying), [], 0, c.queueSize, 0, [], [], [])
  }

  /** queue->queue_size + num_of_curr_working. */
  function Load(s: State): int {
    |s.queue| + s.working
  }

  /** The condition under which the acceptor keeps waiting on cond2. */
  predicate MustWait(c: Config, s: State) {
    match c.policy
    case Block => Load(s) >= s.capacity
    case BlockFlush => Load(s) != 0
    case _ => false
  }

  predicate IsAt(s: State, w: nat) {
    w < |s.workers|
  }

  predicate Enabled(c: Config, s: State, l: Label) {
    match l
    case Accept => s.main.Accepting?
    case Check => s.main.Checking?
    case Overload(rands) => s.main.Overloaded? && (c.policy.Random? ==> |s.queue| <= |rands|)
    case WakeMain => s.main.Asleep2?
    case CloseFlushed => s.main.Flushed?
    case Enqueue => s.main.Admitting?
    case Signal(w) => s.main.Signalling? && IsAt(s, w) && s.workers[w].Asleep?
    case SignalNone => s.main.Signalling? && forall i | 0 <= i < |s.workers| :: !s.workers[i].Asleep?
    case Dequeue(w) => IsAt(s, w) && (s.workers[w].Trying? || s.workers[w].Woken?)
    case WakeWorker(w) => IsAt(s, w) && s.workers[w].Asleep?
    case Decrement(w) => IsAt(s, w) && s.workers[w].Serving?
    case Signal2(w) => IsAt(s, w) && s.workers[w].Leaving?
    case CloseServed(w) => IsAt(s, w) && s.workers[w].Closing?
  }

  function Put(s: State, w: nat, p: Worker): State
    requires IsAt(s, w)
  {
    s.(workers := s.workers[w := p])
  }

  /** handle_overloading, up to its return or its wait. */
  function HandleOverload(c: Config, s: State, rands: seq<nat>): State
    requires s.main.Overloaded? && (c.policy.Random? ==> |s.queue| <= |rands|)
  {
    var id := s.main.id;
    var refuse := s.(main := Accepting, dropped := s.dropped + [id]);
    match c.policy
    case Block => s.(main := if MustWait(c, s) then Asleep2(id) else Admitting(id))
    case DropTail => refuse
    case DropHead =>
      if s.queue == [] then refuse
      else s.(main := Admitting(id), queue := s.queue[1..], dropped := s.dropped + [s.queue[0]])
    case BlockFlush => s.(main := if MustWait(c, s) then Asleep2(id) else Flushed(id))
    case Dynamic => if s.capacity < c.maxSize then refuse.(capacity := s.capacity + 1) else refuse
    case Random =>
      if s.queue == [] then refuse
      else
        var (rest, out) := DrawOut(s.queue, rands, |s.queue| / 2);
        s.(main := Admitting(id), queue := rest, dropped := s.dropped + out)
  }

  function Do(c: Config, s: State, l: Label): State
    requires Enabled(c, s, l)
  {
    match l
    case Accept => s.(main := Checking(s.arrived), arrived := s.arrived + 1)
    case Check => s.(main := if Load(s) >= s.capacity then Overloaded(s.main.id) else Admitting(s.main.id))
    case Overload(rands) => HandleOverload(c, s, rands)
    case WakeMain => s.(main := Overloaded(s.main.id))
    case CloseFlushed => s.(main := Accepting, dropped := s.dropped + [s.main.id])
    case Enqueue => s.(main := Signalling, queue := s.queue + [s.main.id])
    case Signal(w) => Put(s.(main := Accepting), w, Woken)
    case SignalNone => s.(main := Accepting)
    case Dequeue(w) =>
      if s.queue == [] then Put(s, w, Asleep)
      else Put(s.(queue := s.queue[1..], working := s.working + 1, dispatched := s.dispatched + [s.queue[0]]),
               w, Serving(s.queue[0]))
    case WakeWorker(w) => Put(s, w, Woken)
    case Decrement(w) => Put(s.(working := s.working - 1), w, Leaving(s.workers[w].id))
    case Signal2(w) =>
      Put(if s.main.Asleep2? then s.(main := Overloaded(s.main.id)) else s, w, Closing(s.workers[w].id))
    case CloseServed(w) => Put(s.(finished := s.finished + [s.workers[w].id]), w, Trying)
  }

  ghost predicate Trace(c: Config, ss: seq<State>, ls: seq<Label>) {
    && |ss| == |ls| + 1
    && ss[0] == Init(c)
    && forall i | 0 <= i < |ls| :: Enabled(c, ss[i], ls[i]) && ss[i + 1] == Do(c, ss[i], ls[i])
  }

  ghost predicate Reachable(c: Config, s: State) {
    exists ss, ls :: Trace(c, ss, ls) && s == ss[|ls|]
  }

  // ----- counting workers

  function Heading(p: Worker): nat { if p.Trying? || p.Woken? then 1 else 0 }
  function Busy(p: Worker): nat { if p.Serving? then 1 else 0 }
  function Departing(p: Worker): nat { if p.Leaving? then 1 else 0 }
  function Sleeping(p: Worker): nat { if p.Asleep? then 1 else 0 }

  /** How many workers satisfy a 0/1 measure. */
  function Count(ws: seq<Worker>, f: Worker -> nat): nat {
    if ws == [] then 0 else f(ws[0]) + Count(ws[1..], f)
  }

  lemma {:induction false} CountPut(ws: seq<Worker>, w: nat, p: Worker, f: Worker -> nat)
    requires w < |ws|
    ensures Count(ws[w := p], f) + f(ws[w]) == Count(ws, f) + f(p)
    decreases ws
  {
    if w > 0 {
      CountPut(ws[1..], w - 1, p, f);
      assert ws[w := p][1..] == ws[1..][w - 1 := p];
    } else {
      assert ws[w := p][1..] == ws[1..];
    }
  }

  lemma {:induction false} CountAtMost(ws: seq<Worker>, f: Worker -> nat)
    requires forall p :: f(p) <= 1
    ensures Count(ws, f) <= |ws|
    decreases ws
  {
    if ws != [] { CountAtMost(ws[1..], f); }
  }

  /** Some worker has the measure exactly when the count is positive. */
  lemma {:induction false} CountPositive(ws: seq<Worker>, f: Worker -> nat)
    ensures Count(ws, f) > 0 <==> exists i :: 0 <= i < |ws| && f(ws[i]) > 0
    decreases ws
  {
    if ws != [] {
      CountPositive(ws[1..], f);
      if i :| 0 <= i < |ws| && f(ws[i]) > 0 {
        if i > 0 { assert ws[1..][i - 1] == ws[i]; }
      }
      if i :| 0 <= i < |ws[1..]| && f(ws[1..][i]) > 0 {
        assert ws[i + 1] == ws[1..][i];
      }
    }
  }

  // ----- requests

  /** How often x occurs in q. */
  function Occ(q: seq<nat>, x: nat): nat {
    if q == [] then 0 else (if q[0] == x then 1 else 0) + Occ(q[1..], x)
  }

  lemma {:induction false} OccConcat(q: seq<nat>, r: seq<nat>, x: nat)
    ensures Occ(q + r, x) == Occ(q, x) + Occ(r, x)
    decreases q
  {
    if q == [] {
      assert q + r == r;
    } else {
      OccConcat(q[1..], r, x);
      assert (q + r)[1..] == q[1..] + r;
    }
  }

  lemma {:induction false} OccIsMultiplicity(q: seq<nat>, x: nat)
    ensures Occ(q, x) == multiset(q)[x]
    decreases q
  {
    if q != [] {
      OccIsMultiplicity(q[1..], x);
      assert q == [q[0]] + q[1..];
    }
  }

  function InMainHand(m: Main, x: nat): nat {
    if !m.Accepting? && !m.Signalling? && m.id == x then 1 else 0
  }

  function InHand(p: Worker, x: nat): nat {
    if (p.Serving? || p.Leaving? || p.Closing?) && p.id == x then 1 else 0
  }

  /** How many workers hold x. */
  function InHands(ws: seq<Worker>, x: nat): nat {
    if ws == [] then 0 else InHand(ws[0], x) + InHands(ws[1..], x)
  }

  lemma {:induction false} HandsPut(ws: seq<Worker>, w: nat, p: Worker, x: nat)
    requires w < |ws|
    ensures InHands(ws[w := p], x) + InHand(ws[w], x) == InHands(ws, x) + InHand(p, x)
    decreases ws
  {
    if w > 0 {
      HandsPut(ws[1..], w - 1, p, x);
      assert ws[w := p][1..] == ws[1..][w - 1 := p];
    } else {
      assert ws[w := p][1..] == ws[1..];
    }
  }

  /** Strictly increasing and below a bound. */
  ghost predicate Ordered(q: seq<nat>, bound: nat) {
    && (forall i, j | 0 <= i < j < |q| :: q[i] < q[j])
    && (forall i | 0 <= i < |q| :: q[i] < bound)
  }

  // ----- which worker a step moves, and where to

  predicate MovesWorker(l: Label) {
    l.Signal? || l.Dequeue? || l.WakeWorker? || l.Decrement? || l.Signal2? || l.CloseServed?
  }

  function NewPc(s: State, l: Label): Worker
    requires MovesWorker(l) && IsAt(s, l.w)
  {
    match l
    case Dequeue(w) => if s.queue == [] then Asleep else Serving(s.queue[0])
    case Decrement(w) => if s.workers[w].Serving? then Leaving(s.workers[w].id) else Trying
    case Signal2(w) => if s.workers[w].Leaving? then Closing(s.workers[w].id) else Trying
    case CloseServed(w) => Trying
    case _ => Woken
  }

  lemma WorkersAfter(c: Config, s: State, l: Label)
    requires Enabled(c, s, l)
    ensures !MovesWorker(l) ==> Do(c, s, l).workers == s.workers
    ensures MovesWorker(l) ==> IsAt(s, l.w) && Do(c, s, l).workers == s.workers[l.w := NewPc(s, l)]
  {
  }

  lemma CountStep(c: Config, s: State, l: Label, f: Worker -> nat)
    requires Enabled(c, s, l)
    ensures !MovesWorker(l) ==> Count(Do(c, s, l).workers, f) == Count(s.workers, f)
    ensures MovesWorker(l) ==>
              IsAt(s, l.w)
              && Count(Do(c, s, l).workers, f) + f(s.workers[l.w]) == Count(s.workers, f) + f(NewPc(s, l))
  {
    WorkersAfter(c, s, l);
    if MovesWorker(l) { CountPut(s.workers, l.w, NewPc(s, l), f); }
  }

  // ----- what every step keeps

  function Max(a: int, b: int): int {
    if a < b then b else a
  }

  ghost predicate Counted(c: Config, s: State) {
    |s.workers| == c.threads && s.working == Count(s.workers, Busy)
  }

  /** While some worker sleeps, every queued request has an awake worker on its way to it, but for the one
      whose signal is still pending. */
  ghost predicate WorkConserving(s: State) {
    Count(s.workers, Sleeping) > 0 ==>
      |s.queue| <= Count(s.workers, Heading) + if s.main.Signalling? then 1 else 0
  }

  /** If the acceptor sleeps although it need not, a worker is about to signal it. */
  ghost predicate NoLostWakeup(c: Config, s: State) {
    s.main.Asleep2? ==>
      (c.policy.Block? || c.policy.BlockFlush?) && (MustWait(c, s) || Count(s.workers, Departing) > 0)
  }

  /** The load the policy really guarantees. Random drops half of the queue rounded down, so it can admit a
      request on top of a queue of one. */
  function Bound(c: Config, s: State): int {
    if c.policy.Random? then Max(s.capacity, c.threads + 2) else Max(0, s.capacity)
  }

  ghost predicate Bounded(c: Config, s: State) {
    && Load(s) <= Bound(c, s)
    && (s.main.Admitting? ==> Load(s) < Bound(c, s))
    && (s.main.Flushed? ==> Load(s) == 0)
  }

  ghost predicate CapacityOk(c: Config, s: State) {
    if c.policy.Dynamic? then c.queueSize <= s.capacity <= Max(c.queueSize, c.maxSize)
    else s.capacity == c.queueSize
  }

  /** In how many places request x is. */
  function Places(s: State, x: nat): nat {
    InMainHand(s.main, x) + Occ(s.queue, x) + InHands(s.workers, x) + Occ(s.dropped, x) + Occ(s.finished, x)
  }

  /** Request x is in exactly one place, once, from its arrival on; it was dispatched if and only if a worker
      holds it or has finished it. */
  ghost predicate Accounted(s: State, x: nat) {
    && Places(s, x) == (if x < s.arrived then 1 else 0)
    && Occ(s.dispatched, x) == InHands(s.workers, x) + Occ(s.finished, x)
  }

  ghost predicate Conserved(s: State) {
    forall x: nat :: Accounted(s, x)
  }

  /** What was dispatched, followed by what is queued, is in order of arrival. */
  ghost predicate InOrder(s: State) {
    && Ordered(s.dispatched + s.queue, s.arrived)
    && (!s.main.Accepting? && !s.main.Signalling? ==>
          s.main.id + 1 == s.arrived && Ordered(s.dispatched + s.queue, s.main.id))
  }

  lemma CountedStep(c: Config, s: State, l: Label)
    requires Enabled(c, s, l) && Counted(c, s)
    ensures Counted(c, Do(c, s, l))
  {
    CountStep(c, s, l, Busy);
    WorkersAfter(c, s, l);
  }

  lemma WorkConservingStep(c: Config, s: State, l: Label)
    requires Enabled(c, s, l) && WorkConserving(s)
    ensures WorkConserving(Do(c, s, l))
  {
    CountStep(c, s, l, Sleeping);
    CountStep(c, s, l, Heading);
    if l.SignalNone? { CountPositive(s.workers, Sleeping); }
    QueueShrinks(c, s, l);
  }

  lemma QueueShrinks(c: Config, s: State, l: Label)
    requires Enabled(c, s, l)
    ensures l.Overload? ==> |Do(c, s, l).queue| <= |s.queue|
  {
  }

  lemma NoLostWakeupStep(c: Config, s: State, l: Label)
    requires Enabled(c, s, l) && NoLostWakeup(c, s)
    ensures NoLostWakeup(c, Do(c, s, l))
  {
    CountStep(c, s, l, Departing);
  }

  lemma BoundedStep(c: Config, s: State, l: Label)
    requires Enabled(c, s, l) && Counted(c, s) && Bounded(c, s)
    ensures Bounded(c, Do(c, s, l))
  {
    CountAtMost(s.workers, Busy);
    if l.Decrement? {
      assert Busy(s.workers[l.w]) > 0;
      CountPositive(s.workers, Busy);
    }
  }

  lemma CapacityStep(c: Config, s: State, l: Label)
    requires Enabled(c, s, l) && CapacityOk(c, s)
    ensures CapacityOk(c, Do(c, s, l)) && s.capacity <= Do(c, s, l).capacity
  {
  }

  lemma OccAppend(q: seq<nat>, y: nat, x: nat)
    ensures Occ(q + [y], x) == Occ(q, x) + if y == x then 1 else 0
  {
    OccConcat(q, [y], x);
  }

  lemma DrawOutOcc(q: seq<nat>, rands: seq<nat>, k: nat, x: nat)
    requires k <= |q| && k <= |rands|
    ensures Occ(q, x) == Occ(DrawOut(q, rands, k).0, x) + Occ(DrawOut(q, rands, k).1, x)
  {
    var (rest, out) := DrawOut(q, rands, k);
    DrawOutKeeps(q, rands, k);
    OccIsMultiplicity(q, x);
    OccIsMultiplicity(rest, x);
    OccIsMultiplicity(out, x);
  }

  /** A dropped request leaves the queue or the acceptor's hand for the dropped log. */
  lemma OverloadConserves(c: Config, s: State, rands: seq<nat>, x: nat)
    requires Enabled(c, s, Overload(rands))
    ensures var s' := HandleOverload(c, s, rands);
            InMainHand(s'.main, x) + Occ(s'.queue, x) + Occ(s'.dropped, x)
            == InMainHand(s.main, x) + Occ(s.queue, x) + Occ(s.dropped, x)
  {
    if c.policy.Random? && s.queue != [] {
      DrawOutOcc(s.queue, rands, |s.queue| / 2, x);
      OccConcat(s.dropped, DrawOut(s.queue, rands, |s.queue| / 2).1, x);
    } else if c.policy.DropHead? && s.queue != [] {
      OccAppend(s.dropped, s.queue[0], x);
    } else {
      OccAppend(s.dropped, s.main.id, x);
    }
  }

  lemma AccountedMain(c: Config, s: State, l: Label, x: nat)
    requires Enabled(c, s, l) && Accounted(s, x) && !MovesWorker(l)
    ensures Accounted(Do(c, s, l), x)
  {
    match l
    case Overload(rands) => AccountedOverload(c, s, rands, x);
    case CloseFlushed => OccAppend(s.dropped, s.main.id, x);
    case Enqueue => OccAppend(s.queue, s.main.id, x);
    case _ =>
  }

  lemma AccountedOverload(c: Config, s: State, rands: seq<nat>, x: nat)
    requires Enabled(c, s, Overload(rands)) && Accounted(s, x)
    ensures Accounted(HandleOverload(c, s, rands), x)
  {
    OverloadFrame(c, s, rands);
    OverloadConserves(c, s, rands, x);
    AccountedFrom(s, HandleOverload(c, s, rands), x);
  }

  lemma OverloadFrame(c: Config, s: State, rands: seq<nat>)
    requires Enabled(c, s, Overload(rands))
    ensures var s' := HandleOverload(c, s, rands);
            && s'.workers == s.workers && s'.arrived == s.arrived
            && s'.dispatched == s.dispatched && s'.finished == s.finished
  {
  }

  lemma AccountedFrom(s: State, s': State, x: nat)
    requires Accounted(s, x) && s'.workers == s.workers && s'.arrived == s.arrived
    requires s'.dispatched == s.dispatched && s'.finished == s.finished
    requires InMainHand(s'.main, x) + Occ(s'.queue, x) + Occ(s'.dropped, x)
             == InMainHand(s.main, x) + Occ(s.queue, x) + Occ(s.dropped, x)
    ensures Accounted(s', x)
  {
  }

  lemma AccountedWorker(c: Config, s: State, l: Label, x: nat)
    requires Enabled(c, s, l) && Accounted(s, x) && MovesWorker(l)
    ensures Accounted(Do(c, s, l), x)
  {
    WorkersAfter(c, s, l);
    HandsPut(s.workers, l.w, NewPc(s, l), x);
    if l.Dequeue? && s.queue != [] {
      OccAppend(s.dispatched, s.queue[0], x);
    } else if l.CloseServed? {
      OccAppend(s.finished, s.workers[l.w].id, x);
    }
  }

  lemma ConservedStep(c: Config, s: State, l: Label)
    requires Enabled(c, s, l) && Conserved(s)
    ensures Conserved(Do(c, s, l))
  {
    forall x: nat ensures Accounted(Do(c, s, l), x) {
      assert Accounted(s, x);
      if MovesWorker(l) { AccountedWorker(c, s, l, x); } else { AccountedMain(c, s, l, x); }
    }
  }

  lemma SubsequenceOrdered(pre: seq<nat>, t: seq<nat>, q: seq<nat>, bound: nat)
    requires Subsequence(t, q) && Ordered(pre + q, bound)
    ensures Ordered(pre + t, bound)
  {
    var at: seq<nat> :| EmbedsAt(t, q, at);
    var f := seq(|pre + t|, i requires 0 <= i < |pre + t| => if i < |pre| then i else |pre| + at[i - |pre|]);
    assert forall i | 0 <= i < |pre + t| :: f[i] < |pre + q| && (pre + t)[i] == (pre + q)[f[i]];
    assert forall i, j | 0 <= i < j < |pre + t| :: f[i] < f[j];
  }

  lemma TailIsSubsequence(q: seq<nat>)
    requires q != []
    ensures Subsequence(q[1..], q)
  {
    RemoveAtEmbeds(q, 0);
    assert RemoveAt(q, 0) == q[1..];
  }

  lemma OverloadSubsequence(c: Config, s: State, rands: seq<nat>)
    requires Enabled(c, s, Overload(rands))
    ensures Subsequence(HandleOverload(c, s, rands).queue, s.queue)
  {
    var q := s.queue;
    if c.policy.Random? && q != [] {
      DrawOutKeeps(q, rands, |q| / 2);
    } else if c.policy.DropHead? && q != [] {
      TailIsSubsequence(q);
    } else {
      SubsequenceSelf(q);
    }
  }

  lemma OverloadInOrder(c: Config, s: State, rands: seq<nat>)
    requires Enabled(c, s, Overload(rands)) && InOrder(s)
    ensures InOrder(HandleOverload(c, s, rands))
  {
    OverloadSubsequence(c, s, rands);
    SubsequenceOrdered(s.dispatched, HandleOverload(c, s, rands).queue, s.queue, s.main.id);
    SubsequenceOrdered(s.dispatched, HandleOverload(c, s, rands).queue, s.queue, s.arrived);
  }

  lemma InOrderStep(c: Config, s: State, l: Label)
    requires Enabled(c, s, l) && InOrder(s)
    ensures InOrder(Do(c, s, l))
  {
    match l
    case Overload(rands) => OverloadInOrder(c, s, rands);
    case Dequeue(w) =>
      if s.queue != [] {
        assert s.dispatched + [s.queue[0]] + s.queue[1..] == s.dispatched + s.queue;
      }
    case Enqueue =>
      assert s.dispatched + (s.queue + [s.main.id]) == s.dispatched + s.queue + [s.main.id];
    case _ =>
  }

  // ----- safety over whole runs

  ghost predicate Inv(c: Config, s: State) {
    && Counted(c, s) && WorkConserving(s) && NoLostWakeup(c, s) && Bounded(c, s) && CapacityOk(c, s)
    && Conserved(s) && InOrder(s)
  }

  lemma {:induction false} CountZero(ws: seq<Worker>, f: Worker -> nat)
    requires forall i | 0 <= i < |ws| :: f(ws[i]) == 0
    ensures Count(ws, f) == 0
    decreases ws
  {
    if ws != [] { CountZero(ws[1..], f); }
  }

  lemma {:induction false} HandsEmpty(ws: seq<Worker>, x: nat)
    requires forall i | 0 <= i < |ws| :: ws[i].Trying?
    ensures InHands(ws, x) == 0
    decreases ws
  {
    if ws != [] { HandsEmpty(ws[1..], x); }
  }

  lemma InitHolds(c: Config)
    ensures Inv(c, Init(c))
  {
    var s := Init(c);
    CountZero(s.workers, Busy);
    CountZero(s.workers, Sleeping);
    forall x: nat ensures Accounted(s, x) { HandsEmpty(s.workers, x); }
  }

  lemma StepHolds(c: Config, s: State, l: Label)
    requires Inv(c, s) && Enabled(c, s, l)
    ensures Inv(c, Do(c, s, l))
  {
    CountedStep(c, s, l);
    WorkConservingStep(c, s, l);
    NoLostWakeupStep(c, s, l);
    BoundedStep(c, s, l);
    CapacityStep(c, s, l);
    ConservedStep(c, s, l);
    InOrderStep(c, s, l);
  }

  lemma {:induction false} TraceHolds(c: Config, ss: seq<State>, ls: seq<Label>, i: nat)
    requires Trace(c, ss, ls) && i < |ss|
    ensures Inv(c, ss[i])
    decreases i
  {
    if i == 0 {
      InitHolds(c);
    } else {
      TraceHolds(c, ss, ls, i - 1);
      StepHolds(c, ss[i - 1], ls[i - 1]);
    }
  }

  /** Every invariant holds in every reachable state, under every policy and schedule. */
  lemma ReachableHolds(c: Config, s: State)
    requires Reachable(c, s)
    ensures Inv(c, s)
  {
    var ss, ls :| Trace(c, ss, ls) && s == ss[|ls|];
    TraceHolds(c, ss, ls, |ls|);
  }

  /** The next step of an awake worker. */
  function NextOf(p: Worker, w: nat): Label {
    match p
    case Serving(_) => Decrement(w)
    case Leaving(_) => Signal2(w)
    case Closing(_) => CloseServed(w)
    case _ => Dequeue(w)
  }

  /** Worker w is awake and its next step is enabled. */
  ghost predicate CanMove(c: Config, s: State, w: nat) {
    && IsAt(s, w) && !s.workers[w].Asleep?
    && MovesWorker(NextOf(s.workers[w], w)) && Enabled(c, s, NextOf(s.workers[w], w))
  }

  /** The acceptor waits for the workers while every worker waits for the acceptor. */
  ghost predicate Deadlocked(s: State) {
    s.main.Asleep2? && forall i | 0 <= i < |s.workers| :: s.workers[i].Asleep?
  }

  /** Outside `block` with a capacity below one, whenever the acceptor sleeps some worker is awake and has a step to
      take. */
  lemma NoDeadlock(c: Config, s: State)
    requires Reachable(c, s) && c.threads > 0 && !(c.policy.Block? && c.queueSize <= 0)
    ensures !Deadlocked(s)
    ensures s.main.Asleep2? ==> exists w: nat :: CanMove(c, s, w)
  {
    ReachableHolds(c, s);
    if Deadlocked(s) {
      assert Sleeping(s.workers[0]) > 0;
      CountPositive(s.workers, Sleeping);
      CountZero(s.workers, Heading);
      CountZero(s.workers, Busy);
      CountZero(s.workers, Departing);
      assert false;
    }
    if s.main.Asleep2? {
      var w: nat :| w < |s.workers| && !s.workers[w].Asleep?;
      assert CanMove(c, s, w);
    }
  }

  lemma ReachStep(c: Config, s: State, l: Label)
    requires Reachable(c, s) && Enabled(c, s, l)
    ensures Reachable(c, Do(c, s, l))
  {
    var ss, ls :| Trace(c, ss, ls) && s == ss[|ls|];
    var ss', ls' := ss + [Do(c, s, l)], ls + [l];
    forall i | 0 <= i < |ls'| ensures Enabled(c, ss'[i], ls'[i]) && ss'[i + 1] == Do(c, ss'[i], ls'[i]) {
      if i < |ls| { assert Enabled(c, ss[i], ls[i]); }
    }
    assert Trace(c, ss', ls');
  }

  lemma ReachInit(c: Config)
    ensures Reachable(c, Init(c))
  {
    assert Trace(c, [Init(c)], []);
  }

  /** The pool after the first n workers found the queue empty. */
  function FirstAsleep(c: Config, n: nat): State {
    Init(c).(workers := seq(c.threads, i => if i < n then Asleep else Trying))
  }

  lemma {:induction false} SleepersReachable(c: Config, n: nat)
    requires n <= c.threads
    ensures Reachable(c, FirstAsleep(c, n))
    decreases n
  {
    if n == 0 {
      assert FirstAsleep(c, 0).workers == Init(c).workers;
      ReachInit(c);
    } else {
      SleepersReachable(c, n - 1);
      var s := FirstAsleep(c, n - 1);
      assert s.workers[n - 1 := Asleep] == FirstAsleep(c, n).workers;
      ReachStep(c, s, Dequeue(n - 1));
    }
  }

  /** A deadlock is reachable exactly under `block` with a capacity below one. */
  lemma DeadlockIff(c: Config)
    requires c.threads > 0
    ensures (exists s :: Reachable(c, s) && Deadlocked(s)) <==> c.policy.Block? && c.queueSize <= 0
  {
    if c.policy.Block? && c.queueSize <= 0 {
      SleepersReachable(c, c.threads);
      var s0 := FirstAsleep(c, c.threads);
      ReachStep(c, s0, Accept);
      var s1 := Do(c, s0, Accept);
      ReachStep(c, s1, Check);
      var s2 := Do(c, s1, Check);
      ReachStep(c, s2, Overload([]));
      assert Deadlocked(Do(c, s2, Overload([])));
    } else if s :| Reachable(c, s) && Deadlocked(s) {
      NoDeadlock(c, s);
    }
  }

  // ----- the greatest load

  /** The acceptor is idle and no worker sleeps. */
  ghost predicate Idle(c: Config, s: State) {
    Reachable(c, s) && s.main.Accepting? && forall i | 0 <= i < |s.workers| :: !s.workers[i].Asleep?
  }

  /** One request more is queued; nothing else of what matters for the load has changed. */
  ghost predicate OneMore(s: State, s': State) {
    |s'.queue| == |s.queue| + 1 && s'.working == s.working && s'.capacity == s.capacity && s'.workers == s.workers
  }

  /** A request that arrives below capacity is queued. */
  lemma Admit(c: Config, s: State) returns (s': State)
    requires Idle(c, s) && Load(s) < s.capacity
    ensures Idle(c, s') && OneMore(s, s')
  {
    ReachStep(c, s, Accept);
    var s1 := Do(c, s, Accept);
    ReachStep(c, s1, Check);
    s' := Enter(c, Do(c, s1, Check));
  }

  /** A request that the acceptor is about to enqueue, with no worker to wake. */
  lemma Enter(c: Config, s: State) returns (s': State)
    requires Reachable(c, s) && s.main.Admitting? && forall i | 0 <= i < |s.workers| :: !s.workers[i].Asleep?
    ensures Idle(c, s') && OneMore(s, s')
  {
    ReachStep(c, s, Enqueue);
    var s1 := Do(c, s, Enqueue);
    ReachStep(c, s1, SignalNone);
    s' := Do(c, s1, SignalNone);
  }

  /** A request that arrives at capacity goes to handle_overloading. */
  lemma Arrive(c: Config, s: State) returns (s': State)
    requires Idle(c, s) && Load(s) >= s.capacity
    ensures Reachable(c, s') && s' == s.(main := Overloaded(s.arrived), arrived := s.arrived + 1)
  {
    ReachStep(c, s, Accept);
    var s1 := Do(c, s, Accept);
    ReachStep(c, s1, Check);
    s' := Do(c, s1, Check);
  }

  /** Half of a queue of one, rounded down, is nothing: `random` then admits a request whatever the capacity. */
  lemma AdmitBesideOne(c: Config, s: State) returns (s': State)
    requires c.policy.Random? && Idle(c, s) && |s.queue| == 1
    ensures Idle(c, s') && OneMore(s, s')
  {
    if Load(s) < s.capacity {
      s' := Admit(c, s);
    } else {
      var s1 := Arrive(c, s);
      ReachStep(c, s1, Overload([0]));
      s' := Enter(c, Do(c, s1, Overload([0])));
    }
  }

  /** Under `dynamic` a request that arrives at capacity raises the capacity while it is below the maximum. */
  lemma Raise(c: Config, s: State) returns (s': State)
    requires c.policy.Dynamic? && Idle(c, s) && Load(s) >= s.capacity && s.capacity < c.maxSize
    ensures Idle(c, s') && s'.queue == s.queue && s'.working == s.working && s'.capacity == s.capacity + 1
  {
    var s1 := Arrive(c, s);
    ReachStep(c, s1, Overload([]));
    s' := Do(c, s1, Overload([]));
  }

  lemma Started(c: Config)
    ensures Idle(c, Init(c))
  {
    ReachInit(c);
  }

  /** The queue can be filled up to the capacity. */
  lemma {:induction false} Fill(c: Config, n: nat) returns (s: State)
    requires n <= Max(0, c.queueSize)
    ensures Idle(c, s) && |s.queue| == n && s.working == 0 && s.capacity == c.queueSize
  {
    if n == 0 {
      Started(c);
      s := Init(c);
    } else {
      s := Fill(c, n - 1);
      s := Admit(c, s);
    }
  }

  /** Under `dynamic` the queue can be filled up to every capacity on the way to the maximum. */
  lemma {:induction false} FillDynamic(c: Config, cap: int) returns (s: State)
    requires c.policy.Dynamic? && c.queueSize <= cap <= Max(c.queueSize, c.maxSize)
    ensures Idle(c, s) && |s.queue| == Max(0, cap) && s.working == 0 && s.capacity == cap
    decreases cap - c.queueSize
  {
    if cap == c.queueSize {
      s := Fill(c, Max(0, cap));
    } else {
      s := FillDynamic(c, cap - 1);
      s := Raise(c, s);
      if cap > 0 { s := Admit(c, s); }
    }
  }

  /** The first n workers are serving, the others have not yet looked at the queue, and one request is queued. */
  ghost predicate Served(c: Config, s: State, n: nat) {
    && Idle(c, s) && s.working == n && |s.queue| == 1
    && |s.workers| == c.threads && forall i | n <= i < |s.workers| :: s.workers[i].Trying?
  }

  /** Under `random` every worker can be kept busy while one request stays queued, whatever the capacity. */
  lemma {:induction false} ServeAll(c: Config, n: nat) returns (s: State)
    requires c.policy.Random? && c.queueSize >= 1 && n <= c.threads
    ensures Served(c, s, n)
  {
    if n == 0 {
      Started(c);
      s := Admit(c, Init(c));
    } else {
      s := ServeAll(c, n - 1);
      s := AdmitBesideOne(c, s);
      ReachStep(c, s, Dequeue(n - 1));
      s := Do(c, s, Dequeue(n - 1));
    }
  }

  /** The greatest load. Random drops half of the queue rounded down, so that with all workers busy it still admits a
      request beside a queue of one. */
  function Ceiling(c: Config): int {
    match c.policy
    case Random => if c.queueSize <= 0 then 0 else Max(c.queueSize, c.threads + 2)
    case Dynamic => Max(0, Max(c.queueSize, c.maxSize))
    case _ => Max(0, c.queueSize)
  }

  lemma CeilingReached(c: Config) returns (s: State)
    ensures Reachable(c, s) && Load(s) == Ceiling(c)
  {
    if c.policy.Random? && 0 < c.queueSize < c.threads + 2 {
      s := ServeAll(c, c.threads);
      s := AdmitBesideOne(c, s);
    } else if c.policy.Dynamic? {
      s := FillDynamic(c, Max(c.queueSize, c.maxSize));
    } else {
      s := Fill(c, Max(0, c.queueSize));
    }
  }

  /** Under every policy the greatest load over all reachable states is exactly the ceiling. */
  lemma GreatestLoad(c: Config)
    ensures forall s | Reachable(c, s) :: Load(s) <= Ceiling(c)
    ensures exists s :: Reachable(c, s) && Load(s) == Ceiling(c)
  {
    forall s | Reachable(c, s) ensures Load(s) <= Ceiling(c) {
      ReachableHolds(c, s);
      if c.policy.Random? && c.queueSize <= 0 { RandomNothingAdmitted(c, s); }
    }
    var s := CeilingReached(c);
  }

  lemma RandomNothingAdmitted(c: Config, s: State)
    requires c.policy.Random? && c.queueSize <= 0 && Reachable(c, s)
    ensures Load(s) == 0
  {
    var ss, ls :| Trace(c, ss, ls) && s == ss[|ls|];
    NothingAdmitted(c, ss, ls, |ls|);
  }

  /** Nothing is queued, served or about to be. */
  ghost predicate Empty(s: State) {
    s.queue == [] && s.working == 0 && !s.main.Admitting?
  }

  lemma EmptyStep(c: Config, s: State, l: Label)
    requires c.policy.Random? && s.capacity <= 0 && Counted(c, s) && Empty(s) && Enabled(c, s, l)
    ensures Empty(Do(c, s, l))
  {
    if l.Decrement? {
      assert Busy(s.workers[l.w]) > 0;
      CountPositive(s.workers, Busy);
    }
  }

  lemma {:induction false} NothingAdmitted(c: Config, ss: seq<State>, ls: seq<Label>, i: nat)
    requires c.policy.Random? && c.queueSize <= 0 && Trace(c, ss, ls) && i < |ss|
    ensures Empty(ss[i])
    decreases i
  {
    if i > 0 {
      NothingAdmitted(c, ss, ls, i - 1);
      TraceHolds(c, ss, ls, i - 1);
      EmptyStep(c, ss[i - 1], ls[i - 1]);
    }
  }

  /** Under `random` the load can exceed the capacity exactly when the capacity is between 1 and the number of
      threads plus one. */
  lemma RandomExceedsIff(c: Config)
    requires c.policy.Random?
    ensures (exists s :: Reachable(c, s) && Load(s) > Max(0, c.queueSize)) <==> 1 <= c.queueSize <= c.threads + 1
  {
    GreatestLoad(c);
  }

  /** The bf policy closes the connection it held only when the queue is empty and no worker is busy. */
  lemma FlushClosesIdle(c: Config, s: State, w: nat)
    requires Reachable(c, s) && s.main.Flushed? && w < |s.workers|
    ensures s.queue == [] && !s.workers[w].Serving?
  {
    ReachableHolds(c, s);
    CountPositive(s.workers, Busy);
    assert s.workers[w].Serving? ==> Busy(s.workers[w]) > 0;
  }

  /** Which request each policy drops: a refused one is the newest of all, `dh` drops the oldest queued one, and
      `random` drops half of the queue rounded down. */
  lemma WhatIsDropped(c: Config, s: State, rands: seq<nat>)
    requires Reachable(c, s) && Enabled(c, s, Overload(rands))
    ensures var s' := Do(c, s, Overload(rands));
            && s.dropped <= s'.dropped
            && (s'.main.Accepting? ==>
                  |s'.dropped| == |s.dropped| + 1 && s'.queue == s.queue
                  && forall x | x in s.queue :: x < s'.dropped[|s.dropped|])
            && (c.policy.DropHead? && s'.main.Admitting? ==>
                  |s'.dropped| == |s.dropped| + 1 && |s'.queue| == |s.queue| - 1
                  && forall x | x in s'.queue :: s'.dropped[|s.dropped|] < x)
            && (c.policy.Random? && s'.main.Admitting? ==>
                  |s'.dropped| == |s.dropped| + |s.queue| / 2 && |s'.queue| == |s.queue| - |s.queue| / 2)
  {
    ReachableHolds(c, s);
    var d := s.dispatched;
    forall x | x in s.queue ensures x < s.main.id {
      var i :| 0 <= i < |s.queue| && s.queue[i] == x;
      assert (d + s.queue)[|d| + i] == x;
    }
    forall x | s.queue != [] && x in s.queue[1..] ensures s.queue[0] < x {
      var i :| 0 <= i < |s.queue[1..]| && s.queue[1..][i] == x;
      assert (d + s.queue)[|d|] == s.queue[0] && (d + s.queue)[|d| + i + 1] == x;
    }
  }

  /** x is the one request of the queue that arrived first. */
  ghost predicate Oldest(x: nat, q: seq<nat>) {
    x in q && forall y | y in q :: x <= y
  }

  lemma HeadIsOldest(c: Config, s: State)
    requires Reachable(c, s) && s.queue != []
    ensures Oldest(s.queue[0], s.queue)
    ensures forall y :: y in s.queue[1..] <==> y in s.queue && y != s.queue[0]
  {
    ReachableHolds(c, s);
    var d, q := s.dispatched, s.queue;
    forall i | 0 < i < |q| ensures q[0] < q[i] {
      assert (d + q)[|d|] == q[0] && (d + q)[|d| + i] == q[i];
    }
    assert q == [q[0]] + q[1..];
  }

  /** What handle_overloading does with the request in the acceptor's hand, told by the policy and the state before:
      `block` waits exactly while the load is at the capacity and then admits; `bf` waits exactly while there is any
      load and never admits; `dt` and `dynamic` refuse; `dh` and `random` refuse on an empty queue and otherwise
      admit, `dh` at the expense of exactly the oldest queued request. */
  lemma OverloadOutcome(c: Config, s: State, rands: seq<nat>)
    requires Reachable(c, s) && Enabled(c, s, Overload(rands))
    ensures var s', id, load := Do(c, s, Overload(rands)), s.main.id, |s.queue| + Count(s.workers, Busy);
            match c.policy
            case Block =>
              && s'.main == (if load >= c.queueSize then Asleep2(id) else Admitting(id))
              && s'.queue == s.queue && s'.dropped == s.dropped
            case BlockFlush =>
              && s'.main == (if load > 0 then Asleep2(id) else Flushed(id))
              && s'.queue == s.queue && s'.dropped == s.dropped
            case DropHead =>
              if s.queue == [] then s'.main == Accepting && s'.dropped == s.dropped + [id]
              else
                && s'.main == Admitting(id)
                && exists x :: Oldest(x, s.queue) && s'.dropped == s.dropped + [x]
                               && forall y :: y in s'.queue <==> y in s.queue && y != x
            case Random =>
              if s.queue == [] then s'.main == Accepting && s'.dropped == s.dropped + [id]
              else s'.main == Admitting(id) && |s'.queue| == |s.queue| - |s.queue| / 2
            case _ => s'.main == Accepting && s'.queue == s.queue && s'.dropped == s.dropped + [id]
  {
    ReachableHolds(c, s);
    if s.queue != [] { HeadIsOldest(c, s); }
  }

  /** Under `block` no step drops a request. */
  ghost predicate Patient(s: State) {
    s.dropped == [] && !s.main.Flushed?
  }

  lemma PatientStep(c: Config, s: State, l: Label)
    requires c.policy.Block? && Patient(s) && Enabled(c, s, l)
    ensures Patient(Do(c, s, l))
  {
  }

  lemma {:induction false} TraceIsPatient(c: Config, ss: seq<State>, ls: seq<Label>, i: nat)
    requires c.policy.Block? && Trace(c, ss, ls) && i < |ss|
    ensures Patient(ss[i])
    decreases i
  {
    if i > 0 {
      TraceIsPatient(c, ss, ls, i - 1);
      PatientStep(c, ss[i - 1], ls[i - 1]);
    }
  }

  /** Under `block` nothing is ever dropped: every request that arrived is in the acceptor's hand, queued, with a
      worker, or finished. */
  lemma BlockLosesNothing(c: Config, s: State, x: nat)
    requires Reachable(c, s) && c.policy.Block?
    ensures s.dropped == []
    ensures x < s.arrived <==> InMainHand(s.main, x) + InHands(s.workers, x) > 0 || x in s.queue || x in s.finished
  {
    var ss, ls :| Trace(c, ss, ls) && s == ss[|ls|];
    TraceIsPatient(c, ss, ls, |ls|);
    ReachableHolds(c, s);
    assert Accounted(s, x);
    OccIsMultiplicity(s.queue, x);
    OccIsMultiplicity(s.finished, x);
  }

  /** A request that was dropped is never dispatched, and no request is closed twice. */
  lemma DroppedNeverDispatched(c: Config, s: State, x: nat)
    requires Reachable(c, s)
    ensures multiset(s.dropped)[x] + multiset(s.finished)[x] <= 1
    ensures x in s.dropped ==> x !in s.dispatched && x !in s.queue
  {
    ReachableHolds(c, s);
    assert Accounted(s, x);
    OccIsMultiplicity(s.dropped, x);
    OccIsMultiplicity(s.finished, x);
    OccIsMultiplicity(s.dispatched, x);
    OccIsMultiplicity(s.queue, x);
  }
}

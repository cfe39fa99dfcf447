/**
 * bounded_blocking_queue. The bodies that run under the mutex are methods on the ring; the queue as its threads see it
 * is a step system, in which a body is one step and the notify_one that follows the unlock is another, later one.
 */
module BlockingQueue {
  import opened Basics
  import opened CircularQueue

  /** A call a thread makes; the two `For` calls give up after a timeout. */
  datatype Call<T> =
    | Enqueue(item: T) | EnqueueFor(item: T) | EnqueueNowait(item: T)
    | Dequeue | DequeueFor
  {
    predicate Produces() { Enqueue? || EnqueueFor? || EnqueueNowait? }
    predicate MayTimeOut() { EnqueueFor? || DequeueFor? }
  }

  /** Whether the predicate the call waits for is false. */
  predicate MustWait<T>(r: Ring<T>, call: Call<T>) {
    match call
    case EnqueueNowait(_) => false
    case Enqueue(_) => r.Full()
    case EnqueueFor(_) => r.Full()
    case Dequeue => r.items == []
    case DequeueFor => r.items == []
  }

  function Served<T>(r: Ring<T>, call: Call<T>): Ring<T>
    requires !MustWait(r, call)
  {
    if call.Produces() then r.Push(call.item) else r.Pop()
  }

  class BoundedBlockingQueue<T(0)> {
    const queue_: CircularQueue<T>

    ghost predicate Valid()
      reads this, queue_
    {
      queue_.Enabled()
    }

    constructor (max_size: nat)
      ensures Valid() && fresh(queue_) && fresh(queue_.vec_) && queue_.Contents() == Ring(max_size, [], 0)
    {
      queue_ := new CircularQueue<T>(max_size);
    }

    /** What enqueue, enqueue_for and enqueue_nowait do under the mutex once or instead of waiting. */
    method LockedEnqueue(call: Call<T>) returns (done: bool)
      requires Valid() && call.Produces()
      modifies queue_, queue_.vec_
      ensures Valid() && queue_.vec_ == old(queue_.vec_)
      ensures done == !MustWait(old(queue_.Contents()), call)
      ensures queue_.Contents() == if done then Served(old(queue_.Contents()), call) else old(queue_.Contents())
    {
      if !call.EnqueueNowait? {
        var full := queue_.Full();
        if full { return false; }
      }
      queue_.PushBack(call.item);
      return true;
    }

    /** What dequeue and dequeue_for do. */
    method LockedDequeue(call: Call<T>) returns (popped_item: Option<T>)
      requires Valid() && !call.Produces()
      modifies queue_
      ensures Valid() && queue_.vec_ == old(queue_.vec_)
      ensures popped_item.None? == MustWait(old(queue_.Contents()), call)
      ensures popped_item.Some? ==> popped_item.value == old(queue_.Contents()).items[0]
      ensures queue_.Contents() == if popped_item.Some? then Served(old(queue_.Contents()), call) else old(queue_.Contents())
    {
      var empty := queue_.Empty();
      if empty { return None; }
      var item := queue_.Front();
      queue_.PopFront();
      return Some(item);
    }
  }

  /** Where a thread stands. A waiter that left the wait has still to take the mutex and look again. */
  datatype Phase<T> =
    | Idle
    | Blocked(call: Call<T>)
    | Notified(call: Call<T>)
    | Spurious(call: Call<T>)
    | TimedOut(call: Call<T>)
    | MustNotify(call: Call<T>)

  /** How an item left the queue. */
  datatype Exit<T> = Taken(item: T) | Dropped(item: T)

  /** The ring, the threads, and what has gone in and come out so far. */
  datatype State<T> = State(ring: Ring<T>, threads: map<nat, Phase<T>>, pushed: seq<T>, gone: seq<Exit<T>>)

  datatype Step<T> =
    | Begin(thread: nat, call: Call<T>)
    | Resume(thread: nat)
    | Notify(thread: nat, waiter: Option<nat>)
    | WakeSpuriously(thread: nat)
    | TimeOut(thread: nat)

  predicate BlockedOn<T>(p: Phase<T>, producers: bool) { p.Blocked? && p.call.Produces() == producers }
  predicate NotifiedOf<T>(p: Phase<T>, producers: bool) { p.Notified? && p.call.Produces() == producers }
  predicate Notifying<T>(p: Phase<T>, producers: bool) { p.MustNotify? && p.call.Produces() != producers }

  predicate Enabled<T>(s: State<T>, step: Step<T>) {
    step.thread in s.threads &&
    var p := s.threads[step.thread];
    match step
    case Begin(_, _) => p.Idle?
    case Resume(_) => p.Notified? || p.Spurious? || p.TimedOut?
    case WakeSpuriously(_) => p.Blocked?
    case TimeOut(_) => p.Blocked? && p.call.MayTimeOut()
    case Notify(_, waiter) =>
      p.MustNotify? &&
      match waiter
      case Some(w) => w in s.threads && BlockedOn(s.threads[w], !p.call.Produces())
      case None => forall w :: w in s.threads ==> !BlockedOn(s.threads[w], !p.call.Produces())
  }

  function Exits<T>(r: Ring<T>, call: Call<T>): seq<Exit<T>>
    requires !MustWait(r, call)
  {
    if !call.Produces() then [Taken(r.items[0])]
    else if r.Full() then [Dropped((r.items + [call.item])[0])]
    else []
  }

  /** A locked body: the call is served, or its thread waits, or gives up if its time is over. */
  function Body<T>(s: State<T>, t: nat, call: Call<T>, timedOut: bool): State<T> {
    if MustWait(s.ring, call) then
      s.(threads := s.threads[t := if timedOut then Idle else Blocked(call)])
    else
      State(Served(s.ring, call), s.threads[t := MustNotify(call)],
            if call.Produces() then s.pushed + [call.item] else s.pushed, s.gone + Exits(s.ring, call))
  }

  function Apply<T>(s: State<T>, step: Step<T>): State<T>
    requires Enabled(s, step)
  {
    var p := s.threads[step.thread];
    match step
    case Begin(t, call) => Body(s, t, call, false)
    case Resume(t) => Body(s, t, p.call, p.TimedOut?)
    case WakeSpuriously(t) => s.(threads := s.threads[t := Spurious(p.call)])
    case TimeOut(t) => s.(threads := s.threads[t := TimedOut(p.call)])
    case Notify(t, waiter) =>
      var threads := s.threads[t := Idle];
      s.(threads := if waiter.Some? then threads[waiter.value := Notified(s.threads[waiter.value].call)] else threads)
  }

  predicate Initial<T>(s: State<T>) {
    s.ring.items == [] && s.ring.overrun == 0 && s.pushed == [] && s.gone == [] && forall t :: t in s.threads ==> s.threads[t] == Idle
  }

  /** The steps, taken in order from `s`, are all enabled. */
  predicate Runs<T>(s: State<T>, steps: seq<Step<T>>)
    decreases |steps|
  {
    steps == [] || (Enabled(s, steps[0]) && Runs(Apply(s, steps[0]), steps[1..]))
  }

  function After<T>(s: State<T>, steps: seq<Step<T>>): State<T>
    requires Runs(s, steps)
    decreases |steps|
  {
    if steps == [] then s else After(Apply(s, steps[0]), steps[1..])
  }

  /** The threads that stand where `at` says. */
  ghost function Where<T>(threads: map<nat, Phase<T>>, at: Phase<T> -> bool): set<nat> {
    set t | t in threads && at(threads[t])
  }

  ghost function Count<T>(threads: map<nat, Phase<T>>, at: Phase<T> -> bool): nat { |Where(threads, at)| }

  ghost function Ones(b: bool): nat { if b then 1 else 0 }

  /** The other threads stand where they stood. */
  lemma OthersStay<T>(threads: map<nat, Phase<T>>, t: nat, p: Phase<T>, at: Phase<T> -> bool)
    ensures Where(threads[t := p], at) - {t} == Where(threads, at) - {t}
  {
  }

  lemma WhereHas<T>(threads: map<nat, Phase<T>>, t: nat, at: Phase<T> -> bool)
    requires t in threads
    ensures t in Where(threads, at) <==> at(threads[t])
  {
  }

  lemma CountOne(s: set<nat>, t: nat)
    ensures |s| == |s - {t}| + Ones(t in s)
  {
    if t in s { assert s == (s - {t}) + {t}; } else { assert s == s - {t}; }
  }

  lemma CountUpdate<T>(threads: map<nat, Phase<T>>, t: nat, p: Phase<T>, at: Phase<T> -> bool)
    requires t in threads
    ensures Count(threads[t := p], at) + Ones(at(threads[t])) == Count(threads, at) + Ones(at(p))
  {
    hide Where;
    OthersStay(threads, t, p, at);
    WhereHas(threads, t, at);
    WhereHas(threads[t := p], t, at);
    CountOne(Where(threads, at), t);
    CountOne(Where(threads[t := p], at), t);
  }

  /** What one side may take at once: items for consumers, free slots for producers. */
  ghost function Room<T>(r: Ring<T>, producers: bool): int {
    if producers then r.max - |r.items| else |r.items|
  }

  /** If anyone of this side sleeps, the wake-ups on their way cover all there is to take. */
  ghost predicate Covered<T>(s: State<T>, producers: bool) {
    (exists t :: t in s.threads && BlockedOn(s.threads[t], producers)) ==>
      Room(s.ring, producers) <= InFlight(s.threads, producers)
  }

  ghost function InFlight<T>(threads: map<nat, Phase<T>>, producers: bool): nat {
    Count(threads, p => Notifying(p, producers)) + Count(threads, p => NotifiedOf(p, producers))
  }

  function ItemsOf<T>(exits: seq<Exit<T>>): seq<T> {
    if exits == [] then [] else [exits[0].item] + ItemsOf(exits[1..])
  }

  function Drops<T>(exits: seq<Exit<T>>): nat {
    if exits == [] then 0 else (if exits[0].Dropped? then 1 else 0) + Drops(exits[1..])
  }

  /** Only calls that may wait have left the mutex to wait, and only calls with a timeout have come to its end. */
  ghost predicate WaitersMayWait<T>(s: State<T>) {
    forall t :: t in s.threads ==>
      && (s.threads[t].Idle? || s.threads[t].MustNotify? || !s.threads[t].call.EnqueueNowait?)
      && (s.threads[t].TimedOut? ==> s.threads[t].call.EnqueueFor? || s.threads[t].call.DequeueFor?)
  }

  ghost predicate Inv<T>(s: State<T>) {
    && WaitersMayWait(s)
    && Covered(s, true) && Covered(s, false)
    && |s.ring.items| <= s.ring.max
    && s.pushed == ItemsOf(s.gone) + s.ring.items
    && s.ring.overrun == Drops(s.gone)
  }

  /** The wake-ups on their way after thread `t` moves to `p`. */
  lemma InFlightUpdate<T>(threads: map<nat, Phase<T>>, t: nat, p: Phase<T>, producers: bool)
    requires t in threads
    ensures InFlight(threads[t := p], producers) + Ones(Notifying(threads[t], producers)) + Ones(NotifiedOf(threads[t], producers))
         == InFlight(threads, producers) + Ones(Notifying(p, producers)) + Ones(NotifiedOf(p, producers))
  {
    CountUpdate(threads, t, p, q => Notifying(q, producers));
    CountUpdate(threads, t, p, q => NotifiedOf(q, producers));
  }

  lemma ExitsAppend<T>(a: seq<Exit<T>>, b: seq<Exit<T>>)
    ensures ItemsOf(a + b) == ItemsOf(a) + ItemsOf(b) && Drops(a + b) == Drops(a) + Drops(b)
    decreases |a|
  {
    if a == [] {
      assert a + b == b;
    } else {
      assert (a + b)[1..] == a[1..] + b;
      ExitsAppend(a[1..], b);
    }
  }

  /** What leaves the ring and what stays in it are what was in it and what came in. */
  lemma ServedExits<T>(r: Ring<T>, call: Call<T>)
    requires !MustWait(r, call) && |r.items| <= r.max
    ensures var e, r' := Exits(r, call), Served(r, call);
            && ItemsOf(e) + r'.items == r.items + (if call.Produces() then [call.item] else [])
            && r'.overrun == r.overrun + Drops(e) && |r'.items| <= r'.max
  {
    if !call.Produces() { assert r.items == [r.items[0]] + r.items[1..]; }
  }

  /** A body that is served keeps the books. */
  lemma ServedKeepsBooks<T>(s: State<T>, t: nat, call: Call<T>, timedOut: bool)
    requires t in s.threads && !MustWait(s.ring, call)
    requires |s.ring.items| <= s.ring.max && s.pushed == ItemsOf(s.gone) + s.ring.items && s.ring.overrun == Drops(s.gone)
    ensures var s' := Body(s, t, call, timedOut);
            && |s'.ring.items| <= s'.ring.max && s'.pushed == ItemsOf(s'.gone) + s'.ring.items && s'.ring.overrun == Drops(s'.gone)
  {
    hide Served, Exits, ItemsOf, Drops, MustWait;
    var r, e := s.ring, Exits(s.ring, call);
    ExitsAppend(s.gone, e);
    ServedExits(r, call);
    Assoc(ItemsOf(s.gone), ItemsOf(e), Served(r, call).items);
    Assoc(ItemsOf(s.gone), r.items, if call.Produces() then [call.item] else []);
    assert s.pushed + [] == s.pushed;
  }

  lemma ServedKeepsCover<T>(s: State<T>, t: nat, call: Call<T>, timedOut: bool, producers: bool)
    requires t in s.threads && Covered(s, producers) && !MustWait(s.ring, call) && |s.ring.items| <= s.ring.max
    requires !s.threads[t].MustNotify? && (s.threads[t].Notified? ==> s.threads[t].call == call)
    ensures Covered(Body(s, t, call, timedOut), producers)
  {
    var s' := Body(s, t, call, timedOut);
    InFlightUpdate(s.threads, t, MustNotify(call), producers);
    hide InFlight;
    assert forall u | u in s'.threads && BlockedOn(s'.threads[u], producers) :: u in s.threads && s'.threads[u] == s.threads[u];
  }

  lemma WaitKeepsCover<T>(s: State<T>, t: nat, call: Call<T>, timedOut: bool, producers: bool)
    requires t in s.threads && Covered(s, producers) && MustWait(s.ring, call) && |s.ring.items| <= s.ring.max
    requires !s.threads[t].MustNotify? && (s.threads[t].Notified? ==> s.threads[t].call == call)
    ensures Covered(Body(s, t, call, timedOut), producers)
  {
    var s' := Body(s, t, call, timedOut);
    InFlightUpdate(s.threads, t, if timedOut then Idle else Blocked(call), producers);
    hide InFlight;
    assert forall u | u in s'.threads && u != t && BlockedOn(s'.threads[u], producers) :: u in s.threads && s'.threads[u] == s.threads[u];
  }

  lemma NotifyKeepsCover<T>(s: State<T>, t: nat, waiter: Option<nat>, producers: bool)
    requires Enabled(s, Notify(t, waiter)) && Covered(s, producers)
    ensures Covered(Apply(s, Notify(t, waiter)), producers)
  {
    var s' := Apply(s, Notify(t, waiter));
    InFlightUpdate(s.threads, t, Idle, producers);
    if waiter.Some? {
      InFlightUpdate(s.threads[t := Idle], waiter.value, Notified(s.threads[waiter.value].call), producers);
    }
    hide InFlight;
    assert forall u | u in s'.threads && BlockedOn(s'.threads[u], producers) :: u in s.threads && s'.threads[u] == s.threads[u];
  }

  lemma LeaveKeepsCover<T>(s: State<T>, t: nat, p: Phase<T>, producers: bool)
    requires t in s.threads && s.threads[t].Blocked? && (p.Spurious? || p.TimedOut?) && Covered(s, producers)
    ensures Covered(s.(threads := s.threads[t := p]), producers)
  {
    InFlightUpdate(s.threads, t, p, producers);
    hide InFlight;
    var s' := s.(threads := s.threads[t := p]);
    assert forall u | u in s'.threads && BlockedOn(s'.threads[u], producers) :: u in s.threads && s'.threads[u] == s.threads[u];
  }

  /** Every step of every thread keeps the invariant. */
  lemma StepKeepsInv<T>(s: State<T>, step: Step<T>)
    requires Inv(s) && Enabled(s, step)
    ensures Inv(Apply(s, step)) && Apply(s, step).threads.Keys == s.threads.Keys && Apply(s, step).ring.max == s.ring.max
  {
    hide Covered, MustWait, Served, Exits;
    var t, p := step.thread, s.threads[step.thread];
    match step {
      case Begin(_, call) => BodyKeepsInv(s, t, call, false);
      case Resume(_) => BodyKeepsInv(s, t, p.call, p.TimedOut?);
      case WakeSpuriously(_) =>
        LeaveKeepsCover(s, t, Spurious(p.call), true);
        LeaveKeepsCover(s, t, Spurious(p.call), false);
      case TimeOut(_) =>
        LeaveKeepsCover(s, t, TimedOut(p.call), true);
        LeaveKeepsCover(s, t, TimedOut(p.call), false);
      case Notify(_, waiter) =>
        NotifyKeepsCover(s, t, waiter, true);
        NotifyKeepsCover(s, t, waiter, false);
    }
  }

  lemma BodyKeepsInv<T>(s: State<T>, t: nat, call: Call<T>, timedOut: bool)
    requires Inv(s) && t in s.threads
    requires !s.threads[t].MustNotify? && (s.threads[t].Notified? ==> s.threads[t].call == call)
    ensures Inv(Body(s, t, call, timedOut))
    ensures Body(s, t, call, timedOut).threads.Keys == s.threads.Keys && Body(s, t, call, timedOut).ring.max == s.ring.max
  {
    hide Covered, Exits;
    if MustWait(s.ring, call) {
      WaitKeepsCover(s, t, call, timedOut, true);
      WaitKeepsCover(s, t, call, timedOut, false);
    } else {
      ServedKeepsCover(s, t, call, timedOut, true);
      ServedKeepsCover(s, t, call, timedOut, false);
      ServedKeepsBooks(s, t, call, timedOut);
    }
  }

  /** The invariant holds after every run, of any number of threads. */
  lemma {:induction false} RunKeepsInv<T>(s: State<T>, steps: seq<Step<T>>)
    requires Inv(s) && Runs(s, steps)
    ensures Inv(After(s, steps)) && After(s, steps).ring.max == s.ring.max
    decreases |steps|
  {
    hide Inv, Apply, Enabled;
    if steps != [] {
      StepKeepsInv(s, steps[0]);
      RunKeepsInv(Apply(s, steps[0]), steps[1..]);
    }
  }

  /** From the start, in every interleaving: the wake-ups cover the work, and what went in is what came out and what is left. */
  lemma Safety<T>(s: State<T>, steps: seq<Step<T>>)
    requires Initial(s) && Runs(s, steps)
    ensures var s' := After(s, steps);
            && Covered(s', true) && Covered(s', false) && |s'.ring.items| <= s.ring.max
            && s'.pushed == ItemsOf(s'.gone) + s'.ring.items && s'.ring.overrun == Drops(s'.gone)
  {
    RunKeepsInv(s, steps);
    hide Covered, After, Runs;
  }

  /** With no wake-up on its way nobody sleeps while able to go on, and not both sides sleep in a queue that has room. */
  lemma NoLostWakeUp<T>(s: State<T>, steps: seq<Step<T>>, t: nat)
    requires Initial(s) && Runs(s, steps)
    requires var s' := After(s, steps); t in s'.threads && s'.threads[t].Blocked?
    ensures var s' := After(s, steps); var producers := s'.threads[t].call.Produces();
            InFlight(s'.threads, producers) == 0 ==>
            && MustWait(s'.ring, s'.threads[t].call)
            && (s.ring.max > 0 && InFlight(s'.threads, !producers) == 0 ==>
                forall u :: u in s'.threads && s'.threads[u].Blocked? ==> s'.threads[u].call.Produces() == producers)
  {
    RunKeepsInv(s, steps);
    hide InFlight, After, Runs;
    var s' := After(s, steps);
    var producers := s'.threads[t].call.Produces();
    assert BlockedOn(s'.threads[t], producers);
    forall u | InFlight(s'.threads, producers) == 0 && s.ring.max > 0 && InFlight(s'.threads, !producers) == 0
               && u in s'.threads && s'.threads[u].Blocked?
      ensures s'.threads[u].call.Produces() == producers
    {
      assert BlockedOn(s'.threads[u], s'.threads[u].call.Produces());
    }
  }

  /** A step drops an item only by serving enqueue_nowait on a full ring, and then the oldest one. */
  lemma OnlyNowaitDrops<T>(s: State<T>, step: Step<T>)
    requires Enabled(s, step) && Apply(s, step).ring.overrun != s.ring.overrun
    ensures s.ring.Full()
    ensures var call := if step.Begin? then step.call else s.threads[step.thread].call;
            call.EnqueueNowait? && Apply(s, step).gone == s.gone + [Dropped((s.ring.items + [call.item])[0])]
  {
  }

  /**
   A thread that begins a call, or comes back from its wait for whatever reason, is served if it finds an item, or room, or
   is enqueue_nowait.  Otherwise nothing moves: it gives up if its time is over, and else waits.  No other step moves items.
   */
  lemma StepsServe<T>(s: State<T>, step: Step<T>)
    requires Inv(s) && Enabled(s, step)
    ensures var s', t := Apply(s, step), step.thread;
            if step.Begin? || step.Resume? then
              var call := if step.Begin? then step.call else s.threads[t].call;
              var items := s.ring.items;
              if call.Produces() && (call.EnqueueNowait? || |items| < s.ring.max) then
                && s'.threads == s.threads[t := MustNotify(call)] && s'.pushed == s.pushed + [call.item]
                && (|items| < s.ring.max ==> s'.ring.items == items + [call.item] && s'.gone == s.gone)
                && (|items| == s.ring.max ==>
                      s'.ring.items == (items + [call.item])[1..] && s'.gone == s.gone + [Dropped((items + [call.item])[0])])
              else if !call.Produces() && items != [] then
                && s'.threads == s.threads[t := MustNotify(call)] && s'.pushed == s.pushed
                && s'.ring.items == items[1..] && s'.gone == s.gone + [Taken(items[0])]
              else s' == s.(threads := s.threads[t := if step.Resume? && s.threads[t].TimedOut? then Idle else Blocked(call)])
            else s' == s.(threads := s'.threads)
  {
    hide Covered, WaitersMayWait, ItemsOf, Drops;
    assert s.gone + [] == s.gone;
  }

  /** A call ends unserved only by giving up after its timeout, on an empty queue if it takes and on a full one if it puts. */
  lemma OnlyTimeoutsGiveUp<T>(s: State<T>, step: Step<T>)
    requires Inv(s) && Enabled(s, step) && !s.threads[step.thread].Idle? && !step.Notify? && Apply(s, step).threads[step.thread].Idle?
    ensures var p := s.threads[step.thread];
            p.TimedOut? && ((p.call.EnqueueFor? && |s.ring.items| == s.ring.max) || (p.call.DequeueFor? && s.ring.items == []))
  {
    hide Covered, ItemsOf, Drops;
  }
}

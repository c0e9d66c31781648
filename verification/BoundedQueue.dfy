/** TVector and TQueue: a bounded FIFO behind one mutex and one condition variable. The two templates
    differ only in the container that holds the items. */
module BoundedQueue {
  import opened TimeStamps
  import opened RateLimiter

  /** A queue refuses items once it holds more than `maxSize`; 0 stands for no bound. */
  predicate IsFull(maxSize: nat, size: nat) {
    maxSize > 0 && size > maxSize
  }

  /** What a push makes of the items, and what it returns. */
  function Pushed<T>(maxSize: nat, items: seq<T>, item: T): (seq<T>, int) {
    if IsFull(maxSize, |items|) then (items, -1) else (items + [item], 0)
  }

  /** What a pop takes once there is something, and what it leaves. */
  function Taken<T>(items: seq<T>): (r: (T, seq<T>))
    requires items != []
    ensures [r.0] + r.1 == items
  {
    (items[0], items[1..])
  }

  class RateLimitedQueue<T> {
    var items: seq<T>
    const maxSize: nat
    const rateLimit: nat
    var wakeUp: TimeStamp
    var tryPopCnt: nat

    constructor (maxSize: nat, rateLimit: nat, now: TimeStamp)
      ensures items == [] && this.maxSize == maxSize && this.rateLimit == rateLimit
      ensures Limits() == Limiter(now, 0)
    {
      items, wakeUp, tryPopCnt := [], now, 0;
      this.maxSize, this.rateLimit := maxSize, rateLimit;
    }

    ghost function Limits(): Limiter
      reads this
    {
      Limiter(wakeUp, tryPopCnt)
    }

    method Push(item: T) returns (ret: int)
      modifies this`items
      ensures (items, ret) == Pushed(maxSize, old(items), item)
      ensures if maxSize == 0 || |old(items)| <= maxSize then ret == 0 && items == old(items) + [item]
              else ret == -1 && items == old(items)
    {
      if maxSize > 0 && |items| > maxSize {
        return -1;
      }
      items := items + [item];
      ret := 0;
    }

    /** The part of both pops that runs under the lock, once the wait has found an item. */
    method TakeFront(entry: TimeStamp, popTs: TimeStamp) returns (item: T, lastPop: TimeStamp)
      requires items != []
      modifies this`items, this`wakeUp, this`tryPopCnt
      ensures (item, items) == Taken(old(items))
      ensures Accounted(Limits(), lastPop) == Account(rateLimit, old(Limits()), entry, popTs)
      ensures rateLimit > 0 ==> Micros(lastPop) == Since(rateLimit, old(Limits()), entry, popTs)
    {
      lastPop := entry;
      item := items[0];
      items := items[1..];
      if rateLimit > 0 {
        tryPopCnt := (tryPopCnt + 1) % UINT_RANGE;
        if wakeUp.Less(popTs) {
          var deltaCondWait := popTs.Minus(wakeUp);
          if TruncDiv(deltaCondWait.ToUSeconds(), 1000000) > 1 {
            tryPopCnt := 1;
            wakeUp := TimeStamp(popTs.GetMSeconds() - 1, 0);
          } else {
            if tryPopCnt >= rateLimit {
              tryPopCnt := 0;
              wakeUp := TimeStamp(popTs.seconds + 1, 0);
              lastPop := wakeUp;
            }
          }
        } else {
          lastPop := popTs;
        }
      }
    }

    /** The unlocked tail of both pops: how long the caller sleeps. */
    method SleepTime(lastPop: TimeStamp) returns (usec: int)
      ensures usec == SleepFor(rateLimit, wakeUp, lastPop)
      ensures usec > 0 ==> lastPop.ToUSeconds() + usec == wakeUp.ToUSeconds()
    {
      usec := 0;
      if rateLimit > 0 && lastPop.Less(wakeUp) {
        var howlong := wakeUp.Minus(lastPop);
        usec := howlong.ToUSeconds();
      }
    }
  }

  // ---------------------------------------------------------------- the monitor

  /** A thread inside pop that does not hold the lock is blocked on the condition variable, or was
      woken and waits for the lock to look at the queue again. */
  datatype Waiter = Parked(timed: bool) | Woken(timed: bool)

  datatype Monitor<T> = Monitor(items: seq<T>, waiters: map<nat, Waiter>, accepted: seq<T>, popped: seq<T>)

  datatype Action<T> =
    | PushCall(item: T)
    | PopCall(thread: nat, timed: bool)
    | Expires(thread: nat)     // a timed wait runs out
    | Resumes(thread: nat)     // a woken thread gets the lock back

  predicate CanAct<T>(m: Monitor<T>, a: Action<T>) {
    match a
    case PushCall(_) => true
    case PopCall(thread, _) => thread !in m.waiters
    case Expires(thread) => thread in m.waiters && m.waiters[thread] == Parked(true)
    case Resumes(thread) => thread in m.waiters && m.waiters[thread].Woken?
  }

  function Broadcast(waiters: map<nat, Waiter>): map<nat, Waiter> {
    map t | t in waiters :: Woken(waiters[t].timed)
  }

  function Take<T>(m: Monitor<T>, thread: nat): Monitor<T>
    requires m.items != []
  {
    var (item, rest) := Taken(m.items);
    Monitor(rest, m.waiters - {thread}, m.accepted, m.popped + [item])
  }

  function Act<T>(maxSize: nat, m: Monitor<T>, a: Action<T>): Monitor<T>
    requires CanAct(m, a)
  {
    match a
    case PushCall(item) =>
      var (items, ret) := Pushed(maxSize, m.items, item);
      if ret != 0 then m else Monitor(items, Broadcast(m.waiters), m.accepted + [item], m.popped)
    case PopCall(thread, timed) =>
      if m.items == [] then m.(waiters := m.waiters[thread := Parked(timed)]) else Take(m, thread)
    case Expires(thread) =>
      m.(waiters := m.waiters[thread := Woken(true)])
    case Resumes(thread) =>
      if m.items != [] then Take(m, thread)
      else if m.waiters[thread].timed then m.(waiters := m.waiters - {thread})
      else m.(waiters := m.waiters[thread := Parked(false)])
  }

  /** A push returns 0 and adds the item exactly if there is no bound or at most `maxSize` items are there. */
  lemma PushAccepts<T>(maxSize: nat, m: Monitor<T>, item: T)
    ensures var n := Act(maxSize, m, PushCall(item));
            if maxSize == 0 || |m.items| <= maxSize then
              && n.items == m.items + [item] && n.accepted == m.accepted + [item] && n.popped == m.popped
              && n.waiters.Keys == m.waiters.Keys && forall t :: t in n.waiters ==> n.waiters[t].Woken?
            else n == m
    ensures Pushed(maxSize, m.items, item).1 == if maxSize == 0 || |m.items| <= maxSize then 0 else -1
  {
  }

  /** A timed wait that runs out makes its thread look at the queue once more, and changes nothing else. */
  lemma WaitEnds<T>(maxSize: nat, m: Monitor<T>, thread: nat)
    requires CanAct(m, Expires(thread))
    ensures Act(maxSize, m, Expires(thread)) == m.(waiters := m.waiters[thread := Woken(true)])
  {
  }

  /** A pop that gets the lock takes the first item if there is one, whatever it was woken by; on an empty queue
      it waits, but for a timed one that has waited already, which leaves with nothing. */
  lemma PopTakes<T>(maxSize: nat, m: Monitor<T>, a: Action<T>)
    requires CanAct(m, a) && (a.PopCall? || a.Resumes?)
    ensures var n := Act(maxSize, m, a);
            var timed := if a.PopCall? then a.timed else m.waiters[a.thread].timed;
            && n.accepted == m.accepted
            && (m.items != [] ==> n.items == m.items[1..] && n.popped == m.popped + [m.items[0]])
            && (m.items == [] ==> n.items == [] && n.popped == m.popped)
            && n.waiters == if m.items != [] || (timed && a.Resumes?) then m.waiters - {a.thread}
                            else m.waiters[a.thread := Parked(timed)]
  {
    if m.items != [] && a.PopCall? {
      assert m.waiters - {a.thread} == m.waiters;
    }
  }

  ghost predicate IsHistory<T>(maxSize: nat, m: Monitor<T>, acts: seq<Action<T>>)
    decreases acts
  {
    acts == [] || (CanAct(m, acts[0]) && IsHistory(maxSize, Act(maxSize, m, acts[0]), acts[1..]))
  }

  ghost function Outcome<T>(maxSize: nat, m: Monitor<T>, acts: seq<Action<T>>): Monitor<T>
    requires IsHistory(maxSize, m, acts)
    decreases acts
  {
    if acts == [] then m else Outcome(maxSize, Act(maxSize, m, acts[0]), acts[1..])
  }

  /** Nothing is lost, doubled or reordered; the bound is overrun by at most one item; and nobody is
      blocked while there is something to take. */
  ghost predicate Sound<T>(maxSize: nat, m: Monitor<T>) {
    && m.popped + m.items == m.accepted
    && (maxSize > 0 ==> |m.items| <= maxSize + 1)
    && (m.items != [] ==> forall t :: t in m.waiters ==> m.waiters[t].Woken?)
  }

  lemma {:induction false} HistoryKeepsSound<T>(maxSize: nat, m: Monitor<T>, acts: seq<Action<T>>)
    requires Sound(maxSize, m) && IsHistory(maxSize, m, acts)
    ensures Sound(maxSize, Outcome(maxSize, m, acts))
    decreases acts
  {
    if acts != [] {
      HistoryKeepsSound(maxSize, Act(maxSize, m, acts[0]), acts[1..]);
    }
  }

  /** In every interleaving from the empty queue on. */
  lemma QueueIsFifo<T>(maxSize: nat, acts: seq<Action<T>>)
    requires IsHistory(maxSize, Monitor([], map[], [], []), acts)
    ensures Sound(maxSize, Outcome(maxSize, Monitor([], map[], [], []), acts))
  {
    HistoryKeepsSound(maxSize, Monitor([], map[], [], []), acts);
  }
}

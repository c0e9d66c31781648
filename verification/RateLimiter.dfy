/** The per-second pop limiter shared by TVector and TQueue, and its bound over whole runs. */
module RateLimiter {
  import opened TimeStamps

  const UINT_RANGE: int := 0x1_0000_0000

  datatype Limiter = Limiter(wakeUp: TimeStamp, tryPopCnt: nat)

  /** What the locked part of a pop leaves behind: the limiter and the caller's local last_pop_ts. */
  datatype Accounted = Accounted(limiter: Limiter, lastPop: TimeStamp)

  /** The guard of the branch that treats the queue as having been idle. */
  predicate IdleGuard(l: Limiter, popTs: TimeStamp) {
    l.wakeUp.Less(popTs) && TruncDiv(popTs.Minus(l.wakeUp).ToUSeconds(), MICROS) > 1
  }

  /** The accounting a pop does under the lock; `entry` is the clock on entering pop. */
  function Account(rate: nat, l: Limiter, entry: TimeStamp, popTs: TimeStamp): Accounted {
    if rate == 0 then
      Accounted(l, entry)
    else
      var cnt := (l.tryPopCnt + 1) % UINT_RANGE;
      if !l.wakeUp.Less(popTs) then
        Accounted(l.(tryPopCnt := cnt), popTs)
      else if IdleGuard(l, popTs) then
        // The source stores the millisecond part of the reading in the seconds field.
        Accounted(Limiter(TimeStamp(popTs.GetMSeconds() - 1, 0), 1), entry)
      else if cnt >= rate then
        var wake := TimeStamp(popTs.seconds + 1, 0);
        Accounted(Limiter(wake, 0), wake)
      else
        Accounted(l.(tryPopCnt := cnt), entry)
  }

  /** How long a pop sleeps after it gave up the lock, in microseconds. */
  function SleepFor(rate: nat, wakeUp: TimeStamp, lastPop: TimeStamp): int {
    if rate > 0 && lastPop.Less(wakeUp) then wakeUp.Minus(lastPop).ToUSeconds() else 0
  }

  // ---------------------------------------------------------------- the system of consumers

  /** A consumer is outside pop and may come back at `readyAt`, is inside pop, or has its item
      and has yet to look at the shared wake-up time, which it does without the lock. */
  datatype Status = Away(readyAt: int) | Inside(entry: TimeStamp) | Popped(lastPop: TimeStamp)

  datatype System = System(limiter: Limiter, consumers: seq<Status>, now: int, lastReading: int)

  datatype Event =
    | Enter(k: nat, at: TimeStamp)
    | GiveUp(k: nat)                // the timed pop found nothing
    | Pop(k: nat, at: TimeStamp)
    | Decide(k: nat, at: TimeStamp) // the unlocked tail: sleep or not

  function Start(created: TimeStamp, consumers: nat): System {
    var t := created.ToUSeconds();
    System(Limiter(created, 0), seq(consumers, _ => Away(t)), t, t)
  }

  /** Time never goes back, pops read strictly increasing clocks, and nobody wakes up early. */
  predicate Enabled(s: System, ev: Event) {
    && ev.k < |s.consumers|
    && (ev.GiveUp? || (ev.at.IsReading() && s.now <= ev.at.ToUSeconds()))
    && match ev
       case Enter(k, at) => s.consumers[k].Away? && s.consumers[k].readyAt <= at.ToUSeconds()
       case GiveUp(k) => s.consumers[k].Inside?
       case Pop(k, at) => s.consumers[k].Inside? && s.lastReading < at.ToUSeconds()
       case Decide(k, _) => s.consumers[k].Popped?
  }

  function Step(rate: nat, s: System, ev: Event): System
    requires Enabled(s, ev)
  {
    match ev
    case Enter(k, at) =>
      s.(consumers := s.consumers[k := Inside(at)], now := at.ToUSeconds())
    case GiveUp(k) =>
      s.(consumers := s.consumers[k := Away(s.now)])
    case Pop(k, at) =>
      var a := Account(rate, s.limiter, s.consumers[k].entry, at);
      System(a.limiter, s.consumers[k := Popped(a.lastPop)], at.ToUSeconds(), at.ToUSeconds())
    case Decide(k, at) =>
      var slept := SleepFor(rate, s.limiter.wakeUp, s.consumers[k].lastPop);
      s.(consumers := s.consumers[k := Away(at.ToUSeconds() + slept)], now := at.ToUSeconds())
  }

  ghost predicate IsRun(rate: nat, s: System, evs: seq<Event>)
    decreases evs
  {
    evs == [] || (Enabled(s, evs[0]) && IsRun(rate, Step(rate, s, evs[0]), evs[1..]))
  }

  ghost function After(rate: nat, s: System, evs: seq<Event>): System
    requires IsRun(rate, s, evs)
    decreases evs
  {
    if evs == [] then s else After(rate, Step(rate, s, evs[0]), evs[1..])
  }

  /** No pop of the run meets the idle guard. */
  ghost predicate NeverIdle(rate: nat, s: System, evs: seq<Event>)
    requires IsRun(rate, s, evs)
    decreases evs
  {
    evs == [] ||
    (&& (evs[0].Pop? ==> !IdleGuard(s.limiter, evs[0].at))
     && NeverIdle(rate, Step(rate, s, evs[0]), evs[1..]))
  }

  function Pops(evs: seq<Event>): nat {
    if evs == [] then 0 else (if evs[0].Pop? then 1 else 0) + Pops(evs[1..])
  }

  /** Every pop of `evs` reads a clock second in [first, first + n). */
  predicate InSeconds(evs: seq<Event>, first: int, n: nat) {
    forall i :: 0 <= i < |evs| && evs[i].Pop? ==> first <= evs[i].at.seconds < first + n
  }

  // ---------------------------------------------------------------- the invariant

  /** A consumer that cannot pop again before the wake-up time. */
  predicate Spent(c: Status, wakeUp: TimeStamp) {
    match c
    case Away(readyAt) => wakeUp.ToUSeconds() <= readyAt
    case Inside(entry) => wakeUp.ToUSeconds() <= entry.ToUSeconds()
    case Popped(lastPop) => lastPop.Less(wakeUp)
  }

  function SpentCount(cs: seq<Status>, wakeUp: TimeStamp): (n: nat)
    ensures n <= |cs|
  {
    if cs == [] then 0 else SpentCount(cs[1..], wakeUp) + if Spent(cs[0], wakeUp) then 1 else 0
  }

  lemma {:induction false} SpentCountUpdate(cs: seq<Status>, wakeUp: TimeStamp, k: nat, c: Status)
    requires k < |cs|
    ensures SpentCount(cs[k := c], wakeUp) ==
            SpentCount(cs, wakeUp) + (if Spent(c, wakeUp) then 1 else 0) - (if Spent(cs[k], wakeUp) then 1 else 0)
  {
    if k == 0 {
      assert cs[k := c][1..] == cs[1..];
    } else {
      SpentCountUpdate(cs[1..], wakeUp, k - 1, c);
      assert cs[k := c][1..] == cs[1..][k - 1 := c];
    }
  }

  ghost predicate Inv(rate: nat, s: System) {
    && s.lastReading <= s.now
    && s.limiter.tryPopCnt < rate
    && 0 <= s.limiter.wakeUp.microSeconds
    && (forall k :: 0 <= k < |s.consumers| && s.consumers[k].Inside? ==> s.consumers[k].entry.ToUSeconds() <= s.now)
    && (forall k :: 0 <= k < |s.consumers| && s.consumers[k].Popped? ==>
          s.consumers[k].lastPop.ToUSeconds() <= s.now || s.consumers[k].lastPop == s.limiter.wakeUp)
    && (s.lastReading < s.limiter.wakeUp.ToUSeconds() ==>
          s.limiter.tryPopCnt <= SpentCount(s.consumers, s.limiter.wakeUp))
  }

  /** The pop that reaches the limit. */
  predicate Closes(rate: nat, s: System, ev: Event) {
    ev.Pop? && s.limiter.wakeUp.Less(ev.at) && s.limiter.tryPopCnt + 1 >= rate
  }

  /** What one step does to the counter and the wake-up time: the pop that reaches the limit takes
      exactly `rate` off the counter. */
  lemma StepCounts(rate: nat, s: System, ev: Event)
    requires |s.consumers| + 2 <= rate < UINT_RANGE
    requires Inv(rate, s) && Enabled(s, ev)
    requires ev.Pop? ==> !IdleGuard(s.limiter, ev.at)
    ensures Step(rate, s, ev).limiter ==
            if Closes(rate, s, ev) then Limiter(TimeStamp(ev.at.seconds + 1, 0), 0)
            else s.limiter.(tryPopCnt := s.limiter.tryPopCnt + if ev.Pop? then 1 else 0)
    ensures Closes(rate, s, ev) ==> s.limiter.tryPopCnt + 1 == rate
    ensures |Step(rate, s, ev).consumers| == |s.consumers|
  {
  }

  lemma StepKeepsInv(rate: nat, s: System, ev: Event)
    requires |s.consumers| + 2 <= rate < UINT_RANGE
    requires Inv(rate, s) && Enabled(s, ev)
    requires ev.Pop? ==> !IdleGuard(s.limiter, ev.at)
    ensures Inv(rate, Step(rate, s, ev))
  {
    StepCounts(rate, s, ev);
    var s' := Step(rate, s, ev);
    SpentCountUpdate(s.consumers, s.limiter.wakeUp, ev.k, s'.consumers[ev.k]);
  }

  // ---------------------------------------------------------------- how long a caller sleeps

  function Micros(t: TimeStamp): int {
    t.seconds * 1000000 + t.microSeconds
  }

  /** What a pop at reading `p` makes of the shared fields: nothing of the wake-up time up to that time; two
      seconds or more behind it, the milliseconds of the reading as seconds; else the next second, if the
      counter has reached the limit. */
  lemma PopLeaves(rate: nat, s: System, k: nat, p: TimeStamp)
    requires rate > 0 && Enabled(s, Pop(k, p))
    ensures var w, cnt := Micros(s.limiter.wakeUp), (s.limiter.tryPopCnt + 1) % 0x1_0000_0000;
            Step(rate, s, Pop(k, p)).limiter ==
            if Micros(p) <= w then Limiter(s.limiter.wakeUp, cnt)
            else if Micros(p) - w >= 2000000 then Limiter(TimeStamp(p.microSeconds / 1000 - 1, 0), 1)
            else if cnt >= rate then Limiter(TimeStamp(p.seconds + 1, 0), 0)
            else Limiter(s.limiter.wakeUp, cnt)
  {
  }

  /** The time from which the sleep of a caller is measured: its pop, if that came in the closed time; the new
      wake-up time, if that pop reached the limit; and else its call. */
  function Since(rate: nat, l: Limiter, entry: TimeStamp, p: TimeStamp): int {
    var w := Micros(l.wakeUp);
    if Micros(p) <= w then Micros(p)
    else if Micros(p) - w < 2000000 && (l.tryPopCnt + 1) % 0x1_0000_0000 >= rate then (p.seconds + 1) * 1000000
    else Micros(entry)
  }

  predicate OthersOnly(evs: seq<Event>, k: nat) {
    forall i :: 0 <= i < |evs| ==> evs[i].k != k
  }

  lemma {:induction false} OthersLeave(rate: nat, s: System, evs: seq<Event>, k: nat)
    requires IsRun(rate, s, evs) && OthersOnly(evs, k) && k < |s.consumers|
    ensures var s' := After(rate, s, evs);
            |s'.consumers| == |s.consumers| && s'.consumers[k] == s.consumers[k] && s.now <= s'.now
    decreases evs
  {
    if evs != [] {
      OthersLeave(rate, Step(rate, s, evs[0]), evs[1..], k);
    }
  }

  /** A consumer pops at `p` and decides at `t`, with whatever the others do in between: it is away up to the
      wake-up time it then finds, and for as long again as has passed since the time above; and it does not
      sleep at all if that time is not before the wake-up time. */
  lemma AwayUntil(rate: nat, s: System, k: nat, p: TimeStamp, others: seq<Event>, t: TimeStamp)
    requires Enabled(s, Pop(k, p)) && IsRun(rate, Step(rate, s, Pop(k, p)), others) && OthersOnly(others, k)
    requires var s1 := After(rate, Step(rate, s, Pop(k, p)), others);
             Enabled(s1, Decide(k, t))
    ensures var s1 := After(rate, Step(rate, s, Pop(k, p)), others);
            var w := Micros(s1.limiter.wakeUp);
            var since := Since(rate, s.limiter, s.consumers[k].entry, p);
            Step(rate, s1, Decide(k, t)).consumers[k] ==
            Away(if rate > 0 && since < w then w + (Micros(t) - since) else Micros(t))
    ensures Micros(s.consumers[k].entry) <= Micros(p) ==>
              Micros(s.consumers[k].entry) <= Since(rate, s.limiter, s.consumers[k].entry, p)
  {
    OthersLeave(rate, Step(rate, s, Pop(k, p)), others, k);
  }

  /** Up to the wake-up time itself nobody moves it. */
  lemma {:induction false} WakeUpStays(rate: nat, s: System, evs: seq<Event>)
    requires IsRun(rate, s, evs) && After(rate, s, evs).now <= Micros(s.limiter.wakeUp)
    ensures After(rate, s, evs).limiter.wakeUp == s.limiter.wakeUp
    decreases evs
  {
    if evs != [] {
      TimePasses(rate, Step(rate, s, evs[0]), evs[1..]);
      WakeUpStays(rate, Step(rate, s, evs[0]), evs[1..]);
    }
  }

  lemma {:induction false} TimePasses(rate: nat, s: System, evs: seq<Event>)
    requires IsRun(rate, s, evs)
    ensures s.now <= After(rate, s, evs).now
    decreases evs
  {
    if evs != [] {
      TimePasses(rate, Step(rate, s, evs[0]), evs[1..]);
    }
  }

  /** Who pops in the closed time and decides in it is away up to the wake-up time and, beyond that, for as long
      as the decision took, and no longer, however long ago the call was; who reaches the limit does not sleep. */
  lemma SleepsToWakeUp(rate: nat, s: System, k: nat, p: TimeStamp, others: seq<Event>, t: TimeStamp)
    requires rate > 0 && Enabled(s, Pop(k, p)) && IsRun(rate, Step(rate, s, Pop(k, p)), others)
    requires OthersOnly(others, k)
    requires var s1 := After(rate, Step(rate, s, Pop(k, p)), others);
             Enabled(s1, Decide(k, t))
    ensures var s2 := Step(rate, After(rate, Step(rate, s, Pop(k, p)), others), Decide(k, t));
            var w := Micros(s.limiter.wakeUp);
            var reached := w < Micros(p) < w + 2000000 && (s.limiter.tryPopCnt + 1) % 0x1_0000_0000 >= rate;
            && (Micros(p) <= w && Micros(t) <= w ==> s2.consumers[k] == Away(w + (Micros(t) - Micros(p))))
            && (reached && Micros(t) <= (p.seconds + 1) * 1000000 ==> s2.consumers[k] == Away(Micros(t)))
  {
    var s0 := Step(rate, s, Pop(k, p));
    AwayUntil(rate, s, k, p, others, t);
    PopLeaves(rate, s, k, p);
    if After(rate, s0, others).now <= Micros(s0.limiter.wakeUp) {
      WakeUpStays(rate, s0, others);
    }
  }

  // ---------------------------------------------------------------- counting over a window

  ghost function CloseCount(rate: nat, s: System, evs: seq<Event>): nat
    requires IsRun(rate, s, evs)
    decreases evs
  {
    if evs == [] then 0
    else (if Closes(rate, s, evs[0]) then 1 else 0) + CloseCount(rate, Step(rate, s, evs[0]), evs[1..])
  }

  function Max(a: int, b: int): int {
    if a < b then b else a
  }

  /** Conservation: the counter changes by the pops made less `rate` for every closing pop. */
  lemma {:induction false} RunCounts(rate: nat, s: System, evs: seq<Event>)
    requires |s.consumers| + 2 <= rate < UINT_RANGE
    requires Inv(rate, s) && IsRun(rate, s, evs) && NeverIdle(rate, s, evs)
    ensures var s' := After(rate, s, evs);
            && Inv(rate, s') && |s'.consumers| == |s.consumers|
            && s'.limiter.tryPopCnt == s.limiter.tryPopCnt + Pops(evs) - rate * CloseCount(rate, s, evs)
    decreases evs
  {
    if evs != [] {
      var s1 := Step(rate, s, evs[0]);
      StepCounts(rate, s, evs[0]);
      StepKeepsInv(rate, s, evs[0]);
      RunCounts(rate, s1, evs[1..]);
      if Closes(rate, s, evs[0]) {
        assert rate * (1 + CloseCount(rate, s1, evs[1..])) == rate + rate * CloseCount(rate, s1, evs[1..]);
      }
    }
  }

  /** A clock second is closed at most once, and closing it moves the wake-up time to the next one. */
  lemma {:induction false} CloseTimes(rate: nat, s: System, evs: seq<Event>, first: int, n: nat)
    requires |s.consumers| + 2 <= rate < UINT_RANGE
    requires Inv(rate, s) && IsRun(rate, s, evs) && NeverIdle(rate, s, evs) && InSeconds(evs, first, n)
    ensures var s' := After(rate, s, evs);
            var closes := CloseCount(rate, s, evs);
            && (if closes == 0 then s'.limiter.wakeUp == s.limiter.wakeUp else
                  && s'.limiter.wakeUp.microSeconds == 0 && s'.limiter.wakeUp.seconds <= first + n
                  && closes <= s'.limiter.wakeUp.seconds - Max(first, s.limiter.wakeUp.seconds))
            && (if Pops(evs) == 0 then s'.lastReading == s.lastReading
                else s'.lastReading < (first + n) * MICROS)
    decreases evs
  {
    if evs != [] {
      StepCounts(rate, s, evs[0]);
      StepKeepsInv(rate, s, evs[0]);
      CloseTimes(rate, Step(rate, s, evs[0]), evs[1..], first, n);
    }
  }

  // ---------------------------------------------------------------- the bound

  /** A run splits at any point, and everything counted along it adds up. */
  lemma {:induction false} RunConcat(rate: nat, s: System, a: seq<Event>, b: seq<Event>)
    ensures IsRun(rate, s, a + b) <==> IsRun(rate, s, a) && IsRun(rate, After(rate, s, a), b)
    ensures IsRun(rate, s, a + b) ==>
              && After(rate, s, a + b) == After(rate, After(rate, s, a), b)
              && (NeverIdle(rate, s, a + b) <==> NeverIdle(rate, s, a) && NeverIdle(rate, After(rate, s, a), b))
    ensures Pops(a + b) == Pops(a) + Pops(b)
    decreases a
  {
    if a == [] {
      assert a + b == b;
    } else {
      assert (a + b)[0] == a[0] && (a + b)[1..] == a[1..] + b;
      if Enabled(s, a[0]) {
        RunConcat(rate, Step(rate, s, a[0]), a[1..], b);
      } else {
        PopsConcat(a, b);
      }
    }
  }

  lemma {:induction false} PopsConcat(a: seq<Event>, b: seq<Event>)
    ensures Pops(a + b) == Pops(a) + Pops(b)
  {
    if a == [] {
      assert a + b == b;
    } else {
      assert (a + b)[0] == a[0] && (a + b)[1..] == a[1..] + b;
      PopsConcat(a[1..], b);
    }
  }

  /** `window` is a stretch of a run of a fresh queue that never meets the idle guard, and all its
      pops read the `n` clock seconds from `first` on. */
  ghost predicate IsWindow(rate: nat, consumers: nat, created: TimeStamp, before: seq<Event>,
                           window: seq<Event>, first: int, n: nat) {
    && created.IsReading()
    && IsRun(rate, Start(created, consumers), before + window)
    && NeverIdle(rate, Start(created, consumers), before + window)
    && InSeconds(window, first, n)
  }

  /** The same without the condition on the idle guard. */
  ghost predicate IsAnyWindow(rate: nat, consumers: nat, created: TimeStamp, before: seq<Event>,
                              window: seq<Event>, first: int, n: nat) {
    created.IsReading() && IsRun(rate, Start(created, consumers), before + window) && InSeconds(window, first, n)
  }

  /** The amortised limit, for queues made in second `since` or later: where no pop has met the idle guard,
      `n` clock seconds hold at most `n * rate` pops and one more per consumer. */
  ghost predicate KeepsLimit(rate: nat, consumers: nat, since: nat) {
    forall created: TimeStamp, before: seq<Event>, window: seq<Event>, first: int, n: nat ::
      created.seconds >= since && IsWindow(rate, consumers, created, before, window, first, n) ==>
        Pops(window) <= n * rate + consumers
  }

  /** The same limit, whether or not a pop has met the idle guard. */
  ghost predicate AlwaysKeepsLimit(rate: nat, consumers: nat, since: nat) {
    forall created: TimeStamp, before: seq<Event>, window: seq<Event>, first: int, n: nat ::
      created.seconds >= since && IsAnyWindow(rate, consumers, created, before, window, first, n) ==>
        Pops(window) <= n * rate + consumers
  }

  lemma RateBound(rate: nat, consumers: nat, created: TimeStamp, before: seq<Event>,
                  window: seq<Event>, first: int, n: nat)
    requires consumers + 2 <= rate < UINT_RANGE
    requires IsWindow(rate, consumers, created, before, window, first, n)
    ensures Pops(window) <= n * rate + consumers
  {
    var s := Start(created, consumers);
    RunConcat(rate, s, before, window);
    RunCounts(rate, s, before);
    var s1 := After(rate, s, before);
    WindowBound(rate, s1, window, first, n);
  }

  lemma WindowBound(rate: nat, s: System, window: seq<Event>, first: int, n: nat)
    requires |s.consumers| + 2 <= rate < UINT_RANGE
    requires Inv(rate, s) && IsRun(rate, s, window) && NeverIdle(rate, s, window) && InSeconds(window, first, n)
    ensures Pops(window) <= n * rate + |s.consumers|
  {
    RunCounts(rate, s, window);
    CloseTimes(rate, s, window, first, n);
    var s' := After(rate, s, window);
    var closes := CloseCount(rate, s, window);
    if n == 0 {
      NoSecondsNoPops(window, first);
    } else if closes == n {
      assert s'.lastReading < s'.limiter.wakeUp.ToUSeconds() || Pops(window) == 0;
    }
    Amortise(rate, closes, n, Pops(window), s.limiter.tryPopCnt, s'.limiter.tryPopCnt, |s.consumers|);
  }

  lemma {:induction false} NoSecondsNoPops(evs: seq<Event>, first: int)
    requires InSeconds(evs, first, 0)
    ensures Pops(evs) == 0
  {
    if evs != [] {
      NoSecondsNoPops(evs[1..], first);
    }
  }

  lemma Amortise(rate: nat, closes: nat, n: nat, pops: nat, before: nat, after: nat, consumers: nat)
    requires after == before + pops - rate * closes
    requires after < rate && closes <= n
    requires closes == n ==> pops == 0 || after <= consumers
    ensures pops <= n * rate + consumers
  {
    if closes < n {
      FewerCloses(rate, closes, n);
    } else {
      assert rate * closes == n * rate;
    }
  }

  lemma {:induction false} FewerCloses(rate: nat, closes: nat, n: nat)
    requires closes < n
    ensures rate * closes + rate <= n * rate
    decreases n
  {
    if closes < n - 1 {
      FewerCloses(rate, closes, n - 1);
    }
    assert n * rate == (n - 1) * rate + rate;
  }

  // ---------------------------------------------------------------- where the bound ends

  /** One whole turn of consumer `k`, without delay. */
  function Visit(k: nat, at: TimeStamp): seq<Event> {
    [Enter(k, at), Pop(k, at), Decide(k, at)]
  }

  ghost predicate Ready(s: System, k: nat, at: TimeStamp) {
    && k < |s.consumers| && s.consumers[k].Away? && s.consumers[k].readyAt <= at.ToUSeconds()
    && at.IsReading() && s.now <= at.ToUSeconds() && s.lastReading < at.ToUSeconds()
  }

  function Visited(rate: nat, s: System, k: nat, at: TimeStamp): System
    requires k < |s.consumers|
  {
    var a := Account(rate, s.limiter, at, at);
    var t := at.ToUSeconds();
    System(a.limiter, s.consumers[k := Away(t + SleepFor(rate, a.limiter.wakeUp, a.lastPop))], t, t)
  }

  lemma VisitRuns(rate: nat, s: System, k: nat, at: TimeStamp)
    requires Ready(s, k, at)
    ensures IsRun(rate, s, Visit(k, at)) && After(rate, s, Visit(k, at)) == Visited(rate, s, k, at)
    ensures NeverIdle(rate, s, Visit(k, at)) <==> !IdleGuard(s.limiter, at)
    ensures Pops(Visit(k, at)) == 1
  {
    var evs := Visit(k, at);
    var s1 := Step(rate, s, evs[0]);
    var s2 := Step(rate, s1, evs[1]);
    var s3 := Step(rate, s2, evs[2]);
    assert s3.consumers == Visited(rate, s, k, at).consumers;
    assert evs[1..] == [evs[1], evs[2]] && evs[1..][1..] == [evs[2]] && evs[1..][1..][1..] == [];
    assert IsRun(rate, s3, []);
    assert IsRun(rate, s2, [evs[2]]) && After(rate, s2, [evs[2]]) == s3;
    assert NeverIdle(rate, s2, [evs[2]]) && Pops([evs[2]]) == 0;
    assert IsRun(rate, s1, evs[1..]) && After(rate, s1, evs[1..]) == s3;
    assert NeverIdle(rate, s1, evs[1..]) <==> !IdleGuard(s.limiter, at);
    assert Pops(evs[1..]) == 1;
  }

  /** A visit at a time that reaches the limit, and one that falls into the closed time. */
  lemma VisitedCases(rate: nat, s: System, k: nat, at: TimeStamp)
    requires Ready(s, k, at) && 0 < rate && s.limiter.tryPopCnt + 1 < UINT_RANGE && !IdleGuard(s.limiter, at)
    ensures s.limiter.wakeUp.Less(at) && rate <= s.limiter.tryPopCnt + 1 ==>
              Visited(rate, s, k, at) ==
              System(Limiter(TimeStamp(at.seconds + 1, 0), 0), s.consumers[k := Away(at.ToUSeconds())],
                     at.ToUSeconds(), at.ToUSeconds())
    ensures !s.limiter.wakeUp.Less(at) ==>
              Visited(rate, s, k, at) ==
              System(s.limiter.(tryPopCnt := s.limiter.tryPopCnt + 1),
                     s.consumers[k := Away(s.limiter.wakeUp.ToUSeconds())], at.ToUSeconds(), at.ToUSeconds())
  {
  }

  function Reading(us: nat): (t: TimeStamp)
    ensures t.IsReading() && t.ToUSeconds() == us
  {
    TimeStamp(us / MICROS, us % MICROS)
  }

  /** A visit in the second that begins with the wake-up time, below the limit. */
  lemma OpenVisit(rate: nat, s: System, second: nat, at: TimeStamp)
    requires s.limiter.tryPopCnt + 1 < rate < UINT_RANGE && 0 < |s.consumers|
    requires s.limiter.wakeUp == TimeStamp(second, 0) && second * MICROS < at.ToUSeconds() < (second + 1) * MICROS
    ensures !IdleGuard(s.limiter, at)
    ensures Visited(rate, s, 0, at) ==
            System(s.limiter.(tryPopCnt := s.limiter.tryPopCnt + 1),
                   s.consumers[0 := Away(at.ToUSeconds())], at.ToUSeconds(), at.ToUSeconds())
  {
  }

  /** Consumer 0 makes `m` more pops, one a microsecond, without reaching the limit. */
  lemma {:induction false} OpenBurst(rate: nat, s: System, second: nat, m: nat) returns (evs: seq<Event>)
    requires 0 < rate < UINT_RANGE && s.limiter.tryPopCnt + m < rate
    requires 0 < |s.consumers| && s.consumers[0].Away? && s.consumers[0].readyAt <= s.now
    requires s.limiter.wakeUp == TimeStamp(second, 0)
    requires s.now == s.lastReading && second * MICROS <= s.now && s.now + m < (second + 1) * MICROS
    ensures IsRun(rate, s, evs) && NeverIdle(rate, s, evs) && Pops(evs) == m && InSeconds(evs, second, 1)
    ensures var s' := After(rate, s, evs);
            && s'.limiter == s.limiter.(tryPopCnt := s.limiter.tryPopCnt + m)
            && s'.now == s'.lastReading == s.now + m
            && |s'.consumers| == |s.consumers|
            && (forall k :: 1 <= k < |s.consumers| ==> s'.consumers[k] == s.consumers[k])
            && s'.consumers[0].Away? && s'.consumers[0].readyAt <= s'.now
    decreases m
  {
    if m == 0 {
      evs := [];
    } else {
      var at := Reading(s.now + 1);
      OpenVisit(rate, s, second, at);
      VisitRuns(rate, s, 0, at);
      var rest := OpenBurst(rate, Visited(rate, s, 0, at), second, m - 1);
      evs := Visit(0, at) + rest;
      RunConcat(rate, s, Visit(0, at), rest);
    }
  }

  /** A visit in the second before the wake-up time. */
  lemma ClosedVisit(rate: nat, s: System, k: nat, second: nat, at: TimeStamp)
    requires Ready(s, k, at) && 0 < rate && s.limiter.tryPopCnt + 1 < UINT_RANGE
    requires s.limiter.wakeUp == TimeStamp(second + 1, 0)
    requires second * MICROS <= at.ToUSeconds() < (second + 1) * MICROS
    ensures at.seconds == second && !IdleGuard(s.limiter, at)
    ensures Visited(rate, s, k, at) ==
            System(s.limiter.(tryPopCnt := s.limiter.tryPopCnt + 1),
                   s.consumers[k := Away((second + 1) * MICROS)], at.ToUSeconds(), at.ToUSeconds())
  {
    VisitedCases(rate, s, k, at);
  }

  /** After the limit was reached, the consumers j to u - 1 pop once each; all of them then sleep up to the
      wake-up time and no longer. */
  lemma {:induction false} ClosedBurst(rate: nat, s: System, j: nat, u: nat, second: nat) returns (evs: seq<Event>)
    requires 0 < rate && j <= u <= |s.consumers| && s.limiter.tryPopCnt + u - j < UINT_RANGE
    requires s.now == s.lastReading && s.limiter.wakeUp == TimeStamp(second + 1, 0)
    requires second * MICROS <= s.now && s.now + u - j < (second + 1) * MICROS
    requires forall k :: j <= k < u ==> s.consumers[k].Away? && s.consumers[k].readyAt <= s.now
    ensures IsRun(rate, s, evs) && NeverIdle(rate, s, evs) && Pops(evs) == u - j && InSeconds(evs, second, 1)
    ensures var s' := After(rate, s, evs);
            && s'.limiter == s.limiter.(tryPopCnt := s.limiter.tryPopCnt + u - j)
            && s'.now == s'.lastReading == s.now + u - j
            && |s'.consumers| == |s.consumers|
            && (forall k :: 0 <= k < |s'.consumers| ==>
                  s'.consumers[k] == if j <= k < u then Away((second + 1) * MICROS) else s.consumers[k])
    decreases u - j
  {
    if j == u {
      evs := [];
    } else {
      var at := Reading(s.now + 1);
      VisitRuns(rate, s, j, at);
      ClosedVisit(rate, s, j, second, at);
      var rest := ClosedBurst(rate, Visited(rate, s, j, at), j + 1, u, second);
      evs := Visit(j, at) + rest;
      RunConcat(rate, s, Visit(j, at), rest);
    }
  }

  lemma JoinRuns(rate: nat, s: System, a: seq<Event>, b: seq<Event>, first: int, n: nat)
    requires IsRun(rate, s, a) && NeverIdle(rate, s, a) && InSeconds(a, first, n)
    requires IsRun(rate, After(rate, s, a), b) && NeverIdle(rate, After(rate, s, a), b) && InSeconds(b, first, n)
    ensures IsRun(rate, s, a + b) && NeverIdle(rate, s, a + b) && InSeconds(a + b, first, n)
    ensures After(rate, s, a + b) == After(rate, After(rate, s, a), b)
    ensures Pops(a + b) == Pops(a) + Pops(b)
  {
    RunConcat(rate, s, a, b);
  }

  /** The queue is closed until second `wake`, the counter stands at `c`, and every consumer can pop again
      from then on. */
  ghost predicate Closed(s: System, c: nat, wake: nat) {
    && s.limiter == Limiter(TimeStamp(wake, 0), c)
    && (forall k :: 0 <= k < |s.consumers| ==> s.consumers[k].Away? && s.consumers[k].readyAt <= wake * MICROS)
    && s.now == s.lastReading < wake * MICROS
  }

  /** The pop that reaches the limit closes the queue for the rest of the second. */
  lemma LastVisit(rate: nat, s: System, second: nat, at: TimeStamp)
    requires 0 < rate < MICROS && Ready(s, 0, at) && rate <= s.limiter.tryPopCnt + 1 < UINT_RANGE
    requires s.limiter.wakeUp == TimeStamp(second, 0) && second * MICROS < at.ToUSeconds() < (second + 1) * MICROS
    ensures var evs, t := Visit(0, at), at.ToUSeconds();
            && IsRun(rate, s, evs) && NeverIdle(rate, s, evs) && InSeconds(evs, second, 1) && Pops(evs) == 1
            && After(rate, s, evs) ==
               System(Limiter(TimeStamp(second + 1, 0), 0), s.consumers[0 := Away(t)], t, t)
  {
    VisitRuns(rate, s, 0, at);
    VisitedCases(rate, s, 0, at);
  }

  /** Consumer 0 uses the limit up by itself. */
  lemma FillUp(rate: nat, consumers: nat, second: nat) returns (evs: seq<Event>)
    requires 0 < consumers && 0 < rate < MICROS
    ensures var s := Start(TimeStamp(second, 0), consumers);
            && IsRun(rate, s, evs) && NeverIdle(rate, s, evs)
            && var s' := After(rate, s, evs);
            && Closed(s', 0, second + 1) && |s'.consumers| == consumers && s'.now == second * MICROS + rate
            && (forall k :: 0 <= k < consumers ==> s'.consumers[k].readyAt <= s'.now)
    ensures InSeconds(evs, second, 1) && Pops(evs) == rate
  {
    var s := Start(TimeStamp(second, 0), consumers);
    var a := OpenBurst(rate, s, second, rate - 1);
    var s1 := After(rate, s, a);
    var closing := Reading(second * MICROS + rate);
    LastVisit(rate, s1, second, closing);
    JoinRuns(rate, s, a, Visit(0, closing), second, 1);
    evs := a + Visit(0, closing);
  }

  /** The amortised bound is attained in the first clock second of a queue: the limit is reached, and then
      every consumer pops once more. So the documented policy is exceeded by one pop per consumer. */
  lemma PolicyExceeded(rate: nat, consumers: nat, second: nat) returns (evs: seq<Event>)
    requires 0 < consumers && 0 < rate && rate + consumers < MICROS
    ensures IsWindow(rate, consumers, TimeStamp(second, 0), [], evs, second, 1)
    ensures Pops(evs) == rate + consumers
  {
    var s := Start(TimeStamp(second, 0), consumers);
    var a := FillUp(rate, consumers, second);
    var b := ClosedBurst(rate, After(rate, s, a), 0, consumers, second);
    JoinRuns(rate, s, a, b, second, 1);
    evs := a + b;
    assert [] + evs == evs;
  }

  /** A pop exactly at the wake-up time only adds to the counter. */
  lemma FreeVisit(rate: nat, s: System, c: nat, second: nat)
    requires 0 < rate < MICROS && c < rate && 0 < |s.consumers| && Closed(s, c, second)
    ensures var evs, t := Visit(0, TimeStamp(second, 0)), second * MICROS;
            && IsRun(rate, s, evs) && NeverIdle(rate, s, evs) && InSeconds(evs, second, 1) && Pops(evs) == 1
            && After(rate, s, evs) == System(Limiter(TimeStamp(second, 0), c + 1), s.consumers[0 := Away(t)], t, t)
  {
    VisitRuns(rate, s, 0, TimeStamp(second, 0));
    VisitedCases(rate, s, 0, TimeStamp(second, 0));
  }

  /** The part of a clock second until the limit is reached. A consumer that pops exactly at the wake-up time
      is not held against the limit; so the limit is reached after two pops at least. */
  lemma Reach(rate: nat, s: System, c: nat, second: nat) returns (evs: seq<Event>)
    requires 0 < rate < MICROS && c < rate && 0 < |s.consumers| && Closed(s, c, second)
    ensures IsRun(rate, s, evs) && NeverIdle(rate, s, evs) && InSeconds(evs, second, 1)
    ensures Pops(evs) == if c + 1 == rate then 2 else rate - c
    ensures var s' := After(rate, s, evs);
            && s'.limiter == Limiter(TimeStamp(second + 1, 0), 0) && |s'.consumers| == |s.consumers|
            && s'.now == s'.lastReading == second * MICROS + Pops(evs) - 1
            && (forall k :: 0 <= k < |s'.consumers| ==> s'.consumers[k].Away? && s'.consumers[k].readyAt <= s'.now)
  {
    var t, onTime := second * MICROS, TimeStamp(second, 0);
    FreeVisit(rate, s, c, second);
    var s1 := System(Limiter(onTime, c + 1), s.consumers[0 := Away(t)], t, t);
    var more: seq<Event> := [];
    if c + 1 < rate {
      more := OpenBurst(rate, s1, second, rate - c - 2);
    }
    var s2 := After(rate, s1, more);
    var closing := Reading(s2.now + 1);
    LastVisit(rate, s2, second, closing);
    JoinRuns(rate, s1, more, Visit(0, closing), second, 1);
    JoinRuns(rate, s, Visit(0, onTime), more + Visit(0, closing), second, 1);
    evs := Visit(0, onTime) + (more + Visit(0, closing));
  }

  /** A clock second with one pop more than the limit; the counter then stands one higher, up to rate - 1. */
  lemma CrowdedSecond(rate: nat, s: System, c: nat, second: nat) returns (evs: seq<Event>)
    requires 0 < rate < MICROS && c < rate && Closed(s, c, second)
    requires 0 < |s.consumers| && Follow(rate, c) <= |s.consumers|
    ensures IsRun(rate, s, evs) && NeverIdle(rate, s, evs) && InSeconds(evs, second, 1) && Pops(evs) == rate + 1
    ensures var s' := After(rate, s, evs);
            Closed(s', Follow(rate, c), second + 1) && |s'.consumers| == |s.consumers|
  {
    var a := Reach(rate, s, c, second);
    var b := ClosedBurst(rate, After(rate, s, a), 0, Follow(rate, c), second);
    JoinRuns(rate, s, a, b, second, 1);
    evs := a + b;
  }

  function Follow(rate: nat, c: nat): nat
    requires c < rate
  {
    if c + 1 < rate then c + 1 else c
  }

  /** The pops of one clock second. */
  function PopsIn(evs: seq<Event>, second: int): nat {
    if evs == [] then 0
    else (if evs[0].Pop? && evs[0].at.seconds == second then 1 else 0) + PopsIn(evs[1..], second)
  }

  lemma {:induction false} PopsInConcat(a: seq<Event>, b: seq<Event>, second: int)
    ensures PopsIn(a + b, second) == PopsIn(a, second) + PopsIn(b, second)
  {
    if a == [] {
      assert a + b == b;
    } else {
      assert (a + b)[0] == a[0] && (a + b)[1..] == a[1..] + b;
      PopsInConcat(a[1..], b, second);
    }
  }

  lemma {:induction false} PopsInOne(evs: seq<Event>, first: int, second: int)
    requires InSeconds(evs, first, 1)
    ensures PopsIn(evs, second) == if second == first then Pops(evs) else 0
  {
    if evs != [] {
      PopsInOne(evs[1..], first, second);
    }
  }

  lemma {:induction false} PopsBefore(evs: seq<Event>, first: int, n: nat, second: int)
    requires InSeconds(evs, first, n) && second < first
    ensures PopsIn(evs, second) == 0
  {
    if evs != [] {
      PopsBefore(evs[1..], first, n, second);
    }
  }

  /** With enough consumers, every one of any number of seconds holds one pop too many. */
  lemma {:induction false} CrowdedSeconds(rate: nat, s: System, c: nat, second: nat, n: nat) returns (evs: seq<Event>)
    requires 0 < rate < MICROS && c < rate && Closed(s, c, second) && 0 < |s.consumers| && rate <= |s.consumers| + 1
    ensures IsRun(rate, s, evs) && NeverIdle(rate, s, evs) && InSeconds(evs, second, n) && Pops(evs) == n * (rate + 1)
    ensures forall k :: second <= k < second + n ==> PopsIn(evs, k) == rate + 1
    decreases n
  {
    if n == 0 {
      evs := [];
    } else {
      var a := CrowdedSecond(rate, s, c, second);
      var b := CrowdedSeconds(rate, After(rate, s, a), Follow(rate, c), second + 1, n - 1);
      JoinRuns(rate, s, a, b, second, n);
      evs := a + b;
      assert n * (rate + 1) == (rate + 1) + (n - 1) * (rate + 1);
      forall k | second <= k < second + n
        ensures PopsIn(evs, k) == rate + 1
      {
        PopsInConcat(a, b, k);
        PopsInOne(a, second, k);
        if k == second {
          PopsBefore(b, second + 1, n - 1, k);
        }
      }
    }
  }

  /** Strictly increasing readings: a second holds at most as many pops as it has microseconds. */
  lemma {:induction false} PopsFit(rate: nat, s: System, evs: seq<Event>, first: int, n: nat)
    requires IsRun(rate, s, evs) && InSeconds(evs, first, n)
    ensures Pops(evs) <= Max(0, (first + n) * MICROS - Max(s.lastReading + 1, first * MICROS))
    decreases evs
  {
    if evs != [] {
      assert forall i :: 0 <= i < |evs| - 1 ==> evs[1..][i] == evs[i + 1];
      PopsFit(rate, Step(rate, s, evs[0]), evs[1..], first, n);
    }
  }

  lemma WindowFits(rate: nat, consumers: nat, created: TimeStamp, before: seq<Event>,
                   window: seq<Event>, first: int, n: nat)
    requires MICROS <= rate && IsAnyWindow(rate, consumers, created, before, window, first, n)
    ensures Pops(window) <= n * rate
  {
    RunConcat(rate, Start(created, consumers), before, window);
    PopsFit(rate, After(rate, Start(created, consumers), before), window, first, n);
    MoreOf(n, MICROS, rate);
  }

  lemma MoreOf(n: nat, a: nat, b: nat)
    requires a <= b
    ensures n * a <= n * b
  {
  }

  /** The documented policy: no clock second holds more than `rate` pops. */
  ghost predicate KeepsPolicy(rate: nat, consumers: nat, since: nat) {
    forall created: TimeStamp, before: seq<Event>, window: seq<Event>, first: int ::
      created.seconds >= since && IsWindow(rate, consumers, created, before, window, first, 1) ==> Pops(window) <= rate
  }

  /** It is kept by no limit below the resolution of the clock. */
  lemma PolicyKeptExactlyWhen(rate: nat, consumers: nat, since: nat)
    requires 0 < rate && 0 < consumers
    ensures KeepsPolicy(rate, consumers, since) <==> MICROS <= rate
  {
    if MICROS <= rate {
      forall created: TimeStamp, before: seq<Event>, window: seq<Event>, first: int
        | IsWindow(rate, consumers, created, before, window, first, 1)
        ensures Pops(window) <= rate
      {
        WindowFits(rate, consumers, created, before, window, first, 1);
      }
    } else {
      var s := Start(TimeStamp(since, 0), consumers);
      var before := FillUp(rate, consumers, since);
      var evs := CrowdedSecond(rate, After(rate, s, before), 0, since + 1);
      RunConcat(rate, s, before, evs);
      assert IsWindow(rate, consumers, TimeStamp(since, 0), before, evs, since + 1, 1);
    }
  }

  /** The exact condition under which the amortised limit holds, for any limit and any number of consumers. */
  lemma LimitKeptExactlyWhen(rate: nat, consumers: nat, since: nat)
    requires 0 < rate && 0 < consumers
    ensures KeepsLimit(rate, consumers, since) <==> consumers + 2 <= rate || MICROS <= rate
  {
    if consumers + 2 <= rate || MICROS <= rate {
      forall created: TimeStamp, before: seq<Event>, window: seq<Event>, first: int, n: nat
        | IsWindow(rate, consumers, created, before, window, first, n)
        ensures Pops(window) <= n * rate + consumers
      {
        if MICROS <= rate {
          WindowFits(rate, consumers, created, before, window, first, n);
        } else {
          RateBound(rate, consumers, created, before, window, first, n);
        }
      }
    } else {
      var s, n := Start(TimeStamp(since, 0), consumers), consumers + 1;
      var before := FillUp(rate, consumers, since);
      var evs := CrowdedSeconds(rate, After(rate, s, before), 0, since + 1, n);
      RunConcat(rate, s, before, evs);
      assert IsWindow(rate, consumers, TimeStamp(since, 0), before, evs, since + 1, n);
      assert n * (rate + 1) == n * rate + n;
    }
  }

  // ---------------------------------------------------------------- the idle branch

  /** The idle branch leaves a wake-up time within the first 999 seconds of the epoch. */
  ghost predicate LooksIdle(l: Limiter) {
    l.wakeUp.ToUSeconds() < 999 * MICROS
  }

  /** Every pop of the run takes the idle branch and no caller is put to sleep. */
  ghost predicate Unlimited(rate: nat, s: System, evs: seq<Event>)
    requires IsRun(rate, s, evs)
    decreases evs
  {
    evs == [] ||
    (&& (evs[0].Pop? ==> IdleGuard(s.limiter, evs[0].at))
     && (evs[0].Decide? ==> SleepFor(rate, s.limiter.wakeUp, s.consumers[evs[0].k].lastPop) == 0)
     && Unlimited(rate, Step(rate, s, evs[0]), evs[1..]))
  }

  /** Once that happened, with any clock past the first 1001 seconds of the epoch every later pop takes
      the branch again and the queue never limits anybody again. */
  lemma {:induction false} IdleForever(rate: nat, s: System, evs: seq<Event>)
    requires 0 < rate && IsRun(rate, s, evs) && LooksIdle(s.limiter)
    requires forall i :: 0 <= i < |evs| && !evs[i].GiveUp? ==> 1001 <= evs[i].at.seconds
    requires forall k :: 0 <= k < |s.consumers| ==>
               && (s.consumers[k].Inside? ==> 999 * MICROS <= s.consumers[k].entry.ToUSeconds())
               && (s.consumers[k].Popped? ==> 999 * MICROS <= s.consumers[k].lastPop.ToUSeconds())
    ensures Unlimited(rate, s, evs)
    ensures LooksIdle(After(rate, s, evs).limiter)
    decreases evs
  {
    if evs != [] {
      IdleForever(rate, Step(rate, s, evs[0]), evs[1..]);
    }
  }

  /** Consumer 0 makes `m` pops, one a microsecond, whatever the limit. */
  lemma {:induction false} UnlimitedBurst(rate: nat, s: System, second: nat, n: nat, m: nat) returns (evs: seq<Event>)
    requires 0 < rate && LooksIdle(s.limiter) && 1001 <= second
    requires 0 < |s.consumers| && s.consumers[0].Away? && s.consumers[0].readyAt <= s.now
    requires s.now == s.lastReading && second * MICROS <= s.now && s.now + m < (second + n) * MICROS
    ensures IsRun(rate, s, evs) && InSeconds(evs, second, n) && Pops(evs) == m
    decreases m
  {
    if m == 0 {
      evs := [];
    } else {
      var at := Reading(s.now + 1);
      VisitRuns(rate, s, 0, at);
      var rest := UnlimitedBurst(rate, Visited(rate, s, 0, at), second, n, m - 1);
      evs := Visit(0, at) + rest;
      RunConcat(rate, s, Visit(0, at), rest);
    }
  }

  /** Where the guard of the idle branch is met, the promise is lost for good: a fresh queue that stays
      unused for two seconds lets a single one of its consumers pop at every microsecond of as many clock
      seconds as it likes, for any limit. */
  lemma IdleBreaksLimit(rate: nat, consumers: nat, created: nat, n: nat) returns (evs: seq<Event>)
    requires 0 < rate && 0 < consumers && 1001 <= created && 0 < n
    ensures IsAnyWindow(rate, consumers, TimeStamp(created, 0), [], evs, created + 2, n)
    ensures Pops(evs) == n * MICROS
  {
    var s := Start(TimeStamp(created, 0), consumers);
    var at := TimeStamp(created + 2, 0);
    VisitRuns(rate, s, 0, at);
    var s1 := Visited(rate, s, 0, at);
    assert IdleGuard(s.limiter, at);
    var rest := UnlimitedBurst(rate, s1, created + 2, n, n * MICROS - 1);
    evs := Visit(0, at) + rest;
    RunConcat(rate, s, Visit(0, at), rest);
    assert [] + evs == evs;
  }

  /** What the idle branch takes away: once pops may meet its guard, the amortised limit is kept by no limit
      below the resolution of the clock, however many consumers there are. */
  lemma AlwaysKeptExactlyWhen(rate: nat, consumers: nat, since: nat)
    requires 0 < rate && 0 < consumers
    ensures AlwaysKeepsLimit(rate, consumers, since) <==> MICROS <= rate
  {
    if MICROS <= rate {
      forall created: TimeStamp, before: seq<Event>, window: seq<Event>, first: int, n: nat
        | IsAnyWindow(rate, consumers, created, before, window, first, n)
        ensures Pops(window) <= n * rate + consumers
      {
        WindowFits(rate, consumers, created, before, window, first, n);
      }
    } else {
      var created, n := Max(since, 1001), consumers + 1;
      var evs := IdleBreaksLimit(rate, consumers, created, n);
      MoreOf(n, rate + 1, MICROS);
      assert n * (rate + 1) == n * rate + n;
    }
  }
}

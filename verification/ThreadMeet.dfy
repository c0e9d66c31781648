/** ThreadMeet: a meeting point for a number of threads. Threads do not wake up by themselves. */
module ThreadMeet {
  /** Written: the constructor and SetMaxcount assign their parameter to itself, so that the field of the same
      name keeps what it happened to hold. Intended: they set the field. */
  datatype Form = Written | Intended

  datatype Effect = PassesOn | WakesAll | Waits

  /** The fields, and what the methods do to them. */
  datatype Counter = Counter(form: Form, count: nat, maxCount: nat) {
    function Met(): (Counter, Effect) {
      if count == 0 then (this, PassesOn) else (this.(count := count - 1), if count == 1 then WakesAll else Waits)
    }

    function Refilled(): Counter {
      this.(count := maxCount)
    }

    function WithMax(max: nat): Counter {
      if form.Written? then this else this.(maxCount := max)
    }
  }

  /** A new object; `leftover` is what its memory held before. */
  function Made(form: Form, maxCount: nat, leftover: nat): Counter {
    var max := if maxCount == 0 then 1 else maxCount;
    Counter(form, max, if form.Written? then leftover else max)
  }

  // ---------------------------------------------------------------- the object, under its lock

  class MeetingPoint {
    const form: Form
    var count: nat
    var maxCount: nat

    constructor (form: Form, maxCount: nat, leftover: nat)
      ensures State() == Made(form, maxCount, leftover)
    {
      var max := if maxCount <= 0 then 1 else maxCount;
      this.form, this.count := form, max;
      this.maxCount := if form == Written then leftover else max;
    }

    ghost function State(): Counter
      reads this
    {
      Counter(form, count, maxCount)
    }

    method Meet() returns (effect: Effect)
      modifies this`count
      ensures (State(), effect) == old(State()).Met()
    {
      if count > 0 {
        count := count - 1;
        effect := if count == 0 then WakesAll else Waits;
      } else {
        effect := PassesOn;
      }
    }

    method Reset()
      modifies this`count
      ensures State() == old(State()).Refilled()
    {
      count := maxCount;
    }

    method SetMaxcount(maxCount: nat)
      modifies this`maxCount
      ensures State() == old(State()).WithMax(maxCount)
    {
      if form == Intended {
        this.maxCount := maxCount;
      }
    }
  }

  // ---------------------------------------------------------------- all threads

  /** How things stood when a thread was released: the calls since the last Reset, the number that Reset
      asked for, and how many Resets there had been. */
  datatype Release = Release(timed: bool, arrivals: nat, quota: nat, resets: nat)

  /** `waiting` maps the threads on the condition variable to whether their wait is timed; the threads in
      `released` only have to get the lock back to return. */
  datatype System = System(counter: Counter, waiting: map<nat, bool>, released: map<nat, Release>,
                           arrivals: nat, quota: nat, resets: nat)

  datatype Event =
    | Meets(thread: nat, timed: bool)
    | Expires(thread: nat)
    | Returns(thread: nat)
    | Resets
    | SetsMax(max: nat)

  predicate OnlyPositive(evs: seq<Event>) {
    forall i :: 0 <= i < |evs| && evs[i].SetsMax? ==> evs[i].max > 0
  }

  function Start(counter: Counter): System {
    System(counter, map[], map[], 0, counter.count, 0)
  }

  predicate Possible(s: System, e: Event) {
    match e
    case Meets(t, _) => t !in s.waiting && t !in s.released
    case Expires(t) => t in s.waiting && s.waiting[t]
    case Returns(t) => t in s.released
    case _ => true
  }

  function Released(s: System, waiting: map<nat, bool>, arrivals: nat): map<nat, Release> {
    s.released + map t | t in waiting :: Release(waiting[t], arrivals, s.quota, s.resets)
  }

  function Step(s: System, e: Event): System
    requires Possible(s, e)
  {
    match e
    case Meets(t, timed) =>
      var (counter, effect) := s.counter.Met();
      var n := s.(counter := counter, arrivals := s.arrivals + 1);
      (match effect
       case PassesOn => n.(released := Released(s, map[t := timed], n.arrivals))
       case WakesAll => n.(released := Released(s, s.waiting[t := timed], n.arrivals), waiting := map[])
       case Waits => n.(waiting := s.waiting[t := timed]))
    case Expires(t) =>
      s.(released := Released(s, map[t := true], s.arrivals), waiting := s.waiting - {t})
    case Returns(t) => s.(released := s.released - {t})
    case Resets =>
      var counter := s.counter.Refilled();
      s.(counter := counter, quota := counter.count, arrivals := 0, resets := s.resets + 1)
    case SetsMax(max) => s.(counter := s.counter.WithMax(max))
  }

  ghost predicate IsRun(s: System, evs: seq<Event>)
    decreases evs
  {
    evs == [] || (Possible(s, evs[0]) && IsRun(Step(s, evs[0]), evs[1..]))
  }

  ghost function After(s: System, evs: seq<Event>): System
    requires IsRun(s, evs)
    decreases evs
  {
    if evs == [] then s else After(Step(s, evs[0]), evs[1..])
  }

  /** The count is what is missing of the quota; and every release of a thread that waits without limit came
      when the quota had been met, which it still is unless there has been a Reset since. */
  ghost predicate Inv(s: System) {
    && s.counter.count == (if s.arrivals >= s.quota then 0 else s.quota - s.arrivals)
    && forall t :: t in s.released ==>
         var r := s.released[t];
         && (!r.timed ==> r.arrivals >= r.quota)
         && r.resets <= s.resets
         && (r.resets == s.resets ==> r.quota == s.quota && r.arrivals <= s.arrivals)
  }

  lemma StepKeeps(s: System, e: Event)
    requires Inv(s) && Possible(s, e)
    ensures Inv(Step(s, e))
  {
  }

  lemma {:induction false} RunKeeps(s: System, evs: seq<Event>)
    requires Inv(s) && IsRun(s, evs)
    ensures Inv(After(s, evs))
    decreases evs
  {
    if evs != [] {
      StepKeeps(s, evs[0]);
      RunKeeps(Step(s, evs[0]), evs[1..]);
    }
  }

  /** The threads that have called and not returned. */
  function Inside(evs: seq<Event>, inside: set<nat>): set<nat> {
    if evs == [] then inside
    else
      match evs[0]
      case Meets(t, _) => Inside(evs[1..], inside + {t})
      case Returns(t) => Inside(evs[1..], inside - {t})
      case _ => Inside(evs[1..], inside)
  }

  /** A call that finds others missing waits, with its own time limit; one that finds none missing passes; the one
      that makes up the number releases all who wait; and a wait that runs out releases its thread only. */
  lemma StepMoves(s: System, e: Event)
    requires Possible(s, e)
    ensures var n := Step(s, e);
            match e
            case Meets(t, timed) =>
              if s.counter.count == 0 then n.waiting == s.waiting && n.released.Keys == s.released.Keys + {t}
              else if s.counter.count == 1 then
                n.waiting == map[] && n.released.Keys == s.released.Keys + s.waiting.Keys + {t}
              else n.waiting == s.waiting[t := timed] && n.released == s.released
            case Expires(t) => n.waiting == s.waiting - {t} && n.released.Keys == s.released.Keys + {t}
            case Returns(t) => n.waiting == s.waiting && n.released == s.released - {t}
            case _ => n.waiting == s.waiting && n.released == s.released
  {
  }

  /** Every such thread is either waiting or released, in every run. */
  lemma {:induction false} NobodyIsLost(s: System, evs: seq<Event>)
    requires IsRun(s, evs) && s.waiting.Keys !! s.released.Keys
    ensures var n := After(s, evs);
            n.waiting.Keys !! n.released.Keys &&
            n.waiting.Keys + n.released.Keys == Inside(evs, s.waiting.Keys + s.released.Keys)
    decreases evs
  {
    if evs != [] {
      StepMoves(s, evs[0]);
      var n := Step(s, evs[0]);
      StepKeepsThreads(s, evs[0]);
      NobodyIsLost(n, evs[1..]);
    }
  }

  lemma StepKeepsThreads(s: System, e: Event)
    requires Possible(s, e) && s.waiting.Keys !! s.released.Keys
    ensures var n, inside := Step(s, e), s.waiting.Keys + s.released.Keys;
            && n.waiting.Keys !! n.released.Keys
            && n.waiting.Keys + n.released.Keys ==
               if e.Meets? then inside + {e.thread} else if e.Returns? then inside - {e.thread} else inside
  {
    StepMoves(s, e);
  }

  /** No call without a time limit is released before as many calls as the last Reset asked for. It returns
      before them exactly when the count is positive by then, and only if a Reset came in between. */
  lemma NoEarlyRelease(counter: Counter, evs: seq<Event>, t: nat)
    requires IsRun(Start(counter), evs) && t in After(Start(counter), evs).released
    ensures var s := After(Start(counter), evs);
            var r := s.released[t];
            !r.timed ==>
              && r.arrivals >= r.quota
              && (s.arrivals < s.quota <==> s.counter.count > 0)
              && (s.counter.count > 0 ==> r.resets < s.resets)
  {
    RunKeeps(Start(counter), evs);
  }

  /** Such an early return: two threads meet, and a Reset comes before the first has got the lock back. */
  lemma EarlyReturn()
    ensures var start, evs := Start(Made(Intended, 2, 0)), [Meets(1, false), Meets(2, false), Resets];
            && IsRun(start, evs)
            && var s := After(start, evs); Possible(s, Returns(1)) && s.arrivals < s.quota
  {
  }

  /** An untimed call, released when the quota had been met, can return although it is not met any more. */
  ghost predicate CanReturnEarly(s: System) {
    exists t :: t in s.released && !s.released[t].timed && s.arrivals < s.quota
  }

  /** A Reset to a positive maximum while an untimed call has been released and not yet returned. */
  ghost predicate Overtakes(s: System, e: Event) {
    e.Resets? && s.counter.maxCount > 0 && exists t :: t in s.released && !s.released[t].timed
  }

  lemma StepOvertakes(s: System, e: Event)
    requires Inv(s) && Possible(s, e) && !CanReturnEarly(s)
    ensures CanReturnEarly(Step(s, e)) <==> Overtakes(s, e)
  {
    var n := Step(s, e);
    if e.Resets? {
      assert n.released == s.released && n.arrivals == 0 && n.quota == s.counter.maxCount;
    } else if n.arrivals < n.quota {
      assert s.arrivals < s.quota && forall t :: t in s.released ==> s.released[t].timed;
      assert s.counter.count > 0 && (e.Meets? ==> n.counter.count > 0);
      assert forall t :: t in n.released ==> n.released[t].timed;
    }
  }

  /** Whether in some state of the run an untimed call can return early. */
  ghost predicate EverEarly(s: System, evs: seq<Event>)
    requires IsRun(s, evs)
    decreases evs
  {
    CanReturnEarly(s) || (evs != [] && EverEarly(Step(s, evs[0]), evs[1..]))
  }

  ghost predicate EverOvertakes(s: System, evs: seq<Event>)
    requires IsRun(s, evs)
    decreases evs
  {
    evs != [] && (Overtakes(s, evs[0]) || EverOvertakes(Step(s, evs[0]), evs[1..]))
  }

  lemma {:induction false} EarlyExactly(s: System, evs: seq<Event>)
    requires Inv(s) && !CanReturnEarly(s) && IsRun(s, evs)
    ensures EverEarly(s, evs) <==> EverOvertakes(s, evs)
    decreases evs
  {
    if evs != [] {
      StepOvertakes(s, evs[0]);
      StepKeeps(s, evs[0]);
      if !CanReturnEarly(Step(s, evs[0])) {
        EarlyExactly(Step(s, evs[0]), evs[1..]);
      }
    }
  }

  /** The runs in which an untimed call can return before as many calls as the last Reset asked for are exactly
      those in which a Reset to a positive maximum overtakes a released call. */
  lemma {:induction false} EarlyReturnExactlyWhen(counter: Counter, evs: seq<Event>)
    requires IsRun(Start(counter), evs)
    ensures EverEarly(Start(counter), evs) <==> EverOvertakes(Start(counter), evs)
  {
    EarlyExactly(Start(counter), evs);
  }

  // ---------------------------------------------------------------- the code as it stands

  predicate HasReset(evs: seq<Event>) {
    exists i :: 0 <= i < |evs| && evs[i].Resets?
  }

  /** Two systems that differ in the form and the stored maximum only. */
  predicate Alike(s: System, t: System) {
    s == t.(counter := Counter(s.counter.form, t.counter.count, s.counter.maxCount))
  }

  /** Until the first Reset the code as it stands does what is meant, whatever SetMaxcount is given. */
  lemma {:induction false} SameUntilReset(s: System, t: System, evs: seq<Event>)
    requires Alike(s, t) && IsRun(s, evs) && !HasReset(evs)
    ensures IsRun(t, evs) && Alike(After(s, evs), After(t, evs))
    decreases evs
  {
    if evs != [] {
      assert !evs[0].Resets?;
      assert forall i :: 0 <= i < |evs| - 1 ==> evs[1..][i] == evs[i + 1];
      SameUntilReset(Step(s, evs[0]), Step(t, evs[0]), evs[1..]);
    }
  }

  lemma {:induction false} MaxStays(s: System, evs: seq<Event>)
    requires s.counter.form.Written? && IsRun(s, evs)
    ensures After(s, evs).counter.form.Written? && After(s, evs).counter.maxCount == s.counter.maxCount
    ensures After(s, evs).resets >= s.resets
    ensures After(s, evs).quota == if After(s, evs).resets == s.resets then s.quota else s.counter.maxCount
    decreases evs
  {
    if evs != [] {
      MaxStays(Step(s, evs[0]), evs[1..]);
    }
  }

  /** From the first Reset on, the code as it stands asks for as many calls as the memory of the object
      happened to hold: it is right, in all runs with a Reset, exactly when that is the number asked for. */
  lemma WrittenQuota(maxCount: nat, leftover: nat, evs: seq<Event>)
    requires IsRun(Start(Made(Written, maxCount, leftover)), evs)
    ensures var s := After(Start(Made(Written, maxCount, leftover)), evs);
            s.quota == if s.resets > 0 then leftover else if maxCount == 0 then 1 else maxCount
  {
    MaxStays(Start(Made(Written, maxCount, leftover)), evs);
  }

  // ---------------------------------------------------------------- waiting for nobody

  /** Threads wait although no call is missing. */
  predicate Stuck(s: System) {
    s.counter.count == 0 && s.waiting != map[]
  }

  /** A Reset to zero while threads wait. */
  predicate Strands(s: System, e: Event) {
    e.Resets? && s.counter.maxCount == 0 && s.waiting != map[]
  }

  lemma StepSticks(s: System, e: Event)
    requires Possible(s, e) && !Stuck(s)
    ensures Stuck(Step(s, e)) <==> Strands(s, e)
  {
  }

  /** Whether some state of the run is stuck. */
  ghost predicate EverStuck(s: System, evs: seq<Event>)
    requires IsRun(s, evs)
    decreases evs
  {
    Stuck(s) || (evs != [] && EverStuck(Step(s, evs[0]), evs[1..]))
  }

  ghost predicate EverStrands(s: System, evs: seq<Event>)
    requires IsRun(s, evs)
    decreases evs
  {
    evs != [] && (Strands(s, evs[0]) || EverStrands(Step(s, evs[0]), evs[1..]))
  }

  lemma {:induction false} StuckExactly(s: System, evs: seq<Event>)
    requires !Stuck(s) && IsRun(s, evs)
    ensures EverStuck(s, evs) <==> EverStrands(s, evs)
    decreases evs
  {
    if evs != [] {
      StepSticks(s, evs[0]);
      if !Stuck(Step(s, evs[0])) {
        StuckExactly(Step(s, evs[0]), evs[1..]);
      }
    }
  }

  lemma {:induction false} NeverStrands(s: System, evs: seq<Event>)
    requires s.counter.maxCount > 0 && IsRun(s, evs)
    requires s.counter.form.Written? || OnlyPositive(evs)
    ensures !EverStrands(s, evs)
    decreases evs
  {
    if evs != [] {
      NeverStrands(Step(s, evs[0]), evs[1..]);
    }
  }

  /** The number of calls that the latest Reset asked for, and those made since, read off the events alone. */
  function Asked(evs: seq<Event>, quota: nat, stored: nat): nat {
    if evs == [] then quota
    else
      match evs[0]
      case Resets => Asked(evs[1..], stored, stored)
      case SetsMax(max) => Asked(evs[1..], quota, max)
      case _ => Asked(evs[1..], quota, stored)
  }

  function Calls(evs: seq<Event>, made: nat): nat {
    if evs == [] then made
    else
      match evs[0]
      case Resets => Calls(evs[1..], 0)
      case Meets(_, _) => Calls(evs[1..], made + 1)
      case _ => Calls(evs[1..], made)
  }

  lemma {:induction false} RunCalls(s: System, evs: seq<Event>)
    requires IsRun(s, evs)
    ensures After(s, evs).arrivals == Calls(evs, s.arrivals)
    ensures s.counter.form.Intended? ==> After(s, evs).quota == Asked(evs, s.quota, s.counter.maxCount)
    decreases evs
  {
    if evs != [] {
      RunCalls(Step(s, evs[0]), evs[1..]);
    }
  }

  /** As the code is meant, a meeting takes the number that was asked for and no more: a thread waits only while
      fewer calls have been made since the latest Reset, unless a Reset to zero has stranded it. */
  lemma MeetingIsExact(maxCount: nat, leftover: nat, evs: seq<Event>)
    requires IsRun(Start(Made(Intended, maxCount, leftover)), evs)
    ensures var start, max := Start(Made(Intended, maxCount, leftover)), if maxCount == 0 then 1 else maxCount;
            var s := After(start, evs);
            && s.quota == Asked(evs, max, max) && s.arrivals == Calls(evs, 0)
            && (!EverStrands(start, evs) && s.waiting != map[] ==> Calls(evs, 0) < Asked(evs, max, max))
  {
    var start := Start(Made(Intended, maxCount, leftover));
    RunCalls(start, evs);
    RunKeeps(start, evs);
    StuckExactly(start, evs);
    if Stuck(After(start, evs)) {
      StuckAtEnd(start, evs);
    }
  }

  lemma {:induction false} StuckAtEnd(s: System, evs: seq<Event>)
    requires IsRun(s, evs) && Stuck(After(s, evs))
    ensures EverStuck(s, evs)
    decreases evs
  {
    if evs != [] {
      StuckAtEnd(Step(s, evs[0]), evs[1..]);
    }
  }

  /** A thread waits while the count is zero exactly in those runs in which a Reset to zero strands it; so, as
      the code is meant, never as long as nobody calls SetMaxcount(0), and as it stands, never if the memory of
      the object did not hold zero. */
  lemma NobodyIsStuck(form: Form, maxCount: nat, leftover: nat, evs: seq<Event>)
    requires IsRun(Start(Made(form, maxCount, leftover)), evs)
    ensures var start := Start(Made(form, maxCount, leftover));
            && (EverStuck(start, evs) <==> EverStrands(start, evs))
            && (form.Intended? && OnlyPositive(evs) ==> !EverStuck(start, evs))
            && (form.Written? && leftover > 0 ==> !EverStuck(start, evs))
  {
    var start := Start(Made(form, maxCount, leftover));
    StuckExactly(start, evs);
    if start.counter.maxCount > 0 && (form.Written? || OnlyPositive(evs)) {
      NeverStrands(start, evs);
    }
  }
}

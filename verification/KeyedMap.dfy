/** TMapString: items under string keys, taken by key or smallest key first. */
module KeyedMap {
  import opened Basics

  // ---------------------------------------------------------------- the order of keys

  predicate Below(a: string, b: string) {
    b != "" && (a == "" || a[0] < b[0] || (a[0] == b[0] && Below(a[1..], b[1..])))
  }

  predicate IsLeast(k: string, keys: set<string>) {
    k in keys && forall j :: j in keys ==> j == k || Below(k, j)
  }

  /** The same up to place `k`, and there ended or less. */
  predicate LessAt(a: string, b: string, k: nat) {
    k <= |a| && k < |b| && a[..k] == b[..k] && (k == |a| || a[k] < b[k])
  }

  /** The order of strings, by the first place where they differ. */
  lemma {:induction false} BelowExactly(a: string, b: string)
    ensures Below(a, b) <==> exists k: nat :: LessAt(a, b, k)
  {
    if a != "" && b != "" && a[0] == b[0] {
      BelowExactly(a[1..], b[1..]);
      if k: nat :| LessAt(a[1..], b[1..], k) {
        LessAtNext(a, b, k);
      }
      if k: nat :| LessAt(a, b, k) {
        if k > 0 {
          LessAtNext(a, b, k - 1);
        }
      }
    } else {
      forall k: nat
        ensures LessAt(a, b, k) <==> k == 0 && b != "" && (a == "" || a[0] < b[0])
      {
        LessAtOnce(a, b, k);
      }
      assert Below(a, b) ==> LessAt(a, b, 0);
    }
  }

  lemma LessAtOnce(a: string, b: string, k: nat)
    requires a == "" || b == "" || a[0] != b[0]
    ensures LessAt(a, b, k) <==> k == 0 && b != "" && (a == "" || a[0] < b[0])
  {
    if 0 < k <= |a| && k < |b| {
      assert a[..k][0] == a[0] && b[..k][0] == b[0];
    }
  }

  lemma LessAtNext(a: string, b: string, k: nat)
    requires a != "" && b != "" && a[0] == b[0]
    ensures LessAt(a, b, k + 1) <==> LessAt(a[1..], b[1..], k)
  {
    if k + 1 <= |a| && k + 1 <= |b| {
      assert a[..k + 1] == [a[0]] + a[1..][..k] && b[..k + 1] == [b[0]] + b[1..][..k];
      assert a[..k + 1][1..] == a[1..][..k] && b[..k + 1][1..] == b[1..][..k];
    }
  }

  lemma {:induction false} BelowConnected(a: string, b: string)
    ensures a == b || Below(a, b) || Below(b, a)
  {
    if a != "" && b != "" && a[0] == b[0] {
      BelowConnected(a[1..], b[1..]);
      assert a == [a[0]] + a[1..] && b == [b[0]] + b[1..];
    }
  }

  lemma {:induction false} BelowTransitive(a: string, b: string, c: string)
    requires Below(a, b) && Below(b, c)
    ensures Below(a, c)
  {
    if a != "" && a[0] == b[0] == c[0] {
      BelowTransitive(a[1..], b[1..], c[1..]);
    }
  }

  lemma {:induction false} BelowAntisymmetric(a: string, b: string)
    ensures !(Below(a, b) && Below(b, a))
  {
    if a != "" && b != "" && a[0] == b[0] {
      BelowAntisymmetric(a[1..], b[1..]);
    }
  }

  lemma LeastUnique(j: string, k: string, keys: set<string>)
    requires IsLeast(j, keys) && IsLeast(k, keys)
    ensures j == k
  {
    BelowAntisymmetric(j, k);
  }

  /** The first key of an ordered map. */
  method Begin(keys: set<string>) returns (k: string)
    requires keys != {}
    ensures IsLeast(k, keys)
  {
    k := Any(keys);
    var rest := keys - {k};
    while rest != {}
      invariant rest <= keys && IsLeast(k, keys - rest)
    {
      var j := Any(rest);
      BelowConnected(j, k);
      LeastOfMore(keys - rest, k, j);
      if Below(j, k) {
        k := j;
      }
      assert keys - (rest - {j}) == (keys - rest) + {j};
      rest := rest - {j};
    }
    assert keys - rest == keys;
  }

  lemma LeastOfMore(keys: set<string>, k: string, j: string)
    requires IsLeast(k, keys)
    ensures IsLeast(if Below(j, k) then j else k, keys + {j})
  {
    BelowConnected(j, k);
    if Below(j, k) {
      forall i | i in keys
        ensures i == j || Below(j, i)
      {
        if i != k {
          BelowTransitive(j, k, i);
        }
      }
    }
  }

  lemma {:induction false} LeastExists(keys: set<string>)
    requires keys != {}
    ensures exists k :: IsLeast(k, keys)
  {
    var j := Member(keys);
    var rest := keys - {j};
    if rest == {} {
      assert keys == {j};
      assert IsLeast(j, keys);
    } else {
      LeastExists(rest);
      var k :| IsLeast(k, rest);
      LeastOfMore(rest, k, j);
      assert rest + {j} == keys;
    }
  }

  ghost function Member<K>(s: set<K>): (x: K)
    requires s != {}
    ensures x in s
  {
    var x :| x in s;
    x
  }

  ghost function Least(keys: set<string>): (k: string)
    requires keys != {}
    ensures IsLeast(k, keys)
  {
    LeastExists(keys);
    var k :| IsLeast(k, keys);
    k
  }

  // ---------------------------------------------------------------- one locked stretch of a pop

  /** What a thread inside a pop is after. A timed pop with timeout 0 waits without limit. */
  datatype Want = ByKey(key: string) | ByKeyTimed(key: string, limited: bool) | Front

  /** How a wait ended. */
  datatype Wake = ByPush | ByExpiry

  /** The pop waits, or reports a code and perhaps an item, here with its key. */
  datatype Verdict<T> = Blocks | Leaves(code: int, taken: Option<(string, T)>)

  const NOT_FOUND: int := -2
  const ETIMEDOUT: int := 110

  function Inserted<T>(items: map<string, T>, key: string, item: T): map<string, T> {
    if key in items then items else items[key := item]
  }

  /** What a pop does while it holds the lock: from its beginning, or, with `woken`, from the end of a wait,
      up to its return or the next wait. */
  ghost function Attempt<T>(items: map<string, T>, want: Want, woken: Option<Wake>): (map<string, T>, Verdict<T>) {
    match want
    case ByKey(key) =>
      if items == map[] then (items, Blocks)
      else if key in items then (items - {key}, Leaves(0, Some((key, items[key]))))
      else (items, Leaves(NOT_FOUND, None))
    case ByKeyTimed(key, _) =>
      if key in items then (items - {key}, Leaves(0, Some((key, items[key]))))
      else
        // the code returned is that of the wait
        (items, match woken case None => Blocks case Some(ByPush) => Leaves(0, None) case _ => Leaves(ETIMEDOUT, None))
    case Front =>
      if items == map[] then (items, Blocks)
      else
        NotEmpty(items);
        var key := Least(items.Keys);
        (items - {key}, Leaves(0, Some((key, items[key]))))
  }

  lemma NotEmpty<K, V>(m: map<K, V>)
    ensures m.Keys == {} ==> m == map[]
  {
    assert m.Keys == {} ==> forall k :: k !in m;
  }

  class TMapString<T> {
    var items: map<string, T>

    constructor ()
      ensures items == map[]
    {
      items := map[];
    }

    /** An item under a key that is taken does not replace the one there. */
    method Push(key: string, item: T)
      modifies this
      ensures items == Inserted(old(items), key, item)
    {
      if key !in items {
        items := items[key := item];
      }
    }

    method Take(key: string) returns (found: bool, verdict: Verdict<T>)
      modifies this
      ensures found == (key in old(items)) && items == old(items) - {key}
      ensures verdict == if found then Leaves(0, Some((key, old(items)[key]))) else Blocks
    {
      found, verdict := key in items, Blocks;
      if found {
        verdict := Leaves(0, Some((key, items[key])));
        items := items - {key};
      }
    }

    method PopByKey(key: string, ghost woken: Option<Wake>) returns (verdict: Verdict<T>)
      modifies this
      ensures (items, verdict) == Attempt(old(items), ByKey(key), woken)
      ensures items == old(items) - {key}
      ensures verdict == if key in old(items) then Leaves(0, Some((key, old(items)[key])))
                         else if old(items) == map[] then Blocks else Leaves(-2, None)
    {
      if items == map[] {
        return Blocks;
      }
      var found;
      found, verdict := Take(key);
      if !found {
        assert items == old(items);
        verdict := Leaves(NOT_FOUND, None);
      }
    }

    /** `woken` is what the flag have_wait and the result of the wait tell. */
    method PopByKeyTimed(key: string, limited: bool, woken: Option<Wake>) returns (verdict: Verdict<T>)
      modifies this
      ensures (items, verdict) == Attempt(old(items), ByKeyTimed(key, limited), woken)
      ensures items == old(items) - {key}
      ensures key in old(items) ==> verdict == Leaves(0, Some((key, old(items)[key])))
    {
      var found;
      found, verdict := Take(key);
      if !found {
        assert items == old(items);
        if woken.Some? {
          verdict := Leaves(if woken.value == ByPush then 0 else ETIMEDOUT, None);
        }
      }
    }

    method PopFront(ghost woken: Option<Wake>) returns (verdict: Verdict<T>)
      modifies this
      ensures (items, verdict) == Attempt(old(items), Front, woken)
    {
      if items == map[] {
        return Blocks;
      }
      NotEmpty(items);
      var key := Begin(items.Keys);
      LeastUnique(key, Least(items.Keys), items.Keys);
      verdict := Leaves(0, Some((key, items[key])));
      items := items - {key};
    }
  }

  // ---------------------------------------------------------------- the monitor

  datatype Waiter = Parked(want: Want) | Woken(want: Want, cause: Wake)

  /** A pop that has come back. */
  datatype Return<T> = Return(thread: nat, want: Want, woken: Option<Wake>, code: int, taken: Option<(string, T)>)

  datatype Monitor<T> = Monitor(items: map<string, T>, waiters: map<nat, Waiter>,
                                accepted: seq<(string, T)>, popped: seq<(string, T)>, reports: seq<Return<T>>)

  datatype Action<T> =
    | PushCall(key: string, item: T)
    | PopCall(thread: nat, want: Want)
    | Expires(thread: nat)
    | Resumes(thread: nat)

  predicate CanAct<T>(m: Monitor<T>, a: Action<T>) {
    match a
    case PushCall(_, _) => true
    case PopCall(thread, _) => thread !in m.waiters
    case Expires(thread) =>
      && thread in m.waiters && m.waiters[thread].Parked?
      && m.waiters[thread].want.ByKeyTimed? && m.waiters[thread].want.limited
    case Resumes(thread) => thread in m.waiters && m.waiters[thread].Woken?
  }

  /** Whoever is still blocked is woken. */
  function Broadcast(waiters: map<nat, Waiter>): map<nat, Waiter> {
    map t | t in waiters :: if waiters[t].Parked? then Woken(waiters[t].want, ByPush) else waiters[t]
  }

  ghost function Look<T>(m: Monitor<T>, thread: nat, want: Want, woken: Option<Wake>): Monitor<T> {
    var (items, verdict) := Attempt(m.items, want, woken);
    match verdict
    case Blocks => m.(waiters := m.waiters[thread := Parked(want)])
    case Leaves(code, taken) =>
      Monitor(items, m.waiters - {thread}, m.accepted, m.popped + Listed(taken),
              m.reports + [Return(thread, want, woken, code, taken)])
  }

  function Listed<X>(taken: Option<X>): seq<X> {
    if taken.Some? then [taken.value] else []
  }

  ghost function Act<T>(m: Monitor<T>, a: Action<T>): Monitor<T>
    requires CanAct(m, a)
  {
    match a
    case PushCall(key, item) =>
      m.(items := Inserted(m.items, key, item), waiters := Broadcast(m.waiters),
         accepted := if key in m.items then m.accepted else m.accepted + [(key, item)])
    case PopCall(thread, want) => Look(m, thread, want, None)
    case Expires(thread) => m.(waiters := m.waiters[thread := Woken(m.waiters[thread].want, ByExpiry)])
    case Resumes(thread) => Look(m, thread, m.waiters[thread].want, Some(m.waiters[thread].cause))
  }

  ghost predicate IsHistory<T>(m: Monitor<T>, acts: seq<Action<T>>)
    decreases acts
  {
    acts == [] || (CanAct(m, acts[0]) && IsHistory(Act(m, acts[0]), acts[1..]))
  }

  ghost function Outcome<T>(m: Monitor<T>, acts: seq<Action<T>>): Monitor<T>
    requires IsHistory(m, acts)
    decreases acts
  {
    if acts == [] then m else Outcome(Act(m, acts[0]), acts[1..])
  }

  /** The items a log holds under one key, in order. */
  function Under<T>(log: seq<(string, T)>, key: string): seq<T> {
    if log == [] then []
    else
      var (k, item) := log[|log| - 1];
      Under(log[..|log| - 1], key) + if k == key then [item] else []
  }

  lemma UnderNext<T>(log: seq<(string, T)>, k: string, item: T, key: string)
    ensures Under(log + [(k, item)], key) == Under(log, key) + if k == key then [item] else []
  {
    assert (log + [(k, item)])[..|log|] == log;
  }

  function Present<T>(items: map<string, T>, key: string): seq<T> {
    if key in items then [items[key]] else []
  }

  /** Under every key, what was accepted was popped in order, but for the one item that is still there. */
  ghost predicate Conserved<T>(m: Monitor<T>) {
    forall key :: Under(m.accepted, key) == Under(m.popped, key) + Present(m.items, key)
  }

  /** A thread blocks only while what it is after is missing. */
  predicate Missing<T>(items: map<string, T>, want: Want) {
    if want.ByKeyTimed? then want.key !in items else items == map[]
  }

  ghost predicate Blocked<T>(m: Monitor<T>) {
    forall t :: t in m.waiters && m.waiters[t].Parked? ==> Missing(m.items, m.waiters[t].want)
  }

  /** Every pop returned the code it should, but for one case. */
  ghost predicate Reported<T>(m: Monitor<T>) {
    m.popped == Given(m.reports) && CodesAreRight(m.reports)
  }

  predicate CodesAreRight<T>(reports: seq<Return<T>>) {
    forall i :: 0 <= i < |reports| ==> CodeIsRight(reports[i])
  }

  function Given<T>(reports: seq<Return<T>>): seq<(string, T)> {
    if reports == [] then [] else Given(reports[..|reports| - 1]) + Listed(reports[|reports| - 1].taken)
  }

  /** A timed pop that a push has woken without bringing its key. */
  predicate Misled<T>(r: Return<T>) {
    r.want.ByKeyTimed? && r.woken == Some(ByPush) && r.taken.None?
  }

  /** The code is 0 exactly if there is an item or the pop was misled. */
  predicate CodeIsRight<T>(r: Return<T>) {
    && (r.code == 0 <==> r.taken.Some? || Misled(r))
    && (r.code == NOT_FOUND <==> r.want.ByKey? && r.taken.None?)
    && (r.code == ETIMEDOUT <==> r.want.ByKeyTimed? && r.woken == Some(ByExpiry) && r.taken.None?)
    && (r.taken.Some? && !r.want.Front? ==> r.taken.value.0 == r.want.key)
  }

  ghost predicate Sound<T>(m: Monitor<T>) {
    Conserved(m) && Blocked(m) && Reported(m)
  }

  /** What one stretch does to the items under each key. */
  lemma AttemptConserves<T>(items: map<string, T>, want: Want, woken: Option<Wake>, key: string)
    ensures var (after, verdict) := Attempt(items, want, woken);
            && (verdict.Blocks? ==> Missing(items, want))
            && (verdict.Blocks? || verdict.taken.None? ==> after == items)
            && (verdict.Leaves? && verdict.taken.Some? ==>
                  var (k, item) := verdict.taken.value;
                  && k in items && after == items - {k}
                  && Present(items, key) == (if k == key then [item] else []) + Present(after, key))
  {
    if want.Front? {
      NotEmpty(items);
    }
  }

  lemma LookConserves<T>(m: Monitor<T>, thread: nat, want: Want, woken: Option<Wake>)
    requires Conserved(m)
    ensures Conserved(Look(m, thread, want, woken))
  {
    var n, verdict := Look(m, thread, want, woken), Attempt(m.items, want, woken).1;
    forall key
      ensures Under(n.accepted, key) == Under(n.popped, key) + Present(n.items, key)
    {
      AttemptConserves(m.items, want, woken, key);
      if verdict.Leaves? && verdict.taken.Some? {
        var (k, item) := verdict.taken.value;
        UnderNext(m.popped, k, item, key);
        var one := if k == key then [item] else [];
        var before, after := Under(m.popped, key), Present(n.items, key);
        assert before + (one + after) == before + one + after;
      } else if verdict.Leaves? {
        assert n.popped == m.popped;
      }
    }
  }

  lemma LookBlocks<T>(m: Monitor<T>, thread: nat, want: Want, woken: Option<Wake>)
    requires Blocked(m)
    ensures Blocked(Look(m, thread, want, woken))
  {
    AttemptConserves(m.items, want, woken, "");
  }

  lemma LookReports<T>(m: Monitor<T>, thread: nat, want: Want, woken: Option<Wake>)
    requires Reported(m)
    ensures Reported(Look(m, thread, want, woken))
  {
    var verdict := Attempt(m.items, want, woken).1;
    if verdict.Leaves? {
      AttemptCode(m.items, want, woken, thread);
      ReportsNext(m.reports, Return(thread, want, woken, verdict.code, verdict.taken));
    }
  }

  /** The code of a stretch that ends the pop. */
  lemma AttemptCode<T>(items: map<string, T>, want: Want, woken: Option<Wake>, thread: nat)
    ensures var verdict := Attempt(items, want, woken).1;
            verdict.Leaves? ==> CodeIsRight(Return(thread, want, woken, verdict.code, verdict.taken))
  {
  }

  lemma ReportsNext<T>(reports: seq<Return<T>>, r: Return<T>)
    requires CodeIsRight(r) && CodesAreRight(reports)
    ensures Given(reports + [r]) == Given(reports) + Listed(r.taken) && CodesAreRight(reports + [r])
  {
    assert (reports + [r])[..|reports|] == reports;
  }

  lemma LookKeeps<T>(m: Monitor<T>, thread: nat, want: Want, woken: Option<Wake>)
    requires Sound(m)
    ensures Sound(Look(m, thread, want, woken))
  {
    LookConserves(m, thread, want, woken);
    LookBlocks(m, thread, want, woken);
    LookReports(m, thread, want, woken);
  }

  lemma ActKeeps<T>(m: Monitor<T>, a: Action<T>)
    requires Sound(m) && CanAct(m, a)
    ensures Sound(Act(m, a))
  {
    match a
    case PushCall(key, item) => PushKeeps(m, key, item);
    case PopCall(thread, want) => LookKeeps(m, thread, want, None);
    case Expires(thread) =>
    case Resumes(thread) => LookKeeps(m, thread, m.waiters[thread].want, Some(m.waiters[thread].cause));
  }

  lemma PushKeeps<T>(m: Monitor<T>, key: string, item: T)
    requires Sound(m)
    ensures Sound(Act(m, PushCall(key, item)))
  {
    var n := Act(m, PushCall(key, item));
    forall k
      ensures Under(n.accepted, k) == Under(n.popped, k) + Present(n.items, k)
    {
      UnderNext(m.accepted, key, item, k);
    }
  }

  lemma {:induction false} HistoryKeeps<T>(m: Monitor<T>, acts: seq<Action<T>>)
    requires Sound(m) && IsHistory(m, acts)
    ensures Sound(Outcome(m, acts))
    decreases acts
  {
    if acts != [] {
      ActKeeps(m, acts[0]);
      HistoryKeeps(Act(m, acts[0]), acts[1..]);
    }
  }

  function Fresh<T>(): Monitor<T> {
    Monitor(map[], map[], [], [], [])
  }

  /** In every interleaving from the empty map on. */
  lemma MapIsSound<T>(acts: seq<Action<T>>)
    requires IsHistory(Fresh(), acts)
    ensures Sound(Outcome(Fresh(), acts))
  {
    HistoryKeeps(Fresh(), acts);
  }

  /** What a pop looks for is what it takes: the items, the reports and the waiting threads afterwards. */
  ghost predicate Gets<T>(m: Monitor<T>, n: Monitor<T>, thread: nat, want: Want, woken: Option<Wake>, key: string) {
    && key in m.items && n.items == m.items - {key} && n.waiters == m.waiters - {thread}
    && n.popped == m.popped + [(key, m.items[key])]
    && n.reports == m.reports + [Return(thread, want, woken, 0, Some((key, m.items[key])))]
  }

  /** Of a pop that takes nothing: the code it returns, or none if it waits. */
  ghost predicate GetsNone<T>(m: Monitor<T>, n: Monitor<T>, thread: nat, want: Want, woken: Option<Wake>,
                              code: Option<int>) {
    && n.items == m.items && n.popped == m.popped
    && n.waiters == (if code.None? then m.waiters[thread := Parked(want)] else m.waiters - {thread})
    && n.reports == m.reports + if code.None? then [] else [Return(thread, want, woken, code.value, None)]
  }

  /** The item under the key, or that under the least key. Else the pop waits, if the map is empty or, for a timed
      pop, if it has not waited yet; a key that a map with other items lacks is reported as -2, and the end of
      a wait as 0 or 110. */
  ghost predicate Serves<T>(m: Monitor<T>, n: Monitor<T>, thread: nat, want: Want, woken: Option<Wake>) {
    match want
    case Front =>
      if m.items == map[] then GetsNone(m, n, thread, want, woken, None)
      else exists key :: IsLeast(key, m.items.Keys) && Gets(m, n, thread, want, woken, key)
    case ByKey(key) =>
      if key in m.items then Gets(m, n, thread, want, woken, key)
      else GetsNone(m, n, thread, want, woken, if m.items == map[] then None else Some(-2))
    case ByKeyTimed(key, _) =>
      if key in m.items then Gets(m, n, thread, want, woken, key)
      else GetsNone(m, n, thread, want, woken,
                    match woken case None => None case Some(ByPush) => Some(0) case Some(ByExpiry) => Some(110))
  }

  /** Every pop that gets the lock takes what it is after if that is there, whatever it was woken by. */
  lemma PopTakes<T>(m: Monitor<T>, a: Action<T>)
    requires CanAct(m, a) && (a.PopCall? || a.Resumes?)
    ensures if a.PopCall? then Serves(m, Act(m, a), a.thread, a.want, None)
            else Serves(m, Act(m, a), a.thread, m.waiters[a.thread].want, Some(m.waiters[a.thread].cause))
  {
    if a.PopCall? {
      LookServes(m, a.thread, a.want, None);
    } else {
      LookServes(m, a.thread, m.waiters[a.thread].want, Some(m.waiters[a.thread].cause));
    }
  }

  lemma LookServes<T>(m: Monitor<T>, thread: nat, want: Want, woken: Option<Wake>)
    ensures Serves(m, Look(m, thread, want, woken), thread, want, woken)
  {
    NotEmpty(m.items);
    var n := Look(m, thread, want, woken);
    if want.Front? && m.items != map[] {
      var key := Least(m.items.Keys);
      assert Gets(m, n, thread, want, woken, key);
    }
  }

  /** -2 is reported exactly if the map has items but lacks the key. */
  lemma NotFoundExactlyWhen<T>(m: Monitor<T>, a: Action<T>)
    requires CanAct(m, a)
    ensures (exists r :: Act(m, a).reports == m.reports + [r] && r.code == -2) <==>
            && (a.PopCall? || a.Resumes?)
            && var want := if a.PopCall? then a.want else m.waiters[a.thread].want;
               want.ByKey? && m.items != map[] && want.key !in m.items
  {
    var n := Act(m, a);
    assert forall r :: n.reports == m.reports + [r] ==> r == n.reports[|m.reports|];
    if a.PopCall? || a.Resumes? {
      PopTakes(m, a);
      assert |n.reports| > |m.reports| ==> n.reports == m.reports + [n.reports[|m.reports|]];
    }
  }

  /** A push wakes whoever waits, and a wait that runs out is told apart from that. */
  lemma WhoWakes<T>(m: Monitor<T>, a: Action<T>)
    requires CanAct(m, a) && (a.PushCall? || a.Expires?)
    ensures var n := Act(m, a);
            && n.reports == m.reports && n.popped == m.popped && n.waiters.Keys == m.waiters.Keys
            && forall t :: t in m.waiters ==>
                 n.waiters[t] == if m.waiters[t].Woken? || (a.Expires? && t != a.thread) then m.waiters[t]
                                 else Woken(m.waiters[t].want, if a.PushCall? then ByPush else ByExpiry)
    ensures a.PushCall? ==> Act(m, a).items == if a.key in m.items then m.items else m.items[a.key := a.item]
  {
  }

  /** A return without an item that reports success: exactly when a push has woken the timed pop, rather than
      its time running out, and its key is missing as it gets the lock. */
  lemma FalseSuccessExactlyWhen<T>(m: Monitor<T>, a: Action<T>)
    requires CanAct(m, a)
    ensures (exists r :: Act(m, a).reports == m.reports + [r] && r.code == 0 && r.taken.None?) <==>
            && a.Resumes? && m.waiters[a.thread].cause == ByPush
            && m.waiters[a.thread].want.ByKeyTimed? && m.waiters[a.thread].want.key !in m.items
  {
    var n := Act(m, a);
    if a.PopCall? || a.Resumes? {
      var want, woken := if a.PopCall? then a.want else m.waiters[a.thread].want,
                         if a.PopCall? then None else Some(m.waiters[a.thread].cause);
      LastReturn(m, a.thread, want, woken);
    } else {
      assert |n.reports| == |m.reports|;
    }
  }

  lemma LastReturn<T>(m: Monitor<T>, thread: nat, want: Want, woken: Option<Wake>)
    ensures var n := Look(m, thread, want, woken);
            (exists r :: n.reports == m.reports + [r] && r.code == 0 && r.taken.None?) <==>
            want.ByKeyTimed? && woken == Some(ByPush) && want.key !in m.items
  {
    var n, verdict := Look(m, thread, want, woken), Attempt(m.items, want, woken).1;
    if verdict.Leaves? {
      var last := Return(thread, want, woken, verdict.code, verdict.taken);
      assert n.reports == m.reports + [last];
      assert forall r :: n.reports == m.reports + [r] ==> r == n.reports[|m.reports|];
    } else {
      assert |n.reports| == |m.reports|;
    }
  }

  /** Such a run: thread 1 waits for one key, another is pushed, and its pop returns 0 with nothing. */
  lemma FalseSuccess<T>(item: T)
    ensures var acts := [PopCall(1, ByKeyTimed("a", true)), PushCall("b", item), Resumes(1)];
            && IsHistory(Fresh(), acts)
            && Outcome(Fresh(), acts).reports == [Return(1, ByKeyTimed("a", true), Some(ByPush), 0, None)]
  {
    var want := ByKeyTimed("a", true);
    var a, b, c := PopCall(1, want), PushCall("b", item), Resumes(1);
    var m1 := Act(Fresh<T>(), a);
    assert m1 == Monitor(map[], map[1 := Parked(want)], [], [], []);
    var m2 := Act(m1, b);
    assert m2.waiters == map[1 := Woken(want, ByPush)] && m2.items == map["b" := item];
    var m3 := Act(m2, c);
    assert [a, b, c][1..] == [b, c] && [b, c][1..] == [c] && [c][1..] == [];
    assert IsHistory(m3, []) && Outcome(m3, []) == m3;
    assert IsHistory(m2, [c]) && Outcome(m2, [c]) == m3;
    assert IsHistory(m1, [b, c]) && Outcome(m1, [b, c]) == m3;
  }
}

/** ConnMgtLB: a pool of connections handed out round-robin and reconciled with a list of servers. */
module ConnPool {
  datatype Endpoint = Endpoint(ip: string, port: nat)

  datatype Svr = Svr(at: Endpoint, ipOut: string, domain: string)

  /** Servers are told apart by address and port alone. */
  predicate SameEndpoint(a: Svr, b: Svr) {
    a.at == b.at
  }

  class Conn {
    const svr: Svr
    var open: bool

    constructor (svr: Svr)
      ensures this.svr == svr && !open
    {
      this.svr := svr;
      open := false;
    }

    /** May succeed or not. */
    method Connect()
      modifies this`open
    {
      open := *;
    }

    method Close()
      modifies this`open
      ensures !open
    {
      open := false;
    }
  }

  // ---------------------------------------------------------------- reconciling, on the server lists

  predicate Lists(svrs: seq<Svr>, s: Svr) {
    exists i :: 0 <= i < |svrs| && SameEndpoint(svrs[i], s)
  }

  predicate NoDuplicates(svrs: seq<Svr>) {
    forall i, j :: 0 <= i < j < |svrs| ==> !SameEndpoint(svrs[i], svrs[j])
  }

  /** The members of `pool` whose endpoint is still wanted, in order. */
  function Kept(pool: seq<Svr>, svrs: seq<Svr>): seq<Svr> {
    if pool == [] then []
    else (if Lists(svrs, pool[0]) then [pool[0]] else []) + Kept(pool[1..], svrs)
  }

  /** `pool` and, behind it, the first server of each endpoint it lacks. */
  function Extended(pool: seq<Svr>, svrs: seq<Svr>): seq<Svr>
    decreases svrs
  {
    if svrs == [] then pool
    else Extended(if Lists(pool, svrs[0]) then pool else pool + [svrs[0]], svrs[1..])
  }

  function Reconciled(pool: seq<Svr>, svrs: seq<Svr>): seq<Svr> {
    Extended(Kept(pool, svrs), svrs)
  }

  lemma {:induction false} KeptMembers(pool: seq<Svr>, svrs: seq<Svr>)
    ensures forall s :: s in Kept(pool, svrs) <==> s in pool && Lists(svrs, s)
    ensures NoDuplicates(pool) ==> NoDuplicates(Kept(pool, svrs))
  {
    if pool != [] {
      KeptMembers(pool[1..], svrs);
      var rest := Kept(pool[1..], svrs);
      if NoDuplicates(pool) {
        forall i | 0 <= i < |rest|
          ensures !SameEndpoint(pool[0], rest[i])
        {
          assert rest[i] in pool[1..];
        }
      }
    }
  }

  lemma {:induction false} ExtendedMembers(pool: seq<Svr>, svrs: seq<Svr>)
    requires NoDuplicates(pool)
    ensures var r := Extended(pool, svrs);
            && NoDuplicates(r) && pool <= r
            && (forall i :: 0 <= i < |svrs| ==> Lists(r, svrs[i]))
            && (forall s :: s in r ==> s in pool || s in svrs)
    decreases svrs
  {
    if svrs != [] {
      var next := if Lists(pool, svrs[0]) then pool else pool + [svrs[0]];
      assert NoDuplicates(next) by {
        if !Lists(pool, svrs[0]) {
          assert forall i :: 0 <= i < |pool| ==> !SameEndpoint(pool[i], svrs[0]);
        }
      }
      ExtendedMembers(next, svrs[1..]);
      var r := Extended(next, svrs[1..]);
      var k :| 0 <= k < |next| && SameEndpoint(next[k], svrs[0]);
      assert r[k] == next[k];
      forall i | 0 <= i < |svrs|
        ensures Lists(r, svrs[i])
      {
        if i > 0 {
          assert svrs[i] == svrs[1..][i - 1];
        }
      }
    }
  }

  lemma {:induction false} KeptAll(pool: seq<Svr>, svrs: seq<Svr>)
    requires forall s :: s in pool ==> Lists(svrs, s)
    ensures Kept(pool, svrs) == pool
  {
    if pool != [] {
      KeptAll(pool[1..], svrs);
    }
  }

  lemma {:induction false} ExtendedNothing(pool: seq<Svr>, svrs: seq<Svr>)
    requires forall i :: 0 <= i < |svrs| ==> Lists(pool, svrs[i])
    ensures Extended(pool, svrs) == pool
    decreases svrs
  {
    if svrs != [] {
      ExtendedNothing(pool, svrs[1..]);
    }
  }

  /** From a pool without duplicates, exactly the wanted endpoints remain, once each, the survivors first
      and in order; and doing it again changes nothing. */
  lemma ReconciledIsWanted(pool: seq<Svr>, svrs: seq<Svr>)
    requires NoDuplicates(pool)
    ensures var r := Reconciled(pool, svrs);
            && NoDuplicates(r)
            && Kept(pool, svrs) <= r
            && (forall s :: Lists(r, s) <==> Lists(svrs, s))
            && Kept(r, svrs) == r && Reconciled(r, svrs) == r
            && SameEndpoints(r, svrs)
  {
    var r := Reconciled(pool, svrs);
    KeptMembers(pool, svrs);
    ExtendedMembers(Kept(pool, svrs), svrs);
    forall s | s in r
      ensures Lists(svrs, s)
    {
      if s in svrs {
        var i :| 0 <= i < |svrs| && svrs[i] == s;
        assert SameEndpoint(svrs[i], s);
      }
    }
    forall s | Lists(r, s)
      ensures Lists(svrs, s)
    {
      var i :| 0 <= i < |r| && SameEndpoint(r[i], s);
      assert Lists(svrs, r[i]);
      var j :| 0 <= j < |svrs| && SameEndpoint(svrs[j], r[i]);
      assert SameEndpoint(svrs[j], s);
    }
    forall s | Lists(svrs, s)
      ensures Lists(r, s)
    {
      var i :| 0 <= i < |svrs| && SameEndpoint(svrs[i], s);
      assert Lists(r, svrs[i]);
      var j :| 0 <= j < |r| && SameEndpoint(r[j], svrs[i]);
      assert SameEndpoint(r[j], s);
    }
    KeptAll(r, svrs);
    ExtendedNothing(r, svrs);
    EndpointsOf(r, svrs);
  }

  /** The endpoints of `r`, addresses with ports, are those of `svrs`, and none comes twice. */
  ghost predicate SameEndpoints(r: seq<Svr>, svrs: seq<Svr>) {
    && (set s | s in r :: s.at) == (set s | s in svrs :: s.at)
    && (forall i, j :: 0 <= i < j < |r| ==> r[i].at.ip != r[j].at.ip || r[i].at.port != r[j].at.port)
  }

  lemma EndpointsOf(r: seq<Svr>, svrs: seq<Svr>)
    requires NoDuplicates(r) && forall s :: Lists(r, s) <==> Lists(svrs, s)
    ensures SameEndpoints(r, svrs)
  {
    var ours, theirs := (set s | s in r :: s.at), set s | s in svrs :: s.at;
    forall e: Endpoint
      ensures e in ours <==> e in theirs
    {
      ListsEndpoint(r, e);
      ListsEndpoint(svrs, e);
      assert Lists(r, Svr(e, "", "")) <==> Lists(svrs, Svr(e, "", ""));
    }
  }

  lemma ListsEndpoint(svrs: seq<Svr>, e: Endpoint)
    ensures Lists(svrs, Svr(e, "", "")) <==> e in set s | s in svrs :: s.at
  {
    if e in set s | s in svrs :: s.at {
      var s :| s in svrs && s.at == e;
      var i :| 0 <= i < |svrs| && svrs[i] == s;
      assert SameEndpoint(svrs[i], Svr(e, "", ""));
    }
  }

  // ---------------------------------------------------------------- round robin, on the open flags

  /** The position `d` places after `start`, going round. */
  function Round(n: nat, start: nat, d: nat): nat
    requires start < n && d < n
  {
    if start + d < n then start + d else start + d - n
  }

  /** The cursor moves one place on, and is back after `n` moves. */
  lemma RoundNext(n: nat, start: nat, d: nat)
    requires start < n && d < n
    ensures var next := if Round(n, start, d) + 1 >= n then 0 else Round(n, start, d) + 1;
            if d + 1 < n then next == Round(n, start, d + 1) && next != start else next == start
  {
  }

  /** How many of the connections lo to hi - 1 are open. */
  function OpenIn(flags: seq<bool>, lo: nat, hi: nat): nat
    requires hi <= |flags|
  {
    if hi <= lo then 0 else OpenIn(flags, lo, hi - 1) + if flags[hi - 1] then 1 else 0
  }

  function OpenCount(flags: seq<bool>): nat {
    OpenIn(flags, 0, |flags|)
  }

  /** The first open place that is `d` or more places after `start`; the length if there is none. */
  function FirstFrom(flags: seq<bool>, start: nat, d: nat): (k: nat)
    requires start < |flags| && d <= |flags|
    ensures d <= k <= |flags| && (k < |flags| ==> flags[Round(|flags|, start, k)])
    decreases |flags| - d
  {
    if d == |flags| || flags[Round(|flags|, start, d)] then d else FirstFrom(flags, start, d + 1)
  }

  /** The open places that a search from `start` meets after `d` moves or more, in that order. */
  function PlacesFrom(flags: seq<bool>, start: nat, d: nat): (places: seq<nat>)
    requires start < |flags| && d <= |flags|
    decreases |flags| - d
  {
    if d == |flags| then []
    else
      var c := Round(|flags|, start, d);
      (if flags[c] then [c] else []) + PlacesFrom(flags, start, d + 1)
  }

  /** How many moves lead from `start` to place `c`. */
  function Moves(n: nat, start: nat, c: nat): nat
    requires start < n && c < n
  {
    if start <= c then c - start else c - start + n
  }

  lemma {:induction false} OpenInSplit(flags: seq<bool>, lo: nat, mid: nat, hi: nat)
    requires lo <= mid <= hi <= |flags|
    ensures OpenIn(flags, lo, hi) == OpenIn(flags, lo, mid) + OpenIn(flags, mid, hi)
    decreases hi
  {
    if mid < hi {
      OpenInSplit(flags, lo, mid, hi - 1);
    }
  }

  lemma OpenInHead(flags: seq<bool>, lo: nat, hi: nat)
    requires lo < hi <= |flags|
    ensures OpenIn(flags, lo, hi) == (if flags[lo] then 1 else 0) + OpenIn(flags, lo + 1, hi)
  {
    OpenInSplit(flags, lo, lo + 1, hi);
    assert OpenIn(flags, lo, lo + 1) == OpenIn(flags, lo, lo) + if flags[lo] then 1 else 0;
  }

  /** The open places from `d` on are those of the positions still ahead on the way round. */
  function OpenAhead(flags: seq<bool>, start: nat, d: nat): nat
    requires start < |flags| && d <= |flags|
  {
    var n := |flags|;
    if start + d <= n then OpenIn(flags, start + d, n) + OpenIn(flags, 0, start)
    else OpenIn(flags, start + d - n, start)
  }

  lemma AheadStep(flags: seq<bool>, start: nat, d: nat)
    requires start < |flags| && d < |flags|
    ensures OpenAhead(flags, start, d) ==
            (if flags[Round(|flags|, start, d)] then 1 else 0) + OpenAhead(flags, start, d + 1)
  {
    var n := |flags|;
    if start + d < n {
      OpenInHead(flags, start + d, n);
    } else {
      OpenInHead(flags, start + d - n, start);
    }
  }

  lemma {:induction false} PlacesCount(flags: seq<bool>, start: nat, d: nat)
    requires start < |flags| && d <= |flags|
    ensures |PlacesFrom(flags, start, d)| == OpenAhead(flags, start, d)
    decreases |flags| - d
  {
    if d < |flags| {
      AheadStep(flags, start, d);
      PlacesCount(flags, start, d + 1);
    }
  }

  /** Each place is more moves away than the one before, and the first at least `d`. */
  predicate InOrder(n: nat, start: nat, d: nat, places: seq<nat>)
    requires start < n
    decreases |places|
  {
    places != [] ==>
      && places[0] < n && d <= Moves(n, start, places[0])
      && InOrder(n, start, Moves(n, start, places[0]) + 1, places[1..])
  }

  lemma {:induction false} Apart(n: nat, start: nat, d: nat, places: seq<nat>, i: nat, j: nat)
    requires start < n && InOrder(n, start, d, places) && i < |places|
    ensures places[i] < n && d <= Moves(n, start, places[i])
    ensures i < j < |places| ==> places[j] < n && Moves(n, start, places[i]) < Moves(n, start, places[j])
    decreases |places|
  {
    var next := Moves(n, start, places[0]) + 1;
    if i > 0 {
      Apart(n, start, next, places[1..], i - 1, if j > 0 then j - 1 else 0);
    } else if 0 < j < |places| {
      Apart(n, start, next, places[1..], j - 1, 0);
    }
  }

  lemma PlacesExact(flags: seq<bool>, start: nat, d: nat)
    requires start < |flags| && d <= |flags|
    ensures var places := PlacesFrom(flags, start, d);
            && (forall c: nat :: c in places <==> c < |flags| && flags[c] && d <= Moves(|flags|, start, c))
            && (forall i, j :: 0 <= i < j < |places| ==>
                  places[i] < |flags| && places[j] < |flags| &&
                  Moves(|flags|, start, places[i]) < Moves(|flags|, start, places[j]))
  {
    var places := PlacesFrom(flags, start, d);
    forall c: nat
      ensures c in places <==> c < |flags| && flags[c] && d <= Moves(|flags|, start, c)
    {
      IsPlace(flags, start, d, c);
    }
    PlacesInOrder(flags, start, d);
    forall i, j | 0 <= i < j < |places|
      ensures places[i] < |flags| && places[j] < |flags|
      ensures Moves(|flags|, start, places[i]) < Moves(|flags|, start, places[j])
    {
      Apart(|flags|, start, d, places, i, j);
    }
  }

  lemma {:induction false} IsPlace(flags: seq<bool>, start: nat, d: nat, c: nat)
    requires start < |flags| && d <= |flags|
    ensures c in PlacesFrom(flags, start, d) <==> c < |flags| && flags[c] && d <= Moves(|flags|, start, c)
    decreases |flags| - d
  {
    if d < |flags| {
      IsPlace(flags, start, d + 1, c);
      OnePlace(|flags|, start, d, c);
    }
  }

  /** Only one place is `d` moves away. */
  lemma OnePlace(n: nat, start: nat, d: nat, c: nat)
    requires start < n && d < n
    ensures c < n ==> (Moves(n, start, c) == d <==> c == Round(n, start, d))
  {
  }

  lemma {:induction false} PlacesInOrder(flags: seq<bool>, start: nat, d: nat)
    requires start < |flags| && d <= |flags|
    ensures InOrder(|flags|, start, d, PlacesFrom(flags, start, d))
    decreases |flags| - d
  {
    if d < |flags| {
      var c, rest := Round(|flags|, start, d), PlacesFrom(flags, start, d + 1);
      PlacesInOrder(flags, start, d + 1);
      NearerFirst(|flags|, start, d, c, rest);
      PlacesNext(flags, start, d);
    }
  }

  lemma NearerFirst(n: nat, start: nat, d: nat, c: nat, rest: seq<nat>)
    requires start < n && d < n && c == Round(n, start, d) && InOrder(n, start, d + 1, rest)
    ensures InOrder(n, start, d, [c] + rest) && InOrder(n, start, d, rest)
  {
    assert ([c] + rest)[1..] == rest;
  }

  lemma PlacesNext(flags: seq<bool>, start: nat, d: nat)
    requires start < |flags| && d < |flags|
    ensures var c, rest := Round(|flags|, start, d), PlacesFrom(flags, start, d + 1);
            PlacesFrom(flags, start, d) == if flags[c] then [c] + rest else rest
  {
  }

  /** The search succeeds exactly when there is an open place ahead. */
  lemma {:induction false} FirstAhead(flags: seq<bool>, start: nat, d: nat)
    requires start < |flags| && d <= |flags|
    ensures FirstFrom(flags, start, d) < |flags| <==> OpenAhead(flags, start, d) > 0
    decreases |flags| - d
  {
    if d < |flags| {
      AheadStep(flags, start, d);
      FirstAhead(flags, start, d + 1);
    }
  }

  /** Where the search begins for a cursor that may lie beyond the end. */
  function Start(n: nat, cursor: nat): nat {
    if cursor >= n then 0 else cursor
  }

  lemma SomeOpen(flags: seq<bool>, start: nat)
    requires start < |flags|
    ensures OpenCount(flags) == |PlacesFrom(flags, start, 0)|
    ensures OpenCount(flags) > 0 <==> FirstFrom(flags, start, 0) < |flags|
  {
    PlacesCount(flags, start, 0);
    FirstAhead(flags, start, 0);
    OpenInSplit(flags, 0, start, |flags|);
  }

  /** The connection a call picks: the first open one from the cursor on, going round. */
  function Choice(flags: seq<bool>, cursor: nat): (c: nat)
    requires OpenCount(flags) > 0
    ensures c < |flags| && flags[c]
  {
    var start := Start(|flags|, cursor);
    SomeOpen(flags, start);
    Round(|flags|, start, FirstFrom(flags, start, 0))
  }

  lemma ChoiceIsFirst(flags: seq<bool>, cursor: nat)
    requires flags != []
    ensures var start := Start(|flags|, cursor);
            var first := FirstFrom(flags, start, 0);
            && (OpenCount(flags) > 0 <==> first < |flags|)
            && (OpenCount(flags) > 0 ==> Choice(flags, cursor) == Round(|flags|, start, first))
  {
    SomeOpen(flags, Start(|flags|, cursor));
  }

  /** What `calls` consecutive calls on an unchanged pool pick. */
  function Choices(flags: seq<bool>, cursor: nat, calls: nat): seq<nat>
    requires OpenCount(flags) > 0
    decreases calls
  {
    if calls == 0 then []
    else var c := Choice(flags, cursor); [c] + Choices(flags, c + 1, calls - 1)
  }

  /** The place behind `c`, going round. */
  function Behind(n: nat, c: nat): nat
    requires c < n
  {
    if c + 1 < n then c + 1 else 0
  }

  /** A search that begins one place later finds the same, one move earlier. */
  lemma {:induction false} SearchOn(flags: seq<bool>, start: nat, e: nat)
    requires start < |flags| && e < |flags| && FirstFrom(flags, start, e + 1) < |flags|
    ensures FirstFrom(flags, Behind(|flags|, start), e) == FirstFrom(flags, start, e + 1) - 1
    decreases |flags| - e
  {
    RoundBehind(|flags|, start, e);
    if !flags[Round(|flags|, start, e + 1)] {
      SearchOn(flags, start, e + 1);
    }
  }

  lemma RoundBehind(n: nat, start: nat, e: nat)
    requires start < n && e + 1 < n
    ensures Round(n, Behind(n, start), e) == Round(n, start, e + 1)
  {
  }

  lemma ChoiceHere(flags: seq<bool>, cursor: nat)
    requires OpenCount(flags) > 0 && flags[Start(|flags|, cursor)]
    ensures Choice(flags, cursor) == Start(|flags|, cursor)
  {
  }

  /** A closed connection under the cursor makes no difference. */
  lemma ChoiceBehind(flags: seq<bool>, cursor: nat, next: nat)
    requires OpenCount(flags) > 0 && !flags[Start(|flags|, cursor)]
    requires Start(|flags|, next) == Behind(|flags|, Start(|flags|, cursor))
    ensures Choice(flags, next) == Choice(flags, cursor)
  {
    var n, start := |flags|, Start(|flags|, cursor);
    SomeOpen(flags, start);
    SearchOn(flags, start, 0);
    RoundBehind(n, start, FirstFrom(flags, start, 1) - 1);
  }

  /** With the cursor `d` places after `start`, as many calls as there are open places left pick those. */
  lemma {:induction false} ChoicesFrom(flags: seq<bool>, start: nat, d: nat, cursor: nat)
    requires OpenCount(flags) > 0 && start < |flags| && d <= |flags|
    requires d < |flags| ==> Start(|flags|, cursor) == Round(|flags|, start, d)
    ensures PicksAre(flags, cursor, PlacesFrom(flags, start, d))
    decreases |flags| - d
  {
    if d < |flags| {
      var c, rest := Round(|flags|, start, d), PlacesFrom(flags, start, d + 1);
      StartBehind(|flags|, start, d);
      ChoicesFrom(flags, start, d + 1, c + 1);
      if flags[c] {
        OpenHere(flags, cursor, rest);
      } else {
        ClosedHere(flags, cursor, c + 1, rest);
      }
      PlacesNext(flags, start, d);
    }
  }

  /** As many calls as there are `places` pick those, in order. */
  predicate PicksAre(flags: seq<bool>, cursor: nat, places: seq<nat>)
    requires OpenCount(flags) > 0
  {
    Choices(flags, cursor, |places|) == places
  }

  lemma OpenHere(flags: seq<bool>, cursor: nat, rest: seq<nat>)
    requires OpenCount(flags) > 0 && flags[Start(|flags|, cursor)]
    requires PicksAre(flags, Start(|flags|, cursor) + 1, rest)
    ensures PicksAre(flags, cursor, [Start(|flags|, cursor)] + rest)
  {
    ChoiceHere(flags, cursor);
  }

  lemma ClosedHere(flags: seq<bool>, cursor: nat, next: nat, places: seq<nat>)
    requires OpenCount(flags) > 0 && !flags[Start(|flags|, cursor)]
    requires Start(|flags|, next) == Behind(|flags|, Start(|flags|, cursor)) && PicksAre(flags, next, places)
    ensures PicksAre(flags, cursor, places)
  {
    ChoiceBehind(flags, cursor, next);
  }

  lemma StartBehind(n: nat, start: nat, d: nat)
    requires start < n && d < n
    ensures var c := Round(n, start, d);
            Start(n, c + 1) == Behind(n, c) && (d + 1 < n ==> Behind(n, c) == Round(n, start, d + 1))
  {
  }

  /** With m open connections in an unchanged pool, any m consecutive calls pick each of them exactly
      once, wherever the cursor stands. */
  lemma RoundRobin(flags: seq<bool>, cursor: nat)
    requires OpenCount(flags) > 0
    ensures var picks := Choices(flags, cursor, OpenCount(flags));
            && |picks| == OpenCount(flags)
            && (forall i, j :: 0 <= i < j < |picks| ==> picks[i] != picks[j])
            && (forall c :: c in picks <==> 0 <= c < |flags| && flags[c])
  {
    var start := Start(|flags|, cursor);
    SomeOpen(flags, start);
    ChoicesFrom(flags, start, 0, cursor);
    PlacesExact(flags, start, 0);
  }

  // ---------------------------------------------------------------- the pool

  function SvrsOf(conns: seq<Conn>): seq<Svr> {
    seq(|conns|, i requires 0 <= i < |conns| => conns[i].svr)
  }

  /** The members of the pool that stay, in order. */
  function KeptConns(conns: seq<Conn>, svrs: seq<Svr>): seq<Conn> {
    if conns == [] then []
    else (if Lists(svrs, conns[0].svr) then [conns[0]] else []) + KeptConns(conns[1..], svrs)
  }

  function OpenFlags(conns: seq<Conn>): (flags: seq<bool>)
    reads conns
    ensures |flags| == |conns| && forall i :: 0 <= i < |conns| ==> flags[i] == conns[i].open
  {
    if conns == [] then [] else [conns[0].open] + OpenFlags(conns[1..])
  }

  class ConnMgtLB {
    var conns: seq<Conn>
    var index: nat

    constructor ()
      ensures conns == [] && index == 0
    {
      conns, index := [], 0;
    }

    /** The source passes its result back by value, so that the caller never sees it; here it is the
        position of the connection. `probes` counts the connections looked at. */
    method GetConn() returns (found: bool, chosen: nat, ghost probes: nat)
      modifies this`index
      ensures found <==> OpenCount(OpenFlags(conns)) > 0
      ensures found ==> chosen == Choice(OpenFlags(conns), old(index)) && index == chosen + 1
      ensures !found && conns != [] ==> index == Start(|conns|, old(index))
      ensures probes <= |conns|
    {
      found, chosen, probes := false, 0, 0;
      if |conns| == 0 {
        assert OpenCount(OpenFlags(conns)) == 0;
        return;
      }
      ChoiceIsFirst(OpenFlags(conns), index);
      if index >= |conns| {
        index := 0;
      }
      ghost var flags := OpenFlags(conns);
      found, chosen, probes := Scan(flags);
      assert OpenFlags(conns) == flags;
    }

    /** The loop of GetConn, once round from a cursor within the pool. */
    method Scan(ghost flags: seq<bool>) returns (found: bool, chosen: nat, ghost probes: nat)
      requires |flags| == |conns| && forall i :: 0 <= i < |conns| ==> flags[i] == conns[i].open
      requires index < |conns|
      modifies this`index
      ensures var first := FirstFrom(flags, old(index), 0);
              if first < |flags| then found && chosen == Round(|flags|, old(index), first) && index == chosen + 1
              else !found && index == old(index)
      ensures probes <= |conns|
    {
      found, chosen, probes := false, 0, 0;
      var tag := index;
      ghost var first := FirstFrom(flags, tag, 0);
      while true
        invariant probes < |conns| == |flags| && index == Round(|flags|, tag, probes)
        invariant FirstFrom(flags, tag, probes) == first && !found
        decreases |conns| - probes
      {
        RoundNext(|flags|, tag, probes);
        var conn := conns[index];
        index := index + 1;
        probes := probes + 1;
        if conn.open {
          return true, index - 1, probes;
        }
        if index >= |conns| {
          index := 0;
        }
        if index == tag {
          return;
        }
      }
    }

    /** Drops and closes the connections that are no longer wanted, then adds the missing ones. */
    method Refresh(svrs: seq<Svr>) returns (ghost added: seq<Conn>)
      requires NoDuplicates(SvrsOf(conns))
      modifies this`conns, set c | c in conns
      ensures SvrsOf(conns) == Reconciled(old(SvrsOf(conns)), svrs) && NoDuplicates(SvrsOf(conns))
      ensures conns == KeptConns(old(conns), svrs) + added && forall c :: c in added ==> fresh(c)
      ensures forall c :: c in old(conns) ==> c.open == (old(c.open) && Lists(svrs, c.svr))
      ensures (set c | c in conns :: c.svr.at) == set s | s in svrs :: s.at
      ensures forall i, j :: 0 <= i < j < |conns| ==> conns[i].svr.at != conns[j].svr.at
      ensures forall c :: c in old(conns) ==> (c in conns <==> c.svr.at in set s | s in svrs :: s.at)
    {
      ghost var pool := conns;
      KeptConnsSvrs(conns, svrs);
      ReconciledIsWanted(SvrsOf(conns), svrs);
      Retire(svrs);
      added := AddMissing(svrs);
      PoolEndpoints(conns, svrs);
      Survivors(pool, svrs);
    }

    /** The second loop of Refresh: adds the servers without a connection. */
    method AddMissing(svrs: seq<Svr>) returns (ghost added: seq<Conn>)
      modifies this`conns
      ensures SvrsOf(conns) == Extended(old(SvrsOf(conns)), svrs)
      ensures conns == old(conns) + added && forall c :: c in added ==> fresh(c)
    {
      ghost var pool := conns;
      added := [];
      assert svrs[0..] == svrs;
      for i := 0 to |svrs|
        invariant Extended(SvrsOf(conns), svrs[i..]) == Extended(SvrsOf(pool), svrs)
        invariant conns == pool + added && forall c :: c in added ==> fresh(c)
      {
        ExtendedStep(SvrsOf(conns), svrs, i);
        var found := HasConn(svrs[i]);
        if !found {
          var conn := AddConn(svrs[i]);
          AppendedTwice(pool, added, [conn]);
          added := added + [conn];
        }
      }
    }

    method AddConn(s: Svr) returns (conn: Conn)
      modifies this`conns
      ensures conns == old(conns) + [conn] && fresh(conn)
      ensures SvrsOf(conns) == old(SvrsOf(conns)) + [s]
    {
      conn := new Conn(s);
      conn.Connect();
      conns := conns + [conn];
      assert SvrsOf(conns) == SvrsOf(old(conns)) + [s];
    }

    /** The first loop of Refresh: erases on the way through the pool. */
    method Retire(svrs: seq<Svr>)
      requires NoDuplicates(SvrsOf(conns))
      modifies this`conns, set c | c in conns
      ensures conns == KeptConns(old(conns), svrs)
      ensures forall c :: c in old(conns) ==> c.open == (old(c.open) && Lists(svrs, c.svr))
    {
      ghost var pool, was, kept: seq<Conn>, done := conns, OpenFlags(conns), [], 0;
      Distinct(pool);
      var i := 0;
      while i < |conns|
        invariant i == |kept| && Reached(conns, kept, pool, done, svrs)
        invariant Examined(pool, was, done, svrs)
        decreases |pool| - done
      {
        ReachedNext(conns, kept, pool, done, svrs);
        var found := Examine(i, svrs, pool, was, done);
        if found {
          kept := kept + [pool[done]];
          i := i + 1;
        }
        done := done + 1;
      }
    }

    /** Looks at one connection and, if it is not wanted, closes and erases it. */
    method Examine(i: nat, svrs: seq<Svr>, ghost pool: seq<Conn>, ghost was: seq<bool>, ghost done: nat)
      returns (found: bool)
      requires i < |conns| && done < |pool| && conns[i] == pool[done]
      requires NoRepeats(pool) && Examined(pool, was, done, svrs)
      modifies this`conns, conns[i]
      ensures found == Lists(svrs, old(conns[i]).svr)
      ensures conns == if found then old(conns) else old(conns)[..i] + old(conns)[i + 1..]
      ensures Examined(pool, was, done + 1, svrs)
    {
      var conn := conns[i];
      found := Wanted(svrs, conn.svr);
      if !found {
        conn.Close();
        conns := conns[..i] + conns[i + 1..];
      }
    }

    method Wanted(svrs: seq<Svr>, s: Svr) returns (found: bool)
      ensures found == Lists(svrs, s)
      ensures found <==> exists i :: 0 <= i < |svrs| && svrs[i].at == s.at
    {
      found := false;
      for i := 0 to |svrs|
        invariant !found && forall k :: 0 <= k < i ==> !SameEndpoint(svrs[k], s)
      {
        if svrs[i].at == s.at {
          assert SameEndpoint(svrs[i], s);
          return true;
        }
      }
    }

    method HasConn(s: Svr) returns (found: bool)
      ensures found == Lists(SvrsOf(conns), s)
      ensures found <==> exists c :: c in conns && c.svr.at == s.at
    {
      found := false;
      ghost var have := SvrsOf(conns);
      assert forall i :: 0 <= i < |conns| ==> have[i] == conns[i].svr;
      for i := 0 to |conns|
        invariant !found && forall k :: 0 <= k < i ==> !SameEndpoint(have[k], s)
      {
        if s.at == conns[i].svr.at {
          assert SameEndpoint(have[i], s);
          return true;
        }
      }
    }
  }

  lemma PoolEndpoints(conns: seq<Conn>, svrs: seq<Svr>)
    requires SameEndpoints(SvrsOf(conns), svrs)
    ensures (set c | c in conns :: c.svr.at) == set s | s in svrs :: s.at
    ensures forall i, j :: 0 <= i < j < |conns| ==> conns[i].svr.at != conns[j].svr.at
  {
    var r := SvrsOf(conns);
    assert forall i :: 0 <= i < |conns| ==> r[i] == conns[i].svr;
    assert forall c :: c in conns ==> c.svr in r;
    assert (set c | c in conns :: c.svr.at) == set s | s in r :: s.at;
  }

  /** An old connection stays exactly if its address and port are wanted. */
  lemma {:induction false} Survivors(conns: seq<Conn>, svrs: seq<Svr>)
    ensures forall c :: c in KeptConns(conns, svrs) <==> c in conns && c.svr.at in set s | s in svrs :: s.at
  {
    if conns != [] {
      Survivors(conns[1..], svrs);
      Wants(svrs, conns[0].svr);
    }
  }

  lemma Wants(svrs: seq<Svr>, s: Svr)
    ensures Lists(svrs, s) <==> s.at in set s | s in svrs :: s.at
  {
    ListsEndpoint(svrs, s.at);
    var e := Svr(s.at, "", "");
    assert forall i :: 0 <= i < |svrs| ==> (SameEndpoint(svrs[i], e) <==> SameEndpoint(svrs[i], s));
  }

  /** After the first `done` members of `pool`, of which `kept` stay, the list is `conns`. */
  ghost predicate Reached(conns: seq<Conn>, kept: seq<Conn>, pool: seq<Conn>, done: nat, svrs: seq<Svr>) {
    && done <= |pool|
    && conns == kept + pool[done..]
    && KeptConns(pool, svrs) == kept + KeptConns(pool[done..], svrs)
  }

  lemma ReachedNext(conns: seq<Conn>, kept: seq<Conn>, pool: seq<Conn>, done: nat, svrs: seq<Svr>)
    requires Reached(conns, kept, pool, done, svrs) && |kept| < |conns|
    ensures done < |pool| && conns[|kept|] == pool[done]
    ensures if Lists(svrs, pool[done].svr) then Reached(conns, kept + [pool[done]], pool, done + 1, svrs)
            else Reached(conns[..|kept|] + conns[|kept| + 1..], kept, pool, done + 1, svrs)
  {
    assert pool[done..] == [pool[done]] + pool[done + 1..];
    if Lists(svrs, pool[done].svr) {
      assert kept + ([pool[done]] + pool[done + 1..]) == kept + [pool[done]] + pool[done + 1..];
      assert kept + ([pool[done]] + KeptConns(pool[done + 1..], svrs)) ==
             kept + [pool[done]] + KeptConns(pool[done + 1..], svrs);
    } else {
      assert conns[..|kept|] == kept && conns[|kept| + 1..] == pool[done + 1..];
    }
  }

  /** The first `done` members have been closed unless they are wanted; the others are as they were. */
  ghost predicate Examined(pool: seq<Conn>, was: seq<bool>, done: nat, svrs: seq<Svr>)
    reads pool
  {
    && |was| == |pool|
    && forall k :: 0 <= k < |pool| ==>
         pool[k].open == (was[k] && (k < done ==> Lists(svrs, pool[k].svr)))
  }

  ghost predicate NoRepeats(conns: seq<Conn>) {
    forall j, k :: 0 <= j < k < |conns| ==> conns[j] != conns[k]
  }

  lemma Distinct(conns: seq<Conn>)
    requires NoDuplicates(SvrsOf(conns))
    ensures NoRepeats(conns)
  {
    forall j, k | 0 <= j < k < |conns|
      ensures conns[j] != conns[k]
    {
      assert !SameEndpoint(SvrsOf(conns)[j], SvrsOf(conns)[k]);
    }
  }

  lemma AppendedTwice<T>(a: seq<T>, b: seq<T>, c: seq<T>)
    ensures a + b + c == a + (b + c)
  {
  }

  lemma ExtendedStep(pool: seq<Svr>, svrs: seq<Svr>, i: nat)
    requires i < |svrs|
    ensures Extended(pool, svrs[i..]) ==
            Extended(if Lists(pool, svrs[i]) then pool else pool + [svrs[i]], svrs[i + 1..])
  {
    assert svrs[i..][0] == svrs[i] && svrs[i..][1..] == svrs[i + 1..];
  }

  lemma {:induction false} KeptConnsSvrs(conns: seq<Conn>, svrs: seq<Svr>)
    ensures SvrsOf(KeptConns(conns, svrs)) == Kept(SvrsOf(conns), svrs)
  {
    if conns != [] {
      KeptConnsSvrs(conns[1..], svrs);
      assert SvrsOf(conns)[1..] == SvrsOf(conns[1..]);
      var rest := KeptConns(conns[1..], svrs);
      assert SvrsOf([conns[0]] + rest) == [conns[0].svr] + SvrsOf(rest);
    }
  }
}

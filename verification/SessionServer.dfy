/** The reactor and the session table put together as the contract of SessionMgt asks for: handle_accept
    inserts a session and handle_close removes it. The event loop holds no lock, so that the timer's check and
    every other call on the table from another thread can come between any two of its steps. */
module SessionServer {
  import R = Reactor
  import opened SessionTable

  /** A ready event with the peer's address and the clock as the callbacks find them; a handle_input that
      `counted` reports `num` octets to the table. */
  datatype Ready = Ready(ev: R.ReadyEvent, ip: string, port: nat, second: nat, now: nat, counted: bool, num: nat)

  /** Where the event loop stands. */
  datatype Phase =
    | Between                            // no event in hand
    | Accepting(h: nat, fd: int, e: Ready) // accept and renew are done, handle_accept comes next
    | Registering(h: nat, fd: int)       // handle_accept has succeeded, the handler is not yet in the map
    | Calling(cb: R.Callback)            // handle_output or handle_exception comes next
    | Reading(h: nat, fd: int, e: Ready)   // handle_input comes next
    | Closing(h: nat, fd: int)           // it has failed, handle_close comes next
    | Unregistering(h: nat, fd: int)     // that is done, the handler is still in the map

  datatype Server = Server(reactor: R.State, table: Table, phase: Phase)

  /** The event loop takes the next event or its next step, or another thread calls the table. */
  datatype Move = Begin(e: Ready) | Continue | Elsewhere(op: Op)

  // ---------------------------------------------------------------- the steps of the event loop

  function Begun(r: R.State, e: Ready): (R.State, Phase) {
    var ev := e.ev;
    if ev.output then
      (r, if ev.fd in r.handlers then Calling(R.OnOutput(r.handlers[ev.fd], ev.fd)) else Between)
    else if ev.input then
      if r.listenFd == ev.fd then
        if ev.connFd < 0 then (r, Between)
        else (r.(renewed := r.renewed + 1, open := r.open + {ev.connFd}), Accepting(r.renewed, ev.connFd, e))
      else
        (r, if ev.fd in r.handlers then Reading(r.handlers[ev.fd], ev.fd, e) else Between)
    else if ev.priority then
      (r, if ev.fd in r.handlers then Calling(R.OnException(r.handlers[ev.fd], ev.fd)) else Between)
    else (r, Between)
  }

  function Continued(r: R.State, p: Phase): (R.State, Phase)
    requires !p.Between?
  {
    match p
    case Accepting(h, fd, e) =>
      var r1 := R.Log(r, R.OnAccept(h, fd, e.ev.rc == 0));
      if e.ev.rc == 0 then (r1, Registering(h, fd)) else (r1.(open := r.open - {fd}), Between)
    case Registering(h, fd) => (r.(handlers := R.InsertHandler(r.handlers, fd, h)), Between)
    case Calling(cb) => (R.Log(r, cb), Between)
    case Reading(h, fd, e) => (R.Log(r, R.OnInput(h, fd)), if e.ev.rc == 0 then Between else Closing(h, fd))
    case Closing(h, fd) => (R.Log(r, R.OnClose(h, fd)), Unregistering(h, fd))
    case Unregistering(h, fd) => (r.(handlers := r.handlers - {fd}, open := r.open - {fd}), Between)
  }

  /** What the callback of a step does to the table. */
  function Called(t: Table, p: Phase): Table {
    match p
    case Accepting(_, fd, e) => if e.ev.rc == 0 then Apply(t, Insert(fd, e.ip, e.port, e.second, e.now)) else t
    case Reading(_, fd, e) => if e.counted then Apply(t, UpdateRead(fd, e.num, e.now)) else t
    case Closing(_, fd) => Apply(t, Remove(fd))
    case _ => t
  }

  /** Inserting and removing sessions is left to the callbacks. */
  predicate Possible(s: Server, m: Move) {
    match m
    case Begin(e) => s.phase.Between? && R.Possible(s.reactor, e.ev)
    case Continue => !s.phase.Between?
    case Elsewhere(op) => !op.Insert? && !op.Remove?
  }

  function Advance(s: Server, m: Move): Server
    requires Possible(s, m)
  {
    match m
    case Begin(e) =>
      var (r, p) := Begun(s.reactor, e);
      Server(r, s.table, p)
    case Continue =>
      var (r, p) := Continued(s.reactor, s.phase);
      Server(r, Called(s.table, s.phase), p)
    case Elsewhere(op) => s.(table := Apply(s.table, op))
  }

  ghost predicate IsRun(s: Server, moves: seq<Move>)
    decreases moves
  {
    moves == [] || (Possible(s, moves[0]) && IsRun(Advance(s, moves[0]), moves[1..]))
  }

  ghost function After(s: Server, moves: seq<Move>): Server
    requires IsRun(s, moves)
    decreases moves
  {
    if moves == [] then s else After(Advance(s, moves[0]), moves[1..])
  }

  function Boot(listenFd: int): Server {
    Server(R.Initial(listenFd), EMPTY, Between)
  }

  // ---------------------------------------------------------------- whole events

  function StepsLeft(p: Phase): nat {
    match p
    case Between => 0
    case Accepting(_, _, _) => 2
    case Reading(_, _, _) => 3
    case Closing(_, _) => 2
    case _ => 1
  }

  /** The reactor once the event in hand is finished. */
  function Completed(r: R.State, p: Phase): R.State
    decreases StepsLeft(p)
  {
    if p.Between? then r
    else
      var (r1, p1) := Continued(r, p);
      Completed(r1, p1)
  }

  /** The steps of an event make up what the reactor's model does in one. */
  lemma StepsAreDispatch(r: R.State, e: Ready)
    requires R.Possible(r, e.ev)
    ensures Completed(Begun(r, e).0, Begun(r, e).1) == R.Dispatch(r, e.ev)
  {
    var (r1, p1) := Begun(r, e);
    if p1.Accepting? {
      var (r2, p2) := Continued(r1, p1);
      if e.ev.rc != 0 {
        assert r.open + {p1.fd} - {p1.fd} == r.open;
        assert Completed(r2, p2) == r2;
      } else {
        assert Completed(r2, p2) == Continued(r2, p2).0;
      }
    } else if p1.Reading? {
      var (r2, p2) := Continued(r1, p1);
      if e.ev.rc != 0 {
        var (r3, p3) := Continued(r2, p2);
        assert Completed(r3, p3) == Continued(r3, p3).0;
      }
    }
  }

  function Events(moves: seq<Move>): seq<R.ReadyEvent> {
    if moves == [] then []
    else (if moves[0].Begin? then [moves[0].e.ev] else []) + Events(moves[1..])
  }

  /** So every run is one of the reactor's, up to the event in hand, whatever other threads do; in particular
      the lives of its handlers are those of the reactor's model. */
  lemma {:induction false} RunsOfReactor(s: Server, moves: seq<Move>)
    requires IsRun(s, moves)
    ensures R.IsRun(Completed(s.reactor, s.phase), Events(moves))
    ensures var n := After(s, moves);
            Completed(n.reactor, n.phase) == R.After(Completed(s.reactor, s.phase), Events(moves))
    decreases moves
  {
    if moves != [] {
      if moves[0].Begin? {
        StepsAreDispatch(s.reactor, moves[0].e);
        assert Events(moves)[0] == moves[0].e.ev && Events(moves)[1..] == Events(moves[1..]);
      } else {
        assert Events(moves) == Events(moves[1..]);
      }
      RunsOfReactor(Advance(s, moves[0]), moves[1..]);
    }
  }

  // ---------------------------------------------------------------- sessions and handlers

  /** The descriptor that has a session but not yet a handler. */
  function Underway(p: Phase): set<int> {
    if p.Registering? then {p.fd} else {}
  }

  /** Every session stands on a descriptor that has a handler, but for the one being accepted. */
  predicate Standing(handlers: set<int>, sessions: set<int>, p: Phase) {
    && sessions <= handlers + Underway(p)
    && (p.Accepting? || p.Registering? ==> p.fd !in handlers)
    && (p.Reading? || p.Closing? || p.Unregistering? ==> p.fd in handlers)
    && (p.Unregistering? ==> p.fd !in sessions)
  }

  /** No session is missing either. */
  predicate Complete(handlers: set<int>, sessions: set<int>, p: Phase) {
    handlers + Underway(p) <= sessions + if p.Unregistering? then {p.fd} else {}
  }

  ghost predicate Inv(s: Server) {
    && R.Inv(Completed(s.reactor, s.phase)) && Consistent(s.table) && Stale(s.table) == {}
    && Standing(s.reactor.handlers.Keys, s.table.sessions.Keys, s.phase)
  }

  lemma DropKeys(t: Table, gone: set<int>)
    ensures Drop(t, gone).sessions.Keys == t.sessions.Keys - gone
  {
  }

  lemma UpdateKeepsKeys(t: Table, op: Op)
    requires !op.Insert? && !op.Remove? && !op.Check?
    ensures Apply(t, op).sessions.Keys == t.sessions.Keys
  {
  }

  /** A call from another thread only ever takes sessions away, with their ids. */
  lemma ElsewhereKeeps(t: Table, op: Op)
    requires Consistent(t) && Stale(t) == {} && !op.Insert? && !op.Remove?
    ensures Consistent(Apply(t, op)) && Stale(Apply(t, op)) == {} && Apply(t, op).uid == t.uid
    ensures Apply(t, op).sessions.Keys <= t.sessions.Keys
    ensures !op.Check? ==> Apply(t, op).sessions.Keys == t.sessions.Keys
  {
    if op.Check? {
      DropKeeps(t, ExpiredKeys(t.sessions, op.now));
      DropKeys(t, ExpiredKeys(t.sessions, op.now));
    } else {
      UpdateKeeps(t, op);
      UpdateKeepsKeys(t, op);
    }
  }

  /** One callback keeps the maps inverse, if accepts are for descriptors without a session. */
  lemma CalledKeeps(t: Table, p: Phase)
    requires Consistent(t) && Stale(t) == {} && t.uid + 1 < ULLONG_RANGE
    requires p.Accepting? ==> p.fd !in t.sessions
    ensures var t' := Called(t, p);
            && Consistent(t') && Stale(t') == {} && t.uid <= t'.uid <= t.uid + 1
            && t'.sessions.Keys == if p.Accepting? && p.e.ev.rc == 0 then t.sessions.Keys + {p.fd}
                                   else if p.Closing? then t.sessions.Keys - {p.fd} else t.sessions.Keys
  {
    match p
    case Accepting(_, fd, e) =>
      if e.ev.rc == 0 {
        ApplyKeeps(t, Insert(fd, e.ip, e.port, e.second, e.now));
      }
    case Reading(_, fd, e) =>
      UpdateKeeps(t, UpdateRead(fd, e.num, e.now));
      UpdateKeepsKeys(t, UpdateRead(fd, e.num, e.now));
    case Closing(_, fd) =>
      DropKeeps(t, {fd});
      DropKeys(t, {fd});
    case _ =>
  }

  lemma BeginKeeps(s: Server, e: Ready)
    requires Inv(s) && Possible(s, Begin(e))
    ensures Inv(Advance(s, Begin(e)))
    ensures Advance(s, Begin(e)).reactor.handlers == s.reactor.handlers && !Advance(s, Begin(e)).phase.Registering?
    ensures !Advance(s, Begin(e)).phase.Unregistering?
  {
    R.DispatchKeepsInv(s.reactor, e.ev);
    StepsAreDispatch(s.reactor, e);
  }

  /** What a step of the loop does to the descriptors with a handler. */
  lemma HandlersAfter(r: R.State, p: Phase)
    requires !p.Between? && (p.Registering? ==> p.fd !in r.handlers)
    ensures Continued(r, p).0.handlers.Keys ==
            if p.Registering? then r.handlers.Keys + {p.fd}
            else if p.Unregistering? then r.handlers.Keys - {p.fd} else r.handlers.Keys
  {
  }

  lemma ContinueKeeps(s: Server)
    requires Inv(s) && !s.phase.Between? && s.table.uid + 1 < ULLONG_RANGE
    ensures Inv(Advance(s, Continue)) && Advance(s, Continue).table.uid <= s.table.uid + 1
    ensures var n := Advance(s, Continue);
            Complete(s.reactor.handlers.Keys, s.table.sessions.Keys, s.phase) ==>
              Complete(n.reactor.handlers.Keys, n.table.sessions.Keys, n.phase)
  {
    CalledKeeps(s.table, s.phase);
    HandlersAfter(s.reactor, s.phase);
  }

  lemma AdvanceKeepsInv(s: Server, m: Move)
    requires Inv(s) && Possible(s, m) && s.table.uid + 1 < ULLONG_RANGE
    ensures Inv(Advance(s, m)) && Advance(s, m).table.uid <= s.table.uid + 1
    ensures var n := Advance(s, m);
            Complete(s.reactor.handlers.Keys, s.table.sessions.Keys, s.phase) && !(m.Elsewhere? && m.op.Check?) ==>
              Complete(n.reactor.handlers.Keys, n.table.sessions.Keys, n.phase)
  {
    match m
    case Begin(e) => BeginKeeps(s, e);
    case Continue => ContinueKeeps(s);
    case Elsewhere(op) => ElsewhereKeeps(s.table, op);
  }

  lemma {:induction false} RunKeepsInv(s: Server, moves: seq<Move>)
    requires Inv(s) && IsRun(s, moves) && s.table.uid + |moves| < ULLONG_RANGE
    ensures Inv(After(s, moves))
    decreases moves
  {
    if moves != [] {
      AdvanceKeepsInv(s, moves[0]);
      RunKeepsInv(Advance(s, moves[0]), moves[1..]);
    }
  }

  /** Whenever another thread looks, in the middle of an event or between two, the two maps of the table are
      inverse to each other, and every session stands on a descriptor that has a handler or is the one being
      accepted. All of them have a handler exactly when that one has no session yet or not any more. */
  lemma {:induction false} ServerKeepsTable(listenFd: int, moves: seq<Move>)
    requires IsRun(Boot(listenFd), moves) && |moves| < ULLONG_RANGE
    ensures var s := After(Boot(listenFd), moves);
            && Inverse(s.table)
            && s.table.sessions.Keys <= s.reactor.handlers.Keys + Underway(s.phase)
            && (s.table.sessions.Keys <= s.reactor.handlers.Keys <==>
                !(s.phase.Registering? && s.phase.fd in s.table.sessions))
  {
    assert Stale(EMPTY) == {};
    RunKeepsInv(Boot(listenFd), moves);
    var t := After(Boot(listenFd), moves).table;
    forall id | id in t.fds
      ensures Carried(t, id)
    {
      assert id !in Stale(t);
    }
  }

  /** The exception is real: after handle_accept the session is there and the handler is not. */
  lemma SessionBeforeHandler(listenFd: int, fd: int, e: Ready)
    requires fd != listenFd && fd >= 0
    requires e.ev == R.ReadyEvent(listenFd, false, true, false, fd, 0)
    ensures var moves := [Begin(e), Continue];
            && IsRun(Boot(listenFd), moves)
            && var s := After(Boot(listenFd), moves);
            fd in s.table.sessions && fd !in s.reactor.handlers
  {
    var s0 := Boot(listenFd);
    var s1 := Advance(s0, Begin(e));
    var s2 := Advance(s1, Continue);
    assert [Begin(e), Continue][1..] == [Continue] && [Continue][1..] == [];
    assert IsRun(s2, []) && After(s2, []) == s2;
    assert IsRun(s1, [Continue]) && After(s1, [Continue]) == s2;
  }

  /** The operations on the table that a move amounts to: a successful handle_accept inserts, a handle_input that
      reports what it read counts it, handle_close removes. */
  function OpsOf(s: Server, m: Move): seq<Op> {
    if m.Elsewhere? then [m.op]
    else if m.Begin? then []
    else
      match s.phase
      case Accepting(_, fd, e) => if e.ev.rc == 0 then [Insert(fd, e.ip, e.port, e.second, e.now)] else []
      case Reading(_, fd, e) => if e.counted then [UpdateRead(fd, e.num, e.now)] else []
      case Closing(_, fd) => [Remove(fd)]
      case _ => []
  }

  ghost function AllOps(s: Server, moves: seq<Move>): seq<Op>
    requires IsRun(s, moves)
    decreases moves
  {
    if moves == [] then [] else OpsOf(s, moves[0]) + AllOps(Advance(s, moves[0]), moves[1..])
  }

  lemma {:induction false} TableOfRun(s: Server, moves: seq<Move>)
    requires IsRun(s, moves)
    ensures After(s, moves).table == ApplyAll(s.table, AllOps(s, moves)) && |AllOps(s, moves)| <= |moves|
    decreases moves
  {
    if moves != [] {
      var n := Advance(s, moves[0]);
      TableOfRun(n, moves[1..]);
      OpsFirst(s.table, OpsOf(s, moves[0]), AllOps(n, moves[1..]));
      assert n.table == if OpsOf(s, moves[0]) == [] then s.table else Apply(s.table, OpsOf(s, moves[0])[0]);
    }
  }

  lemma OpsFirst(t: Table, now: seq<Op>, later: seq<Op>)
    requires |now| <= 1
    ensures ApplyAll(t, now + later) == ApplyAll(if now == [] then t else Apply(t, now[0]), later)
  {
    if now == [] {
      assert now + later == later;
    } else {
      assert (now + later)[0] == now[0] && (now + later)[1..] == later;
    }
  }

  /** In every interleaving: a connection that is not closed and is heard of at least every 60 seconds before a check
      keeps its session, with the sum of what was read. */
  lemma ConnectionLives(s: Server, moves: seq<Move>, fd: int, l: Life)
    requires IsRun(s, moves) && Consistent(s.table) && s.table.uid + |moves| < ULLONG_RANGE
    requires Lives(s.table, fd, l) && SparedBy(l, fd, AllOps(s, moves))
    ensures Lives(After(s, moves).table, fd, LivedOn(l, fd, AllOps(s, moves)))
  {
    TableOfRun(s, moves);
    LivesOn(s.table, fd, l, AllOps(s, moves));
  }

  lemma {:induction false} RunKeepsComplete(s: Server, moves: seq<Move>)
    requires Inv(s) && IsRun(s, moves) && s.table.uid + |moves| < ULLONG_RANGE
    requires Complete(s.reactor.handlers.Keys, s.table.sessions.Keys, s.phase)
    requires forall i :: 0 <= i < |moves| && moves[i].Elsewhere? ==> !moves[i].op.Check?
    ensures var n := After(s, moves); Complete(n.reactor.handlers.Keys, n.table.sessions.Keys, n.phase)
    decreases moves
  {
    if moves != [] {
      AdvanceKeepsInv(s, moves[0]);
      RunKeepsComplete(Advance(s, moves[0]), moves[1..]);
    }
  }

  /** Only the timer's check parts the two components: without it, the descriptors with a handler and those
      with a session are the same whenever no event is in hand. */
  lemma {:induction false} SessionsAreConnections(listenFd: int, moves: seq<Move>)
    requires IsRun(Boot(listenFd), moves) && |moves| < ULLONG_RANGE
    requires forall i :: 0 <= i < |moves| && moves[i].Elsewhere? ==> !moves[i].op.Check?
    ensures var s := After(Boot(listenFd), moves);
            s.phase.Between? ==> s.table.sessions.Keys == s.reactor.handlers.Keys
  {
    assert Stale(EMPTY) == {};
    RunKeepsInv(Boot(listenFd), moves);
    RunKeepsComplete(Boot(listenFd), moves);
  }
}

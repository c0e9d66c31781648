/** TcpReactor: the event loop that accepts connections and calls back their handlers. */
module Reactor {
  /** One entry of the ready list with what the system calls and callbacks it leads to return: `connFd`
      is the result of accept, `rc` the result of handle_accept or handle_input. */
  datatype ReadyEvent = ReadyEvent(fd: int, output: bool, input: bool, priority: bool, connFd: int, rc: int)

  /** A callback on handler `h`; handlers are numbered in the order renew() makes them. */
  datatype Callback =
    | OnAccept(h: nat, fd: int, accepted: bool)
    | OnOutput(h: nat, fd: int)
    | OnInput(h: nat, fd: int)
    | OnException(h: nat, fd: int)
    | OnClose(h: nat, fd: int)

  /** `open` are the descriptors the kernel has given out, `renewed` counts the handlers made. */
  datatype State = State(listenFd: int, handlers: map<int, nat>, open: set<int>, renewed: nat, trace: seq<Callback>)

  /** TMapInt::insert does not replace a value that is there already. */
  function InsertHandler(handlers: map<int, nat>, fd: int, h: nat): map<int, nat> {
    if fd in handlers then handlers else handlers[fd := h]
  }

  function Log(r: State, cb: Callback): State {
    r.(trace := r.trace + [cb])
  }

  function Accept(r: State, connFd: int, rc: int): State {
    if connFd < 0 then r
    else
      var h := r.renewed;
      var r1 := Log(r.(renewed := h + 1), OnAccept(h, connFd, rc == 0));
      if rc != 0 then r1
      else r1.(handlers := InsertHandler(r.handlers, connFd, h), open := r.open + {connFd})
  }

  function Dispatch(r: State, ev: ReadyEvent): State {
    if ev.output then
      if ev.fd in r.handlers then Log(r, OnOutput(r.handlers[ev.fd], ev.fd)) else r
    else if ev.input then
      if r.listenFd == ev.fd then Accept(r, ev.connFd, ev.rc)
      else if ev.fd !in r.handlers then r
      else
        var h := r.handlers[ev.fd];
        var r1 := Log(r, OnInput(h, ev.fd));
        if ev.rc == 0 then r1
        else Log(r1, OnClose(h, ev.fd)).(handlers := r.handlers - {ev.fd}, open := r.open - {ev.fd})
    else if ev.priority then
      if ev.fd in r.handlers then Log(r, OnException(r.handlers[ev.fd], ev.fd)) else r
    else r
  }

  function DispatchAll(r: State, batch: seq<ReadyEvent>): State
    decreases batch
  {
    if batch == [] then r else Dispatch(DispatchAll(r, batch[..|batch| - 1]), batch[|batch| - 1])
  }

  class TcpReactor {
    const listenFd: int
    var handlers: map<int, nat>
    var renewed: nat
    ghost var open: set<int>
    ghost var trace: seq<Callback>

    constructor (listenFd: int)
      ensures Current() == Initial(listenFd)
    {
      this.listenFd := listenFd;
      handlers, renewed, open, trace := map[], 0, {listenFd}, [];
    }

    ghost function Current(): State
      reads this
    {
      State(listenFd, handlers, open, renewed, trace)
    }

    ghost method Call(cb: Callback)
      modifies this`trace
      ensures trace == old(trace) + [cb]
    {
      trace := trace + [cb];
    }

    /** One round of the event loop over the ready list that epoll_wait delivered. */
    method Svc(batch: seq<ReadyEvent>)
      modifies this
      ensures Current() == DispatchAll(old(Current()), batch)
    {
      ghost var r := Current();
      assert batch[..0] == [];
      for i := 0 to |batch|
        invariant Current() == DispatchAll(r, batch[..i])
      {
        assert batch[..i + 1][..i] == batch[..i];
        HandleEvent(batch[i]);
      }
      assert batch[..|batch|] == batch;
    }

    method HandleEvent(ev: ReadyEvent)
      modifies this
      ensures Current() == Dispatch(old(Current()), ev)
    {
      if ev.output {
        if ev.fd in handlers {
          Call(OnOutput(handlers[ev.fd], ev.fd));
        }
      } else if ev.input {
        if listenFd == ev.fd {
          if ev.connFd >= 0 {
            var handler := renewed;
            renewed := renewed + 1;
            Call(OnAccept(handler, ev.connFd, ev.rc == 0));
            if ev.rc == 0 {
              open := open + {ev.connFd};
              if ev.connFd !in handlers {
                handlers := handlers[ev.connFd := handler];
              }
            }
          }
        } else if ev.fd in handlers {
          var handler := handlers[ev.fd];
          Call(OnInput(handler, ev.fd));
          if ev.rc != 0 {
            Call(OnClose(handler, ev.fd));
            open := open - {ev.fd};
            handlers := handlers - {ev.fd};
          }
        }
      } else if ev.priority {
        if ev.fd in handlers {
          Call(OnException(handlers[ev.fd], ev.fd));
        }
      }
    }
  }

  function Initial(listenFd: int): State {
    State(listenFd, map[], {listenFd}, 0, [])
  }

  // ---------------------------------------------------------------- the life of a connection

  /** accept never hands out a descriptor that is in use. */
  predicate Possible(r: State, ev: ReadyEvent) {
    ev.connFd >= 0 ==> ev.connFd !in r.open
  }

  ghost predicate IsRun(r: State, evs: seq<ReadyEvent>)
    decreases evs
  {
    evs == [] || (Possible(r, evs[0]) && IsRun(Dispatch(r, evs[0]), evs[1..]))
  }

  ghost function After(r: State, evs: seq<ReadyEvent>): State
    decreases evs
  {
    if evs == [] then r else After(Dispatch(r, evs[0]), evs[1..])
  }

  /** What one handler gets to see. */
  function Seen(trace: seq<Callback>, h: nat): seq<Callback> {
    if trace == [] then []
    else
      var last := trace[|trace| - 1];
      Seen(trace[..|trace| - 1], h) + if last.h == h then [last] else []
  }

  predicate IsTraffic(cb: Callback, fd: int) {
    cb.fd == fd && (cb.OnOutput? || cb.OnInput? || cb.OnException?)
  }

  /** Accepted on `fd`, then only traffic on `fd`. */
  ghost predicate Opened(life: seq<Callback>, fd: int) {
    && life != []
    && life[0].OnAccept? && life[0].accepted && life[0].fd == fd
    && forall i :: 1 <= i < |life| ==> IsTraffic(life[i], fd)
  }

  /** Turned down at once, or accepted, used, and closed with the last callback. */
  ghost predicate Finished(life: seq<Callback>) {
    && life != []
    && var last := life[|life| - 1];
       if last.OnAccept? then |life| == 1 && !last.accepted
       else last.OnClose? && Opened(life[..|life| - 1], last.fd)
  }

  /** The table holds handler `h` under the descriptor it was accepted on. */
  ghost predicate Registered(r: State, h: nat, fd: int) {
    fd in r.handlers && r.handlers[fd] == h && Opened(Seen(r.trace, h), fd)
  }

  /** A handler that has been made is in the table or through; one that has not has seen nothing. */
  ghost predicate Accounted(r: State, h: nat) {
    var life := Seen(r.trace, h);
    if h >= r.renewed then life == [] else life != [] && (Registered(r, h, life[0].fd) || Finished(life))
  }

  ghost predicate Held(r: State, fd: int) {
    fd in r.handlers ==> r.handlers[fd] < r.renewed && Registered(r, r.handlers[fd], fd)
  }

  predicate KeysAreOpen(r: State) {
    r.listenFd in r.open && r.listenFd !in r.handlers && r.handlers.Keys <= r.open
  }

  ghost predicate Inv(r: State) {
    KeysAreOpen(r) && (forall fd :: fd in r.handlers ==> Held(r, fd)) && (forall h: nat :: Accounted(r, h))
  }

  lemma SeenNext(r: State, cb: Callback, h: nat)
    ensures Seen(Log(r, cb).trace, h) == Seen(r.trace, h) + if cb.h == h then [cb] else []
  {
    assert (r.trace + [cb])[..|r.trace|] == r.trace;
  }

  // ---- a step concerns one handler and one descriptor; everything else stays as it is

  ghost predicate SameBut(r: State, r': State, fd0: int) {
    && (forall fd :: fd != fd0 ==> (fd in r'.handlers <==> fd in r.handlers))
    && (forall fd :: fd != fd0 && fd in r.handlers ==> r'.handlers[fd] == r.handlers[fd])
  }

  lemma OtherHandler(r: State, r': State, h0: nat, fd0: int, h: nat)
    requires Accounted(r, h) && h != h0 && Seen(r'.trace, h) == Seen(r.trace, h) && SameBut(r, r', fd0)
    requires (h < r.renewed <==> h < r'.renewed) && (fd0 in r.handlers ==> r.handlers[fd0] == h0)
    ensures Accounted(r', h)
  {
    if h < r.renewed && !Finished(Seen(r.trace, h)) {
      assert Registered(r', h, Seen(r.trace, h)[0].fd);
    }
  }

  lemma OtherDescriptor(r: State, r': State, h0: nat, fd0: int, fd: int)
    requires Held(r, fd) && fd in r.handlers && fd != fd0 && SameBut(r, r', fd0) && r.renewed <= r'.renewed
    requires r.handlers[fd] != h0 ==> Seen(r'.trace, r.handlers[fd]) == Seen(r.trace, r.handlers[fd])
    requires r.handlers[fd] != h0
    ensures Held(r', fd)
  {
  }

  /** No two descriptors lead to one handler. */
  lemma OneDescriptor(r: State, fd: int, fd': int)
    requires Held(r, fd) && Held(r, fd') && fd in r.handlers && fd' in r.handlers
    ensures r.handlers[fd] == r.handlers[fd'] ==> fd == fd'
  {
    if r.handlers[fd] == r.handlers[fd'] {
      assert Seen(r.trace, r.handlers[fd])[0].fd == fd && Seen(r.trace, r.handlers[fd'])[0].fd == fd';
    }
  }

  lemma StepKeepsInv(r: State, r': State, h0: nat, fd0: int)
    requires Inv(r) && KeysAreOpen(r') && SameBut(r, r', fd0) && r.renewed <= r'.renewed
    requires forall h: nat :: h != h0 ==> Seen(r'.trace, h) == Seen(r.trace, h) && (h < r.renewed <==> h < r'.renewed)
    requires Accounted(r', h0) && (fd0 in r'.handlers ==> Held(r', fd0))
    requires if fd0 in r.handlers then r.handlers[fd0] == h0 else h0 >= r.renewed
    ensures Inv(r')
  {
    forall h: nat
      ensures Accounted(r', h)
    {
      if h != h0 {
        OtherHandler(r, r', h0, fd0, h);
      }
    }
    forall fd | fd in r'.handlers
      ensures Held(r', fd)
    {
      if fd != fd0 {
        assert Held(r, fd);
        if fd0 in r.handlers {
          OneDescriptor(r, fd, fd0);
        }
        OtherDescriptor(r, r', h0, fd0, fd);
      }
    }
  }

  lemma TrafficKeepsInv(r: State, cb: Callback)
    requires Inv(r) && cb.fd in r.handlers && r.handlers[cb.fd] == cb.h && IsTraffic(cb, cb.fd)
    ensures Inv(Log(r, cb))
  {
    var r' := Log(r, cb);
    assert Held(r, cb.fd);
    forall h: nat
      ensures Seen(r'.trace, h) == Seen(r.trace, h) + if cb.h == h then [cb] else []
    {
      SeenNext(r, cb, h);
    }
    assert Registered(r', cb.h, cb.fd);
    assert Seen(r'.trace, cb.h)[0].fd == cb.fd;
    StepKeepsInv(r, r', cb.h, cb.fd);
  }

  /** A new handler sees the accept and nobody else sees anything. */
  lemma SeenAfterAccept(r: State, connFd: int, rc: int, h: nat)
    requires connFd >= 0 && Accounted(r, r.renewed)
    ensures Seen(Accept(r, connFd, rc).trace, h) ==
            if h == r.renewed then [OnAccept(r.renewed, connFd, rc == 0)] else Seen(r.trace, h)
  {
    SeenNext(r, OnAccept(r.renewed, connFd, rc == 0), h);
  }

  lemma AcceptKeepsInv(r: State, connFd: int, rc: int)
    requires Inv(r) && (connFd >= 0 ==> connFd !in r.open)
    ensures Inv(Accept(r, connFd, rc))
  {
    if connFd >= 0 {
      var r', n := Accept(r, connFd, rc), r.renewed;
      assert connFd !in r.handlers && Accounted(r, n);
      forall h: nat
        ensures Seen(r'.trace, h) == if h == n then [OnAccept(n, connFd, rc == 0)] else Seen(r.trace, h)
      {
        SeenAfterAccept(r, connFd, rc, h);
      }
      NewHandler(r', n, connFd, rc == 0);
      StepKeepsInv(r, r', n, connFd);
    }
  }

  lemma NewHandler(r: State, n: nat, connFd: int, accepted: bool)
    requires r.renewed == n + 1 && Seen(r.trace, n) == [OnAccept(n, connFd, accepted)]
    requires accepted ==> connFd in r.handlers && r.handlers[connFd] == n
    ensures Accounted(r, n) && (accepted ==> Held(r, connFd))
  {
    assert accepted ==> Registered(r, n, connFd);
  }

  lemma CloseKeepsInv(r: State, fd: int)
    requires Inv(r) && fd in r.handlers
    ensures Inv(Log(r, OnClose(r.handlers[fd], fd)).(handlers := r.handlers - {fd}, open := r.open - {fd}))
  {
    var h0 := r.handlers[fd];
    var cb := OnClose(h0, fd);
    var r' := Log(r, cb).(handlers := r.handlers - {fd}, open := r.open - {fd});
    assert Held(r, fd);
    forall h: nat
      ensures Seen(r'.trace, h) == Seen(r.trace, h) + if cb.h == h then [cb] else []
    {
      SeenNext(r, cb, h);
    }
    ClosedLife(Seen(r.trace, h0), cb);
    StepKeepsInv(r, r', h0, fd);
  }

  lemma ClosedLife(life: seq<Callback>, cb: Callback)
    requires Opened(life, cb.fd) && cb.OnClose?
    ensures Finished(life + [cb])
  {
    assert (life + [cb])[..|life|] == life;
  }

  lemma DispatchKeepsInv(r: State, ev: ReadyEvent)
    requires Inv(r) && Possible(r, ev)
    ensures Inv(Dispatch(r, ev))
  {
    if !ev.output && ev.input && r.listenFd == ev.fd {
      AcceptKeepsInv(r, ev.connFd, ev.rc);
    } else if ev.fd in r.handlers {
      var h := r.handlers[ev.fd];
      if ev.output {
        TrafficKeepsInv(r, OnOutput(h, ev.fd));
      } else if ev.input {
        TrafficKeepsInv(r, OnInput(h, ev.fd));
        if ev.rc != 0 {
          CloseKeepsInv(Log(r, OnInput(h, ev.fd)), ev.fd);
        }
      } else if ev.priority {
        TrafficKeepsInv(r, OnException(h, ev.fd));
      }
    }
  }

  /** The callbacks that an event brings to a handler in use on its descriptor. */
  function Delivered(h: nat, ev: ReadyEvent): seq<Callback> {
    if ev.output then [OnOutput(h, ev.fd)]
    else if ev.input then if ev.rc == 0 then [OnInput(h, ev.fd)] else [OnInput(h, ev.fd), OnClose(h, ev.fd)]
    else if ev.priority then [OnException(h, ev.fd)]
    else []
  }

  predicate Accepts(r: State, ev: ReadyEvent) {
    !ev.output && ev.input && ev.fd == r.listenFd && ev.connFd >= 0
  }

  /** Every event reaches the handler that was accepted on its descriptor and has not been closed, once, and no
      other; output goes before input and input before priority, a failing input is followed by the close, and an
      accept makes one new handler. */
  lemma EventReaches(r: State, ev: ReadyEvent, h: nat)
    requires Inv(r) && Possible(r, ev)
    ensures var before := Seen(r.trace, h);
            Seen(Dispatch(r, ev).trace, h) ==
            before + if Opened(before, ev.fd) then Delivered(h, ev)
                     else if Accepts(r, ev) && h == r.renewed then [OnAccept(h, ev.connFd, ev.rc == 0)] else []
    ensures Dispatch(r, ev).renewed == r.renewed + if Accepts(r, ev) then 1 else 0
  {
    InUse(r, ev.fd, h);
    if Accepts(r, ev) {
      assert Accounted(r, r.renewed);
      SeenAfterAccept(r, ev.connFd, ev.rc, h);
    } else if ev.fd in r.handlers {
      SeenCalls(r, ev, r.handlers[ev.fd], h);
    }
  }

  lemma SeenCalls(r: State, ev: ReadyEvent, h0: nat, h: nat)
    requires ev.fd != r.listenFd && ev.fd in r.handlers && r.handlers[ev.fd] == h0
    ensures Seen(Dispatch(r, ev).trace, h) == Seen(r.trace, h) + if h == h0 then Delivered(h0, ev) else []
    ensures Dispatch(r, ev).renewed == r.renewed
  {
    if ev.output {
      SeenNext(r, OnOutput(h0, ev.fd), h);
    } else if ev.input {
      SeenNext(r, OnInput(h0, ev.fd), h);
      SeenNext(Log(r, OnInput(h0, ev.fd)), OnClose(h0, ev.fd), h);
    } else if ev.priority {
      SeenNext(r, OnException(h0, ev.fd), h);
    }
  }

  /** In use on a descriptor is the handler that the map holds under it. */
  lemma InUse(r: State, fd: int, h: nat)
    requires Inv(r)
    ensures Opened(Seen(r.trace, h), fd) <==> fd in r.handlers && r.handlers[fd] == h
  {
    assert Accounted(r, h);
    if fd in r.handlers {
      assert Held(r, fd);
    }
    NotBoth(Seen(r.trace, h), fd);
  }

  lemma {:induction false} RunKeepsInv(r: State, evs: seq<ReadyEvent>)
    requires Inv(r) && IsRun(r, evs)
    ensures Inv(After(r, evs))
    decreases evs
  {
    if evs != [] {
      DispatchKeepsInv(r, evs[0]);
      RunKeepsInv(Dispatch(r, evs[0]), evs[1..]);
    }
  }

  /** Whatever events come in, each handler that renew() made sees one accept first, then traffic on the
      same descriptor, then at most one close, and nothing after that; until the close it stays registered
      under that descriptor, and under no other. */
  lemma Lifecycles(listenFd: int, evs: seq<ReadyEvent>, h: nat)
    requires IsRun(Initial(listenFd), evs)
    ensures var r := After(Initial(listenFd), evs);
            var life := Seen(r.trace, h);
            if life == [] then h >= r.renewed
            else if Finished(life) then forall fd :: fd in r.handlers ==> r.handlers[fd] != h
            else Opened(life, life[0].fd) && forall fd :: fd in r.handlers && r.handlers[fd] == h <==> fd == life[0].fd
  {
    RunKeepsInv(Initial(listenFd), evs);
    var r := After(Initial(listenFd), evs);
    assert Accounted(r, h);
    forall fd | fd in r.handlers
      ensures r.handlers[fd] == h ==> Registered(r, h, fd)
    {
      assert Held(r, fd);
    }
    RegisteredLife(r, h);
  }

  lemma RegisteredLife(r: State, h: nat)
    requires Accounted(r, h) && forall fd :: fd in r.handlers && r.handlers[fd] == h ==> Registered(r, h, fd)
    ensures var life := Seen(r.trace, h);
            if life == [] then h >= r.renewed
            else if Finished(life) then forall fd :: fd in r.handlers ==> r.handlers[fd] != h
            else Opened(life, life[0].fd) && forall fd :: fd in r.handlers && r.handlers[fd] == h <==> fd == life[0].fd
  {
    var life := Seen(r.trace, h);
    forall fd
      ensures !(Opened(life, fd) && Finished(life))
    {
      NotBoth(life, fd);
    }
  }

  /** What is through is not open. */
  lemma NotBoth(life: seq<Callback>, fd: int)
    ensures !(Opened(life, fd) && Finished(life))
  {
    var last := if life == [] then OnClose(0, 0) else life[|life| - 1];
    assert last.OnClose? ==> !IsTraffic(last, fd);
  }

  /** The rounds of the event loop are such a run. */
  lemma {:induction false} RoundIsRun(r: State, batch: seq<ReadyEvent>)
    ensures DispatchAll(r, batch) == After(r, batch)
    decreases batch
  {
    if |batch| > 0 {
      var n := |batch| - 1;
      RoundIsRun(r, batch[..n]);
      AfterSplit(r, batch[..n], [batch[n]]);
      assert batch[..n] + [batch[n]] == batch;
      assert After(Dispatch(After(r, batch[..n]), batch[n]), []) == Dispatch(After(r, batch[..n]), batch[n]);
    }
  }

  lemma {:induction false} AfterSplit(r: State, a: seq<ReadyEvent>, b: seq<ReadyEvent>)
    ensures After(r, a + b) == After(After(r, a), b)
    decreases a
  {
    if a == [] {
      assert a + b == b;
    } else {
      assert (a + b)[0] == a[0] && (a + b)[1..] == a[1..] + b;
      AfterSplit(Dispatch(r, a[0]), a[1..], b);
    }
  }
}

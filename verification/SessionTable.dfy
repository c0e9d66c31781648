/** SessionMgt: the table of live TCP sessions, indexed by descriptor and by generated id. */
module SessionTable {
  import opened Basics
  import opened Modular

  // ---------------------------------------------------------------- generated ids

  /** Decimal digits, as std::to_string writes an unsigned number. */
  function Dec(n: nat): string {
    if n < 10 then ['0' + n as char] else Dec(n / 10) + ['0' + (n % 10) as char]
  }

  /** The number that s[lo..hi] spells. */
  function Read(s: string, lo: nat, hi: nat): int
    requires hi <= |s|
  {
    if hi <= lo then 0 else Read(s, lo, hi - 1) * 10 + (s[hi - 1] as int - '0' as int)
  }

  /** Where the part of s[..n] after its last underscore begins. */
  function Last(s: string, n: nat): (k: nat)
    requires n <= |s|
    ensures k <= n
  {
    if n == 0 || s[n - 1] == '_' then n else Last(s, n - 1)
  }

  function Serial(id: string): int {
    Read(id, Last(id, |id|), |id|)
  }

  lemma {:induction false} ReadShift(s: string, lo: nat, t: string, n: nat)
    requires n <= |t| && lo + n <= |s| && s[lo..lo + n] == t[..n]
    ensures Read(s, lo, lo + n) == Read(t, 0, n)
    decreases n
  {
    if n > 0 {
      assert s[lo..lo + n - 1] == s[lo..lo + n][..n - 1] == t[..n][..n - 1] == t[..n - 1];
      ReadShift(s, lo, t, n - 1);
      assert s[lo + n - 1] == s[lo..lo + n][n - 1] == t[..n][n - 1] == t[n - 1];
    }
  }

  lemma {:induction false} DecReadsBack(n: nat)
    ensures Read(Dec(n), 0, |Dec(n)|) == n && '_' !in Dec(n)
  {
    if n >= 10 {
      var front := Dec(n / 10);
      DecReadsBack(n / 10);
      ReadShift(Dec(n), 0, front, |front|);
    }
  }

  lemma {:induction false} LastFinds(s: string, k: nat, n: nat)
    requires 0 < k <= n <= |s| && s[k - 1] == '_' && forall i :: k <= i < n ==> s[i] != '_'
    ensures Last(s, n) == k
    decreases n
  {
    if n > k {
      LastFinds(s, k, n - 1);
    }
  }

  function Uid(prefix: string, second: nat, number: nat): string {
    prefix + "_" + Dec(second) + "_" + Dec(number)
  }

  /** The running number can be read off an id, whatever stands before it; so no two are the same. */
  lemma UidNumber(prefix: string, second: nat, number: nat)
    ensures Serial(Uid(prefix, second, number)) == number
  {
    var front, digits := prefix + "_" + Dec(second) + "_", Dec(number);
    var id := Uid(prefix, second, number);
    DecReadsBack(number);
    assert id == front + digits && id[|front|..] == digits;
    LastFinds(id, |front|, |id|);
    ReadShift(id, |front|, digits, |digits|);
  }

  // ---------------------------------------------------------------- the table

  const TCP_IDLE_TIMEOUT: int := 60000000
  const ULLONG_RANGE: int := 0x1_0000_0000_0000_0000

  datatype Session = Session(id: string, clientId: nat, fd: int, status: bool, ip: string, port: nat,
                             createTime: nat, accessTime: nat, rNum: nat, wNum: nat)

  datatype Table = Table(sessions: map<int, Session>, fds: map<string, int>, uid: nat)

  datatype Op =
    | Insert(fd: int, ip: string, port: nat, second: nat, now: nat)
    | Remove(fd: int)
    | UpdateStatus(fd: int, status: bool)
    | UpdateRead(fd: int, num: nat, now: nat)
    | UpdateWrite(fd: int, num: nat, now: nat)
    | SetClientId(id: string, clientId: nat)
    | Check(now: nat)

  /** Unsigned subtraction: an access time in the future counts as long past. */
  predicate Expired(s: Session, now: nat) {
    (if s.accessTime <= now then now - s.accessTime else now + ULLONG_RANGE - s.accessTime) > TCP_IDLE_TIMEOUT
  }

  function ExpiredKeys<K>(sessions: map<K, Session>, now: nat): set<K> {
    set k | k in sessions && Expired(sessions[k], now)
  }

  function IdsOf<K>(sessions: map<K, Session>, gone: set<K>): set<string> {
    set fd | fd in gone && fd in sessions :: sessions[fd].id
  }

  /** The table without the sessions of some descriptors. */
  function Drop(t: Table, gone: set<int>): Table {
    t.(sessions := t.sessions - gone, fds := t.fds - IdsOf(t.sessions, gone))
  }

  function Next(uid: nat): nat {
    if uid + 1 == ULLONG_RANGE then 0 else uid + 1
  }

  function NewId(t: Table, ip: string, port: nat, second: nat): string {
    Uid(ip + "_" + Dec(port), second, Next(t.uid))
  }

  function Touch(t: Table, fd: int, s: Session): Table {
    t.(sessions := t.sessions[fd := s])
  }

  function Apply(t: Table, op: Op): Table {
    match op
    case Insert(fd, ip, port, second, now) =>
      var id := NewId(t, ip, port, second);
      Table(t.sessions[fd := Session(id, 0, fd, true, ip, port, now, now, 0, 0)], t.fds[id := fd],
            Next(t.uid))
    case Remove(fd) =>
      Drop(t, {fd})
    case UpdateStatus(fd, status) =>
      if fd in t.sessions then Touch(t, fd, t.sessions[fd].(status := status)) else t
    case UpdateRead(fd, num, now) =>
      if fd in t.sessions && t.sessions[fd].status
      then Touch(t, fd, t.sessions[fd].(accessTime := now, rNum := (t.sessions[fd].rNum + num) % ULLONG_RANGE))
      else t
    case UpdateWrite(fd, num, now) =>
      if fd in t.sessions && t.sessions[fd].status
      then Touch(t, fd, t.sessions[fd].(accessTime := now, wNum := (t.sessions[fd].wNum + num) % ULLONG_RANGE))
      else t
    case SetClientId(id, clientId) =>
      if id in t.fds && t.fds[id] in t.sessions
      then Touch(t, t.fds[id], t.sessions[t.fds[id]].(clientId := clientId))
      else t
    case Check(now) =>
      Drop(t, ExpiredKeys(t.sessions, now))
  }

  function ApplyAll(t: Table, ops: seq<Op>): Table
    decreases ops
  {
    if ops == [] then t else ApplyAll(Apply(t, ops[0]), ops[1..])
  }

  const EMPTY: Table := Table(map[], map[], 0)

  class SessionMgt {
    var sessions: map<int, Session>
    var fds: map<string, int>
    var uid: nat

    constructor ()
      ensures State() == EMPTY
    {
      sessions, fds, uid := map[], map[], 0;
    }

    ghost function State(): Table
      reads this
    {
      Table(sessions, fds, uid)
    }

    method GenUid(prefix: string, second: nat) returns (id: string)
      modifies this`uid
      ensures uid == Next(old(uid)) && id == Uid(prefix, second, uid)
    {
      uid := if uid + 1 == ULLONG_RANGE then 0 else uid + 1;
      id := prefix + "_" + Dec(second) + "_" + Dec(uid);
    }

    method InsertSession(fd: int, ip: string, port: nat, second: nat, now: nat) returns (id: string)
      modifies this
      ensures State() == Apply(old(State()), Insert(fd, ip, port, second, now))
      ensures id == ip + "_" + Dec(port) + "_" + Dec(second) + "_" + Dec(uid) && fds == old(fds)[id := fd]
      ensures sessions == old(sessions)[fd := Session(id, 0, fd, true, ip, port, now, now, 0, 0)]
    {
      id := GenUid(ip + "_" + Dec(port), second);
      sessions := sessions[fd := Session(id, 0, fd, true, ip, port, now, now, 0, 0)];
      fds := fds[id := fd];
    }

    method RemoveSession(fd: int) returns (found: bool, id: string)
      modifies this`sessions, this`fds
      ensures State() == Apply(old(State()), Remove(fd))
      ensures found == (fd in old(sessions)) && (found ==> id == old(sessions)[fd].id)
    {
      found, id := fd in sessions, "";
      if found {
        id := sessions[fd].id;
        Erase(fd);
      }
    }

    method Erase(fd: int)
      requires fd in sessions
      modifies this`sessions, this`fds
      ensures State() == Drop(old(State()), {fd})
    {
      assert IdsOf(sessions, {fd}) == {sessions[fd].id};
      fds := fds - {sessions[fd].id};
      sessions := sessions - {fd};
    }

    method GetFd(id: string) returns (found: bool, fd: int)
      ensures found == (id in fds) && (found ==> fd == fds[id])
    {
      found, fd := false, -1;
      if id in fds {
        found, fd := true, fds[id];
      }
    }

    method UpdateSessionStatus(fd: int, status: bool)
      modifies this`sessions
      ensures State() == Apply(old(State()), UpdateStatus(fd, status))
    {
      if fd in sessions {
        sessions := sessions[fd := sessions[fd].(status := status)];
      }
    }

    method UpdateSessionRead(fd: int, num: nat, now: nat) returns (updated: bool, id: string)
      modifies this`sessions
      ensures State() == Apply(old(State()), UpdateRead(fd, num, now))
      ensures updated ==> fd in sessions && id == sessions[fd].id && sessions[fd].accessTime == now
    {
      updated, id := false, "";
      if fd in sessions {
        var s := sessions[fd];
        if s.status {
          sessions := sessions[fd := s.(accessTime := now, rNum := (s.rNum + num) % ULLONG_RANGE)];
          updated, id := true, s.id;
        }
      }
    }

    method UpdateSessionWrite(fd: int, num: nat, now: nat)
      modifies this`sessions
      ensures State() == Apply(old(State()), UpdateWrite(fd, num, now))
    {
      if fd in sessions {
        var s := sessions[fd];
        if s.status {
          sessions := sessions[fd := s.(accessTime := now, wNum := (s.wNum + num) % ULLONG_RANGE)];
        }
      }
    }

    method SetSessionClientId(id: string, clientId: nat) returns (found: bool)
      modifies this`sessions
      ensures State() == Apply(old(State()), SetClientId(id, clientId))
      ensures found == (id in fds)
    {
      if id !in fds {
        return false;
      }
      var fd := fds[id];
      if fd in sessions {
        sessions := sessions[fd := sessions[fd].(clientId := clientId)];
      }
      found := true;
    }

    method GetSessionClientId(id: string, before: nat) returns (found: bool, clientId: nat)
      ensures found == (id in fds)
      ensures clientId == if id in fds && fds[id] in sessions then sessions[fds[id]].clientId else before
    {
      clientId := before;
      if id !in fds {
        return false, clientId;
      }
      var fd := fds[id];
      if fd in sessions {
        clientId := sessions[fd].clientId;
      }
      found := true;
    }

    /** Walks over the sessions and erases the idle ones on the way. */
    method CheckSessions(now: nat)
      modifies this`sessions, this`fds
      ensures State() == Apply(old(State()), Check(now))
      ensures old(Consistent(State())) ==> Swept(old(State()), State(), now)
    {
      ghost var t := State();
      ghost var expired := ExpiredKeys(t.sessions, now);
      var ahead := sessions.Keys;
      assert expired - ahead == {};
      DropNone(t);
      while ahead != {}
        invariant ahead <= t.sessions.Keys
        invariant State() == Drop(t, expired - ahead)
        decreases |ahead|
      {
        var fd := Any(ahead);
        DropOneMore(t, expired, ahead, fd);
        ahead := ahead - {fd};
        if Expired(sessions[fd], now) {
          Erase(fd);
        }
      }
      assert expired - ahead == expired;
      CheckDrops(t, now);
      if Consistent(t) {
        CheckTakes(t, now);
      }
    }

    /** What is set is read back, by the same id. */
    method SetThenGet(id: string, clientId: nat, before: nat) returns (found: bool, got: nat)
      modifies this`sessions
      ensures found == (id in fds)
      ensures got == if id in fds && fds[id] in sessions then clientId else before
    {
      found := SetSessionClientId(id, clientId);
      found, got := GetSessionClientId(id, before);
    }
  }

  lemma DropNone(t: Table)
    ensures Drop(t, {}) == t
  {
    assert t.sessions - {} == t.sessions && IdsOf(t.sessions, {}) == {} && t.fds - {} == t.fds;
  }

  lemma CheckDrops(t: Table, now: nat)
    ensures Apply(t, Check(now)) == Drop(t, ExpiredKeys(t.sessions, now))
  {
  }

  lemma DropOneMore(t: Table, expired: set<int>, ahead: set<int>, fd: int)
    requires fd in ahead && fd in t.sessions
    ensures var d := Drop(t, expired - ahead);
            && fd in d.sessions && d.sessions[fd] == t.sessions[fd]
            && Drop(t, expired - (ahead - {fd})) == if fd in expired then Drop(d, {fd}) else d
  {
    var gone, more := expired - ahead, expired - (ahead - {fd});
    if fd in expired {
      assert more == gone + {fd};
      assert IdsOf(t.sessions, more) == IdsOf(t.sessions, gone) + {t.sessions[fd].id};
      assert IdsOf(t.sessions - gone, {fd}) == {t.sessions[fd].id};
    } else {
      assert more == gone;
    }
  }

  // ---------------------------------------------------------------- what every run keeps

  /** The id of a session leads back to its descriptor, and every id was numbered by the counter. */
  ghost predicate Consistent(t: Table) {
    && (forall fd :: fd in t.sessions ==>
          var s := t.sessions[fd]; s.fd == fd && s.id in t.fds && t.fds[s.id] == fd)
    && (forall id :: id in t.fds ==> Serial(id) <= t.uid)
  }

  /** The ids left in the index although no session carries them any more. */
  ghost function Stale(t: Table): set<string> {
    set id | id in t.fds && !Carried(t, id)
  }

  /** The two maps are inverse to each other. */
  ghost predicate Inverse(t: Table) {
    && (forall fd :: fd in t.sessions ==> t.sessions[fd].id in t.fds && t.fds[t.sessions[fd].id] == fd)
    && (forall id :: id in t.fds ==> Carried(t, id))
  }

  /** An insertion that overwrites a live session. */
  predicate Overwrites(t: Table, op: Op) {
    op.Insert? && op.fd in t.sessions
  }

  /** An id is carried by the session of the descriptor it leads to. */
  ghost predicate Carried(t: Table, id: string)
    requires id in t.fds
  {
    t.fds[id] in t.sessions && t.sessions[t.fds[id]].id == id
  }

  lemma InsertKeeps(t: Table, id: string, fd: int, s: Session)
    requires Consistent(t) && Serial(id) == t.uid + 1 && s.id == id && s.fd == fd
    ensures var t' := Table(t.sessions[fd := s], t.fds[id := fd], t.uid + 1);
            && Consistent(t') && id !in t.fds
            && Stale(t') == if fd in t.sessions then Stale(t) + {t.sessions[fd].id} else Stale(t)
  {
    var t' := Table(t.sessions[fd := s], t.fds[id := fd], t.uid + 1);
    forall i | i in t.fds
      ensures Carried(t', i) <==> Carried(t, i) && t.fds[i] != fd
    {
    }
    forall k | k in t'.sessions
      ensures t'.sessions[k].id in t'.fds && t'.fds[t'.sessions[k].id] == k
    {
    }
  }

  lemma IdHasKey<K>(sessions: map<K, Session>, gone: set<K>, id: string) returns (k: K)
    requires id in IdsOf(sessions, gone)
    ensures k in gone && k in sessions && sessions[k].id == id
  {
    k :| k in gone && k in sessions && sessions[k].id == id;
  }

  lemma DropKeeps(t: Table, gone: set<int>)
    requires Consistent(t)
    ensures Consistent(Drop(t, gone)) && Stale(Drop(t, gone)) == Stale(t)
  {
    var t' := Drop(t, gone);
    var ids := IdsOf(t.sessions, gone);
    forall id | id in t.fds
      ensures id in ids <==> t.fds[id] in gone && Carried(t, id)
    {
      if id in ids {
        var fd := IdHasKey(t.sessions, gone, id);
      }
    }
    forall id | id in t.fds
      ensures id in Stale(t) <==> id in Stale(t')
    {
      assert id !in ids ==> (Carried(t, id) <==> Carried(t', id));
    }
    forall fd | fd in t'.sessions
      ensures t'.sessions[fd].id in t'.fds
    {
    }
  }

  lemma TouchKeeps(t: Table, fd: int, s: Session)
    requires Consistent(t) && fd in t.sessions && s.id == t.sessions[fd].id && s.fd == fd
    ensures Consistent(Touch(t, fd, s)) && Stale(Touch(t, fd, s)) == Stale(t)
  {
    var t' := Touch(t, fd, s);
    assert forall k :: k in t'.sessions <==> k in t.sessions;
    assert forall k :: k in t.sessions ==>
             t'.sessions[k].id == t.sessions[k].id && t'.sessions[k].fd == t.sessions[k].fd;
  }

  lemma InsertOpKeeps(t: Table, op: Op)
    requires op.Insert? && Consistent(t) && t.uid + 1 < ULLONG_RANGE
    ensures Consistent(Apply(t, op)) && Apply(t, op).uid == t.uid + 1
    ensures Stale(Apply(t, op)) == if op.fd in t.sessions then Stale(t) + {t.sessions[op.fd].id} else Stale(t)
  {
    var id := NewId(t, op.ip, op.port, op.second);
    UidNumber(op.ip + "_" + Dec(op.port), op.second, t.uid + 1);
    assert Serial(id) == t.uid + 1;
    var s := Session(id, 0, op.fd, true, op.ip, op.port, op.now, op.now, 0, 0);
    InsertKeeps(t, id, op.fd, s);
  }

  /** Every operation keeps the table consistent. Only an insertion over a live session leaves an id
      behind, and nothing ever takes such an id away. */
  lemma ApplyKeeps(t: Table, op: Op)
    requires Consistent(t) && t.uid + 1 < ULLONG_RANGE
    ensures Consistent(Apply(t, op)) && t.uid <= Apply(t, op).uid <= t.uid + 1
    ensures Stale(Apply(t, op)) == if Overwrites(t, op) then Stale(t) + {t.sessions[op.fd].id} else Stale(t)
    ensures Overwrites(t, op) ==> t.sessions[op.fd].id !in Stale(t)
  {
    if op.Insert? {
      InsertOpKeeps(t, op);
    } else if op.Remove? {
      DropKeeps(t, {op.fd});
    } else if op.Check? {
      DropKeeps(t, ExpiredKeys(t.sessions, op.now));
    } else {
      UpdateKeeps(t, op);
    }
  }

  lemma UpdateKeeps(t: Table, op: Op)
    requires Consistent(t) && !op.Insert? && !op.Remove? && !op.Check?
    ensures Consistent(Apply(t, op)) && Stale(Apply(t, op)) == Stale(t) && Apply(t, op).uid == t.uid
  {
    if Apply(t, op) != t {
      var fd := if op.SetClientId? then t.fds[op.id] else op.fd;
      TouchKeeps(t, fd, Apply(t, op).sessions[fd]);
    }
  }

  // ---------------------------------------------------------------- the life of a session

  /** What a check leaves: the sessions heard of in the last 60 seconds, unchanged and with their ids; of the others
      neither session nor id. A last access after `now` counts as long ago, unless it is ages ahead. */
  ghost predicate Swept(t: Table, n: Table, now: nat) {
    && n.uid == t.uid
    && (forall fd :: fd in n.sessions ==> fd in t.sessions && n.sessions[fd] == t.sessions[fd])
    && (forall id :: id in n.fds ==> id in t.fds && n.fds[id] == t.fds[id])
    && forall fd :: fd in t.sessions ==>
         var s := t.sessions[fd];
         if s.accessTime <= now <= s.accessTime + 60000000 || now + 0xffff_ffff_fc6c_7900 <= s.accessTime
         then fd in n.sessions && s.id in n.fds && n.fds[s.id] == fd
         else fd !in n.sessions && s.id !in n.fds
  }

  lemma CheckTakes(t: Table, now: nat)
    requires Consistent(t)
    ensures Swept(t, Apply(t, Check(now)), now)
  {
    var gone := ExpiredKeys(t.sessions, now);
    var ids := IdsOf(t.sessions, gone);
    forall fd | fd in t.sessions
      ensures t.sessions[fd].id in ids <==> fd in gone
    {
      if t.sessions[fd].id in ids {
        var k := IdHasKey(t.sessions, gone, t.sessions[fd].id);
      }
    }
  }

  /** One session: its id, whether it is up, when it was last heard of, the octets read and written, its client. */
  datatype Life = Life(id: string, up: bool, heard: nat, readSum: nat, writeSum: nat, client: nat)

  function Lived(l: Life, fd: int, op: Op): Life {
    match op
    case UpdateStatus(f, status) => if f == fd then l.(up := status) else l
    case UpdateRead(f, num, now) => if f == fd && l.up then l.(heard := now, readSum := l.readSum + num) else l
    case UpdateWrite(f, num, now) => if f == fd && l.up then l.(heard := now, writeSum := l.writeSum + num) else l
    case SetClientId(id, clientId) => if id == l.id then l.(client := clientId) else l
    case _ => l
  }

  /** The descriptor is neither given to another session nor taken away, and a check comes within 60 seconds of the
      last sign of life. */
  predicate Spares(l: Life, fd: int, op: Op) {
    match op
    case Insert(f, _, _, _, _) => f != fd
    case Remove(f) => f != fd
    case Check(now) => l.heard <= now <= l.heard + 60000000
    case _ => true
  }

  ghost predicate Lives(t: Table, fd: int, l: Life) {
    && fd in t.sessions && l.id in t.fds && (forall id :: id in t.fds ==> (t.fds[id] == fd <==> id == l.id))
    && Shows(t.sessions[fd], l)
  }

  predicate Shows(s: Session, l: Life) {
    && s.id == l.id && s.status == l.up && s.accessTime == l.heard && s.clientId == l.client
    && s.rNum == l.readSum % 0x1_0000_0000_0000_0000 && s.wNum == l.writeSum % 0x1_0000_0000_0000_0000
  }

  ghost predicate SparedBy(l: Life, fd: int, ops: seq<Op>)
    decreases ops
  {
    ops == [] || (Spares(l, fd, ops[0]) && SparedBy(Lived(l, fd, ops[0]), fd, ops[1..]))
  }

  ghost function LivedOn(l: Life, fd: int, ops: seq<Op>): Life
    decreases ops
  {
    if ops == [] then l else LivedOn(Lived(l, fd, ops[0]), fd, ops[1..])
  }

  lemma LifeBegins(t: Table, op: Op)
    requires op.Insert? && Consistent(t) && Inverse(t) && op.fd !in t.sessions && t.uid + 1 < ULLONG_RANGE
    ensures Lives(Apply(t, op), op.fd, Life(NewId(t, op.ip, op.port, op.second), true, op.now, 0, 0, 0))
  {
    InsertOpKeeps(t, op);
    assert forall id :: id in t.fds ==> Carried(t, id);
  }

  lemma CountUp(n: nat, num: nat, range: nat)
    requires range > 0
    ensures (n % range + num) % range == (n + num) % range
  {
    AddMultiple(n % range + num, n / range, range);
    assert n % range + num + n / range * range == n + num;
  }

  lemma LifeGoesOn(t: Table, fd: int, l: Life, op: Op)
    requires Consistent(t) && t.uid + 1 < ULLONG_RANGE && Lives(t, fd, l) && Spares(l, fd, op)
    ensures Lives(Apply(t, op), fd, Lived(l, fd, op))
  {
    if op.Insert? {
      LivesBesideNew(t, fd, l, op);
    } else if op.Remove? {
      LivesBesideOld(t, {op.fd}, fd, l);
    } else if op.Check? {
      CheckTakes(t, op.now);
      LivesBesideOld(t, ExpiredKeys(t.sessions, op.now), fd, l);
    } else {
      LivesThrough(t, fd, l, op);
    }
  }

  lemma LivesBesideNew(t: Table, fd: int, l: Life, op: Op)
    requires Consistent(t) && t.uid + 1 < ULLONG_RANGE && Lives(t, fd, l) && op.Insert? && op.fd != fd
    ensures Lives(Apply(t, op), fd, l)
  {
    UidNumber(op.ip + "_" + Dec(op.port), op.second, t.uid + 1);
  }

  lemma LivesBesideOld(t: Table, gone: set<int>, fd: int, l: Life)
    requires Consistent(t) && Lives(t, fd, l) && fd !in gone
    ensures Lives(Drop(t, gone), fd, l)
  {
    if l.id in IdsOf(t.sessions, gone) {
      var k := IdHasKey(t.sessions, gone, l.id);
    }
  }

  lemma LivesThrough(t: Table, fd: int, l: Life, op: Op)
    requires Lives(t, fd, l) && !op.Insert? && !op.Remove? && !op.Check?
    ensures Lives(Apply(t, op), fd, Lived(l, fd, op))
  {
    if op.UpdateRead? {
      CountUp(l.readSum, op.num, ULLONG_RANGE);
    } else if op.UpdateWrite? {
      CountUp(l.writeSum, op.num, ULLONG_RANGE);
    }
    if Apply(t, op) != t {
      var f := if op.SetClientId? then t.fds[op.id] else op.fd;
      LivesTouched(t, fd, l, f, Apply(t, op).sessions[f], Lived(l, fd, op));
    }
  }

  lemma LivesTouched(t: Table, fd: int, l: Life, f: int, s: Session, next: Life)
    requires Lives(t, fd, l) && next.id == l.id && if f == fd then Shows(s, next) else next == l
    ensures Lives(Touch(t, f, s), fd, next)
  {
  }

  /** Whatever other sessions come and go: a session that is heard of at least every 60 seconds is never taken by a
      check, and holds the sum of what was read and written, the last time it was heard of and the client last
      set for its id. */
  lemma {:induction false} LivesOn(t: Table, fd: int, l: Life, ops: seq<Op>)
    requires Consistent(t) && t.uid + |ops| < ULLONG_RANGE && Lives(t, fd, l) && SparedBy(l, fd, ops)
    ensures Lives(ApplyAll(t, ops), fd, LivedOn(l, fd, ops))
    decreases ops
  {
    if ops != [] {
      ApplyKeeps(t, ops[0]);
      LifeGoesOn(t, fd, l, ops[0]);
      LivesOn(Apply(t, ops[0]), fd, Lived(l, fd, ops[0]), ops[1..]);
    }
  }

  // ---------------------------------------------------------------- whole runs

  ghost function OverwriteCount(t: Table, ops: seq<Op>): nat
    decreases ops
  {
    if ops == [] then 0 else (if Overwrites(t, ops[0]) then 1 else 0) + OverwriteCount(Apply(t, ops[0]), ops[1..])
  }

  lemma {:induction false} RunKeepsTable(t: Table, ops: seq<Op>)
    requires Consistent(t) && t.uid + |ops| < ULLONG_RANGE
    ensures Consistent(ApplyAll(t, ops)) && ApplyAll(t, ops).uid <= t.uid + |ops|
    ensures |Stale(ApplyAll(t, ops))| == |Stale(t)| + OverwriteCount(t, ops)
    decreases ops
  {
    if ops != [] {
      ApplyKeeps(t, ops[0]);
      RunKeepsTable(Apply(t, ops[0]), ops[1..]);
    }
  }

  /** For every sequence of session operations from the empty table: each session's id finds its
      descriptor; as many ids are stale as live descriptors were inserted anew; and so the two maps are
      inverse exactly when that never happened. */
  lemma {:induction false} SessionsAndIds(ops: seq<Op>)
    requires |ops| < ULLONG_RANGE
    ensures Consistent(ApplyAll(EMPTY, ops))
    ensures |Stale(ApplyAll(EMPTY, ops))| == OverwriteCount(EMPTY, ops)
    ensures Inverse(ApplyAll(EMPTY, ops)) <==> OverwriteCount(EMPTY, ops) == 0
  {
    assert Stale(EMPTY) == {};
    RunKeepsTable(EMPTY, ops);
    var t := ApplyAll(EMPTY, ops);
    if Inverse(t) {
      assert Stale(t) == {};
    } else {
      var id :| id in t.fds && !Carried(t, id);
      assert id in Stale(t);
    }
  }
}

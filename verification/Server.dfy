/** src/server/server.cpp: one iteration of the event loop as steps: accept, readiness, timer pass. */
module Server {
  import opened Base
  import opened Store
  import opened Database
  import opened Clients
  import opened Limits
  import opened Requests
  import opened History
  import Client
  import Expiry
  import Framing
  import Timers

  /** What poll reports for one connection. */
  datatype Events = Events(pollIn: bool, pollOut: bool, pollErr: bool)

  /** The run so far: the latest clock reading, what has passed over each connection (an ended one stays on record until
      its descriptor is used again), and every request and reaper pass in order. */
  datatype Past = Past(time: nat, log: map<nat, Session>, trace: seq<Deed>)

  ghost predicate Logged(conns: map<nat, Conn>, log: map<nat, Session>, tr: seq<Deed>, fd: nat)
    requires fd in conns
  {
    fd in log && SessionOk(conns[fd], log[fd], tr, fd)
  }

  /** Every live connection's session is in order. Unfolded by Look. */
  ghost predicate LogOk(conns: map<nat, Conn>, log: map<nat, Session>, tr: seq<Deed>) {
    forall z {:trigger Look(z)} :: Look(z) ==> forall fd: nat | fd in conns :: Logged(conns, log, tr, fd)
  }

  lemma {:induction false} LogAt(conns: map<nat, Conn>, log: map<nat, Session>, tr: seq<Deed>, fd: nat)
    requires LogOk(conns, log, tr) && fd in conns
    ensures Logged(conns, log, tr, fd)
  {
    assert Look(0);
  }

  lemma {:induction false} LogSet(conns: map<nat, Conn>, log: map<nat, Session>, tr: seq<Deed>, fd: nat, c: Conn,
      s: Session)
    requires LogOk(conns, log, tr) && SessionOk(c, s, tr, fd)
    ensures LogOk(conns[fd := c], log[fd := s], tr)
  {
    assert Look(0);
    var conns', log' := conns[fd := c], log[fd := s];
    forall f: nat | f in conns' ensures Logged(conns', log', tr, f) {
      assert f != fd ==> Logged(conns, log, tr, f);
    }
  }

  /** What is on record of a descriptor that is not open does not matter. */
  lemma {:induction false} LogForget(conns: map<nat, Conn>, log: map<nat, Session>, tr: seq<Deed>, fd: nat, s: Session)
    requires LogOk(conns, log, tr) && fd !in conns
    ensures LogOk(conns, log[fd := s], tr)
  {
    assert Look(0);
    forall f: nat | f in conns ensures Logged(conns, log[fd := s], tr, f) { assert Logged(conns, log, tr, f); }
  }

  lemma {:induction false} LogFewer(conns: map<nat, Conn>, conns': map<nat, Conn>, log: map<nat, Session>,
      tr: seq<Deed>)
    requires LogOk(conns, log, tr) && forall fd: nat :: fd in conns' ==> fd in conns && conns'[fd] == conns[fd]
    ensures LogOk(conns', log, tr)
  {
    assert Look(0);
    forall f: nat | f in conns' ensures Logged(conns', log, tr, f) { assert Logged(conns, log, tr, f); }
  }

  lemma {:induction false} LogPass(conns: map<nat, Conn>, log: map<nat, Session>, tr: seq<Deed>, dead: set<Bytes>,
      now: nat)
    requires LogOk(conns, log, tr)
    ensures LogOk(conns, log, tr + [Pass(dead, now)])
  {
    assert Look(0);
    forall f: nat | f in conns ensures Logged(conns, log, tr + [Pass(dead, now)], f) {
      assert Logged(conns, log, tr, f);
      SessionPass(conns[f], log[f], tr, f, dead, now);
    }
  }

  /** The requests of a readiness step join the run; the other sessions do not notice. */
  lemma {:induction false} LogServed(conns: map<nat, Conn>, log: map<nat, Session>, tr: seq<Deed>, fd: nat,
      qs: seq<Served>)
    requires LogOk(conns, log, tr)
    ensures LogOk(conns - {fd}, log, tr + Tag(fd, qs))
  {
    assert Look(0);
    var conns', tr' := conns - {fd}, tr + Tag(fd, qs);
    forall f: nat | f in conns' ensures Logged(conns', log, tr', f) {
      assert Logged(conns, log, tr, f);
      SessionOther(conns[f], log[f], tr, f, fd, qs);
    }
  }

  ghost function Incoming(readable: bool, a: Arrival): Bytes { if readable then NewBytes(a) else [] }

  /** When a readiness step ends the connection: poll or a call reports an error, the peer is gone, or a header is
      oversized. A malformed request is not among the reasons. */
  ghost predicate Dropped(c: Conn, re: Events, a: Arrival, w: Sent, qs: seq<Served>) {
    || re.pollErr || (re.pollIn && a.Hangup?) || Framing.Drain(c.incoming + Incoming(re.pollIn, a)).oversized
    || (re.pollOut && w.Broken? && c.outgoing + Answer(qs) != [])
  }

  /** The readings of a step never run backwards. */
  ghost predicate Ticks(clk: nat -> (nat, nat), now: nat, end: nat) {
    && now <= end < TWO63 && (forall i: nat :: now <= clk(i).0 <= clk(i).1 <= end)
    && forall i: nat, j: nat :: i < j ==> clk(i).1 <= clk(j).0
  }

  /** How many of the bytes that wait for a connection a step sends. */
  ghost function Taken(writable: bool, w: Sent, waiting: nat): nat {
    if writable && w.Took? then Min(w.room, waiting) else 0
  }

  /** handle_write if the connection is writable. */
  method MaybeWrite(c1: Conn, writable: bool, w: Sent) returns (c: Conn, ghost out: Bytes)
    ensures c.incoming == c1.incoming && c.lastActive == c1.lastActive && c1.outgoing == out + c.outgoing
    ensures |out| == Taken(writable, w, |c1.outgoing|)
    ensures c.wantClose == (c1.wantClose || (writable && c1.outgoing != [] && w.Broken?))
    ensures Quiet(c1) && !c.wantClose ==> Quiet(c)
  {
    c, out := c1, [];
    if writable {
      var took;
      c, took := HandleWrite(c1, w);
      out := took;
    }
  }

  /** A read and a write together: why the connection ends, or how its session goes on. */
  lemma {:induction false} Exchanged(c0: Conn, s: Session, tr: seq<Deed>, fd: nat, re: Events, a: Arrival, w: Sent,
      c1: Conn, qs: seq<Served>, c: Conn, out: Bytes)
    requires SessionOk(c0, s, tr, fd) && Heard(c0, Incoming(re.pollIn, a), c1, qs)
    requires c1.wantClose == ((re.pollIn && a.Hangup?) || Framing.Drain(c0.incoming + Incoming(re.pollIn, a)).oversized)
    requires c.incoming == c1.incoming && c.lastActive == c1.lastActive && c1.outgoing == out + c.outgoing
    requires c.wantClose == (c1.wantClose || (re.pollOut && c1.outgoing != [] && w.Broken?))
    requires Quiet(c1) && !c.wantClose ==> Quiet(c)
    ensures (c.wantClose || re.pollErr) == Dropped(c0, re, a, w, qs) && c.lastActive == c0.lastActive
    ensures c.incoming == Framing.Drain(c0.incoming + Incoming(re.pollIn, a)).rest
    ensures !c.wantClose ==> SessionOk(c, Extend(s, Incoming(re.pollIn, a), out), tr + Tag(fd, qs), fd)
  {
    if !c.wantClose { SessionStep(c0, s, tr, fd, Incoming(re.pollIn, a), c1, qs, c, out); }
  }

  /** The requests of the run that came in on fd are the frames of the bytes it got, in order; what it was sent is a
      prefix of their framed replies; and each reply is what the ideal store answers to that frame at that point. */
  ghost predicate ServedInOrder(lib: Lib, s: Session, tr: seq<Deed>, fd: nat) {
    var own := Own(tr, s.since, fd);
    && s.sent <= Answer(OwnServed(tr, s.since, fd)) && |own| == |Framing.Drain(s.got).frames|
    && (forall i :: 0 <= i < |own| ==> tr[own[i]].q.body == Framing.Drain(s.got).frames[i])
    && forall i :: 0 <= i < |own| ==> IdealReply(lib, tr[..own[i]], tr[own[i]].q)
  }

  /** After a readiness step on fd: the requests are in the run, the session is extended by what came in and by as many
      of the bytes waiting as the socket took, the other connections are as they were, and fd's is gone, for one of the
      reasons in Dropped, or open with the rest. */
  ghost predicate Settled(conns: map<nat, Conn>, fd: nat, re: Events, a: Arrival, w: Sent, qs: seq<Served>, out: Bytes,
      before: Past, end: nat, conns': map<nat, Conn>, after: Past)
    requires fd in conns
  {
    var waiting := conns[fd].outgoing + Answer(qs);
    && after.time == end && after.trace == before.trace + Tag(fd, qs)
    && out <= waiting && |out| == Taken(re.pollOut, w, |waiting|)
    && fd in before.log && after.log == before.log[fd := Extend(before.log[fd], Incoming(re.pollIn, a), out)]
    && if Dropped(conns[fd], re, a, w, qs) then conns' == conns - {fd}
       else
         && fd in conns' && conns' == conns[fd := conns'[fd]] && conns'[fd].lastActive == conns[fd].lastActive
         && conns'[fd].incoming == Framing.Drain(conns[fd].incoming + Incoming(re.pollIn, a)).rest
         && out + conns'[fd].outgoing == waiting
  }

  /** When some connection times out, or some key expires. */
  ghost predicate IsDeadline(conns: map<nat, Conn>, timeout: nat, st: Store, d: nat) {
    || (exists fd: nat :: fd in conns && conns[fd].lastActive + timeout == d)
    || (exists k :: k in st && st[k].due == Some(d))
  }

  /** The earliest of all deadlines, if there are any. */
  ghost predicate Earliest(conns: map<nat, Conn>, timeout: nat, st: Store, next: Option<nat>) {
    match next
    case None => forall d: nat :: !IsDeadline(conns, timeout, st, d)
    case Some(e) => IsDeadline(conns, timeout, st, e) && forall d: nat :: IsDeadline(conns, timeout, st, d) ==> e <= d
  }

  ghost function Sooner(a: Option<nat>, b: Option<nat>): Option<nat> {
    if a.Some? && (b.None? || a.value <= b.value) then a else b
  }

  lemma {:induction false} SoonerIsEarliest(conns: map<nat, Conn>, timeout: nat, st: Store, idle: Option<nat>,
      root: Option<nat>)
    requires idle.None? <==> conns == map[]
    requires idle.Some? ==> exists fd: nat :: fd in conns && conns[fd].lastActive + timeout == idle.value
    requires idle.Some? ==> forall fd: nat :: fd in conns ==> idle.value <= conns[fd].lastActive + timeout
    requires root.None? ==> forall k :: k in st ==> st[k].due == None
    requires root.Some? ==> Timers.NoEarlier(st, root.value) && exists k :: k in st && st[k].due == root
    ensures Earliest(conns, timeout, st, Sooner(idle, root))
  {}

  /** An overdue key makes the timeout 0. */
  lemma {:induction false} OverdueTimeout(conns: map<nat, Conn>, timeout: nat, st: Store, next: Option<nat>, k: Bytes,
      now: nat)
    requires Earliest(conns, timeout, st, next) && k in st && Overdue(st[k], now) && now < TWO63
    ensures next.Some? && Timers.Timeout(next.value, now) == 0
  {
    assert IsDeadline(conns, timeout, st, st[k].due.value);
  }

  /** With a connection open and an idle timeout below 2^31 ms the poll timeout is always exact. */
  lemma {:induction false} TimeoutWithClient(conns: map<nat, Conn>, timeout: nat, st: Store, next: Option<nat>,
      now: nat)
    requires Earliest(conns, timeout, st, next) && conns != map[] && NoLater(conns, now)
    requires timeout < TWO31 && now < TWO63
    ensures next.Some? && Timers.Timeout(next.value, now) == if next.value <= now then 0 else next.value - now
  {
    var fd: nat :| fd in conns;
    assert IsDeadline(conns, timeout, st, conns[fd].lastActive + timeout);
    if now < next.value { Timers.TimeoutExact(next.value, now); }
  }

  ghost function ThirtyDays(): seq<Expiry.Event> {
    [Expiry.Command([1], Set([]), 0, 0), Expiry.Command([1], Expire(Some(2592000000), 1), 0, 0)]
  }

  /** SET and PEXPIRE of 30 days, and no connection left: the timeout for the only deadline comes out negative. */
  lemma {:induction false} SleepsThrough(timeout: nat)
    ensures Expiry.Runnable(ThirtyDays())
    ensures var (st, rs) := Expiry.RunCode(map[], ThirtyDays());
      && Expiry.Tracks(st, ThirtyDays(), rs, 0) && Earliest(map[], timeout, st, Some(2592000000))
      && Timers.Timeout(2592000000, 0) == -1702967296
  {
    var e1, e2 := ThirtyDays()[0], ThirtyDays()[1];
    Expiry.TracksMore(map[], [], [], 0, e1);
    var st1 := Expiry.StepCode(map[], e1).0;
    Expiry.TracksMore(st1, [] + [e1], [] + Expiry.StepCode(map[], e1).1, 0, e2);
    assert ([] + [e1]) + [e2] == ThirtyDays();
    var st := Expiry.RunCode(map[], ThirtyDays()).0;
    assert st == map[[1] := Rec(Str([]), Some(2592000000))];
    assert [1] in st;
    Timers.TimeoutWraps(0);
  }

  class Server {
    const db: Database
    const clients: Clients
    const lib: Lib
    ghost const doubles: Bytes -> int
    ghost var past: Past

    /** The parts, each in order and apart from the others. */
    ghost predicate Parts()
      reads this, db, db.dict, db.ttl, db.repr, clients, clients.ring
    {
      && this !in db.repr && clients !in db.repr && clients.ring !in db.repr && db.Valid() && clients.Valid()
      && Doubles(lib.dbls, doubles)
    }

    ghost predicate Valid()
      reads this, db, db.dict, db.ttl, db.repr, clients, clients.ring
    {
      && Parts() && clients.clock <= past.time < TWO63
      && Chronicle(lib, doubles, past.trace, db.st, past.time) && LogOk(clients.conns, past.log, past.trace)
    }

    constructor (hash: Bytes -> nat, hasPool: bool, lib: Lib, idleTimeout: nat, ghost doubles: Bytes -> int)
      requires idleTimeout < TWO63 && Doubles(lib.dbls, doubles)
      ensures Valid() && db.st == map[] && clients.conns == map[] && past == Past(0, map[], [])
      ensures this.lib == lib && this.doubles == doubles && clients.idleTimeout == idleTimeout
      ensures fresh({db, db.dict, db.ttl, clients, clients.ring} + db.repr)
    {
      db := new Database(hash, hasPool);
      clients := new Clients(idleTimeout);
      this.lib, this.doubles := lib, doubles;
      past := Past(0, map[], []);
      ChronicleStart(lib, doubles);
    }

    /** Over every run: the replies to the commands so far, on all connections together and with every reaper pass in
        between, are those of a store that forgets each key at its deadline. EventOf says which commands these are. */
    lemma {:induction false} AnswersIdeal()
      requires Valid()
      ensures AnswersIn(lib, past.trace) == Expiry.RunIdeal(map[], EventsIn(lib, past.trace)).1
    {
      assert Look(0);
      Expiry.HistoryInvisible(db.st, EventsIn(lib, past.trace), AnswersIn(lib, past.trace), past.time);
    }

    /** Over every run, for every client: its requests in the run are the frames of the bytes it has sent, in order and
        no others; what it has received is a prefix of their framed replies; and each of these is what the ideal store
        answers to that frame at that point of the run (a listing for KEYS, an error for a malformed body). */
    lemma {:induction false} SentInOrder(fd: nat)
      requires Valid() && fd in clients.conns
      ensures fd in past.log && ServedInOrder(lib, past.log[fd], past.trace, fd)
    {
      LogAt(clients.conns, past.log, past.trace, fd);
      var s, tr := past.log[fd], past.trace;
      var own := Own(tr, s.since, fd);
      forall i | 0 <= i < |own|
        ensures tr[own[i]].q.body == Framing.Drain(s.got).frames[i] && IdealReply(lib, tr[..own[i]], tr[own[i]].q)
      {
        assert Bodies(OwnServed(tr, s.since, fd))[i] == tr[own[i]].q.body;
        AnsweredRight(lib, doubles, tr, db.st, past.time, own[i], []);
      }
    }

    /** Over every run, for every client that has been sent everything: it prints exactly its replies if and only if
        each is at most 32 KiB long, and only KEYS and ZQUERY can be longer. */
    lemma {:induction false} ClientPrints(fd: nat)
      requires Valid() && fd in clients.conns && clients.conns[fd].outgoing == []
      ensures fd in past.log
      ensures var s := past.log[fd];
        var own := OwnServed(past.trace, s.since, fd);
        && (Client.ReceiveAll(s.sent, doubles) == Client.Whole(Replies(own)) <==> AllShort(own))
        && forall i :: 0 <= i < |own| && !AsksListing(lib, own[i]) ==> Client.Short(own[i].reply)
    {
      LogAt(clients.conns, past.log, past.trace, fd);
      assert past.log[fd].sent + [] == past.log[fd].sent;
      OwnPrinted(lib, doubles, past.trace, db.st, past.time, past.log[fd].since, fd);
    }

    /** accept_new */
    method Accept(fd: nat, now: nat)
      requires Valid() && fd !in clients.conns && past.time <= now < TWO63
      modifies this, clients, clients.ring
      ensures Valid() && past == Past(now, old(past.log)[fd := Session(|old(past.trace)|, [], [])], old(past.trace))
      ensures clients.conns == old(clients.conns)[fd := Conn(true, false, false, [], [], now)]
    {
      ghost var c, s := Conn(true, false, false, [], [], now), Session(|past.trace|, [], []);
      SessionStart(c, past.trace, fd);
      LogSet(clients.conns, past.log, past.trace, fd, c, s);
      ChronicleLater(lib, doubles, past.trace, db.st, past.time, now);
      clients.Accept(fd, now);
      past := Past(now, past.log[fd := s], past.trace);
    }

    /** Time passes. */
    ghost method Wait(t: nat)
      requires Valid() && past.time <= t < TWO63
      modifies this
      ensures Valid() && past == old(past).(time := t)
    {
      ChronicleLater(lib, doubles, past.trace, db.st, past.time, t);
      past := past.(time := t);
    }

    /** Any readiness counts as activity. */
    method Refresh(fd: nat, now: nat)
      requires Valid() && fd in clients.conns && past.time <= now < TWO63
      modifies this, clients, clients.ring
      ensures Valid() && past == old(past).(time := now)
      ensures clients.conns == old(clients.conns)[fd := old(clients.conns[fd]).(lastActive := now)]
    {
      LogAt(clients.conns, past.log, past.trace, fd);
      SessionTouched(clients.conns[fd], past.log[fd], past.trace, fd, now);
      LogSet(clients.conns, past.log, past.trace, fd, clients.conns[fd].(lastActive := now), past.log[fd]);
      assert past.log[fd := past.log[fd]] == past.log;
      Wait(now);
      clients.Touch(fd, now);
    }

    /** handle_read on the connection record c0 if it is readable. The run is written down by Settle. */
    method MaybeRead(c0: Conn, readable: bool, a: Arrival, clk: nat -> (nat, nat))
      returns (c: Conn, ghost qs: seq<Served>)
      requires Parts() && Below63(clk) && Quiet(c0)
      modifies db, db.dict, db.ttl, db.repr
      ensures Parts() && fresh(db.repr - old(db.repr)) && ServesAll(lib, qs, old(db.st), db.st) && Timed(qs, clk)
      ensures Heard(c0, Incoming(readable, a), c, qs)
      ensures c.wantClose == ((readable && a.Hangup?) || Framing.Drain(c0.incoming + Incoming(readable, a)).oversized)
    {
      if readable {
        c, qs := HandleRead(db, c0, a, lib, clk);
        assert clients.Valid();
      } else {
        c, qs := c0, [];
        assert c0.incoming + [] == c0.incoming && c0.outgoing + [] == c0.outgoing;
      }
    }

    /** The end of a readiness step: the connection is closed, or its record is stored. */
    method Settle(fd: nat, c: Conn, close: bool)
      requires Parts() && fd in clients.conns && c.lastActive == clients.conns[fd].lastActive
      modifies clients, clients.ring
      ensures Parts() && clients.clock == old(clients.clock)
      ensures clients.conns == if close then old(clients.conns) - {fd} else old(clients.conns)[fd := c]
    {
      if close { clients.Close(fd); } else { clients.Put(fd, c); }
    }

    /** Read, execute and write on the record c0 of a connection with session s. */
    method Exchange(fd: nat, c0: Conn, ghost s: Session, re: Events, a: Arrival, w: Sent, clk: nat -> (nat, nat))
      returns (c: Conn, ghost qs: seq<Served>, ghost out: Bytes)
      requires Parts() && Below63(clk) && SessionOk(c0, s, past.trace, fd)
      modifies db, db.dict, db.ttl, db.repr
      ensures Parts() && fresh(db.repr - old(db.repr)) && ServesAll(lib, qs, old(db.st), db.st) && Timed(qs, clk)
      ensures Bodies(qs) == Framing.Drain(c0.incoming + Incoming(re.pollIn, a)).frames
      ensures (c.wantClose || re.pollErr) == Dropped(c0, re, a, w, qs) && c.lastActive == c0.lastActive
      ensures c.incoming == Framing.Drain(c0.incoming + Incoming(re.pollIn, a)).rest
      ensures out + c.outgoing == c0.outgoing + Answer(qs)
      ensures |out| == Taken(re.pollOut, w, |c0.outgoing + Answer(qs)|)
      ensures !c.wantClose ==> SessionOk(c, Extend(s, Incoming(re.pollIn, a), out), past.trace + Tag(fd, qs), fd)
    {
      var c1;
      c1, qs := MaybeRead(c0, re.pollIn, a, clk);
      c, out := MaybeWrite(c1, re.pollOut, w);
      Exchanged(c0, s, past.trace, fd, re, a, w, c1, qs, c, out);
    }

    /** The part of a readiness step behind the refresh. */
    method Talk(fd: nat, re: Events, a: Arrival, w: Sent, clk: nat -> (nat, nat), now: nat, end: nat)
      returns (ghost qs: seq<Served>, ghost out: Bytes)
      requires Valid() && past.time == now && Ticks(clk, now, end) && fd in clients.conns
      modifies this, clients, clients.ring, db, db.dict, db.ttl, db.repr
      ensures Valid() && fresh(db.repr - old(db.repr)) && ServesAll(lib, qs, old(db.st), db.st) && Timed(qs, clk)
      ensures Bodies(qs) == Framing.Drain(old(clients.conns[fd]).incoming + Incoming(re.pollIn, a)).frames
      ensures Settled(old(clients.conns), fd, re, a, w, qs, out, old(past), end, clients.conns, past)
    {
      LogAt(clients.conns, past.log, past.trace, fd);
      var c;
      c, qs, out := Exchange(fd, clients.conns[fd], past.log[fd], re, a, w, clk);
      ghost var s := Extend(past.log[fd], Incoming(re.pollIn, a), out);
      var close := c.wantClose || re.pollErr;
      Recorded(lib, doubles, past.trace, fd, qs, old(db.st), db.st, clk, now, end,
        clients.conns[fd].incoming + Incoming(re.pollIn, a));
      LogSettled(clients.conns, past.log, past.trace, fd, qs, c, close, s);
      Settle(fd, c, close);
      past := Past(end, past.log[fd := s], past.trace + Tag(fd, qs));
    }

    /** One entry that poll reports: lines 218 to 234 of run. An entry whose connection has gone is skipped. */
    method Ready(fd: nat, re: Events, a: Arrival, w: Sent, clk: nat -> (nat, nat), now: nat, end: nat)
      returns (ghost qs: seq<Served>, ghost out: Bytes)
      requires Valid() && past.time <= now && Ticks(clk, now, end)
      modifies this, clients, clients.ring, db, db.dict, db.ttl, db.repr
      ensures Valid() && fresh(db.repr - old(db.repr)) && ServesAll(lib, qs, old(db.st), db.st) && Timed(qs, clk)
      ensures fd !in old(clients.conns) ==> qs == [] && clients.conns == old(clients.conns)
      ensures fd !in old(clients.conns) ==> past == old(past).(time := end)
      ensures fd in old(clients.conns) ==> var c := old(clients.conns[fd]).(lastActive := now);
        && Bodies(qs) == Framing.Drain(c.incoming + Incoming(re.pollIn, a)).frames
        && Settled(old(clients.conns)[fd := c], fd, re, a, w, qs, out, old(past), end, clients.conns, past)
    {
      if fd in clients.conns {
        Refresh(fd, now);
        qs, out := Talk(fd, re, a, w, clk, now, end);
      } else {
        qs, out := [], [];
        Wait(end);
      }
    }

    /** The first loop of process_timers: exactly the idle connections are closed. */
    method CloseIdle(now: nat)
      requires Valid() && past.time <= now < TWO63
      modifies clients, clients.ring
      ensures Valid()
      ensures forall fd: nat :: fd in clients.conns <==>
        fd in old(clients.conns) && !Idle(old(clients.conns[fd]), clients.idleTimeout, now)
      ensures forall fd: nat :: fd in clients.conns ==> clients.conns[fd] == old(clients.conns[fd])
    {
      clients.ReapIdle(now);
      LogFewer(old(clients.conns), clients.conns, past.log, past.trace);
    }

    /** Its second loop: due keys go in deadline order, and the pass is one entry of the run. */
    method ReapDue(now: nat) returns (ghost dead: seq<Bytes>)
      requires Valid() && past.time <= now < TWO63
      modifies this, db.dict, db.ttl, db`queued, db`freed, db`st, db`who
      ensures Valid() && past == Past(now, old(past.log), old(past.trace) + [Pass((set k | k in dead), now)])
      ensures Timers.Reaped(old(db.st), db.st, dead, now)
      ensures |dead| == 2000 || forall k :: k in db.st ==> !Overdue(db.st[k], now)
    {
      dead := Timers.ReapKeys(db, now);
      Timers.PassIsEvent(old(db.st), db.st, dead, now, past.time);
      ChroniclePass(lib, doubles, past.trace, old(db.st), past.time, (set k | k in dead), now);
      LogPass(clients.conns, past.log, past.trace, (set k | k in dead), now);
      past := Past(now, past.log, past.trace + [Pass((set k | k in dead), now)]);
    }

    /** process_timers */
    method ProcessTimers(now: nat) returns (ghost dead: seq<Bytes>)
      requires Valid() && past.time <= now < TWO63
      modifies this, clients, clients.ring, db.dict, db.ttl, db`queued, db`freed, db`st, db`who
      ensures Valid() && past == Past(now, old(past.log), old(past.trace) + [Pass((set k | k in dead), now)])
      ensures forall fd: nat :: fd in clients.conns <==>
        fd in old(clients.conns) && !Idle(old(clients.conns[fd]), clients.idleTimeout, now)
      ensures forall fd: nat :: fd in clients.conns ==> clients.conns[fd] == old(clients.conns[fd])
      ensures Timers.Reaped(old(db.st), db.st, dead, now)
      ensures |dead| == 2000 || forall k :: k in db.st ==> !Overdue(db.st[k], now)
    {
      CloseIdle(now);
      dead := ReapDue(now);
    }

    /** next_timer_ms: the poll timeout for the earliest of all connection and key deadlines, or -1. */
    method NextTimerMs(now: nat) returns (ms: int, ghost next: Option<nat>)
      requires Valid() && now < TWO63
      ensures Earliest(clients.conns, clients.idleTimeout, db.st, next)
      ensures ms == if next.None? then -1 else Timers.Timeout(next.value, now)
      ensures next.Some? ==> next.value < TWO64 - 1
    {
      var nextMs := TWO64 - 1;
      var idle := clients.NextIdle();
      if idle.Some? { nextMs := idle.value; }
      var root, key := Timers.NextDue(db);
      if root.Some? {
        DueFits(lib, doubles, past.trace, db.st, past.time, key);
        if root.value.val < nextMs { nextMs := root.value.val; }
      }
      ghost var due := if root.Some? then Some(root.value.val) else None;
      next := Sooner(idle, due);
      SoonerIsEarliest(clients.conns, clients.idleTimeout, db.st, idle, due);
      ms := Timers.Timeout(nextMs, now);
    }
  }

  /** What Talk writes down about the run. */
  lemma {:induction false} Recorded(lib: Lib, doubles: Bytes -> int, tr: seq<Deed>, fd: nat, qs: seq<Served>,
      st: Store, st': Store, clk: nat -> (nat, nat), now: nat, end: nat, stream: Bytes)
    requires Chronicle(lib, doubles, tr, st, now) && Doubles(lib.dbls, doubles) && ServesAll(lib, qs, st, st')
    requires Timed(qs, clk) && Ticks(clk, now, end) && Bodies(qs) == Framing.Drain(stream).frames
    ensures Chronicle(lib, doubles, tr + Tag(fd, qs), st', end)
  {
    Framing.DrainSound(stream);
    ChronicleServedAll(lib, doubles, tr, st, now, fd, qs, st', end);
  }

  lemma {:induction false} LogSettled(conns: map<nat, Conn>, log: map<nat, Session>, tr: seq<Deed>, fd: nat,
      qs: seq<Served>, c: Conn, close: bool, s: Session)
    requires LogOk(conns, log, tr) && (!close ==> SessionOk(c, s, tr + Tag(fd, qs), fd))
    ensures LogOk(if close then conns - {fd} else conns[fd := c], log[fd := s], tr + Tag(fd, qs))
  {
    LogServed(conns, log, tr, fd, qs);
    if close {
      LogForget(conns - {fd}, log, tr + Tag(fd, qs), fd, s);
    } else {
      LogSet(conns - {fd}, log, tr + Tag(fd, qs), fd, c, s);
      assert (conns - {fd})[fd := c] == conns[fd := c];
    }
  }

  lemma {:induction false} DueFits(lib: Lib, doubles: Bytes -> int, tr: seq<Deed>, st: Store, t: nat, k: Bytes)
    requires Chronicle(lib, doubles, tr, st, t) && t < TWO63 && k in st && st[k].due.Some?
    ensures st[k].due.value < TWO64 - 1
  {
    assert Look(0);
    assert KeyFits(st, k, t, doubles);
  }
}

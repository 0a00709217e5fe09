/** What a run of src/server/server.cpp comes to, connection by connection: the reference that whole iterations and runs
    are proved against. A connection is followed through the reports of poll, a run through its turns. */
module Lines {
  import opened Base
  import opened Store
  import opened Clients
  import opened Requests
  import opened History
  import opened Server
  import Codec
  import Framing

  /** One poll entry with something to report, and what the calls made for it return. */
  datatype Report = Report(fd: nat, re: Events, a: Arrival, w: Sent, clk: nat -> (nat, nat), now: nat, end: nat)

  /** One iteration: the reading for the poll timeout, whether the listener is ready and when, the entries in order, and
      the reading of the timer pass. */
  datatype Turn = Turn(polled: nat, accepts: bool, woken: nat, reports: seq<Report>, tick: nat)

  /** A report and the requests that were executed for it. */
  datatype Handled = Handled(r: Report, qs: seq<Served>)

  // ---- one connection ----

  /** What its client knows of a connection: the bytes sent to the server, the requests among them that were served, the
      bytes that came back, and when there last was something to report. */
  datatype Line = Line(got: Bytes, served: seq<Served>, sent: Bytes, seen: nat)

  datatype Course = Course(line: Line, open: bool)

  ghost function BytesIn(r: Report): Bytes { Incoming(r.re.pollIn, r.a) }

  /** How many bytes the socket has room for. */
  ghost function RoomIn(r: Report): nat { if r.re.pollOut && r.w.Took? then r.w.room else 0 }

  /** After a report: the new bytes are in, and the replies go out in order as far as the socket has room. */
  ghost function Hear(l: Line, h: Handled): Line {
    var served := l.served + h.qs;
    var all := Answer(served);
    var n := Min(|all|, |l.sent| + RoomIn(h.r));
    Line(l.got + BytesIn(h.r), served, all[..n], h.r.now)
  }

  /** The reasons to close: poll or a call reports an error, the peer is gone, or a header is oversized. */
  ghost predicate Closes(l: Line, h: Handled) {
    || Failed(h.r) || Framing.Drain(l.got + BytesIn(h.r)).oversized
    || (h.r.re.pollOut && h.r.w.Broken? && |l.sent| < |Answer(l.served + h.qs)|)
  }

  ghost predicate Failed(r: Report) { r.re.pollErr || (r.re.pollIn && r.a.Hangup?) }

  ghost function Step(k: Course, h: Handled, fd: nat): Course {
    if h.r.fd == fd && k.open then Course(Hear(k.line, h), !Closes(k.line, h)) else k
  }

  ghost function Follow(k: Course, hs: seq<Handled>, fd: nat): Course
    decreases |hs|
  {
    if hs == [] then k else Step(Follow(k, hs[..|hs| - 1], fd), hs[|hs| - 1], fd)
  }

  /** The timer pass closes what has been idle for too long. */
  ghost function Rest(k: Course, timeout: nat, tick: nat): Course {
    Course(k.line, k.open && tick < k.line.seen + timeout)
  }

  lemma {:induction false} FollowMore(k: Course, hs: seq<Handled>, h: Handled, fd: nat)
    ensures Follow(k, hs + [h], fd) == Step(Follow(k, hs, fd), h, fd)
  {
    assert (hs + [h])[..|hs|] == hs;
  }

  /** The bytes that reports bring in on fd, and the room they find in its socket. */
  ghost function Delivered(hs: seq<Handled>, fd: nat): Bytes
    decreases |hs|
  {
    if hs == [] then [] else
    var h := hs[|hs| - 1];
    Delivered(hs[..|hs| - 1], fd) + if h.r.fd == fd then BytesIn(h.r) else []
  }

  ghost function Rooms(hs: seq<Handled>, fd: nat): nat
    decreases |hs|
  {
    if hs == [] then 0 else
    var h := hs[|hs| - 1];
    Rooms(hs[..|hs| - 1], fd) + if h.r.fd == fd then RoomIn(h.r) else 0
  }

  /** Bytes are used in the order of their arrival, and while the connection is open none is left out. */
  lemma {:induction false} FollowGot(k: Course, hs: seq<Handled>, fd: nat)
    ensures var k' := Follow(k, hs, fd);
      && k'.line.got <= k.line.got + Delivered(hs, fd) && (k'.open ==> k.open)
      && (k'.open ==> k'.line.got == k.line.got + Delivered(hs, fd))
    decreases |hs|
  {
    if hs == [] {
      assert k.line.got + [] == k.line.got;
    } else {
      var n := |hs| - 1;
      FollowGot(k, hs[..n], fd);
      Codec.Reassociate(k.line.got, Delivered(hs[..n], fd), if hs[n].r.fd == fd then BytesIn(hs[n].r) else []);
    }
  }

  lemma {:induction false} HearSent(l: Line, h: Handled)
    requires l.sent <= Answer(l.served)
    ensures var l' := Hear(l, h);
      && l'.sent <= Answer(l'.served) && Answer(l.served) <= Answer(l'.served)
      && |l'.sent| == Min(|Answer(l'.served)|, |l.sent| + RoomIn(h.r))
  {
    AnswerConcat(l.served, h.qs);
  }

  /** Replies queued before the reports are out after them as far as the socket had room: nothing is held back. */
  lemma {:induction false} FollowSent(k: Course, hs: seq<Handled>, fd: nat)
    requires Follow(k, hs, fd).open && k.line.sent <= Answer(k.line.served)
    ensures var l := Follow(k, hs, fd).line;
      && l.sent <= Answer(l.served) && Answer(k.line.served) <= Answer(l.served)
      && |l.sent| >= Min(|Answer(k.line.served)|, |k.line.sent| + Rooms(hs, fd))
    decreases |hs|
  {
    if hs != [] {
      var n := |hs| - 1;
      FollowSent(k, hs[..n], fd);
      HearSent(Follow(k, hs[..n], fd).line, hs[n]);
    }
  }

  /** Something happened to a connection that has ended. */
  lemma {:induction false} WhyClosed(k: Course, hs: seq<Handled>, fd: nat)
    requires k.open && !Follow(k, hs, fd).open
    ensures || Framing.Drain(Follow(k, hs, fd).line.got).oversized
      || exists i :: 0 <= i < |hs| && hs[i].r.fd == fd && (Failed(hs[i].r) || (hs[i].r.re.pollOut && hs[i].r.w.Broken?))
    decreases |hs|
  {
    var n := |hs| - 1;
    if !Follow(k, hs[..n], fd).open { WhyClosed(k, hs[..n], fd); }
  }

  /** A report empties a connection's buffer if and only if the socket has room for all that waits, the replies to its
      own requests included. Then the server goes on reading, and otherwise it reads no more until it is empty. */
  lemma {:induction false} AllSent(conns: map<nat, Conn>, h: Handled, out: Bytes, before: Past,
      conns': map<nat, Conn>, after: Past)
    requires var r := h.r;
      r.fd in conns && Settled(conns, r.fd, r.re, r.a, r.w, h.qs, out, before, r.end, conns', after)
    requires h.r.fd in conns' && LogOk(conns', after.log, after.trace)
    ensures var c := conns'[h.r.fd];
      && (c.outgoing == [] <==> |conns[h.r.fd].outgoing| + |Answer(h.qs)| <= RoomIn(h.r))
      && (c.wantRead <==> c.outgoing == []) && (c.wantWrite <==> c.outgoing != [])
  {
    LogAt(conns', after.log, after.trace, h.r.fd);
  }

  // ---- a connection's line in the state of the server ----

  ghost function LineOf(c: Conn, s: Session, tr: seq<Deed>, fd: nat): Line {
    Line(s.got, OwnServed(tr, s.since, fd), s.sent, c.lastActive)
  }

  /** The server's records of fd say course k: the session holds the bytes got and sent, the run the requests served,
      which are the frames of the bytes got, and the connection is there as long as the course is open. */
  ghost predicate Tallied(k: Course, since: nat, fd: nat, conns: map<nat, Conn>, log: map<nat, Session>,
      tr: seq<Deed>) {
    && since <= |tr| && fd in log && log[fd] == Session(since, k.line.got, k.line.sent)
    && k.line.served == OwnServed(tr, since, fd) && Bodies(k.line.served) == Framing.Drain(k.line.got).frames
    && k.line.sent <= Answer(k.line.served)
    && (k.open <==> fd in conns) && (fd in conns ==> conns[fd].lastActive == k.line.seen)
  }

  lemma {:induction false} TalliedStart(fd: nat, conns: map<nat, Conn>, log: map<nat, Session>, tr: seq<Deed>)
    requires LogOk(conns, log, tr) && fd in conns
    ensures fd in log && Tallied(Course(LineOf(conns[fd], log[fd], tr, fd), true), log[fd].since, fd, conns, log, tr)
  {
    LogAt(conns, log, tr, fd);
  }

  /** What a session's buffers say is what its line says. */
  lemma {:induction false} SameCloses(c: Conn, s: Session, tr: seq<Deed>, fd: nat, h: Handled)
    requires SessionOk(c, s, tr, fd)
    ensures Closes(LineOf(c, s, tr, fd), h) == Dropped(c, h.r.re, h.r.a, h.r.w, h.qs)
  {
    var own := OwnServed(tr, s.since, fd);
    Framing.DrainMore(s.got, BytesIn(h.r));
    AnswerConcat(own, h.qs);
  }

  lemma {:induction false} SameWaiting(c: Conn, s: Session, tr: seq<Deed>, fd: nat, h: Handled, out: Bytes)
    requires SessionOk(c, s, tr, fd) && out <= c.outgoing + Answer(h.qs)
    requires |out| == Taken(h.r.re.pollOut, h.r.w, |c.outgoing + Answer(h.qs)|)
    ensures var l := LineOf(c, s, tr, fd);
      && Closes(l, h) == Dropped(c, h.r.re, h.r.a, h.r.w, h.qs)
      && Hear(l, h).got == s.got + BytesIn(h.r) && Hear(l, h).sent == s.sent + out
      && |s.sent| + |out| <= |Answer(l.served + h.qs)|
  {
    var own := OwnServed(tr, s.since, fd);
    SameCloses(c, s, tr, fd, h);
    AnswerConcat(own, h.qs);
    Codec.Reassociate(s.sent, c.outgoing, Answer(h.qs));
    PrefixJoin(s.sent, c.outgoing + Answer(h.qs), out);
  }

  lemma {:induction false} PrefixJoin(a: Bytes, b: Bytes, out: Bytes)
    requires out <= b
    ensures (a + b)[..|a| + |out|] == a + out && (|a| < |a + b| <==> b != [])
  {}

  /** What waits in the buffer of a connection are the replies not yet sent. */
  lemma {:induction false} WaitingIs(fd: nat, conns: map<nat, Conn>, log: map<nat, Session>, tr: seq<Deed>)
    requires LogOk(conns, log, tr) && fd in conns
    ensures fd in log
    ensures var l := LineOf(conns[fd], log[fd], tr, fd);
      l.sent + conns[fd].outgoing == Answer(l.served) && (l.sent == Answer(l.served) <==> conns[fd].outgoing == [])
  {
    LogAt(conns, log, tr, fd);
    var l, out := LineOf(conns[fd], log[fd], tr, fd), conns[fd].outgoing;
    if out == [] { assert l.sent + out == l.sent; }
  }

  /** The frames of a longer stream: none is lost where the old bytes end and the new ones begin. */
  lemma {:induction false} SameFrames(c: Conn, s: Session, tr: seq<Deed>, fd: nat, h: Handled)
    requires SessionOk(c, s, tr, fd) && Bodies(h.qs) == Framing.Drain(c.incoming + BytesIn(h.r)).frames
    ensures Bodies(OwnServed(tr, s.since, fd) + h.qs) == Framing.Drain(s.got + BytesIn(h.r)).frames
  {
    Framing.DrainMore(s.got, BytesIn(h.r));
    BodiesConcat(OwnServed(tr, s.since, fd), h.qs);
  }

  /** A report on an open connection. */
  lemma {:induction false} TalliedOwn(k: Course, since: nat, h: Handled, conns: map<nat, Conn>, before: Past,
      out: Bytes, conns': map<nat, Conn>, after: Past)
    requires h.r.fd in conns && Tallied(k, since, h.r.fd, conns, before.log, before.trace)
    requires LogOk(conns, before.log, before.trace)
    requires var c := conns[h.r.fd].(lastActive := h.r.now);
      && Bodies(h.qs) == Framing.Drain(c.incoming + BytesIn(h.r)).frames
      && Settled(conns[h.r.fd := c], h.r.fd, h.r.re, h.r.a, h.r.w, h.qs, out, before, h.r.end, conns', after)
    ensures Tallied(Step(k, h, h.r.fd), since, h.r.fd, conns', after.log, after.trace)
  {
    var fd, tr := h.r.fd, before.trace;
    var c, s := conns[fd], before.log[fd];
    LogAt(conns, before.log, tr, fd);
    OwnTagged(tr, since, fd, fd, h.qs);
    SameWaiting(c, s, tr, fd, h, out);
    SameFrames(c, s, tr, fd, h);
    assert k.line == LineOf(c, s, tr, fd);
  }

  /** A report on another connection, or on one that has ended. */
  lemma {:induction false} TalliedOther(k: Course, since: nat, h: Handled, fd: nat, conns: map<nat, Conn>, before: Past,
      conns': map<nat, Conn>, after: Past)
    requires Tallied(k, since, fd, conns, before.log, before.trace) && (h.r.fd == fd ==> fd !in conns && h.qs == [])
    requires after.trace == before.trace + Tag(h.r.fd, h.qs) && (fd in conns <==> fd in conns')
    requires fd in conns ==> conns'[fd] == conns[fd]
    requires fd in before.log ==> fd in after.log && after.log[fd] == before.log[fd]
    ensures Tallied(Step(k, h, fd), since, fd, conns', after.log, after.trace)
  {
    OwnTagged(before.trace, since, fd, h.r.fd, h.qs);
    var own := OwnServed(before.trace, since, fd);
    assert own + [] == own;
  }

  // ---- all connections over a list of reports ----

  /** The entries that reports add to the run. */
  ghost function Entries(hs: seq<Handled>): seq<Deed>
    decreases |hs|
  {
    if hs == [] then [] else
    var n := |hs| - 1;
    Entries(hs[..n]) + Tag(hs[n].r.fd, hs[n].qs)
  }

  lemma {:induction false} EntriesMore(tr: seq<Deed>, hs: seq<Handled>, h: Handled)
    ensures tr + Entries(hs + [h]) == (tr + Entries(hs)) + Tag(h.r.fd, h.qs)
  {
    assert (hs + [h])[..|hs|] == hs;
    Codec.Reassociate(tr, Entries(hs), Tag(h.r.fd, h.qs));
  }

  /** Nothing of fd is in the run from place n on. */
  ghost predicate Silent(tr: seq<Deed>, n: nat, fd: nat) { OwnServed(tr, n, fd) == [] }

  lemma {:induction false} NotSilent(tr: seq<Deed>, n: nat, p: nat)
    requires n <= p < |tr| && tr[p].Request?
    ensures !Silent(tr, n, tr[p].fd)
  {
    assert p in Own(tr, n, tr[p].fd);
  }

  /** Every open connection has taken the course of its line; no other has appeared or done anything. Unfolded by
      Look. */
  ghost predicate Followed(hs: seq<Handled>, conns: map<nat, Conn>, log: map<nat, Session>, tr: seq<Deed>,
      conns': map<nat, Conn>, log': map<nat, Session>, tr': seq<Deed>) {
    forall z {:trigger Look(z)} :: Look(z) ==>
      && (forall fd: nat | fd in conns :: FollowedOn(hs, fd, conns, log, tr, conns', log', tr'))
      && forall fd: nat | fd !in conns :: fd !in conns' && Silent(tr', |tr|, fd)
  }

  ghost predicate FollowedOn(hs: seq<Handled>, fd: nat, conns: map<nat, Conn>, log: map<nat, Session>, tr: seq<Deed>,
      conns': map<nat, Conn>, log': map<nat, Session>, tr': seq<Deed>)
    requires fd in conns
  {
    && fd in log
    && var k := Course(LineOf(conns[fd], log[fd], tr, fd), true);
       Tallied(Follow(k, hs, fd), log[fd].since, fd, conns', log', tr')
  }

  lemma {:induction false} FollowedStart(conns: map<nat, Conn>, log: map<nat, Session>, tr: seq<Deed>)
    requires LogOk(conns, log, tr)
    ensures Followed([], conns, log, tr, conns, log, tr)
  {
    forall fd: nat | fd in conns ensures FollowedOn([], fd, conns, log, tr, conns, log, tr) {
      TalliedStart(fd, conns, log, tr);
    }
  }

  /** What Ready says about one report. */
  ghost predicate Reported(h: Handled, conns: map<nat, Conn>, before: Past, out: Bytes, conns': map<nat, Conn>,
      after: Past) {
    if h.r.fd in conns then
      var c := conns[h.r.fd].(lastActive := h.r.now);
      && Bodies(h.qs) == Framing.Drain(c.incoming + BytesIn(h.r)).frames
      && Settled(conns[h.r.fd := c], h.r.fd, h.r.re, h.r.a, h.r.w, h.qs, out, before, h.r.end, conns', after)
    else h.qs == [] && conns' == conns && after == before.(time := h.r.end)
  }

  lemma {:induction false} ReportedTrace(h: Handled, conns: map<nat, Conn>, before: Past, out: Bytes,
      conns': map<nat, Conn>, after: Past)
    requires Reported(h, conns, before, out, conns', after)
    ensures after.trace == before.trace + Tag(h.r.fd, h.qs)
    ensures forall fd: nat | fd != h.r.fd ::
      (fd in conns <==> fd in conns') && (fd in conns ==> conns'[fd] == conns[fd])
    ensures forall fd: nat | fd != h.r.fd && fd in before.log :: fd in after.log && after.log[fd] == before.log[fd]
  {
    assert before.trace + [] == before.trace;
  }

  lemma {:induction false} FollowedOnStep(hs: seq<Handled>, h: Handled, fd: nat, conns0: map<nat, Conn>,
      log0: map<nat, Session>, tr0: seq<Deed>, conns: map<nat, Conn>, before: Past, out: Bytes, conns': map<nat, Conn>,
      after: Past)
    requires fd in conns0 && FollowedOn(hs, fd, conns0, log0, tr0, conns, before.log, before.trace)
    requires LogOk(conns, before.log, before.trace) && Reported(h, conns, before, out, conns', after)
    ensures FollowedOn(hs + [h], fd, conns0, log0, tr0, conns', after.log, after.trace)
  {
    var k0 := Course(LineOf(conns0[fd], log0[fd], tr0, fd), true);
    FollowMore(k0, hs, h, fd);
    var k, since := Follow(k0, hs, fd), log0[fd].since;
    if h.r.fd == fd && fd in conns {
      TalliedOwn(k, since, h, conns, before, out, conns', after);
    } else {
      ReportedTrace(h, conns, before, out, conns', after);
      TalliedOther(k, since, h, fd, conns, before, conns', after);
    }
  }

  lemma {:induction false} FollowedStep(hs: seq<Handled>, h: Handled, conns0: map<nat, Conn>, log0: map<nat, Session>,
      tr0: seq<Deed>, conns: map<nat, Conn>, before: Past, out: Bytes, conns': map<nat, Conn>, after: Past)
    requires Followed(hs, conns0, log0, tr0, conns, before.log, before.trace) && |tr0| <= |before.trace|
    requires LogOk(conns, before.log, before.trace) && Reported(h, conns, before, out, conns', after)
    ensures Followed(hs + [h], conns0, log0, tr0, conns', after.log, after.trace)
  {
    assert Look(0);
    forall fd: nat | fd in conns0
      ensures FollowedOn(hs + [h], fd, conns0, log0, tr0, conns', after.log, after.trace)
    {
      FollowedOnStep(hs, h, fd, conns0, log0, tr0, conns, before, out, conns', after);
    }
    ReportedTrace(h, conns, before, out, conns', after);
    forall fd: nat | fd !in conns0 ensures fd !in conns' && Silent(after.trace, |tr0|, fd) {
      assert fd !in conns && Silent(before.trace, |tr0|, fd);
      OwnTagged(before.trace, |tr0|, fd, h.r.fd, h.qs);
    }
  }

  // ---- whole turns ----

  /** Accepting: at most one new connection a turn, on a descriptor that is not open. */
  ghost function Opened(conns: map<nat, Conn>, turn: Turn, open: set<nat> -> nat): map<nat, Conn> {
    if turn.accepts then conns[open(conns.Keys) := Conn(true, false, false, [], [], turn.woken)] else conns
  }

  ghost function OpenedLog(conns: map<nat, Conn>, log: map<nat, Session>, n: nat, turn: Turn, open: set<nat> -> nat):
      map<nat, Session> {
    if turn.accepts then log[open(conns.Keys) := Session(n, [], [])] else log
  }

  /** What was done in a turn: its reports with the requests executed for each, and the keys that the timer pass
      removed. */
  datatype Done = Done(turn: Turn, hs: seq<Handled>, dead: seq<Bytes>)

  /** Exactly the reports of the turn were handled, and each request read the clock of its report. */
  ghost predicate Handles(hs: seq<Handled>, rs: seq<Report>) {
    |hs| == |rs| && forall i :: 0 <= i < |hs| ==> hs[i].r == rs[i] && Timed(hs[i].qs, rs[i].clk)
  }

  ghost function PassOf(d: Done): Deed { Pass((set k | k in d.dead), d.turn.tick) }

  /** Over a turn, from the state behind its accept: the courses of the reports, then the idle are closed. */
  ghost predicate Carried(d: Done, timeout: nat, conns: map<nat, Conn>, log: map<nat, Session>, tr: seq<Deed>,
      conns': map<nat, Conn>, log': map<nat, Session>, tr': seq<Deed>) {
    && (forall fd: nat | fd in conns :: CarriedOn(d, timeout, fd, conns, log, tr, conns', log', tr'))
    && forall fd: nat | fd !in conns :: fd !in conns' && Silent(tr', |tr|, fd)
  }

  ghost predicate CarriedOn(d: Done, timeout: nat, fd: nat, conns: map<nat, Conn>, log: map<nat, Session>,
      tr: seq<Deed>, conns': map<nat, Conn>, log': map<nat, Session>, tr': seq<Deed>)
    requires fd in conns
  {
    && fd in log
    && var k := Course(LineOf(conns[fd], log[fd], tr, fd), true);
       Tallied(Rest(Follow(k, d.hs, fd), timeout, d.turn.tick), log[fd].since, fd, conns', log', tr')
  }

  /** The timer pass behind the reports. */
  lemma {:induction false} CarriedOver(d: Done, timeout: nat, conns: map<nat, Conn>, log: map<nat, Session>,
      tr: seq<Deed>, conns1: map<nat, Conn>, log1: map<nat, Session>, tr1: seq<Deed>, conns2: map<nat, Conn>)
    requires Followed(d.hs, conns, log, tr, conns1, log1, tr1) && |tr| <= |tr1|
    requires forall fd: nat :: fd in conns2 <==> fd in conns1 && !Idle(conns1[fd], timeout, d.turn.tick)
    requires forall fd: nat :: fd in conns2 ==> conns2[fd] == conns1[fd]
    ensures Carried(d, timeout, conns, log, tr, conns2, log1, tr1 + [PassOf(d)])
  {
    assert Look(0);
    var tr2 := tr1 + [PassOf(d)];
    forall fd: nat | fd in conns ensures CarriedOn(d, timeout, fd, conns, log, tr, conns2, log1, tr2) {
      assert FollowedOn(d.hs, fd, conns, log, tr, conns1, log1, tr1);
      OwnMore(tr1, log[fd].since, fd, PassOf(d));
      var own := OwnServed(tr1, log[fd].since, fd);
      assert own + [] == own;
    }
    forall fd: nat | fd !in conns ensures fd !in conns2 && Silent(tr2, |tr|, fd) {
      assert Silent(tr1, |tr|, fd);
      OwnMore(tr1, |tr|, fd, PassOf(d));
    }
  }

  // ---- whole runs ----

  /** The run that these turns make: for each the requests of its reports, then its timer pass. */
  ghost function Script(ds: seq<Done>): seq<Deed>
    decreases |ds|
  {
    if ds == [] then [] else
    var n := |ds| - 1;
    Script(ds[..n]) + Entries(ds[n].hs) + [PassOf(ds[n])]
  }

  /** One connection from its accept in turn born on, between two places in the run; until its end or so far. */
  datatype Life = Life(fd: nat, born: nat, since: nat, course: Course, until: nat)

  ghost function Birth(fd: nat, born: nat, n: nat, woken: nat): Life {
    Life(fd, born, n, Course(Line([], [], [], woken), true), n)
  }

  ghost function OpenFds(ls: seq<Life>): set<nat> { set i | 0 <= i < |ls| && ls[i].course.open :: ls[i].fd }

  ghost function Births(ls: seq<Life>, turn: Turn, born: nat, n: nat, open: set<nat> -> nat): seq<Life> {
    if turn.accepts then ls + [Birth(open(OpenFds(ls)), born, n, turn.woken)] else ls
  }

  ghost function Onward(l: Life, d: Done, timeout: nat, until: nat): Life {
    if l.course.open then l.(course := Rest(Follow(l.course, d.hs, l.fd), timeout, d.turn.tick), until := until) else l
  }

  ghost function AllOnward(ls: seq<Life>, d: Done, timeout: nat, until: nat): seq<Life> {
    seq(|ls|, i requires 0 <= i < |ls| => Onward(ls[i], d, timeout, until))
  }

  /** Every connection that there has been, in the order of acceptance. */
  ghost function Lives(ds: seq<Done>, open: nat -> set<nat> -> nat, timeout: nat): seq<Life>
    decreases |ds|
  {
    if ds == [] then [] else
    var n := |ds| - 1;
    var ls := Births(Lives(ds[..n], open, timeout), ds[n].turn, n, |Script(ds[..n])|, open(n));
    AllOnward(ls, ds[n], timeout, |Script(ds)|)
  }

  /** The state of the server says life l: its requests in the run are the frames of the bytes it got, and while it is
      open the server's records are those of its course. */
  ghost predicate Lived(l: Life, conns: map<nat, Conn>, log: map<nat, Session>, tr: seq<Deed>) {
    && l.since <= l.until <= |tr| && l.course.line.served == OwnServed(tr[..l.until], l.since, l.fd)
    && Bodies(l.course.line.served) == Framing.Drain(l.course.line.got).frames
    && l.course.line.sent <= Answer(l.course.line.served)
    && (l.course.open ==> l.until == |tr| && Tallied(l.course, l.since, l.fd, conns, log, tr))
  }

  /** A descriptor belongs to one connection at a time. */
  ghost predicate OneByOne(ls: seq<Life>) {
    forall i, j :: 0 <= i < j < |ls| && ls[i].fd == ls[j].fd ==> !ls[i].course.open && ls[i].until <= ls[j].since
  }

  ghost predicate IsOpen(ls: seq<Life>, fd: nat) {
    exists i :: 0 <= i < |ls| && ls[i].course.open && ls[i].fd == fd
  }

  /** Entry p of the run is a request of one of the connections. */
  ghost predicate Owned(ls: seq<Life>, fd: nat, p: nat) {
    exists i :: 0 <= i < |ls| && ls[i].fd == fd && ls[i].since <= p < ls[i].until
  }

  /** The connections of the server and the requests of its run are those of the lives, and no others. */
  ghost predicate Matches(ls: seq<Life>, conns: map<nat, Conn>, log: map<nat, Session>, tr: seq<Deed>) {
    && (forall i :: 0 <= i < |ls| ==> Lived(ls[i], conns, log, tr)) && OneByOne(ls)
    && (forall fd: nat | fd in conns :: IsOpen(ls, fd))
    && (forall p | 0 <= p < |tr| && tr[p].Request? :: Owned(ls, tr[p].fd, p))
  }

  lemma {:induction false} OpenAre(ls: seq<Life>, conns: map<nat, Conn>, log: map<nat, Session>, tr: seq<Deed>)
    requires Matches(ls, conns, log, tr)
    ensures OpenFds(ls) == conns.Keys
  {
    forall fd: nat ensures fd in OpenFds(ls) <==> fd in conns {
      if fd in conns {
        assert IsOpen(ls, fd);
      }
      if fd in OpenFds(ls) {
        var i :| 0 <= i < |ls| && ls[i].course.open && ls[i].fd == fd;
        assert Lived(ls[i], conns, log, tr);
      }
    }
  }

  lemma {:induction false} LivedKept(l: Life, conns: map<nat, Conn>, log: map<nat, Session>, tr: seq<Deed>, fd: nat,
      c: Conn, s: Session)
    requires Lived(l, conns, log, tr) && fd !in conns
    ensures Lived(l, conns[fd := c], log[fd := s], tr) && (l.course.open ==> l.fd != fd)
  {}

  lemma {:induction false} LivedBirth(conns: map<nat, Conn>, log: map<nat, Session>, tr: seq<Deed>, fd: nat, born: nat,
      woken: nat)
    requires fd in conns && conns[fd].lastActive == woken && fd in log && log[fd] == Session(|tr|, [], [])
    ensures Lived(Birth(fd, born, |tr|, woken), conns, log, tr)
  {
    assert tr[..|tr|] == tr;
  }

  /** One more life leaves the others what they are. */
  lemma {:induction false} OneMore(ls: seq<Life>, l: Life)
    ensures forall f: nat :: IsOpen(ls, f) ==> IsOpen(ls + [l], f)
    ensures l.course.open ==> IsOpen(ls + [l], l.fd)
    ensures forall f: nat, p: nat :: Owned(ls, f, p) ==> Owned(ls + [l], f, p)
  {
    var ls' := ls + [l];
    assert ls'[|ls|] == l;
    forall f: nat | IsOpen(ls, f) ensures IsOpen(ls', f) {
      var i :| 0 <= i < |ls| && ls[i].course.open && ls[i].fd == f;
      assert ls'[i] == ls[i];
    }
    forall f: nat, p: nat | Owned(ls, f, p) ensures Owned(ls', f, p) {
      var i :| 0 <= i < |ls| && ls[i].fd == f && ls[i].since <= p < ls[i].until;
      assert ls'[i] == ls[i];
    }
  }

  lemma {:induction false} NewOneByOne(ls: seq<Life>, l: Life)
    requires OneByOne(ls)
    requires forall i :: 0 <= i < |ls| && ls[i].fd == l.fd ==> !ls[i].course.open && ls[i].until <= l.since
    ensures OneByOne(ls + [l])
  {}

  lemma {:induction false} NewLived(ls: seq<Life>, conns: map<nat, Conn>, log: map<nat, Session>, tr: seq<Deed>,
      fd: nat, c: Conn, born: nat, i: nat)
    requires (i < |ls| ==> Lived(ls[i], conns, log, tr)) && i <= |ls| && fd !in conns
    ensures var ls' := ls + [Birth(fd, born, |tr|, c.lastActive)];
      Lived(ls'[i], conns[fd := c], log[fd := Session(|tr|, [], [])], tr)
    ensures i < |ls| && ls[i].fd == fd ==> !ls[i].course.open && ls[i].until <= |tr|
  {
    if i < |ls| {
      LivedKept(ls[i], conns, log, tr, fd, c, Session(|tr|, [], []));
    } else {
      LivedBirth(conns[fd := c], log[fd := Session(|tr|, [], [])], tr, fd, born, c.lastActive);
    }
  }

  lemma {:induction false} MatchesNew(ls: seq<Life>, conns: map<nat, Conn>, log: map<nat, Session>, tr: seq<Deed>,
      fd: nat, c: Conn, born: nat)
    requires Matches(ls, conns, log, tr) && fd !in conns
    ensures Matches(ls + [Birth(fd, born, |tr|, c.lastActive)], conns[fd := c], log[fd := Session(|tr|, [], [])], tr)
  {
    var l, conns', log' := Birth(fd, born, |tr|, c.lastActive), conns[fd := c], log[fd := Session(|tr|, [], [])];
    var ls' := ls + [l];
    forall i | 0 <= i < |ls'|
      ensures Lived(ls'[i], conns', log', tr)
      ensures i < |ls| && ls[i].fd == fd ==> !ls[i].course.open && ls[i].until <= |tr|
    {
      NewLived(ls, conns, log, tr, fd, c, born, i);
    }
    NewOneByOne(ls, l);
    OneMore(ls, l);
    forall f: nat | f in conns' ensures IsOpen(ls', f) { assert f != fd ==> IsOpen(ls, f); }
  }

  /** accept_new adds one life. */
  lemma {:induction false} MatchesBirth(ls: seq<Life>, conns: map<nat, Conn>, log: map<nat, Session>, tr: seq<Deed>,
      turn: Turn, born: nat, open: set<nat> -> nat)
    requires Matches(ls, conns, log, tr) && open(conns.Keys) !in conns
    ensures Matches(Births(ls, turn, born, |tr|, open), Opened(conns, turn, open),
      OpenedLog(conns, log, |tr|, turn, open), tr)
  {
    OpenAre(ls, conns, log, tr);
    if turn.accepts {
      MatchesNew(ls, conns, log, tr, open(conns.Keys), Conn(true, false, false, [], [], turn.woken), born);
    }
  }

  /** One life over the rest of a turn. */
  lemma {:induction false} LivedOn(l: Life, d: Done, timeout: nat, conns: map<nat, Conn>, log: map<nat, Session>,
      tr: seq<Deed>, conns': map<nat, Conn>, log': map<nat, Session>, tr': seq<Deed>)
    requires Lived(l, conns, log, tr) && Carried(d, timeout, conns, log, tr, conns', log', tr') && tr <= tr'
    ensures var l' := Onward(l, d, timeout, |tr'|);
      && Lived(l', conns', log', tr') && l'.fd == l.fd && l'.since == l.since && l.until <= l'.until
      && (l'.course.open <==> l.course.open && l.fd in conns')
  {
    if l.course.open {
      assert CarriedOn(d, timeout, l.fd, conns, log, tr, conns', log', tr');
      assert l.course.line == LineOf(conns[l.fd], log[l.fd], tr, l.fd);
      assert l.course == Course(l.course.line, true) && tr'[..|tr'|] == tr';
    } else {
      assert tr'[..l.until] == tr[..l.until];
    }
  }

  /** A new entry of the run is a request of a connection that was open. */
  lemma {:induction false} NewOwned(ls: seq<Life>, d: Done, timeout: nat, conns: map<nat, Conn>,
      log: map<nat, Session>, tr: seq<Deed>, conns': map<nat, Conn>, log': map<nat, Session>, tr': seq<Deed>, p: nat)
    requires Matches(ls, conns, log, tr) && Carried(d, timeout, conns, log, tr, conns', log', tr') && tr <= tr'
    requires |tr| <= p < |tr'| && tr'[p].Request?
    ensures Owned(AllOnward(ls, d, timeout, |tr'|), tr'[p].fd, p)
  {
    var fd := tr'[p].fd;
    NotSilent(tr', |tr|, p);
    assert fd in conns;
    assert IsOpen(ls, fd);
    var i :| 0 <= i < |ls| && ls[i].course.open && ls[i].fd == fd;
    assert Lived(ls[i], conns, log, tr);
    var l' := AllOnward(ls, d, timeout, |tr'|)[i];
    assert l'.fd == fd && l'.since <= p < l'.until;
  }

  lemma {:induction false} MatchesOn(ls: seq<Life>, d: Done, timeout: nat, conns: map<nat, Conn>,
      log: map<nat, Session>, tr: seq<Deed>, conns': map<nat, Conn>, log': map<nat, Session>, tr': seq<Deed>)
    requires Matches(ls, conns, log, tr) && Carried(d, timeout, conns, log, tr, conns', log', tr') && tr <= tr'
    ensures Matches(AllOnward(ls, d, timeout, |tr'|), conns', log', tr')
  {
    var ls' := AllOnward(ls, d, timeout, |tr'|);
    forall i | 0 <= i < |ls'|
      ensures Lived(ls'[i], conns', log', tr') && ls'[i].fd == ls[i].fd && ls'[i].since == ls[i].since
      ensures ls[i].until <= ls'[i].until && (ls'[i].course.open <==> ls[i].course.open && ls[i].fd in conns')
    {
      assert Lived(ls[i], conns, log, tr);
      LivedOn(ls[i], d, timeout, conns, log, tr, conns', log', tr');
    }
    forall fd: nat | fd in conns' ensures IsOpen(ls', fd) {
      assert IsOpen(ls, fd);
      var i :| 0 <= i < |ls| && ls[i].course.open && ls[i].fd == fd;
      assert ls'[i].course.open && ls'[i].fd == fd;
    }
    forall p | 0 <= p < |tr'| && tr'[p].Request? ensures Owned(ls', tr'[p].fd, p) {
      if p < |tr| {
        assert Owned(ls, tr[p].fd, p);
        var i :| 0 <= i < |ls| && ls[i].fd == tr[p].fd && ls[i].since <= p < ls[i].until;
        assert ls'[i].fd == tr[p].fd && ls'[i].since <= p < ls'[i].until;
      } else {
        NewOwned(ls, d, timeout, conns, log, tr, conns', log', tr', p);
      }
    }
  }

  /** A whole turn. */
  lemma {:induction false} MatchesTurn(ds: seq<Done>, d: Done, timeout: nat, open: nat -> set<nat> -> nat,
      conns: map<nat, Conn>, log: map<nat, Session>, conns': map<nat, Conn>, log': map<nat, Session>)
    requires Matches(Lives(ds, open, timeout), conns, log, Script(ds)) && open(|ds|)(conns.Keys) !in conns
    requires Carried(d, timeout, Opened(conns, d.turn, open(|ds|)),
      OpenedLog(conns, log, |Script(ds)|, d.turn, open(|ds|)), Script(ds),
      conns', log', Script(ds) + Entries(d.hs) + [PassOf(d)])
    ensures Script(ds + [d]) == Script(ds) + Entries(d.hs) + [PassOf(d)]
    ensures Matches(Lives(ds + [d], open, timeout), conns', log', Script(ds + [d]))
  {
    var ds', tr := ds + [d], Script(ds);
    assert ds'[..|ds|] == ds;
    var fds := open(|ds|);
    MatchesBirth(Lives(ds, open, timeout), conns, log, tr, d.turn, |ds|, fds);
    MatchesOn(Births(Lives(ds, open, timeout), d.turn, |ds|, |tr|, fds), d, timeout, Opened(conns, d.turn, fds),
      OpenedLog(conns, log, |tr|, d.turn, fds), tr, conns', log', Script(ds'));
  }

  // ---- what the lives say ----

  /** The bytes that arrive on fd from turn born on. */
  ghost function ArrivedOn(ds: seq<Done>, born: nat, fd: nat): Bytes
    decreases |ds|
  {
    if |ds| <= born then [] else
    var n := |ds| - 1;
    ArrivedOn(ds[..n], born, fd) + Delivered(ds[n].hs, fd)
  }

  /** Each life began with the accept of its turn, and what the connection got is what has arrived on it since: all of
      it while it is open, and a first part of it if it has ended. */
  lemma {:induction false} LifeGot(ds: seq<Done>, open: nat -> set<nat> -> nat, timeout: nat, i: nat)
    requires i < |Lives(ds, open, timeout)|
    ensures var l := Lives(ds, open, timeout)[i];
      && l.born < |ds| && ds[l.born].turn.accepts
      && l.course.line.got <= ArrivedOn(ds, l.born, l.fd)
      && (l.course.open ==> l.course.line.got == ArrivedOn(ds, l.born, l.fd))
    decreases |ds|
  {
    var n := |ds| - 1;
    var d, ls := ds[n], Lives(ds[..n], open, timeout);
    var l := Births(ls, d.turn, n, |Script(ds[..n])|, open(n))[i];
    FollowGot(l.course, d.hs, l.fd);
    if i < |ls| {
      LifeGot(ds[..n], open, timeout, i);
    } else {
      assert ArrivedOn(ds[..n], n, l.fd) == [];
    }
    Grew(l.course.line.got, ArrivedOn(ds[..n], l.born, l.fd), Delivered(d.hs, l.fd));
  }

  lemma {:induction false} Grew(got: Bytes, arrived: Bytes, more: Bytes)
    requires got <= arrived
    ensures got <= arrived + more
  {}

  lemma {:induction false} LivesStep(ds: seq<Done>, open: nat -> set<nat> -> nat, timeout: nat)
    requires ds != []
    ensures var n := |ds| - 1;
      var ls0, ls := Lives(ds[..n], open, timeout), Lives(ds, open, timeout);
      && |ls| == |ls0| + (if ds[n].turn.accepts then 1 else 0)
      && (forall i :: 0 <= i < |ls0| ==> ls[i].born == ls0[i].born)
      && (ds[n].turn.accepts ==> ls[|ls0|].born == n)
  {}

  /** The i-th life began in the i-th turn that accepted. */
  lemma {:induction false} LifeEach(ds: seq<Done>, open: nat -> set<nat> -> nat, timeout: nat)
    ensures var ls := Lives(ds, open, timeout);
      |ls| == |Accepting(ds)| && forall i :: 0 <= i < |ls| ==> ls[i].born == Accepting(ds)[i]
    decreases |ds|
  {
    if ds != [] {
      LivesStep(ds, open, timeout);
      LifeEach(ds[..|ds| - 1], open, timeout);
    }
  }

  /** The turns that accepted a connection. */
  ghost function Accepting(ds: seq<Done>): seq<nat>
    decreases |ds|
  {
    if ds == [] then [] else
    var n := |ds| - 1;
    Accepting(ds[..n]) + if ds[n].turn.accepts then [n] else []
  }

  /** Entry p of the run is one of the frames of the bytes that its connection got. */
  lemma {:induction false} FrameAt(l: Life, conns: map<nat, Conn>, log: map<nat, Session>, tr: seq<Deed>, p: nat)
    requires Lived(l, conns, log, tr) && l.since <= p < l.until && tr[p].Request? && tr[p].fd == l.fd
    ensures tr[p].q.body in Framing.Drain(l.course.line.got).frames
  {
    var own := Own(tr[..l.until], l.since, l.fd);
    assert tr[..l.until][p] == tr[p] && p in own;
    var j :| 0 <= j < |own| && own[j] == p;
    assert Bodies(l.course.line.served)[j] == tr[p].q.body;
  }

  /** Entry p of the run is a request of this life: a frame of the bytes that it got, which have arrived on its
      descriptor since its accept, in that order and without a gap. */
  ghost predicate Asked(ds: seq<Done>, l: Life, p: nat, e: Deed) {
    && e.Request? && l.fd == e.fd && l.since <= p < l.until
    && l.course.line.got <= ArrivedOn(ds, l.born, l.fd) && e.q.body in Framing.Drain(l.course.line.got).frames
  }

  /** Every request of the run is a frame of bytes that arrived on its connection. */
  lemma {:induction false} RequestArrived(ds: seq<Done>, open: nat -> set<nat> -> nat, timeout: nat,
      conns: map<nat, Conn>, log: map<nat, Session>, p: nat)
    requires Matches(Lives(ds, open, timeout), conns, log, Script(ds)) && p < |Script(ds)| && Script(ds)[p].Request?
    ensures exists l :: l in Lives(ds, open, timeout) && Asked(ds, l, p, Script(ds)[p])
  {
    var ls, tr := Lives(ds, open, timeout), Script(ds);
    assert Owned(ls, tr[p].fd, p);
    var i :| 0 <= i < |ls| && ls[i].fd == tr[p].fd && ls[i].since <= p < ls[i].until;
    LifeGot(ds, open, timeout, i);
    assert Lived(ls[i], conns, log, tr);
    FrameAt(ls[i], conns, log, tr, p);
    assert ls[i] in ls && Asked(ds, ls[i], p, tr[p]);
  }

  /** No frame waits: after each turn every connection there has been has had all frames of the bytes it got served. */
  ghost predicate Prompt(ds: seq<Done>, open: nat -> set<nat> -> nat, timeout: nat) {
    forall j | 0 <= j <= |ds| :: PromptAt(Lives(ds[..j], open, timeout))
  }

  ghost predicate PromptAt(ls: seq<Life>) {
    forall i | 0 <= i < |ls| :: Bodies(ls[i].course.line.served) == Framing.Drain(ls[i].course.line.got).frames
  }

  lemma {:induction false} PromptMore(ds: seq<Done>, d: Done, open: nat -> set<nat> -> nat, timeout: nat,
      conns: map<nat, Conn>, log: map<nat, Session>, tr: seq<Deed>)
    requires Prompt(ds, open, timeout) && Matches(Lives(ds + [d], open, timeout), conns, log, tr)
    ensures Prompt(ds + [d], open, timeout)
  {
    var ds' := ds + [d];
    forall j | 0 <= j <= |ds'| ensures PromptAt(Lives(ds'[..j], open, timeout)) {
      if j <= |ds| {
        assert ds'[..j] == ds[..j];
      } else {
        assert ds'[..j] == ds';
        var ls := Lives(ds', open, timeout);
        forall i | 0 <= i < |ls|
          ensures Bodies(ls[i].course.line.served) == Framing.Drain(ls[i].course.line.got).frames
        {
          assert Lived(ls[i], conns, log, tr);
        }
      }
    }
  }
}

/** Server::run in src/server/server.cpp: whole iterations of the event loop, and whole runs from the constructor on. */
module Loop {
  import opened Base
  import opened Store
  import opened Clients
  import opened Limits
  import opened Requests
  import opened History
  import opened Server
  import opened Lines
  import opened Laws
  import Expiry
  import Timers

  /** The clock never runs backwards. */
  ghost predicate Chained(rs: seq<Report>, t: nat)
    decreases |rs|
  {
    rs == [] || (t <= rs[0].now && Ticks(rs[0].clk, rs[0].now, rs[0].end) && Chained(rs[1..], rs[0].end))
  }

  function EndOf(rs: seq<Report>, t: nat): nat
    decreases |rs|
  {
    if rs == [] then t else EndOf(rs[1..], rs[0].end)
  }

  ghost predicate Steady(turn: Turn, t: nat) {
    && t <= turn.polled <= turn.woken < TWO63 && Chained(turn.reports, turn.woken)
    && EndOf(turn.reports, turn.woken) <= turn.tick < TWO63
  }

  ghost predicate AllSteady(turns: seq<Turn>, t: nat)
    decreases |turns|
  {
    turns == [] || (Steady(turns[0], t) && AllSteady(turns[1..], turns[0].tick))
  }

  /** accept hands out a descriptor that is not open. */
  ghost predicate Kernel(open: set<nat> -> nat) { forall s: set<nat> :: open(s) !in s }

  /** It may be any such descriptor, another one in each turn. */
  ghost predicate Kernels(open: nat -> set<nat> -> nat) { forall j: nat :: Kernel(open(j)) }

  /** Part way through the poll entries: the first i are handled, and the run has gained their requests. Unfolded by
      Look. */
  ghost predicate Midway(rs: seq<Report>, i: nat, hs: seq<Handled>, before: Past, after: Past) {
    forall z {:trigger Look(z)} :: Look(z) ==>
      && i <= |rs| && Handles(hs, rs[..i]) && after.trace == before.trace + Entries(hs)
      && Chained(rs[i..], after.time) && EndOf(rs[i..], after.time) == EndOf(rs, before.time)
  }

  lemma {:induction false} MidwayStart(rs: seq<Report>, past: Past)
    requires Chained(rs, past.time)
    ensures Midway(rs, 0, [], past, past)
  {
    assert rs[0..] == rs && past.trace + [] == past.trace;
  }

  lemma {:induction false} MidwayNext(rs: seq<Report>, i: nat, hs: seq<Handled>, before: Past, after: Past)
    requires Midway(rs, i, hs, before, after) && i < |rs|
    ensures after.time <= rs[i].now && Ticks(rs[i].clk, rs[i].now, rs[i].end) && |before.trace| <= |after.trace|
  {
    assert Look(0);
    assert rs[i..][0] == rs[i];
  }

  lemma {:induction false} MidwayStep(rs: seq<Report>, i: nat, hs: seq<Handled>, before: Past, mid: Past, h: Handled,
      after: Past)
    requires Midway(rs, i, hs, before, mid) && i < |rs| && h.r == rs[i] && Timed(h.qs, rs[i].clk)
    requires after.time == rs[i].end && after.trace == mid.trace + Tag(rs[i].fd, h.qs)
    ensures Midway(rs, i + 1, hs + [h], before, after)
  {
    assert Look(0);
    assert rs[i..][0] == rs[i] && rs[i..][1..] == rs[i + 1..];
    EntriesMore(before.trace, hs, h);
  }

  lemma {:induction false} MidwayEnd(rs: seq<Report>, hs: seq<Handled>, before: Past, after: Past)
    requires Midway(rs, |rs|, hs, before, after)
    ensures Handles(hs, rs) && after.trace == before.trace + Entries(hs) && after.time == EndOf(rs, before.time)
  {
    assert Look(0);
    assert rs[..|rs|] == rs && rs[|rs|..] == [];
  }

  // ---- one iteration ----

  /** The loop over the poll entries: the run gains exactly the requests of the reports, and every connection takes the
      course of its line. */
  method HandleAll(s: Server, rs: seq<Report>) returns (ghost hs: seq<Handled>)
    requires s.Valid() && Chained(rs, s.past.time)
    modifies s, s.clients, s.clients.ring, s.db, s.db.dict, s.db.ttl, s.db.repr
    ensures s.Valid() && fresh(s.db.repr - old(s.db.repr)) && s.past.time == EndOf(rs, old(s.past.time))
    ensures Handles(hs, rs) && s.past.trace == old(s.past.trace) + Entries(hs)
    ensures Followed(hs, old(s.clients.conns), old(s.past.log), old(s.past.trace), s.clients.conns, s.past.log,
      s.past.trace)
  {
    ghost var conns0, past0 := s.clients.conns, s.past;
    hs := [];
    FollowedStart(conns0, past0.log, past0.trace);
    MidwayStart(rs, past0);
    for i := 0 to |rs|
      invariant s.Valid() && fresh(s.db.repr - old(s.db.repr)) && Midway(rs, i, hs, past0, s.past)
      invariant Followed(hs, conns0, past0.log, past0.trace, s.clients.conns, s.past.log, s.past.trace)
    {
      MidwayNext(rs, i, hs, past0, s.past);
      ghost var mid := s.past;
      ghost var h := HandleOne(s, rs[i], conns0, past0, hs);
      MidwayStep(rs, i, hs, past0, mid, h, s.past);
      hs := hs + [h];
    }
    MidwayEnd(rs, hs, past0, s.past);
  }

  /** One poll entry. */
  method HandleOne(s: Server, r: Report, ghost conns0: map<nat, Conn>, ghost past0: Past, ghost hs: seq<Handled>)
    returns (ghost h: Handled)
    requires s.Valid() && s.past.time <= r.now && Ticks(r.clk, r.now, r.end) && |past0.trace| <= |s.past.trace|
    requires Followed(hs, conns0, past0.log, past0.trace, s.clients.conns, s.past.log, s.past.trace)
    modifies s, s.clients, s.clients.ring, s.db, s.db.dict, s.db.ttl, s.db.repr
    ensures s.Valid() && fresh(s.db.repr - old(s.db.repr)) && s.past.time == r.end && h.r == r && Timed(h.qs, r.clk)
    ensures s.past.trace == old(s.past.trace) + Tag(r.fd, h.qs)
    ensures Followed(hs + [h], conns0, past0.log, past0.trace, s.clients.conns, s.past.log, s.past.trace)
  {
    ghost var conns, before := s.clients.conns, s.past;
    ghost var qs, out;
    qs, out := s.Ready(r.fd, r.re, r.a, r.w, r.clk, r.now, r.end);
    h := Handled(r, qs);
    ReportedTrace(h, conns, before, out, s.clients.conns, s.past);
    FollowedStep(hs, h, conns0, past0.log, past0.trace, conns, before, out, s.clients.conns, s.past);
  }

  /** accept_new, if the listener is ready. */
  method AcceptIf(s: Server, turn: Turn, open: set<nat> -> nat)
    requires s.Valid() && s.past.time <= turn.woken < TWO63 && Kernel(open)
    modifies s, s.clients, s.clients.ring
    ensures s.Valid() && s.past.time == turn.woken && s.past.trace == old(s.past.trace)
    ensures s.clients.conns == Opened(old(s.clients.conns), turn, open)
    ensures s.past.log == OpenedLog(old(s.clients.conns), old(s.past.log), |s.past.trace|, turn, open)
  {
    if turn.accepts {
      s.Accept(open(s.clients.conns.Keys), turn.woken);
    } else {
      s.Wait(turn.woken);
    }
  }

  /** The timer pass at the end of the run tr removed exactly the keys dead: due ones, in deadline order, and all of
      them unless there were more than its fill. */
  ghost predicate PassedWell(lib: Lib, tr: seq<Deed>, st: Store, dead: seq<Bytes>, tick: nat) {
    && Timers.Reaped(StoreAfter(lib, tr), st, dead, tick)
    && (|dead| == 2000 || forall k :: k in st ==> !Overdue(st[k], tick))
  }

  lemma {:induction false} StoreIs(s: Server)
    requires s.Valid()
    ensures s.db.st == StoreAfter(s.lib, s.past.trace)
  {
    assert Look(0);
    TrackedLive(s.lib, s.past.trace, s.db.st, s.past.time);
  }

  /** One iteration of run: the poll timeout is for the earliest deadline, the run gains exactly the requests of the
      reports and one timer pass, and every connection takes the course of its line. */
  method Iterate(s: Server, turn: Turn, open: set<nat> -> nat)
    returns (ms: int, ghost next: Option<nat>, ghost d: Done)
    requires s.Valid() && Steady(turn, s.past.time) && Kernel(open)
    modifies s, s.clients, s.clients.ring, s.db, s.db.dict, s.db.ttl, s.db.repr
    ensures s.Valid() && fresh(s.db.repr - old(s.db.repr)) && s.past.time == turn.tick
    ensures Earliest(old(s.clients.conns), s.clients.idleTimeout, old(s.db.st), next)
    ensures ms == if next.None? then -1 else Timers.Timeout(next.value, turn.polled)
    ensures d.turn == turn && Handles(d.hs, turn.reports)
    ensures s.past.trace == old(s.past.trace) + Entries(d.hs) + [PassOf(d)]
    ensures PassedWell(s.lib, old(s.past.trace) + Entries(d.hs), s.db.st, d.dead, turn.tick)
    ensures Carried(d, s.clients.idleTimeout, Opened(old(s.clients.conns), turn, open),
      OpenedLog(old(s.clients.conns), old(s.past.log), |old(s.past.trace)|, turn, open), old(s.past.trace),
      s.clients.conns, s.past.log, s.past.trace)
  {
    ms, next := s.NextTimerMs(turn.polled);
    AcceptIf(s, turn, open);
    ghost var conns, log := s.clients.conns, s.past.log;
    ghost var hs := HandleAll(s, turn.reports);
    ghost var conns1, log1, tr1 := s.clients.conns, s.past.log, s.past.trace;
    StoreIs(s);
    ghost var dead := s.ProcessTimers(turn.tick);
    d := Done(turn, hs, dead);
    CarriedOver(d, s.clients.idleTimeout, conns, log, old(s.past.trace), conns1, log1, tr1, s.clients.conns);
  }

  // ---- whole runs ----

  /** The j-th timer pass did its work. */
  ghost predicate PassedAt(lib: Lib, ds: seq<Done>, j: nat)
    requires j < |ds|
  {
    PassedWell(lib, Script(ds[..j]) + Entries(ds[j].hs), StoreAfter(lib, Script(ds[..j + 1])), ds[j].dead,
      ds[j].turn.tick)
  }

  ghost predicate AllPassed(lib: Lib, ds: seq<Done>) { forall j | 0 <= j < |ds| :: PassedAt(lib, ds, j) }

  lemma {:induction false} PassedMore(lib: Lib, ds: seq<Done>, d: Done, st: Store)
    requires AllPassed(lib, ds) && PassedWell(lib, Script(ds) + Entries(d.hs), st, d.dead, d.turn.tick)
    requires st == StoreAfter(lib, Script(ds + [d]))
    ensures AllPassed(lib, ds + [d])
  {
    var ds' := ds + [d];
    assert ds'[..|ds|] == ds && ds'[..|ds| + 1] == ds';
    forall j | 0 <= j < |ds'| ensures PassedAt(lib, ds', j) {
      if j < |ds| {
        assert ds'[..j] == ds[..j] && ds'[..j + 1] == ds[..j + 1] && PassedAt(lib, ds, j);
      }
    }
  }

  /** These turns were done, and each request in them read the clock of its report. */
  ghost predicate Plays(ds: seq<Done>, turns: seq<Turn>) {
    |ds| == |turns| && forall i :: 0 <= i < |ds| ==> ds[i].turn == turns[i] && Handles(ds[i].hs, turns[i].reports)
  }

  lemma {:induction false} PlaysMore(ds: seq<Done>, turns: seq<Turn>, i: nat, d: Done)
    requires i < |turns| && Plays(ds, turns[..i]) && d.turn == turns[i] && Handles(d.hs, turns[i].reports)
    ensures Plays(ds + [d], turns[..i + 1])
  {}

  lemma {:induction false} SteadyNext(turns: seq<Turn>, i: nat, t: nat)
    requires i < |turns| && AllSteady(turns[i..], t)
    ensures Steady(turns[i], t) && AllSteady(turns[i + 1..], turns[i].tick)
  {
    assert turns[i..][0] == turns[i] && turns[i..][1..] == turns[i + 1..];
  }

  /** The run is the script of the turns done, and the connections are those of their lives. Unfolded by Look. */
  ghost predicate Recorded(lib: Lib, timeout: nat, past: Past, conns: map<nat, Conn>, ds: seq<Done>,
      open: nat -> set<nat> -> nat) {
    forall z {:trigger Look(z)} :: Look(z) ==>
      && past.trace == Script(ds) && AllPassed(lib, ds)
      && Matches(Lives(ds, open, timeout), conns, past.log, past.trace) && Prompt(ds, open, timeout)
  }

  /** The server so far. */
  ghost predicate Played(s: Server, ds: seq<Done>, open: nat -> set<nat> -> nat)
    reads s, s.db, s.db.dict, s.db.ttl, s.db.repr, s.clients, s.clients.ring
  {
    s.Valid() && Recorded(s.lib, s.clients.idleTimeout, s.past, s.clients.conns, ds, open)
  }

  /** One more turn. */
  method PlayTurn(s: Server, turn: Turn, i: nat, open: nat -> set<nat> -> nat, ghost ds: seq<Done>)
    returns (ghost d: Done)
    requires Played(s, ds, open) && |ds| == i && Steady(turn, s.past.time) && Kernels(open)
    modifies s, s.clients, s.clients.ring, s.db, s.db.dict, s.db.ttl, s.db.repr
    ensures Played(s, ds + [d], open) && fresh(s.db.repr - old(s.db.repr)) && s.past.time == turn.tick
    ensures d.turn == turn && Handles(d.hs, turn.reports)
  {
    assert Look(0);
    ghost var conns, log := s.clients.conns, s.past.log;
    var ms;
    ghost var next;
    ms, next, d := Iterate(s, turn, open(i));
    MatchesTurn(ds, d, s.clients.idleTimeout, open, conns, log, s.clients.conns, s.past.log);
    PromptMore(ds, d, open, s.clients.idleTimeout, s.clients.conns, s.past.log, s.past.trace);
    StoreIs(s);
    PassedMore(s.lib, ds, d, s.db.st);
  }

  /** Every request of the run, of open and of ended connections, has the reply it ought to have at its place. */
  ghost predicate AllIdeal(lib: Lib, tr: seq<Deed>) {
    && (forall p | 0 <= p < |tr| && tr[p].Request? :: IdealReply(lib, tr[..p], tr[p].q))
    && AnswersIn(lib, tr) == Expiry.RunIdeal(map[], EventsIn(lib, tr)).1
  }

  lemma {:induction false} AnswersAll(s: Server)
    requires s.Valid()
    ensures AllIdeal(s.lib, s.past.trace)
  {
    forall p | 0 <= p < |s.past.trace| && s.past.trace[p].Request?
      ensures IdealReply(s.lib, s.past.trace[..p], s.past.trace[p].q)
    {
      AnsweredRight(s.lib, s.doubles, s.past.trace, s.db.st, s.past.time, p, []);
    }
    s.AnswersIdeal();
  }

  /** The laws of the commands hold of the run. */
  lemma {:induction false} RunIs(s: Server)
    requires s.Valid()
    ensures Runs(s.lib, Stores(s.lib, s.past.trace), s.past.trace)
  {
    ChronicleRuns(s.lib, s.doubles, s.past.trace, s.db.st, s.past.time);
  }

  /** Any number of turns on a server. */
  method PlayAll(s: Server, turns: seq<Turn>, open: nat -> set<nat> -> nat) returns (ghost ds: seq<Done>)
    requires Played(s, [], open) && AllSteady(turns, s.past.time) && Kernels(open)
    modifies s, s.clients, s.clients.ring, s.db, s.db.dict, s.db.ttl, s.db.repr
    ensures Played(s, ds, open) && Plays(ds, turns)
  {
    ds := [];
    assert turns[0..] == turns;
    for i := 0 to |turns|
      invariant Played(s, ds, open) && fresh(s.db.repr - old(s.db.repr))
      invariant Plays(ds, turns[..i]) && AllSteady(turns[i..], s.past.time)
    {
      SteadyNext(turns, i, s.past.time);
      ghost var d := PlayTurn(s, turns[i], i, open, ds);
      PlaysMore(ds, turns, i, d);
      ds := ds + [d];
    }
    assert turns[..|turns|] == turns;
  }

  /** The server from its constructor through any number of iterations. Its run is the script of the turns: the requests
      of the reports, each with the reply of the ideal store at its place, and a timer pass at the end of each turn. Its
      connections, and the ended ones, are the lives that the turns make: each has got the bytes that arrived on it, its
      requests are their frames, and what it was sent are the replies to them as far as its socket had room. */
  method Run(hash: Bytes -> nat, hasPool: bool, lib: Lib, idleTimeout: nat, ghost doubles: Bytes -> int,
      turns: seq<Turn>, open: nat -> set<nat> -> nat)
    returns (s: Server, ghost ds: seq<Done>)
    requires idleTimeout < TWO63 && Doubles(lib.dbls, doubles) && AllSteady(turns, 0) && Kernels(open)
    ensures s.Valid() && s.lib == lib && s.clients.idleTimeout == idleTimeout && Plays(ds, turns)
    ensures s.past.trace == Script(ds) && s.db.st == StoreAfter(lib, Script(ds)) && AllPassed(lib, ds)
    ensures Matches(Lives(ds, open, idleTimeout), s.clients.conns, s.past.log, Script(ds)) && AllIdeal(lib, Script(ds))
    ensures Prompt(ds, open, idleTimeout) && Runs(lib, Stores(lib, Script(ds)), Script(ds))
  {
    s := new Server(hash, hasPool, lib, idleTimeout, doubles);
    ds := PlayAll(s, turns, open);
    assert Look(0);
    StoreIs(s);
    AnswersAll(s);
    RunIs(s);
  }
}

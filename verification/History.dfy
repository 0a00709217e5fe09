/** The run of the server so far: every request and every reaper pass in order, and what each connection has to do
    with them. */
module History {
  import opened Base
  import opened Store
  import opened Commands
  import opened Clients
  import opened Limits
  import opened Requests
  import Client
  import Codec
  import Expiry
  import Framing
  import Wire

  /** One entry of the run: a request that came in on descriptor fd, or the keys that a reaper pass removed. */
  datatype Deed = Request(fd: nat, q: Served) | Pass(dead: set<Bytes>, now: nat)

  function Start(e: Deed): nat { if e.Request? then e.q.t.0 else e.now }

  function End(e: Deed): nat { if e.Request? then e.q.t.1 else e.now }

  /** The clock never runs backwards, and it is not past t. */
  ghost predicate Ordered(tr: seq<Deed>, t: nat) {
    (forall i | 0 <= i < |tr| :: End(tr[i]) <= t) && forall i, j | 0 <= i < j < |tr| :: End(tr[i]) <= Start(tr[j])
  }

  // ---- the run as a history of the expiry theorem ----

  /** A command on a key; a rank query on a set that has outgrown its counts changes nothing and is left out. */
  function EventOf(lib: Lib, q: Served): (es: seq<Expiry.Event>)
    ensures Expiry.Runnable(es)
  {
    if q.outgrown then [] else
    match Wire.Parse(q.body)
    case None => []
    case Some(args) =>
      match Dispatch(args, lib.ints, lib.dbls)
      case Keyed(key, cmd) => [Expiry.Command(key, cmd, q.t.0, q.t.1)]
      case _ => []
  }

  /** The commands on keys and the reaper passes of a run. */
  function EventsIn(lib: Lib, tr: seq<Deed>): (es: seq<Expiry.Event>)
    ensures Expiry.Runnable(es)
  {
    if tr == [] then [] else
    var n := |tr| - 1;
    EventsIn(lib, tr[..n]) + if tr[n].Request? then EventOf(lib, tr[n].q) else [Expiry.Reap(tr[n].dead, tr[n].now)]
  }

  /** The replies to the commands on keys. */
  function AnswersIn(lib: Lib, tr: seq<Deed>): seq<Codec.Value> {
    if tr == [] then [] else
    var n := |tr| - 1;
    AnswersIn(lib, tr[..n]) + if tr[n].Request? && EventOf(lib, tr[n].q) != [] then [tr[n].q.reply] else []
  }

  /** The code's store, and the store that forgets each key at its deadline, after a run. */
  function StoreAfter(lib: Lib, tr: seq<Deed>): Store { Expiry.RunCode(map[], EventsIn(lib, tr)).0 }

  function IdealAfter(lib: Lib, tr: seq<Deed>): Store { Expiry.RunIdeal(map[], EventsIn(lib, tr)).0 }

  ghost predicate Tracked(lib: Lib, tr: seq<Deed>, st: Store, t: nat) {
    Expiry.Tracks(st, EventsIn(lib, tr), AnswersIn(lib, tr), t)
  }

  /** Deed i happened: by its time the entries before it had led to a store within the limits, and if it is a request,
      it was served on that store and led to the next. Unfolded by Shown. */
  ghost predicate Genuine(lib: Lib, doubles: Bytes -> int, tr: seq<Deed>, i: nat)
    requires i < |tr|
  {
    forall z {:trigger Shown(z)} :: Shown(z) ==> GenuineBody(lib, doubles, tr, i)
  }

  ghost predicate GenuineBody(lib: Lib, doubles: Bytes -> int, tr: seq<Deed>, i: nat)
    requires i < |tr|
  {
    var st := StoreAfter(lib, tr[..i]);
    && Tracked(lib, tr[..i], st, Start(tr[i])) && Sane(st, Start(tr[i]), doubles)
    && (tr[i].Request? ==> var q := tr[i].q;
         |q.body| <= Wire.MAX_MSG && q.t.0 <= q.t.1 && Serves(lib, q, st, StoreAfter(lib, tr[..i + 1])))
  }

  /** The run led to st by time t, and every entry of it happened. Unfolded by Look. */
  ghost predicate Chronicle(lib: Lib, doubles: Bytes -> int, tr: seq<Deed>, st: Store, t: nat) {
    forall z {:trigger Look(z)} :: Look(z) ==>
      && Tracked(lib, tr, st, t) && Sane(st, t, doubles) && Ordered(tr, t)
      && forall i | 0 <= i < |tr| :: Genuine(lib, doubles, tr, i)
  }

  ghost predicate Look(z: int) { true }

  lemma {:induction false} ChronicleStart(lib: Lib, doubles: Bytes -> int)
    ensures Chronicle(lib, doubles, [], map[], 0)
  {}

  lemma {:induction false} ChronicleLater(lib: Lib, doubles: Bytes -> int, tr: seq<Deed>, st: Store, t: nat, t': nat)
    requires Chronicle(lib, doubles, tr, st, t) && t <= t'
    ensures Chronicle(lib, doubles, tr, st, t')
  {
    assert Look(0);
    SaneLater(st, t, t', doubles);
  }

  /** What happened stays so when the run goes on. */
  lemma {:induction false} GenuineStays(lib: Lib, doubles: Bytes -> int, tr: seq<Deed>, e: Deed, i: nat)
    requires i < |tr| && Genuine(lib, doubles, tr, i)
    ensures Genuine(lib, doubles, tr + [e], i)
  {
    assert Shown(0);
    var tr' := tr + [e];
    assert tr'[..i] == tr[..i] && tr'[..i + 1] == tr[..i + 1];
  }

  /** No event and no change, or one command that took the store to st' with this reply. */
  ghost predicate IsStep(es: seq<Expiry.Event>, q: Served, st: Store, st': Store) {
    if es == [] then st' == st
    else
      && |es| == 1 && es[0].Command? && CmdOk(es[0].cmd) && es[0].t1 == q.t.0 && es[0].t2 == q.t.1
      && Expiry.StepCode(st, es[0]) == (st', [q.reply])
  }

  lemma {:induction false} ServesIsEvent(lib: Lib, q: Served, st: Store, st': Store)
    requires Serves(lib, q, st, st')
    ensures IsStep(EventOf(lib, q), q, st, st')
  {
    assert Shown(0);
  }

  lemma {:induction false} TrackedServed(lib: Lib, tr: seq<Deed>, st: Store, t: nat, fd: nat, q: Served, st': Store)
    requires Tracked(lib, tr, st, t) && Serves(lib, q, st, st') && t <= q.t.0 <= q.t.1
    ensures Tracked(lib, tr + [Request(fd, q)], st', q.t.1)
  {
    var tr', es := tr + [Request(fd, q)], EventOf(lib, q);
    assert tr'[..|tr|] == tr;
    ServesIsEvent(lib, q, st, st');
    if es == [] {
      assert EventsIn(lib, tr) + [] == EventsIn(lib, tr) && AnswersIn(lib, tr) + [] == AnswersIn(lib, tr);
    } else {
      assert es == [es[0]];
      Expiry.TracksMore(st, EventsIn(lib, tr), AnswersIn(lib, tr), t, es[0]);
    }
  }

  lemma {:induction false} TrackedPass(lib: Lib, tr: seq<Deed>, st: Store, t: nat, dead: set<Bytes>, now: nat)
    requires Tracked(lib, tr, st, t) && Expiry.LegalStep(st, Expiry.Reap(dead, now), t)
    ensures Tracked(lib, tr + [Pass(dead, now)], st - dead, now)
  {
    assert (tr + [Pass(dead, now)])[..|tr|] == tr;
    Expiry.TracksMore(st, EventsIn(lib, tr), AnswersIn(lib, tr), t, Expiry.Reap(dead, now));
    assert AnswersIn(lib, tr) + [] == AnswersIn(lib, tr);
  }

  /** The run goes on by one entry that leads from st to st'. */
  lemma {:induction false} ChronicleMore(lib: Lib, doubles: Bytes -> int, tr: seq<Deed>, st: Store, t: nat, e: Deed,
      st': Store, t': nat)
    requires Chronicle(lib, doubles, tr, st, t) && t <= Start(e) && End(e) <= t'
    requires Tracked(lib, tr + [e], st', t') && Sane(st', t', doubles)
    requires e.Request? ==> |e.q.body| <= Wire.MAX_MSG && e.q.t.0 <= e.q.t.1 && Serves(lib, e.q, st, st')
    ensures Chronicle(lib, doubles, tr + [e], st', t')
  {
    assert Look(0);
    var tr' := tr + [e];
    SaneLater(st, t, Start(e), doubles);
    assert tr'[..|tr|] == tr && tr'[..|tr| + 1] == tr';
    assert GenuineBody(lib, doubles, tr', |tr|);
    forall i | 0 <= i < |tr'| ensures Genuine(lib, doubles, tr', i) {
      if i < |tr| { GenuineStays(lib, doubles, tr, e, i); }
    }
  }

  /** What a body asks for is within the limits. */
  lemma {:induction false} BodyFits(lib: Lib, doubles: Bytes -> int, body: Bytes, args: seq<Bytes>)
    requires Doubles(lib.dbls, doubles) && |body| <= Wire.MAX_MSG && Wire.Parse(body) == Some(args)
    ensures RequestFits(Dispatch(args, lib.ints, lib.dbls), doubles)
  {
    Wire.ParseIff(body, args);
    forall i | 0 <= i < |args| ensures |args[i]| <= MAX_ARG { ArgsFit(args, i); }
    DispatchFits(args, lib.ints, lib.dbls, doubles);
  }

  lemma {:induction false} ServesNumbers(lib: Lib, doubles: Bytes -> int, q: Served, st: Store, st': Store, t: nat)
    requires Serves(lib, q, st, st') && Sane(st, t, doubles) && Doubles(lib.dbls, doubles)
    requires t <= q.t.0 <= q.t.1 && |q.body| <= Wire.MAX_MSG
    ensures Sane(st', q.t.1, doubles) && Client.Numbers(q.reply, doubles)
    ensures !AsksListing(lib, q) ==> Client.Short(q.reply)
  {
    assert Shown(0);
    match Wire.Parse(q.body)
    case None => SaneLater(st, t, q.t.1, doubles);
    case Some(args) =>
      BodyFits(lib, doubles, q.body, args);
      RequestNumbers(Dispatch(args, lib.ints, lib.dbls), st, st', q.reply, t, q.t.0, q.t.1, doubles);
  }

  /** KEYS or ZQUERY, the two requests whose replies grow with the store. */
  predicate AsksListing(lib: Lib, q: Served) {
    var args := Wire.Parse(q.body);
    args.Some? && Listing(Dispatch(args.value, lib.ints, lib.dbls))
  }

  lemma {:induction false} ChronicleServed(lib: Lib, doubles: Bytes -> int, tr: seq<Deed>, st: Store, t: nat, fd: nat,
      q: Served, st': Store)
    requires Chronicle(lib, doubles, tr, st, t) && Doubles(lib.dbls, doubles)
    requires Serves(lib, q, st, st') && t <= q.t.0 <= q.t.1 && |q.body| <= Wire.MAX_MSG
    ensures Chronicle(lib, doubles, tr + [Request(fd, q)], st', q.t.1)
  {
    assert Tracked(lib, tr, st, t) && Sane(st, t, doubles) by { assert Look(0); }
    TrackedServed(lib, tr, st, t, fd, q, st');
    ServesNumbers(lib, doubles, q, st, st', t);
    ChronicleMore(lib, doubles, tr, st, t, Request(fd, q), st', q.t.1);
  }

  /** The requests of one read, all on descriptor fd. */
  function Tag(fd: nat, qs: seq<Served>): seq<Deed> { seq(|qs|, i requires 0 <= i < |qs| => Request(fd, qs[i])) }

  /** Readings within [now, end] that never run backwards. */
  ghost predicate InTime(qs: seq<Served>, now: nat, end: nat) {
    && now <= end && (forall i :: 0 <= i < |qs| ==> now <= qs[i].t.0 <= qs[i].t.1 <= end)
    && forall i, j :: 0 <= i < j < |qs| ==> qs[i].t.1 <= qs[j].t.0
  }

  lemma {:induction false} ChronicleServedAll(lib: Lib, doubles: Bytes -> int, tr: seq<Deed>, st: Store, t: nat,
      fd: nat, qs: seq<Served>, st': Store, end: nat)
    requires Chronicle(lib, doubles, tr, st, t) && Doubles(lib.dbls, doubles) && ServesAll(lib, qs, st, st')
    requires InTime(qs, t, end) && Framing.Bounded(Bodies(qs))
    ensures Chronicle(lib, doubles, tr + Tag(fd, qs), st', end)
    decreases |qs|
  {
    if qs == [] {
      assert tr + Tag(fd, qs) == tr;
      ChronicleLater(lib, doubles, tr, st, t, end);
    } else {
      var n := |qs| - 1;
      var mid :| ServesAll(lib, qs[..n], st, mid) && Serves(lib, qs[n], mid, st');
      assert Bodies(qs)[n] == qs[n].body && Bodies(qs[..n]) == Bodies(qs)[..n];
      ChronicleServedAll(lib, doubles, tr, st, t, fd, qs[..n], mid, qs[n].t.0);
      ChronicleServed(lib, doubles, tr + Tag(fd, qs[..n]), mid, qs[n].t.0, fd, qs[n], st');
      assert tr + Tag(fd, qs) == tr + Tag(fd, qs[..n]) + [Request(fd, qs[n])];
      ChronicleLater(lib, doubles, tr + Tag(fd, qs), st', qs[n].t.1, end);
    }
  }

  lemma {:induction false} ChroniclePass(lib: Lib, doubles: Bytes -> int, tr: seq<Deed>, st: Store, t: nat,
      dead: set<Bytes>, now: nat)
    requires Chronicle(lib, doubles, tr, st, t) && Expiry.LegalStep(st, Expiry.Reap(dead, now), t)
    ensures Chronicle(lib, doubles, tr + [Pass(dead, now)], st - dead, now)
  {
    assert Tracked(lib, tr, st, t) && Sane(st, t, doubles) by { assert Look(0); }
    TrackedPass(lib, tr, st, t, dead, now);
    SaneLater(st, t, now, doubles);
    forall k | k in st - dead ensures KeyFits(st - dead, k, now, doubles) { assert KeyFits(st, k, now, doubles); }
    ChronicleMore(lib, doubles, tr, st, t, Pass(dead, now), st - dead, now);
  }

  // ---- every reply is the ideal store's ----

  /** What a request ought to be answered after a run: a malformed body the error, a command on a key the answer of the
      store that forgets each key at its deadline (for a rank query on a set in which that store has more than 2^32
      pairs, just some of its pairs), KEYS a listing of its live keys and of nothing else but keys that are overdue and
      not yet reaped, and anything not in the table the dispatcher's error. */
  ghost predicate IdealReply(lib: Lib, tr: seq<Deed>, q: Served) {
    var ideal, code := IdealAfter(lib, tr), StoreAfter(lib, tr);
    match Wire.Parse(q.body)
    case None => q.reply == BAD_REQUEST
    case Some(args) =>
      match Dispatch(args, lib.ints, lib.dbls)
      case Keyed(key, cmd) =>
        && q.outgrown == Outgrown(Keyed(key, cmd), ideal, q.t.0)
        && if q.outgrown then
             exists ps :: Picks(ps, ideal[key].value.ps, cmd.limit.value as int) && q.reply == Codec.Arr(Flat(ps))
           else q.reply == Expiry.IdealExec(ideal, key, cmd, q.t.0, q.t.1).1
      case AllKeys =>
        && Expiry.Live(code, q.t.0) == Expiry.Live(ideal, q.t.0)
        && exists ks :: Lists(ks, code) && q.reply == Codec.Arr(Strs(ks))
      case Reject(err) => q.reply == err
  }

  lemma {:induction false} TrackedLive(lib: Lib, tr: seq<Deed>, st: Store, t: nat)
    requires Tracked(lib, tr, st, t)
    ensures st == StoreAfter(lib, tr) && Expiry.Live(st, t) == Expiry.Live(IdealAfter(lib, tr), t)
  {
    Expiry.RunLive(map[], map[], EventsIn(lib, tr), 0, t);
  }

  lemma {:induction false} ServedIdeal(lib: Lib, tr: seq<Deed>, q: Served, st: Store, st': Store)
    requires Tracked(lib, tr, st, q.t.0) && Serves(lib, q, st, st') && q.t.0 <= q.t.1
    ensures IdealReply(lib, tr, q)
  {
    TrackedLive(lib, tr, st, q.t.0);
    assert Shown(0);
    match Wire.Parse(q.body)
    case None =>
    case Some(args) =>
      match Dispatch(args, lib.ints, lib.dbls)
      case Keyed(key, cmd) =>
        Expiry.LiveSame(st, IdealAfter(lib, tr), key, q.t.0);
        Expiry.StepInvisible(st, IdealAfter(lib, tr), Expiry.Command(key, cmd, q.t.0, q.t.1), q.t.0);
      case _ =>
  }

  /** In every run each request has the reply it ought to have, and the client can take it exactly when its encoding is
      at most 32 KiB, which for anything but KEYS and ZQUERY it is. */
  lemma {:induction false} AnsweredRight(lib: Lib, doubles: Bytes -> int, tr: seq<Deed>, st: Store, t: nat, i: nat,
      rest: Bytes)
    requires Chronicle(lib, doubles, tr, st, t) && Doubles(lib.dbls, doubles) && i < |tr| && tr[i].Request?
    ensures IdealReply(lib, tr[..i], tr[i].q) && Client.Numbers(tr[i].q.reply, doubles)
    ensures !AsksListing(lib, tr[i].q) ==> Client.Short(tr[i].q.reply)
    ensures var v := tr[i].q.reply;
      Client.Receive(Framing.Frame(Codec.Encode(v)) + rest, doubles) == Client.Printed(v, rest) <==> Client.Short(v)
  {
    var q := tr[i].q;
    assert Genuine(lib, doubles, tr, i) by { assert Look(0); }
    var st0, st1 := StoreAfter(lib, tr[..i]), StoreAfter(lib, tr[..i + 1]);
    assert GenuineBody(lib, doubles, tr, i) by { assert Shown(0); }
    ServedIdeal(lib, tr[..i], q, st0, st1);
    ServesNumbers(lib, doubles, q, st0, st1, q.t.0);
    Client.ReceiveIff(q.reply, rest, doubles);
  }

  // ---- which entries belong to a connection ----

  /** The places of the requests that came in on fd from place since on: in order, all of them and no others. */
  function Own(tr: seq<Deed>, since: nat, fd: nat): (r: seq<nat>)
    ensures forall i :: 0 <= i < |r| ==> since <= r[i] < |tr| && tr[r[i]].Request? && tr[r[i]].fd == fd
    ensures forall i, j :: 0 <= i < j < |r| ==> r[i] < r[j]
    ensures forall k :: since <= k < |tr| && tr[k].Request? && tr[k].fd == fd ==> k in r
  {
    if |tr| <= since then []
    else
      var n := |tr| - 1;
      Own(tr[..n], since, fd) + if tr[n].Request? && tr[n].fd == fd then [n] else []
  }

  function OwnServed(tr: seq<Deed>, since: nat, fd: nat): seq<Served> {
    var own := Own(tr, since, fd);
    seq(|own|, i requires 0 <= i < |own| => tr[own[i]].q)
  }

  lemma {:induction false} OwnMore(tr: seq<Deed>, since: nat, fd: nat, e: Deed)
    requires since <= |tr|
    ensures OwnServed(tr + [e], since, fd) == OwnServed(tr, since, fd) + if e.Request? && e.fd == fd then [e.q] else []
  {
    assert (tr + [e])[..|tr|] == tr;
  }

  lemma {:induction false} OwnTagged(tr: seq<Deed>, since: nat, fd: nat, f: nat, qs: seq<Served>)
    requires since <= |tr|
    ensures OwnServed(tr + Tag(f, qs), since, fd) == OwnServed(tr, since, fd) + if f == fd then qs else []
    decreases |qs|
  {
    if qs == [] {
      assert tr + Tag(f, qs) == tr;
    } else {
      var n := |qs| - 1;
      OwnTagged(tr, since, fd, f, qs[..n]);
      assert tr + Tag(f, qs) == (tr + Tag(f, qs[..n])) + [Request(f, qs[n])];
      OwnMore(tr + Tag(f, qs[..n]), since, fd, Request(f, qs[n]));
      assert qs == qs[..n] + [qs[n]];
    }
  }

  ghost predicate AllShort(qs: seq<Served>) { forall i :: 0 <= i < |qs| ==> Client.Short(qs[i].reply) }

  /** The client of one connection prints all its replies exactly if all are short. */
  lemma {:induction false} OwnPrinted(lib: Lib, doubles: Bytes -> int, tr: seq<Deed>, st: Store, t: nat, since: nat,
      fd: nat)
    requires Chronicle(lib, doubles, tr, st, t) && Doubles(lib.dbls, doubles)
    ensures var own := OwnServed(tr, since, fd);
      && (Client.ReceiveAll(Answer(own), doubles) == Client.Whole(Replies(own)) <==> AllShort(own))
      && forall i :: 0 <= i < |own| && !AsksListing(lib, own[i]) ==> Client.Short(own[i].reply)
  {
    var own, at := OwnServed(tr, since, fd), Own(tr, since, fd);
    forall i | 0 <= i < |own|
      ensures Client.Numbers(own[i].reply, doubles) && (!AsksListing(lib, own[i]) ==> Client.Short(own[i].reply))
    {
      AnsweredRight(lib, doubles, tr, st, t, at[i], []);
    }
    Client.ReceiveAllIff(Replies(own), doubles);
    assert forall i :: 0 <= i < |own| ==> Replies(own)[i] == own[i].reply;
  }

  /** Everything that has passed over one connection: it was accepted before entry since, got these bytes and was sent
      those. */
  datatype Session = Session(since: nat, got: Bytes, sent: Bytes)

  /** The requests of the run that came in on this connection are the frames of the bytes it got, in order; what was
      sent and what is waiting to be sent are exactly the framed replies to them; the bytes not yet used are those
      behind the last complete frame. */
  ghost predicate SessionOk(c: Conn, s: Session, tr: seq<Deed>, fd: nat) {
    && Quiet(c) && s.since <= |tr|
    && var d, own := Framing.Drain(s.got), OwnServed(tr, s.since, fd);
       Bodies(own) == d.frames && d.rest == c.incoming && !d.oversized && s.sent + c.outgoing == Answer(own)
  }

  lemma {:induction false} SessionStart(c: Conn, tr: seq<Deed>, fd: nat)
    requires Quiet(c) && c.incoming == [] && c.outgoing == []
    ensures SessionOk(c, Session(|tr|, [], []), tr, fd)
  {}

  lemma {:induction false} SessionTouched(c: Conn, s: Session, tr: seq<Deed>, fd: nat, now: nat)
    requires SessionOk(c, s, tr, fd)
    ensures SessionOk(c.(lastActive := now), s, tr, fd)
  {}

  /** Requests on other connections and reaper passes do not touch a session. */
  lemma {:induction false} SessionOther(c: Conn, s: Session, tr: seq<Deed>, fd: nat, f: nat, qs: seq<Served>)
    requires SessionOk(c, s, tr, fd) && f != fd
    ensures SessionOk(c, s, tr + Tag(f, qs), fd)
  {
    OwnTagged(tr, s.since, fd, f, qs);
    var own := OwnServed(tr, s.since, fd);
    assert own + [] == own;
  }

  lemma {:induction false} SessionPass(c: Conn, s: Session, tr: seq<Deed>, fd: nat, dead: set<Bytes>, now: nat)
    requires SessionOk(c, s, tr, fd)
    ensures SessionOk(c, s, tr + [Pass(dead, now)], fd)
  {
    OwnMore(tr, s.since, fd, Pass(dead, now));
    var own := OwnServed(tr, s.since, fd);
    assert own + [] == own;
  }

  function Extend(s: Session, bytes: Bytes, out: Bytes): Session { Session(s.since, s.got + bytes, s.sent + out) }

  /** Bytes in, requests executed and their replies queued, bytes out. */
  lemma {:induction false} SessionStep(c0: Conn, s: Session, tr: seq<Deed>, fd: nat, bytes: Bytes, c1: Conn,
      qs: seq<Served>, c2: Conn, out: Bytes)
    requires SessionOk(c0, s, tr, fd) && Heard(c0, bytes, c1, qs) && !c1.wantClose && Quiet(c2)
    requires c2.incoming == c1.incoming && c1.outgoing == out + c2.outgoing
    ensures SessionOk(c2, Extend(s, bytes, out), tr + Tag(fd, qs), fd)
  {
    var own := OwnServed(tr, s.since, fd);
    OwnTagged(tr, s.since, fd, fd, qs);
    Framing.DrainMore(s.got, bytes);
    BodiesConcat(own, qs);
    AnswerConcat(own, qs);
    Codec.Reassociate(s.sent, c0.outgoing, Answer(qs));
    Codec.Reassociate(s.sent, out, c2.outgoing);
  }
}

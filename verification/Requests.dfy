/** Reading, executing and answering requests on one connection in src/server/server.cpp. */
module Requests {
  import opened Base
  import opened Store
  import opened Database
  import opened Commands
  import opened Clients
  import Client
  import Codec
  import Framing
  import Wire

  const BAD_REQUEST: Codec.Value := Codec.Err(ERR_ARG, Text("bad request"))

  /** The text-to-number functions of the C library. */
  datatype Lib = Lib(ints: Bytes -> Option<Int64>, dbls: Bytes -> Option<Score>)

  /** A request that has been executed: its body, its reply, its two clock readings, and whether it was a rank query on
      a set that had outgrown its counts. */
  datatype Served = Served(body: Bytes, reply: Codec.Value, t: (nat, nat), outgrown: bool)

  /** ServesBody, unfolded by Shown. */
  ghost predicate Serves(lib: Lib, q: Served, st: Store, st': Store) {
    forall z {:trigger Shown(z)} :: Shown(z) ==> ServesBody(lib, q, st, st')
  }

  /** What one request does: a malformed body is answered with an error and changes nothing. */
  ghost predicate ServesBody(lib: Lib, q: Served, st: Store, st': Store) {
    match Wire.Parse(q.body)
    case None => st' == st && q.reply == BAD_REQUEST && !q.outgrown
    case Some(args) =>
      var r := Dispatch(args, lib.ints, lib.dbls);
      Answers(r, st, st', q.reply, q.t.0, q.t.1) && q.outgrown == Outgrown(r, st, q.t.0)
  }

  /** A run of requests. */
  ghost predicate ServesAll(lib: Lib, qs: seq<Served>, st: Store, st': Store)
    decreases |qs|
  {
    if qs == [] then st' == st
    else
      var n := |qs| - 1;
      exists mid :: ServesAll(lib, qs[..n], st, mid) && Serves(lib, qs[n], mid, st')
  }

  lemma {:induction false} ServesMore(lib: Lib, qs: seq<Served>, q: Served, st: Store, mid: Store, st': Store)
    requires ServesAll(lib, qs, st, mid) && Serves(lib, q, mid, st')
    ensures ServesAll(lib, qs + [q], st, st')
  {
    assert (qs + [q])[..|qs|] == qs;
  }

  /** A run of requests followed by another is one run. */
  lemma {:induction false} ServesConcat(lib: Lib, qs: seq<Served>, rs: seq<Served>, st: Store, mid: Store, st': Store)
    requires ServesAll(lib, qs, st, mid) && ServesAll(lib, rs, mid, st')
    ensures ServesAll(lib, qs + rs, st, st')
    decreases |rs|
  {
    if rs == [] {
      assert qs + rs == qs;
    } else {
      var n := |rs| - 1;
      var m :| ServesAll(lib, rs[..n], mid, m) && Serves(lib, rs[n], m, st');
      ServesConcat(lib, qs, rs[..n], st, mid, m);
      ServesMore(lib, qs + rs[..n], rs[n], st, m, st');
      assert qs + rs == (qs + rs[..n]) + [rs[n]];
    }
  }

  function Bodies(qs: seq<Served>): seq<Bytes> { seq(|qs|, i requires 0 <= i < |qs| => qs[i].body) }

  function Replies(qs: seq<Served>): seq<Codec.Value> { seq(|qs|, i requires 0 <= i < |qs| => qs[i].reply) }

  /** The bytes that answer a run of requests. */
  function Answer(qs: seq<Served>): Bytes { Framing.FrameAll(Client.Payloads(Replies(qs))) }

  lemma {:induction false} BodiesConcat(qs: seq<Served>, rs: seq<Served>)
    ensures Bodies(qs + rs) == Bodies(qs) + Bodies(rs)
  {}

  lemma {:induction false} AnswerMore(qs: seq<Served>, q: Served)
    ensures Answer(qs + [q]) == Answer(qs) + Framing.Frame(Codec.Encode(q.reply))
  {
    assert Client.Payloads(Replies(qs + [q])) == Client.Payloads(Replies(qs)) + [Codec.Encode(q.reply)];
    Framing.FrameAllAppend(Client.Payloads(Replies(qs)), Codec.Encode(q.reply));
  }

  lemma {:induction false} AnswerConcat(qs: seq<Served>, rs: seq<Served>)
    ensures Answer(qs + rs) == Answer(qs) + Answer(rs)
    decreases |rs|
  {
    if rs == [] {
      assert qs + rs == qs;
    } else {
      var n := |rs| - 1;
      AnswerConcat(qs, rs[..n]);
      AnswerMore(qs + rs[..n], rs[n]);
      AnswerMore(rs[..n], rs[n]);
      assert qs + rs == (qs + rs[..n]) + [rs[n]] && rs == rs[..n] + [rs[n]];
      Codec.Reassociate(Answer(qs), Answer(rs[..n]), Framing.Frame(Codec.Encode(rs[n].reply)));
    }
  }

  // ---- reading ----

  function Answered(c: Conn, rest: Bytes, reply: Codec.Value): Conn {
    c.(incoming := rest, outgoing := c.outgoing + Framing.Frame(Codec.Encode(reply)))
  }

  /** try_one_request */
  method TryOneRequest(db: Database, c: Conn, lib: Lib, t: (nat, nat)) returns (c': Conn, more: bool, ghost q: Served)
    requires db.Valid() && t.0 < TWO63 && t.1 < TWO63
    modifies db, db.dict, db.ttl, db.repr
    ensures db.Valid() && fresh(db.repr - old(db.repr))
    ensures match Framing.NextFrame(c.incoming)
      case Incomplete => !more && c' == c && db.st == old(db.st)
      case Oversized => !more && c' == c.(wantClose := true) && db.st == old(db.st)
      case Whole(body, rest) =>
        more && q.body == body && q.t == t && Serves(lib, q, old(db.st), db.st) && c' == Answered(c, rest, q.reply)
  {
    c', more, q := c, false, Served([], Codec.Nil, t, false);
    if |c.incoming| < 4 { return; }
    var len := Codec.ReadU32(c.incoming);
    if len > Wire.MAX_MSG { c' := c.(wantClose := true); return; }
    if |c.incoming| < 4 + len { return; }
    var body := c.incoming[4..4 + len];
    var resp := new Codec.Out();
    var rc, cmd := Wire.ParseReq(body);
    ghost var reply, outgrown := BAD_REQUEST, false;
    if rc != 0 {
      resp.OutErr(ERR_ARG, Text("bad request"));
    } else {
      outgrown := Outgrown(Dispatch(cmd, lib.ints, lib.dbls), db.st, t.0);
      reply := DoRequest(db, resp, cmd, lib.ints, lib.dbls, t.0, t.1);
    }
    q := Served(body, reply, t, outgrown);
    assert resp.buf == Codec.Encode(reply);
    assert ServesBody(lib, q, old(db.st), db.st);
    c' := c'.(outgoing := c'.outgoing + Codec.U32(|resp.buf|));
    c' := c'.(outgoing := c'.outgoing + resp.buf);
    Codec.Reassociate(c.outgoing, Codec.U32(|resp.buf|), resp.buf);
    c' := c'.(incoming := c'.incoming[4 + len..]);
    more := true;
  }

  /** The i-th request of a read takes the i-th pair of clock readings. */
  ghost predicate Timed(qs: seq<Served>, clk: nat -> (nat, nat)) { forall i :: 0 <= i < |qs| ==> qs[i].t == clk(i) }

  ghost predicate Below63(clk: nat -> (nat, nat)) { forall i: nat :: clk(i).0 < TWO63 && clk(i).1 < TWO63 }

  /** ServingBody, unfolded by Shown. */
  ghost predicate Serving(lib: Lib, clk: nat -> (nat, nat), c0: Conn, st0: Store, c: Conn, st: Store, qs: seq<Served>) {
    forall z {:trigger Shown(z)} :: Shown(z) ==> ServingBody(lib, clk, c0, st0, c, st, qs)
  }

  /** Part way through the loop of handle_read: these requests are executed, and c is what c0 has become. */
  ghost predicate ServingBody(lib: Lib, clk: nat -> (nat, nat), c0: Conn, st0: Store, c: Conn, st: Store,
      qs: seq<Served>) {
    && Framing.Drain(c0.incoming) == Framing.Resume(Bodies(qs), c.incoming)
    && ServesAll(lib, qs, st0, st) && Timed(qs, clk)
    && c == c0.(incoming := c.incoming, outgoing := c0.outgoing + Answer(qs))
  }

  lemma {:induction false} ServingStart(lib: Lib, clk: nat -> (nat, nat), c: Conn, st: Store)
    ensures Serving(lib, clk, c, st, c, st, [])
  {
    assert Framing.Resume([], c.incoming) == Framing.Drain(c.incoming) && c.outgoing + [] == c.outgoing;
  }

  lemma {:induction false} ServingIs(lib: Lib, clk: nat -> (nat, nat), c0: Conn, st0: Store, c: Conn, st: Store,
      qs: seq<Served>)
    requires Serving(lib, clk, c0, st0, c, st, qs)
    ensures ServingBody(lib, clk, c0, st0, c, st, qs)
  {
    assert Shown(0);
  }

  lemma {:induction false} ServingWhen(lib: Lib, clk: nat -> (nat, nat), c0: Conn, st0: Store, c: Conn, st: Store,
      qs: seq<Served>)
    requires ServingBody(lib, clk, c0, st0, c, st, qs)
    ensures Serving(lib, clk, c0, st0, c, st, qs)
  {}

  lemma {:induction false} ServingStep(lib: Lib, clk: nat -> (nat, nat), c0: Conn, st0: Store, c: Conn, st: Store,
      qs: seq<Served>, q: Served, st': Store)
    requires Serving(lib, clk, c0, st0, c, st, qs) && Framing.NextFrame(c.incoming).Whole?
    requires q.body == Framing.NextFrame(c.incoming).body && q.t == clk(|qs|) && Serves(lib, q, st, st')
    ensures Serving(lib, clk, c0, st0, Answered(c, Framing.NextFrame(c.incoming).rest, q.reply), st', qs + [q])
  {
    var f := Framing.NextFrame(c.incoming);
    ServingIs(lib, clk, c0, st0, c, st, qs);
    Framing.ResumeOne(Bodies(qs), c.incoming);
    assert Bodies(qs + [q]) == Bodies(qs) + [f.body];
    ServesMore(lib, qs, q, st0, st, st');
    AnswerMore(qs, q);
    Codec.Reassociate(c0.outgoing, Answer(qs), Framing.Frame(Codec.Encode(q.reply)));
    ServingWhen(lib, clk, c0, st0, Answered(c, f.rest, q.reply), st', qs + [q]);
  }

  /** No complete frame is left: the whole buffer has been served. */
  lemma {:induction false} ServingEnd(lib: Lib, clk: nat -> (nat, nat), c0: Conn, st0: Store, c: Conn, st: Store,
      qs: seq<Served>)
    requires Serving(lib, clk, c0, st0, c, st, qs) && !Framing.NextFrame(c.incoming).Whole?
    ensures ServesAll(lib, qs, st0, st) && Timed(qs, clk)
    ensures var d := Framing.Drain(c0.incoming);
      && Bodies(qs) == d.frames && d.oversized == (Framing.NextFrame(c.incoming) == Framing.Oversized)
      && c == c0.(incoming := d.rest, outgoing := c0.outgoing + Answer(qs))
  {
    assert Shown(0);
    assert Bodies(qs) + [] == Bodies(qs);
  }

  /** while(try_one_request(c)){}: every complete request in the buffer is executed, in order. */
  method ServeBuffered(db: Database, c0: Conn, lib: Lib, clk: nat -> (nat, nat))
    returns (c: Conn, ghost qs: seq<Served>)
    requires db.Valid() && Below63(clk) && !c0.wantClose
    modifies db, db.dict, db.ttl, db.repr
    ensures db.Valid() && fresh(db.repr - old(db.repr))
    ensures ServesAll(lib, qs, old(db.st), db.st) && Timed(qs, clk)
    ensures var d := Framing.Drain(c0.incoming);
      && Bodies(qs) == d.frames
      && c == c0.(incoming := d.rest, outgoing := c0.outgoing + Answer(qs), wantClose := d.oversized)
  {
    c, qs := c0, [];
    var n := 0;
    ServingStart(lib, clk, c0, db.st);
    while true
      invariant db.Valid() && fresh(db.repr - old(db.repr)) && n == |qs|
      invariant Serving(lib, clk, c0, old(db.st), c, db.st, qs)
      decreases |c.incoming|
    {
      ghost var st := db.st;
      var c', more, q := TryOneRequest(db, c, lib, clk(n));
      if !more {
        ServingEnd(lib, clk, c0, old(db.st), c, db.st, qs);
        c := c';
        return;
      }
      ServingStep(lib, clk, c0, old(db.st), c, st, qs, q, db.st);
      Framing.ResumeOne([], c.incoming);
      c, qs, n := c', qs + [q], n + 1;
    }
  }

  /** What ::read reports: EAGAIN, end of stream or an error, or some bytes. */
  datatype Arrival = NotYet | Hangup | Data(bytes: Bytes)

  /** What ::write reports: EAGAIN, an error, or how many bytes the socket could take. */
  datatype Sent = Blocked | Broken | Took(room: nat)

  ghost function NewBytes(a: Arrival): Bytes { if a.Data? then a.bytes else [] }

  /** c0 after a read: the new bytes are cut into frames, each is executed and its reply queued, and c is fit to stay
      open unless it is to be closed. */
  ghost predicate Heard(c0: Conn, bytes: Bytes, c: Conn, qs: seq<Served>) {
    var d := Framing.Drain(c0.incoming + bytes);
    && c.lastActive == c0.lastActive && (!c.wantClose ==> Quiet(c) && !d.oversized)
    && c.incoming == d.rest && Bodies(qs) == d.frames && c.outgoing == c0.outgoing + Answer(qs)
  }

  /** handle_read */
  method HandleRead(db: Database, c0: Conn, a: Arrival, lib: Lib, clk: nat -> (nat, nat))
    returns (c: Conn, ghost qs: seq<Served>)
    requires db.Valid() && Below63(clk) && Quiet(c0)
    modifies db, db.dict, db.ttl, db.repr
    ensures db.Valid() && fresh(db.repr - old(db.repr))
    ensures Heard(c0, NewBytes(a), c, qs) && ServesAll(lib, qs, old(db.st), db.st) && Timed(qs, clk)
    ensures c.wantClose == (a.Hangup? || Framing.Drain(c0.incoming + NewBytes(a)).oversized)
  {
    c, qs := c0, [];
    if !a.Data? {
      assert c0.incoming + [] == c0.incoming && c0.outgoing + [] == c0.outgoing;
      if a.Hangup? { c := c.(wantClose := true); }
      return;
    }
    c := c.(incoming := c.incoming + a.bytes);
    Framing.DrainSound(c.incoming);
    c, qs := ServeBuffered(db, c, lib, clk);
    if c.outgoing != [] { c := c.(wantRead := false, wantWrite := true); }
  }

  /** handle_write */
  method HandleWrite(c0: Conn, w: Sent) returns (c: Conn, out: Bytes)
    ensures c == c0.(outgoing := c.outgoing, wantRead := c.wantRead, wantWrite := c.wantWrite, wantClose := c.wantClose)
    ensures c0.outgoing == out + c.outgoing
    ensures c.wantClose == (c0.wantClose || (c0.outgoing != [] && w.Broken?))
    ensures Quiet(c0) && !c.wantClose ==> Quiet(c)
    ensures |out| == if w.Took? then Min(w.room, |c0.outgoing|) else 0
  {
    c, out := c0, [];
    if c.outgoing == [] { return; }
    if w.Blocked? { return; }
    if w.Broken? { c := c.(wantClose := true); return; }
    var rv := Min(w.room, |c.outgoing|);
    out := c.outgoing[..rv];
    c := c.(outgoing := c.outgoing[rv..]);
    if c.outgoing == [] { c := c.(wantRead := true, wantWrite := false); }
  }

  // ---- a whole stream in chunks ----

  /** A run of handle_read on one connection, until it is to be closed: whatever the chunks, the requests executed, the
      replies appended and the bytes left over are those of the whole stream up to its first oversized header. */
  method ReadAll(db: Database, c0: Conn, chunks: seq<Bytes>, lib: Lib, clks: seq<nat -> (nat, nat)>)
    returns (c: Conn, ghost qs: seq<Served>)
    requires db.Valid() && Quiet(c0) && |clks| == |chunks| && forall i :: 0 <= i < |clks| ==> Below63(clks[i])
    modifies db, db.dict, db.ttl, db.repr
    ensures db.Valid() && fresh(db.repr - old(db.repr)) && ServesAll(lib, qs, old(db.st), db.st)
    ensures c.outgoing == c0.outgoing + Answer(qs) && (!c.wantClose ==> Quiet(c))
    ensures Framing.Feed(c0.incoming, chunks) == Framing.Drained(Bodies(qs), c.incoming, c.wantClose)
    ensures var d := Framing.Drain(c0.incoming + Framing.Concat(chunks));
      && Bodies(qs) == d.frames && c.wantClose == d.oversized
      && c.incoming <= d.rest && (!d.oversized ==> c.incoming == d.rest)
    decreases |chunks|
  {
    Framing.ChunkingInvisible(c0.incoming, chunks);
    if chunks == [] {
      assert c0.outgoing + [] == c0.outgoing;
      return c0, [];
    }
    c, qs := HandleRead(db, c0, Data(chunks[0]), lib, clks[0]);
    if c.wantClose { return; }
    ghost var c1, qs1, st1 := c, qs, db.st;
    ghost var rs;
    c, rs := ReadAll(db, c, chunks[1..], lib, clks[1..]);
    qs := qs1 + rs;
    ServesConcat(lib, qs1, rs, old(db.st), st1, db.st);
    BodiesConcat(qs1, rs);
    AnswerConcat(qs1, rs);
    Codec.Reassociate(c0.outgoing, Answer(qs1), Answer(rs));
  }
}

/** src/server/command.cpp: one handler per verb. Each appends exactly one encoded value to the
    response buffer and takes the database from one abstract store to the next as Store.Exec says. */
module Commands {
  import opened Base
  import opened Pairs
  import opened Store
  import opened Database
  import Codec
  import Zs = ZSet
  import Avl

  /** The handlers' common footing: a valid database, a buffer apart from it, and clock readings below 2^63. */
  ghost predicate Ready(db: Database, out: Codec.Out, t1: nat, t2: nat)
    reads db, db.dict, db.ttl, db.repr
  {
    db.Valid() && out !in db.repr && t1 < TWO63 && t2 < TWO63
  }

  /** Mentioning Shown unfolds the predicates below that quantify over it. */
  ghost predicate Shown(z: int) { true }

  /** The command took the store from st to st', and its one reply was appended. */
  ghost predicate Executed(st: Store, key: Bytes, cmd: Cmd, t1: nat, t2: nat, st': Store, buf: Bytes, buf': Bytes)
    requires CmdOk(cmd)
  {
    forall z {:trigger Shown(z)} :: Shown(z) ==>
      var (end, reply) := Exec(st, key, cmd, t1, t2); st' == end && buf' == buf + Codec.Encode(reply)
  }

  /** What every keyed handler promises. */
  twostate predicate Done(db: Database, out: Codec.Out, key: Bytes, cmd: Cmd, t1: nat, t2: nat)
    requires CmdOk(cmd)
    reads db, db.dict, db.ttl, db.repr, out
  {
    && Ready(db, out, t1, t2) && fresh(db.repr - old(db.repr))
    && Executed(old(db.st), key, cmd, t1, t2, db.st, old(out.buf), out.buf)
  }

  /** The record of a key, whatever the time. */
  ghost function RecOf(st: Store, key: Bytes): Option<Rec> { if key in st then Some(st[key]) else None }

  /** lookup_entry's answer: the entry of a key that is present, or NULL. */
  ghost predicate Found(db: Database, key: Bytes, p: Ptr)
    reads db, db.dict
  {
    if key in db.st then p != NULL && p in db.dict.Entries() && key in db.who && db.who[key] == p else p == NULL
  }

  /** The command's effect on a store where its key, if present, is live. */
  ghost predicate ActedOn(st: Store, key: Bytes, cmd: Cmd, now: nat, st': Store, buf: Bytes, buf': Bytes)
    requires CmdOk(cmd) && BadArg(cmd) == None
  {
    forall z {:trigger Shown(z)} :: Shown(z) ==>
      var (r, reply) := Act(RecOf(st, key), cmd, now); st' == Assign(st, key, r) && buf' == buf + Codec.Encode(reply)
  }

  /** What a handler does once its key has been looked up. */
  twostate predicate Acted(db: Database, out: Codec.Out, key: Bytes, cmd: Cmd, now: nat)
    requires CmdOk(cmd) && BadArg(cmd) == None
    reads db, db.dict, db.ttl, db.repr, out
  {
    && Ready(db, out, now, now) && fresh(db.repr - old(db.repr))
    && ActedOn(old(db.st), key, cmd, now, db.st, old(out.buf), out.buf)
  }

  /** Expiring the key and then acting on what is left is executing the command. */
  lemma {:induction false} Looked(st: Store, key: Bytes, cmd: Cmd, t1: nat, t2: nat, st1: Store, st2: Store,
      buf: Bytes, buf': Bytes)
    requires CmdOk(cmd) && BadArg(cmd) == None && st1 == Assign(st, key, LiveRec(st, key, t1))
    requires ActedOn(st1, key, cmd, t2, st2, buf, buf')
    ensures Executed(st, key, cmd, t1, t2, st2, buf, buf')
  {
    assert Shown(0);
    var r := LiveRec(st, key, t1);
    AssignAgain(st, key, r, Act(r, cmd, t2).0);
  }

  /** Putting back what is there changes nothing. */
  lemma {:induction false} AssignSame(st: Store, key: Bytes)
    ensures Assign(st, key, RecOf(st, key)) == st
  {}

  method DoGet(db: Database, out: Codec.Out, key: Bytes, t1: nat, t2: nat)
    requires Ready(db, out, t1, t2)
    modifies db, db.dict, db.ttl, db.repr, out
    ensures Done(db, out, key, Get, t1, t2)
  {
    var p := db.LookupEntry(key, t1);
    ghost var st1 := db.st;
    AssignSame(db.st, key);
    if p == NULL {
      out.OutNil();
    } else {
      db.Holds(key, p);
      match db.ents[p].val {
        case PZset(_) => out.OutErr(WRONG_TYPE.code, WRONG_TYPE.msg);
        case PStr(s) => out.OutStr(s);
      }
    }
    Looked(old(db.st), key, Get, t1, t2, st1, db.st, old(out.buf), out.buf);
  }

  /** do_set behind its lookup: an old string is replaced and loses its TTL. */
  method SetFound(db: Database, out: Codec.Out, key: Bytes, p: Ptr, str: Bytes, now: nat)
    requires Ready(db, out, now, now) && Found(db, key, p)
    modifies db, db.dict, db.ttl, out
    ensures Acted(db, out, key, Set(str), now)
  {
    if p != NULL {
      db.Holds(key, p);
      AssignSame(db.st, key);
      if db.ents[p].val.PZset? {
        out.OutErr(WRONG_TYPE.code, WRONG_TYPE.msg);
        return;
      }
      db.Overwrite(p, str);
      db.SetTtl(p, -1, now);
    } else {
      var q := db.AddEntry(key, PStr(str));
    }
    assert db.st == old(db.st)[key := Rec(Str(str), None)];
    out.OutNil();
  }

  method DoSet(db: Database, out: Codec.Out, key: Bytes, str: Bytes, t1: nat, t2: nat)
    requires Ready(db, out, t1, t2)
    modifies db, db.dict, db.ttl, db.repr, out
    ensures Done(db, out, key, Set(str), t1, t2)
  {
    var p := db.LookupEntry(key, t1);
    ghost var st1 := db.st;
    SetFound(db, out, key, p, str, t2);
    Looked(old(db.st), key, Set(str), t1, t2, st1, db.st, old(out.buf), out.buf);
  }

  method DoDel(db: Database, out: Codec.Out, key: Bytes, t1: nat, t2: nat)
    requires Ready(db, out, t1, t2)
    modifies db, db.dict, db.ttl, db.repr, out
    ensures Done(db, out, key, Del, t1, t2)
  {
    var p := db.LookupEntry(key, t1);
    ghost var st1 := db.st;
    AssignSame(db.st, key);
    if p != NULL {
      db.Holds(key, p);
      db.DropEntry(p, false, t2);
    }
    out.OutInt(if p != NULL then 1 else 0);
    Looked(old(db.st), key, Del, t1, t2, st1, db.st, old(out.buf), out.buf);
  }

  /** do_expire behind its lookup, on a key that is there: a count that is not positive deletes it. */
  method ExpireFound(db: Database, out: Codec.Out, key: Bytes, p: Ptr, n: Int64, unitMs: int, now: nat)
    requires Ready(db, out, now, now) && Found(db, key, p) && p != NULL && (unitMs == 1 || unitMs == 1000)
    modifies db, db.dict, db.ttl, out
    ensures Acted(db, out, key, Expire(Some(n), unitMs), now)
  {
    db.Holds(key, p);
    if n <= 0 {
      db.DropEntry(p, false, now);
    } else {
      var m := n as int;
      if m > MaxCount(unitMs) { m := MaxCount(unitMs); }
      assert m * unitMs == TtlMs(n as int, unitMs);
      db.SetTtl(p, m * unitMs, now);
    }
    out.OutInt(1);
  }

  method DoExpire(db: Database, out: Codec.Out, key: Bytes, n: Option<Int64>, unitMs: int, t1: nat, t2: nat)
    requires Ready(db, out, t1, t2) && (unitMs == 1 || unitMs == 1000)
    modifies db, db.dict, db.ttl, db.repr, out
    ensures Done(db, out, key, Expire(n, unitMs), t1, t2)
  {
    if n == None {
      out.OutErr(NOT_INT.code, NOT_INT.msg);
      return;
    }
    var p := db.LookupEntry(key, t1);
    ghost var st1 := db.st;
    AssignSame(db.st, key);
    if p == NULL {
      out.OutInt(0);
      assert ActedOn(st1, key, Expire(n, unitMs), t2, db.st, old(out.buf), out.buf);
    } else {
      ExpireFound(db, out, key, p, n.value, unitMs, t2);
    }
    Looked(old(db.st), key, Expire(n, unitMs), t1, t2, st1, db.st, old(out.buf), out.buf);
  }

  /** do_ttl behind its lookup: -2 for no key, -1 for no TTL, else what remains, in seconds rounded up. */
  method TtlFound(db: Database, out: Codec.Out, key: Bytes, p: Ptr, inMs: bool, now: nat)
    requires Ready(db, out, now, now) && Found(db, key, p)
    modifies out
    ensures Acted(db, out, key, Ttl(inMs), now)
  {
    AssignSame(db.st, key);
    var answer := -2;
    if p != NULL {
      db.Holds(key, p);
      var due := db.Deadline(p);
      if due == None {
        answer := -1;
      } else {
        var rem := if due.value > now then due.value - now else 0;
        answer := if inMs then rem else (rem + 999) / 1000;
      }
    }
    out.OutInt(answer);
  }

  method DoTtl(db: Database, out: Codec.Out, key: Bytes, inMs: bool, t1: nat, t2: nat)
    requires Ready(db, out, t1, t2)
    modifies db, db.dict, db.ttl, db.repr, out
    ensures Done(db, out, key, Ttl(inMs), t1, t2)
  {
    var p := db.LookupEntry(key, t1);
    ghost var st1 := db.st;
    TtlFound(db, out, key, p, inMs, t2);
    Looked(old(db.st), key, Ttl(inMs), t1, t2, st1, db.st, old(out.buf), out.buf);
  }

  method DoPersist(db: Database, out: Codec.Out, key: Bytes, t1: nat, t2: nat)
    requires Ready(db, out, t1, t2)
    modifies db, db.dict, db.ttl, db.repr, out
    ensures Done(db, out, key, Persist, t1, t2)
  {
    var p := db.LookupEntry(key, t1);
    ghost var st1 := db.st;
    AssignSame(db.st, key);
    var due: Option<nat> := None;
    if p != NULL {
      db.Holds(key, p);
      due := db.Deadline(p);
    }
    if due == None {
      out.OutInt(0);
    } else {
      db.SetTtl(p, -1, t2);
      out.OutInt(1);
    }
    Looked(old(db.st), key, Persist, t1, t2, st1, db.st, old(out.buf), out.buf);
  }

  /** expect_zset: the entry, or NULL after the WRONGTYPE error, or NULL and missing. */
  method ExpectZset(db: Database, out: Codec.Out, key: Bytes, t1: nat, t2: nat) returns (p: Ptr, missing: bool)
    requires Ready(db, out, t1, t2)
    modifies db, db.dict, db.ttl, out
    ensures Ready(db, out, t1, t2) && db.repr == old(db.repr) && db.ents == old(db.ents)
    ensures db.st == Assign(old(db.st), key, LiveRec(old(db.st), key, t1)) && (!missing ==> db.who == old(db.who))
    ensures missing <==> key !in db.st
    ensures p != NULL ==> Found(db, key, p) && key in db.st && db.st[key].value.Zset?
    ensures p == NULL && !missing ==> db.st[key].value.Str?
    ensures p == NULL && !missing ==> out.buf == old(out.buf) + Codec.Encode(WRONG_TYPE)
    ensures p != NULL || missing ==> out.buf == old(out.buf)
  {
    p := db.LookupEntry(key, t1);
    missing := p == NULL;
    if p != NULL {
      db.Holds(key, p);
      if db.ents[p].val.PStr? {
        out.OutErr(WRONG_TYPE.code, WRONG_TYPE.msg);
        p := NULL;
      }
    }
  }

  /** A sorted-set command on a string key answers WRONGTYPE and changes nothing. */
  lemma {:induction false} NotASet(st: Store, key: Bytes, cmd: Cmd, now: nat, buf: Bytes, buf': Bytes)
    requires BadArg(cmd) == None && (cmd.ZAdd? || cmd.ZRem? || cmd.ZScore? || cmd.ZQuery?)
    requires key in st && st[key].value.Str? && buf' == buf + Codec.Encode(WRONG_TYPE)
    ensures ActedOn(st, key, cmd, now, st, buf, buf')
  {
    AssignSame(st, key);
  }

  /** On a missing key all of them but ZADD answer as if the set were empty. */
  lemma {:induction false} NoSet(st: Store, key: Bytes, cmd: Cmd, now: nat, buf: Bytes, buf': Bytes)
    requires BadArg(cmd) == None && (cmd.ZRem? || cmd.ZScore? || cmd.ZQuery?) && key !in st
    requires var none := if cmd.ZRem? then Codec.Int(0) else if cmd.ZScore? then Codec.Nil else Codec.Arr([]);
      buf' == buf + Codec.Encode(none)
    ensures ActedOn(st, key, cmd, now, st, buf, buf')
  {
    AssignSame(st, key);
  }

  /** The end of do_zadd: insert into the entry's set and answer 1 for a new pair, 0 for an update. */
  method AddPair(db: Database, out: Codec.Out, key: Bytes, p: Ptr, score: Score, name: Bytes, ghost now: nat)
    requires Ready(db, out, now, now) && Found(db, key, p) && key in db.st && db.st[key].value.Zset?
    modifies db`st, db.repr, out
    ensures Acted(db, out, key, ZAdd(Some(score), name), now)
  {
    db.Holds(key, p);
    var added := db.ZPut(p, name, score);
    out.OutInt(if added then 1 else 0);
  }

  /** do_zadd on a missing key: the first pair creates the set. */
  method NewSet(db: Database, out: Codec.Out, key: Bytes) returns (p: Ptr)
    requires Ready(db, out, 0, 0) && key !in db.st
    modifies db, db.dict, db.ttl
    ensures Ready(db, out, 0, 0) && fresh(db.repr - old(db.repr))
    ensures db.st == old(db.st)[key := Rec(Zset([]), None)] && Found(db, key, p)
  {
    var z := new Zs.ZSet(db.hash);
    p := db.AddEntry(key, PZset(z));
  }

  /** A pair added to a missing key's new, empty set is what ZADD does to a missing key. */
  lemma {:induction false} FirstPair(st: Store, key: Bytes, score: Score, name: Bytes, now: nat, st1: Store,
      st2: Store, buf: Bytes, buf': Bytes)
    requires key !in st && st1 == st[key := Rec(Zset([]), None)]
    requires ActedOn(st1, key, ZAdd(Some(score), name), now, st2, buf, buf')
    ensures ActedOn(st, key, ZAdd(Some(score), name), now, st2, buf, buf')
  {
    assert Shown(0);
  }

  /** do_zadd behind its lookup. */
  method AddFound(db: Database, out: Codec.Out, key: Bytes, p: Ptr, score: Score, name: Bytes, ghost now: nat)
    requires Ready(db, out, now, now) && Found(db, key, p) && (key in db.st ==> db.st[key].value.Zset?)
    modifies db, db.dict, db.ttl, db.repr, out
    ensures Acted(db, out, key, ZAdd(Some(score), name), now)
  {
    if p == NULL {
      var q := NewSet(db, out, key);
      ghost var st1 := db.st;
      AddPair(db, out, key, q, score, name, now);
      FirstPair(old(db.st), key, score, name, now, st1, db.st, old(out.buf), out.buf);
    } else {
      AddPair(db, out, key, p, score, name, now);
    }
  }

  method DoZAdd(db: Database, out: Codec.Out, key: Bytes, score: Option<Score>, name: Bytes, t1: nat, t2: nat)
    requires Ready(db, out, t1, t2)
    modifies db, db.dict, db.ttl, db.repr, out
    ensures Done(db, out, key, ZAdd(score, name), t1, t2)
  {
    if score == None {
      out.OutErr(NOT_FLOAT.code, NOT_FLOAT.msg);
      return;
    }
    var p, missing := ExpectZset(db, out, key, t1, t2);
    ghost var st1 := db.st;
    if p == NULL && !missing {
      NotASet(st1, key, ZAdd(score, name), t2, old(out.buf), out.buf);
    } else {
      AddFound(db, out, key, p, score.value, name, t2);
    }
    Looked(old(db.st), key, ZAdd(score, name), t1, t2, st1, db.st, old(out.buf), out.buf);
  }

  /** The end of do_zrem: remove the pair if there is one. */
  method RemovePair(db: Database, out: Codec.Out, key: Bytes, p: Ptr, name: Bytes, ghost now: nat)
    requires Ready(db, out, now, now) && Found(db, key, p) && key in db.st && db.st[key].value.Zset?
    modifies db`st, db.repr, out
    ensures Acted(db, out, key, ZRem(name), now)
  {
    db.Holds(key, p);
    AssignSame(db.st, key);
    var z := db.ZFind(p, name);
    if z != NULL { db.ZTake(p, z, name); }
    out.OutInt(if z != NULL then 1 else 0);
  }

  method DoZRem(db: Database, out: Codec.Out, key: Bytes, name: Bytes, t1: nat, t2: nat)
    requires Ready(db, out, t1, t2)
    modifies db, db.dict, db.ttl, db.repr, out
    ensures Done(db, out, key, ZRem(name), t1, t2)
  {
    var p, missing := ExpectZset(db, out, key, t1, t2);
    ghost var st1 := db.st;
    if p == NULL && !missing {
      NotASet(st1, key, ZRem(name), t2, old(out.buf), out.buf);
    } else if p == NULL {
      out.OutInt(0);
      NoSet(st1, key, ZRem(name), t2, old(out.buf), out.buf);
    } else {
      RemovePair(db, out, key, p, name, t2);
    }
    Looked(old(db.st), key, ZRem(name), t1, t2, st1, db.st, old(out.buf), out.buf);
  }

  /** The end of do_zscore. */
  method ScoreOf(db: Database, out: Codec.Out, key: Bytes, p: Ptr, name: Bytes, ghost now: nat)
    requires Ready(db, out, now, now) && Found(db, key, p) && key in db.st && db.st[key].value.Zset?
    modifies db.repr, out
    ensures Acted(db, out, key, ZScore(name), now)
  {
    db.Holds(key, p);
    AssignSame(db.st, key);
    var z := db.ZFind(p, name);
    if z != NULL {
      out.OutDbl(Zs.Get(db.ents[p].val.z.data, z).score);
    } else {
      out.OutNil();
    }
  }

  method DoZScore(db: Database, out: Codec.Out, key: Bytes, name: Bytes, t1: nat, t2: nat)
    requires Ready(db, out, t1, t2)
    modifies db, db.dict, db.ttl, db.repr, out
    ensures Done(db, out, key, ZScore(name), t1, t2)
  {
    var p, missing := ExpectZset(db, out, key, t1, t2);
    ghost var st1 := db.st;
    if p == NULL && !missing {
      NotASet(st1, key, ZScore(name), t2, old(out.buf), out.buf);
    } else if p == NULL {
      out.OutNil();
      NoSet(st1, key, ZScore(name), t2, old(out.buf), out.buf);
    } else {
      ScoreOf(db, out, key, p, name, t2);
    }
    Looked(old(db.st), key, ZScore(name), t1, t2, st1, db.st, old(out.buf), out.buf);
  }

  /** One turn of do_zquery's loop body: a name and a score. */
  method EmitPair(out: Codec.Out, pair: Pair, ghost pre: Bytes, ghost ps: Pairs)
    requires out.buf == pre + Codec.EncodeAll(Flat(ps))
    modifies out
    ensures out.buf == pre + Codec.EncodeAll(Flat(ps + [pair]))
  {
    ghost var e := Codec.EncodeAll(Flat(ps));
    ghost var a, d := Codec.Encode(Codec.Str(pair.name)), Codec.Encode(Codec.Dbl(pair.score));
    out.OutStr(pair.name);
    out.OutDbl(pair.score);
    FlatAppend(ps, pair);
    Codec.EncodeAllConcat(Flat(ps), [Codec.Str(pair.name), Codec.Dbl(pair.score)]);
    Codec.EncodeTwo(Codec.Str(pair.name), Codec.Dbl(pair.score));
    Codec.Reassociate(pre + e, a, d);
    Codec.Reassociate(pre, e, a + d);
  }

  /** Some pairs of a set, no more than a limit allows. */
  ghost predicate Picks(ps: Pairs, all: Pairs, limit: int) {
    2 * |ps| <= Max(limit, 0) + 1 && forall i :: 0 <= i < |ps| ==> ps[i] in all
  }

  /** Part way through do_zquery's loop: the pairs emitted are those from place start on, and node is the next one. If
      the rank walks are not exact, the pairs and the node are just some of the set's. */
  ghost predicate Emitting(exact: bool, all: Pairs, order: seq<Ptr>, start: int, limit: int, ps: Pairs, node: Ptr) {
    forall z {:trigger Shown(z)} :: Shown(z) ==> EmittingBody(exact, all, order, start, limit, ps, node)
  }

  ghost predicate EmittingBody(exact: bool, all: Pairs, order: seq<Ptr>, start: int, limit: int, ps: Pairs,
      node: Ptr) {
    && Picks(ps, all, limit) && (node == NULL || node in order)
    && (exact ==>
         && (!(0 <= start < |all|) ==> ps == [] && node == NULL)
         && (0 <= start < |all| ==>
              var k := start + |ps|; k <= |all| && ps == all[start..k] && node == Avl.At(order, k)))
  }

  lemma {:induction false} EmitStart(exact: bool, all: Pairs, order: seq<Ptr>, start: int, limit: int, node: Ptr)
    requires |order| == |all| && node == Avl.At(order, start) && limit > 0
    ensures Emitting(exact, all, order, start, limit, [], node)
  {}

  /** The place k of the node in hand. */
  lemma {:induction false} EmitNext(exact: bool, all: Pairs, order: seq<Ptr>, start: int, limit: int, ps: Pairs,
      node: Ptr)
    returns (k: nat)
    requires |order| == |all| && (forall i :: 0 <= i < |order| ==> order[i] != NULL)
    requires Emitting(exact, all, order, start, limit, ps, node) && node != NULL && 2 * |ps| < limit
    ensures k < |all| && node == order[k] == Avl.At(order, k) && (exact ==> k == start + |ps|)
  {
    assert Shown(0);
    if exact {
      k := start + |ps|;
    } else {
      k :| 0 <= k < |order| && order[k] == node;
    }
  }

  lemma {:induction false} EmitOn(exact: bool, all: Pairs, order: seq<Ptr>, start: int, limit: int, ps: Pairs,
      node: Ptr, k: nat, next: Ptr)
    requires |order| == |all| && k < |all| && node != NULL && 2 * |ps| < limit && (exact ==> k == start + |ps|)
    requires Emitting(exact, all, order, start, limit, ps, node)
    requires (next == NULL || next in order) && (exact ==> next == Avl.At(order, k + 1))
    ensures Emitting(exact, all, order, start, limit, ps + [all[k]], next)
  {
    assert Shown(0);
    if exact { assert all[start..k] + [all[k]] == all[start..k + 1]; }
  }

  lemma {:induction false} EmitEnd(exact: bool, all: Pairs, order: seq<Ptr>, start: int, limit: int, ps: Pairs,
      node: Ptr)
    requires |order| == |all| && (forall i :: 0 <= i < |order| ==> order[i] != NULL) && limit > 0
    requires Emitting(exact, all, order, start, limit, ps, node) && (node == NULL || 2 * |ps| >= limit)
    ensures Picks(ps, all, limit)
    ensures exact ==>
      ps == if 0 <= start < |all| then all[start..start + Min(|all| - start, (limit + 1) / 2)] else []
  {
    assert Shown(0);
  }

  /** buf is pre and the pairs written behind it. Unfolded by Shown. */
  ghost predicate Written(pre: Bytes, ps: Pairs, buf: Bytes) {
    forall z {:trigger Shown(z)} :: Shown(z) ==> buf == pre + Codec.EncodeAll(Flat(ps))
  }

  lemma {:induction false} WrittenIs(pre: Bytes, ps: Pairs, buf: Bytes)
    requires Written(pre, ps, buf)
    ensures buf == pre + Codec.EncodeAll(Flat(ps))
  {
    assert Shown(0);
  }

  lemma {:induction false} WrittenNone(pre: Bytes)
    ensures Written(pre, [], pre)
  {
    assert pre + [] == pre;
  }

  /** The body of do_zquery's loop, at place k of the listing. */
  method EmitStep(z: Zs.ZSet, out: Codec.Out, node: Ptr, ghost k: nat, ghost pre: Bytes, ghost ps: Pairs)
    returns (next: Ptr)
    requires z.Valid() && k < |z.Listing()| && node != NULL && node == Avl.At(Zs.Order(z), k)
    requires Written(pre, ps, out.buf)
    modifies out
    ensures Written(pre, ps + [z.Listing()[k]], out.buf) && (next == NULL || next in Zs.Order(z))
    ensures z.Counted() ==> next == Avl.At(Zs.Order(z), k + 1)
  {
    z.OrderFacts();
    WrittenIs(pre, ps, out.buf);
    EmitPair(out, Zs.Get(z.data, node), pre, ps);
    next := z.Offset(node, 1, k);
  }

  /** do_zquery's loop from a node at place start of the listing: counts elements by two. */
  method EmitPairs(z: Zs.ZSet, out: Codec.Out, first: Ptr, limit: Int64, ghost start: int)
    returns (n: nat, ghost ps: Pairs)
    requires z.Valid() && limit > 0 && first == Avl.At(Zs.Order(z), start)
    modifies out
    ensures n == 2 * |ps| && out.buf == old(out.buf) + Codec.EncodeAll(Flat(ps))
    ensures Picks(ps, z.Listing(), limit as int)
    ensures var all := z.Listing(); z.Counted() ==>
      ps == if 0 <= start < |all| then all[start..start + Min(|all| - start, (limit as int + 1) / 2)] else []
    ensures first == NULL ==> ps == []
  {
    ghost var all, order := z.Listing(), Zs.Order(z);
    z.OrderFacts();
    var node := first;
    n, ps := 0, [];
    EmitStart(z.Counted(), all, order, start, limit as int, node);
    WrittenNone(out.buf);
    while node != NULL && n < limit as int
      invariant n == 2 * |ps| && Written(old(out.buf), ps, out.buf)
      invariant Emitting(z.Counted(), all, order, start, limit as int, ps, node)
      invariant first == NULL ==> node == NULL && ps == []
      decreases limit as int - n
    {
      ghost var k := EmitNext(z.Counted(), all, order, start, limit as int, ps, node);
      ghost var here := node;
      node := EmitStep(z, out, node, k, old(out.buf), ps);
      EmitOn(z.Counted(), all, order, start, limit as int, ps, here, k, node);
      n, ps := n + 2, ps + [all[k]];
    }
    EmitEnd(z.Counted(), all, order, start, limit as int, ps, node);
    WrittenIs(old(out.buf), ps, out.buf);
  }

  /** out_arr(out, 0) is a whole value. */
  method EmptyArr(out: Codec.Out)
    modifies out
    ensures out.buf == old(out.buf) + Codec.Encode(Codec.Arr([]))
  {
    out.OutArr(0);
    assert Codec.Encode(Codec.Arr([])) == [Codec.SER_ARR] + Codec.U32(0);
  }

  /** What ZQUERY answers once its key has been looked up: the slice of the listing, or some pairs of a set that has
      outgrown the 32-bit counts of its tree. */
  ghost predicate Queried(st: Store, key: Bytes, score: Score, name: Bytes, offset: Int64, limit: Int64, now: nat,
      reply: Codec.Value)
  {
    if key in st && st[key].value.Zset? && |st[key].value.ps| > TWO32 then
      exists ps :: Picks(ps, st[key].value.ps, limit as int) && reply == Codec.Arr(Flat(ps))
    else QueriedExactly(st, key, score, name, offset, limit, now, reply)
  }

  ghost predicate QueriedExactly(st: Store, key: Bytes, score: Score, name: Bytes, offset: Int64, limit: Int64,
      now: nat, reply: Codec.Value)
  {
    reply == Act(RecOf(st, key), ZQuery(Some(score), name, Some(offset), Some(limit)), now).1
  }

  /** The key's entry is a sorted set in which rank walks are exact. */
  ghost predicate Counts(db: Database, key: Bytes)
    reads db, db.repr
  {
    && key in db.who && db.who[key] < |db.ents| && db.ents[db.who[key]].val.PZset?
    && FootOf(db.ents[db.who[key]].val) <= db.repr && db.ents[db.who[key]].val.z.Counted()
  }

  /** The key's entry is a sorted set whose wrapped counts lose the pairs asked for. */
  ghost predicate Misses(db: Database, key: Bytes, score: Score, name: Bytes, offset: Int64)
    reads db, db.repr
  {
    && key in db.who && db.who[key] < |db.ents| && db.ents[db.who[key]].val.PZset?
    && FootOf(db.ents[db.who[key]].val) <= db.repr && db.ents[db.who[key]].val.z.Misses(score, name, offset)
  }

  /** do_zquery behind its lookup. */
  method QueryFound(db: Database, out: Codec.Out, key: Bytes, p: Ptr, score: Score, name: Bytes, offset: Int64,
      limit: Int64, ghost now: nat)
    returns (ghost reply: Codec.Value)
    requires Ready(db, out, now, now) && Found(db, key, p) && (key in db.st ==> db.st[key].value.Zset?)
    modifies out
    ensures out.buf == old(out.buf) + Codec.Encode(reply) && Queried(db.st, key, score, name, offset, limit, now, reply)
    ensures Counts(db, key) ==> QueriedExactly(db.st, key, score, name, offset, limit, now, reply)
    ensures Misses(db, key, score, name, offset) ==> reply == Codec.Arr([])
  {
    reply := Codec.Arr([]);
    if p == NULL {
      EmptyArr(out);
      return;
    }
    db.Holds(key, p);
    db.ents[p].val.z.CountedSizes();
    ghost var ps: Pairs := [];
    if limit <= 0 {
      EmptyArr(out);
    } else {
      ps := QuerySet(db.ents[p].val.z, out, score, name, offset, limit);
      reply := Codec.Arr(Flat(ps));
    }
    assert Picks(ps, db.st[key].value.ps, limit as int) && reply == Codec.Arr(Flat(ps));
  }

  /** do_zquery once its numbers have parsed. */
  method QueryKey(db: Database, out: Codec.Out, key: Bytes, score: Score, name: Bytes, offset: Int64, limit: Int64,
      t1: nat, t2: nat)
    returns (ghost reply: Codec.Value)
    requires Ready(db, out, t1, t2)
    modifies db, db.dict, db.ttl, out
    ensures Ready(db, out, t1, t2) && fresh(db.repr - old(db.repr)) && out.buf == old(out.buf) + Codec.Encode(reply)
    ensures db.st == Assign(old(db.st), key, LiveRec(old(db.st), key, t1))
    ensures Queried(db.st, key, score, name, offset, limit, t2, reply)
    ensures old(Counts(db, key)) ==> QueriedExactly(db.st, key, score, name, offset, limit, t2, reply)
    ensures old(Misses(db, key, score, name, offset)) ==> reply == Codec.Arr([])
  {
    var p, missing := ExpectZset(db, out, key, t1, t2);
    if p == NULL && !missing {
      db.Present(key);
      db.Holds(key, db.who[key]);
      reply := WRONG_TYPE;
    } else {
      reply := QueryFound(db, out, key, p, score, name, offset, limit, t2);
    }
  }

  /** Expiring the key and then querying what is left is answering the request. */
  lemma {:induction false} LookedQuery(st: Store, key: Bytes, score: Score, name: Bytes, offset: Int64, limit: Int64,
      t1: nat, t2: nat, reply: Codec.Value)
    requires var st1 := Assign(st, key, LiveRec(st, key, t1)); Queried(st1, key, score, name, offset, limit, t2, reply)
    ensures var q := Keyed(key, ZQuery(Some(score), name, Some(offset), Some(limit)));
      Answers(q, st, Assign(st, key, LiveRec(st, key, t1)), reply, t1, t2)
    ensures var cmd, st1 := ZQuery(Some(score), name, Some(offset), Some(limit)), Assign(st, key, LiveRec(st, key, t1));
      QueriedExactly(st1, key, score, name, offset, limit, t2, reply) ==>
        (st1, reply) == Exec(st, key, cmd, t1, t2)
  {
    assert RecOf(Assign(st, key, LiveRec(st, key, t1)), key) == LiveRec(st, key, t1);
  }

  /** There are pairs at the offset, so the answer to a positive limit should not be empty. */
  lemma {:induction false} MissedReply(db: Database, key: Bytes, score: Score, name: Bytes, offset: Int64,
      limit: Int64, t1: nat, t2: nat)
    requires db.Valid() && Misses(db, key, score, name, offset) && LiveRec(db.st, key, t1).Some? && limit > 0
    ensures Exec(db.st, key, ZQuery(Some(score), name, Some(offset), Some(limit)), t1, t2).1 != Codec.Arr([])
  {
    db.Present(key);
    db.Holds(key, db.who[key]);
    var z := db.ents[db.who[key]].val.z;
    assert db.st[key].value == Zset(z.Listing());
    var ps := Slice(z.Listing(), score, name, offset as int, limit as int);
    assert ps != [];
  }

  method DoZQuery(db: Database, out: Codec.Out, key: Bytes, score: Option<Score>, name: Bytes, offset: Option<Int64>,
      limit: Option<Int64>, t1: nat, t2: nat)
    returns (ghost reply: Codec.Value)
    requires Ready(db, out, t1, t2)
    modifies db, db.dict, db.ttl, db.repr, out
    ensures Ready(db, out, t1, t2) && fresh(db.repr - old(db.repr)) && out.buf == old(out.buf) + Codec.Encode(reply)
    ensures Answers(Keyed(key, ZQuery(score, name, offset, limit)), old(db.st), db.st, reply, t1, t2)
    ensures old(Counts(db, key)) ==>
      (db.st, reply) == Exec(old(db.st), key, ZQuery(score, name, offset, limit), t1, t2)
    ensures score.Some? && offset.Some? && limit.Some? && old(Misses(db, key, score.value, name, offset.value)) ==>
      reply == Codec.Arr([]) && (LiveRec(old(db.st), key, t1).Some? && limit.value > 0 ==>
        reply != Exec(old(db.st), key, ZQuery(score, name, offset, limit), t1, t2).1)
  {
    if score == None {
      reply := NOT_FLOAT;
      out.OutErr(NOT_FLOAT.code, NOT_FLOAT.msg);
      return;
    }
    if offset == None || limit == None {
      reply := NOT_INT;
      out.OutErr(NOT_INT.code, NOT_INT.msg);
      return;
    }
    if Misses(db, key, score.value, name, offset.value) && LiveRec(db.st, key, t1).Some? && limit.value > 0 {
      MissedReply(db, key, score.value, name, offset.value, limit.value, t1, t2);
    }
    reply := QueryKey(db, out, key, score.value, name, offset.value, limit.value, t1, t2);
    LookedQuery(old(db.st), key, score.value, name, offset.value, limit.value, t1, t2, reply);
  }

  lemma {:induction false} Sliced(all: Pairs, score: Score, name: Bytes, offset: int, limit: int, start: int, ps: Pairs)
    requires limit > 0 && start == (if SeekGe(all, score, name) == |all| then -1 else SeekGe(all, score, name) + offset)
    requires ps == if 0 <= start < |all| then all[start..start + Min(|all| - start, (limit + 1) / 2)] else []
    ensures ps == Slice(all, score, name, offset, limit)
  {}

  ghost function IndexOf(order: seq<Ptr>, node: Ptr): (k: nat)
    requires node in order
    ensures k < |order| && order[k] == node
  {
    var k :| 0 <= k < |order| && order[k] == node; k
  }

  /** The seek and the rank walk of do_zquery. */
  method QueryStart(z: Zs.ZSet, score: Score, name: Bytes, offset: Int64) returns (node: Ptr, ghost start: int)
    requires z.Valid()
    ensures node == Avl.At(Zs.Order(z), start)
    ensures var k := SeekGe(z.Listing(), score, name);
      && (z.Counted() ==> start == if k == |z.Listing()| then -1 else k + offset as int)
      && (z.Lost(k, offset as int) ==> node == NULL)
  {
    ghost var k := SeekGe(z.Listing(), score, name);
    z.OrderFacts();
    node := z.Seek(score, name);
    start := if node == NULL then -1 else k + offset as int;
    node := z.Offset(node, offset, k);
    if !z.Counted() { start := if node == NULL then -1 else IndexOf(Zs.Order(z), node); }
  }

  /** The array that do_zquery emits for a sorted set. */
  method QuerySet(z: Zs.ZSet, out: Codec.Out, score: Score, name: Bytes, offset: Int64, limit: Int64)
    returns (ghost ps: Pairs)
    requires z.Valid() && limit > 0
    modifies out
    ensures out.buf == old(out.buf) + Codec.Encode(Codec.Arr(Flat(ps))) && Picks(ps, z.Listing(), limit as int)
    ensures z.Counted() ==> ps == Slice(z.Listing(), score, name, offset as int, limit as int)
    ensures z.Lost(SeekGe(z.Listing(), score, name), offset as int) ==> ps == []
  {
    var node;
    ghost var start;
    node, start := QueryStart(z, score, name, offset);
    var ctx := out.BeginArr();
    var n;
    n, ps := EmitPairs(z, out, node, limit, start);
    if z.Counted() { Sliced(z.Listing(), score, name, offset as int, limit as int, start, ps); }
    FlatLength(ps);
    out.EndArr(ctx, n, old(out.buf), Flat(ps));
  }

  function Strs(ks: seq<Bytes>): seq<Codec.Value> {
    if ks == [] then [] else [Codec.Str(ks[0])] + Strs(ks[1..])
  }

  lemma {:induction false} StrsAppend(ks: seq<Bytes>, k: Bytes)
    ensures Strs(ks + [k]) == Strs(ks) + [Codec.Str(k)] && |Strs(ks)| == |ks|
    decreases |ks|
  {
    if ks == [] {
      assert [] + [k] == [k];
    } else {
      assert (ks + [k])[1..] == ks[1..] + [k];
      StrsAppend(ks[1..], k);
    }
  }

  /** One call of keys_cb. */
  method EmitKey(out: Codec.Out, k: Bytes, ghost pre: Bytes, ghost ks: seq<Bytes>)
    requires out.buf == pre + Codec.EncodeAll(Strs(ks))
    modifies out
    ensures out.buf == pre + Codec.EncodeAll(Strs(ks + [k]))
  {
    ghost var e := Codec.EncodeAll(Strs(ks));
    out.OutStr(k);
    StrsAppend(ks, k);
    Codec.EncodeAllConcat(Strs(ks), [Codec.Str(k)]);
    Codec.EncodeOne(Codec.Str(k));
    Codec.Reassociate(pre, e, Codec.Encode(Codec.Str(k)));
  }

  /** do_keys: every key in the map once, overdue or not; the header count is the number of keys that follow. */
  method DoKeys(db: Database, out: Codec.Out) returns (ghost ks: seq<Bytes>)
    requires db.Valid() && out !in db.repr
    modifies out
    ensures NoDup(ks) && (forall i :: 0 <= i < |ks| ==> ks[i] in db.st) && forall k :: k in db.st ==> k in ks
    ensures out.buf == old(out.buf) + Codec.Encode(Codec.Arr(Strs(ks)))
  {
    var w, n := db.Visit();
    out.OutArr(n);
    ghost var pre := out.buf;
    ks := [];
    for i := 0 to |w|
      invariant out.buf == pre + Codec.EncodeAll(Strs(ks))
      invariant |ks| == i && forall j :: 0 <= j < i ==> ks[j] == db.KeyAt(w[j])
    {
      EmitKey(out, db.KeyAt(w[i]), pre, ks);
      ks := ks + [db.KeyAt(w[i])];
    }
    db.AllKeys(w, ks);
    StrsAppend(ks, []);
    Codec.Reassociate(old(out.buf), [Codec.SER_ARR] + Codec.U32(n), Codec.EncodeAll(Strs(ks)));
    Codec.Reassociate(old(out.buf), [Codec.SER_ARR], Codec.U32(n));
  }

  // ---- dispatch ----

  /** What a command vector asks for. */
  datatype Request = Keyed(key: Bytes, cmd: Cmd) | AllKeys | Reject(err: Codec.Value)

  /** to_upper in the C locale. */
  function Upper(b: Bytes): Bytes {
    seq(|b|, i requires 0 <= i < |b| => if 97 <= b[i] <= 122 then b[i] - 32 else b[i])
  }

  /** The dispatch table: verb and arity decide; ints and dbls stand for str2int and str2dbl. */
  function Dispatch(args: seq<Bytes>, ints: Bytes -> Option<Int64>, dbls: Bytes -> Option<Score>): (q: Request)
    ensures q.Keyed? ==> CmdOk(q.cmd)
  {
    if args == [] then Reject(Codec.Err(ERR_ARG, Text("empty command"))) else
    var op, n := Upper(args[0]), |args|;
    if op == Text("GET") && n == 2 then Keyed(args[1], Get)
    else if op == Text("SET") && n == 3 then Keyed(args[1], Set(args[2]))
    else if op == Text("DEL") && n == 2 then Keyed(args[1], Del)
    else if op == Text("KEYS") && n == 1 then AllKeys
    else if op == Text("EXPIRE") && n == 3 then Keyed(args[1], Expire(ints(args[2]), 1000))
    else if op == Text("PEXPIRE") && n == 3 then Keyed(args[1], Expire(ints(args[2]), 1))
    else if op == Text("TTL") && n == 2 then Keyed(args[1], Ttl(false))
    else if op == Text("PTTL") && n == 2 then Keyed(args[1], Ttl(true))
    else if op == Text("PERSIST") && n == 2 then Keyed(args[1], Persist)
    else if op == Text("ZADD") && n == 4 then Keyed(args[1], ZAdd(dbls(args[2]), args[3]))
    else if op == Text("ZREM") && n == 3 then Keyed(args[1], ZRem(args[2]))
    else if op == Text("ZSCORE") && n == 3 then Keyed(args[1], ZScore(args[2]))
    else if op == Text("ZQUERY") && n == 6 then
      Keyed(args[1], ZQuery(dbls(args[2]), args[3], ints(args[4]), ints(args[5])))
    else Reject(Codec.Err(ERR_UNKNOWN, Text("unknown command")))
  }

  /** The verbs with the lengths of their command vectors. */
  const TABLE: set<(Bytes, nat)> := {
    (Text("GET"), 2), (Text("SET"), 3), (Text("DEL"), 2), (Text("KEYS"), 1), (Text("EXPIRE"), 3), (Text("PEXPIRE"), 3),
    (Text("TTL"), 2), (Text("PTTL"), 2), (Text("PERSIST"), 2), (Text("ZADD"), 4), (Text("ZREM"), 3),
    (Text("ZSCORE"), 3), (Text("ZQUERY"), 6)
  }

  /** A request is rejected exactly when its verb and length are not in the table; the case of the verb is ignored. */
  lemma {:induction false} RejectIff(args: seq<Bytes>, ints: Bytes -> Option<Int64>, dbls: Bytes -> Option<Score>)
    ensures Dispatch(args, ints, dbls).Reject? <==> args == [] || (Upper(args[0]), |args|) !in TABLE
    ensures args != [] ==> Dispatch(args[0 := Upper(args[0])], ints, dbls) == Dispatch(args, ints, dbls)
  {
    if args != [] { assert Upper(Upper(args[0])) == Upper(args[0]); }
  }

  /** A rank query on a set that has outgrown the 32-bit counts of its tree. */
  ghost predicate Outgrown(q: Request, st: Store, now: nat) {
    q.Keyed? && q.cmd.ZQuery? && BadArg(q.cmd) == None && Vast(st, q.key, now)
  }

  /** Every command on a key but ZQUERY. */
  method RunKeyed(db: Database, out: Codec.Out, key: Bytes, cmd: Cmd, t1: nat, t2: nat)
    requires Ready(db, out, t1, t2) && CmdOk(cmd) && !cmd.ZQuery?
    modifies db, db.dict, db.ttl, db.repr, out
    ensures Done(db, out, key, cmd, t1, t2)
  {
    match cmd {
      case Get => DoGet(db, out, key, t1, t2);
      case Set(str) => DoSet(db, out, key, str, t1, t2);
      case Del => DoDel(db, out, key, t1, t2);
      case Expire(n, unitMs) => DoExpire(db, out, key, n, unitMs, t1, t2);
      case Ttl(inMs) => DoTtl(db, out, key, inMs, t1, t2);
      case Persist => DoPersist(db, out, key, t1, t2);
      case ZAdd(score, name) => DoZAdd(db, out, key, score, name, t1, t2);
      case ZRem(name) => DoZRem(db, out, key, name, t1, t2);
      case ZScore(name) => DoZScore(db, out, key, name, t1, t2);
    }
  }

  /** What one request does to the store and what it answers. */
  ghost predicate Answers(q: Request, st: Store, st': Store, reply: Codec.Value, t1: nat, t2: nat)
    requires q.Keyed? ==> CmdOk(q.cmd)
  {
    match q
    case Keyed(key, cmd) =>
      if Outgrown(q, st, t1) then
        st' == st && exists ps :: Picks(ps, st[key].value.ps, cmd.limit.value as int) && reply == Codec.Arr(Flat(ps))
      else (st', reply) == Exec(st, key, cmd, t1, t2)
    case AllKeys => st' == st && exists ks :: Lists(ks, st) && reply == Codec.Arr(Strs(ks))
    case Reject(err) => st' == st && reply == err
  }

  ghost predicate Lists(ks: seq<Bytes>, st: Store) {
    NoDup(ks) && (forall i :: 0 <= i < |ks| ==> ks[i] in st) && forall k :: k in st ==> k in ks
  }

  /** Whatever the command vector, only the record of the key it names can change. */
  lemma {:induction false} OnlyItsKey(args: seq<Bytes>, ints: Bytes -> Option<Int64>, dbls: Bytes -> Option<Score>,
      st: Store, st': Store, reply: Codec.Value, t1: nat, t2: nat, k: Bytes)
    requires Answers(Dispatch(args, ints, dbls), st, st', reply, t1, t2)
    ensures |args| < 2 || k != args[1] ==> RecOf(st', k) == RecOf(st, k)
  {}

  /** do_request: exactly one encoded value is appended, for every command vector and every database. */
  method DoRequest(db: Database, out: Codec.Out, args: seq<Bytes>, ints: Bytes -> Option<Int64>,
      dbls: Bytes -> Option<Score>, t1: nat, t2: nat)
    returns (ghost reply: Codec.Value)
    requires Ready(db, out, t1, t2)
    modifies db, db.dict, db.ttl, db.repr, out
    ensures Ready(db, out, t1, t2) && fresh(db.repr - old(db.repr))
    ensures Answers(Dispatch(args, ints, dbls), old(db.st), db.st, reply, t1, t2)
    ensures out.buf == old(out.buf) + Codec.Encode(reply)
  {
    var q := Dispatch(args, ints, dbls);
    match q {
      case Keyed(key, ZQuery(score, name, offset, limit)) =>
        reply := DoZQuery(db, out, key, score, name, offset, limit, t1, t2);
      case Keyed(key, cmd) =>
        reply := Exec(db.st, key, cmd, t1, t2).1;
        RunKeyed(db, out, key, cmd, t1, t2);
        assert Shown(0);
      case AllKeys =>
        ghost var ks := DoKeys(db, out);
        reply := Codec.Arr(Strs(ks));
        assert Lists(ks, db.st);
      case Reject(err) =>
        reply := err;
        out.OutErr(err.code, err.msg);
    }
  }
}

/** Which replies the client can take: sizes, scores and deadlines in the store over every request, and the exact
    lengths of the two replies that can outgrow a frame. */
module Limits {
  import opened Base
  import opened Pairs
  import opened Store
  import opened Commands
  import Client
  import Codec
  import Expiry
  import Framing
  import HashMap
  import Wire

  /** An argument is shorter than the request that carries it: a count and its own length go with it. */
  const MAX_ARG: nat := Wire.MAX_MSG - 8

  ghost predicate ScoreFits(s: Score, doubles: Bytes -> int) { |s.bits| == 8 && s.ord == doubles(s.bits) }

  ghost predicate PairFits(p: Pair, doubles: Bytes -> int) { |p.name| <= MAX_ARG && ScoreFits(p.score, doubles) }

  ghost predicate PairsFit(ps: Pairs, doubles: Bytes -> int) { forall p | p in ps :: PairFits(p, doubles) }

  /** Strings came out of requests, scores out of doubles, and a deadline is at most INT64_MAX past time t. */
  ghost predicate RecFits(r: Rec, t: nat, doubles: Bytes -> int) {
    && (r.due.Some? ==> r.due.value <= t + INT64_MAX)
    && match r.value
       case Str(s) => |s| <= MAX_ARG
       case Zset(ps) => PairsFit(ps, doubles)
  }

  ghost predicate KeyFits(st: Store, k: Bytes, t: nat, doubles: Bytes -> int)
    requires k in st
  {
    |k| <= MAX_ARG && RecFits(st[k], t, doubles)
  }

  ghost predicate Sane(st: Store, t: nat, doubles: Bytes -> int) { forall k | k in st :: KeyFits(st, k, t, doubles) }

  ghost predicate CmdFits(cmd: Cmd, doubles: Bytes -> int) {
    match cmd
    case Set(str) => |str| <= MAX_ARG
    case ZAdd(score, name) => |name| <= MAX_ARG && (score.Some? ==> ScoreFits(score.value, doubles))
    case _ => true
  }

  ghost predicate RequestFits(q: Request, doubles: Bytes -> int) {
    match q
    case Keyed(key, cmd) => |key| <= MAX_ARG && CmdOk(cmd) && CmdFits(cmd, doubles)
    case AllKeys => true
    case Reject(err) => Client.Numbers(err, doubles) && Client.Short(err)
  }

  /** The two requests whose replies grow with the store. */
  predicate Listing(q: Request) { q.AllKeys? || (q.Keyed? && q.cmd.ZQuery?) }

  // ---- the store stays within its limits ----

  lemma {:induction false} DropFits(ps: Pairs, name: Bytes, doubles: Bytes -> int)
    requires PairsFit(ps, doubles)
    ensures PairsFit(Drop(ps, name), doubles)
  {
    if ps != [] {
      assert forall p | p in ps[1..] :: p in ps;
      DropFits(ps[1..], name, doubles);
    }
  }

  lemma {:induction false} PlaceFits(ps: Pairs, p: Pair, doubles: Bytes -> int)
    requires PairsFit(ps, doubles) && PairFits(p, doubles)
    ensures PairsFit(Place(ps, p), doubles)
  {
    if ps != [] {
      assert forall q | q in ps[1..] :: q in ps;
      PlaceFits(ps[1..], p, doubles);
    }
  }

  lemma {:induction false} PutFits(ps: Pairs, name: Bytes, score: Score, doubles: Bytes -> int)
    requires PairsFit(ps, doubles) && PairFits(Pair(name, score), doubles)
    ensures PairsFit(Put(ps, name, score), doubles)
  {
    DropFits(ps, name, doubles);
    PlaceFits(ps, Pair(name, score), doubles);
    PlaceFits(Drop(ps, name), Pair(name, score), doubles);
  }

  lemma {:induction false} FlatNumbers(ps: Pairs, doubles: Bytes -> int)
    requires PairsFit(ps, doubles)
    ensures forall v | v in Flat(ps) :: Client.Numbers(v, doubles)
  {
    if ps != [] {
      assert ps[0] in ps && forall p | p in ps[1..] :: p in ps;
      FlatNumbers(ps[1..], doubles);
    }
  }

  lemma {:induction false} FindFits(ps: Pairs, name: Bytes, doubles: Bytes -> int)
    requires PairsFit(ps, doubles)
    ensures Find(ps, name).Some? ==> ScoreFits(Find(ps, name).value, doubles)
  {
    if Find(ps, name).Some? {
      var i := FindIndex(ps, name);
      assert ps[i] in ps;
    }
  }

  lemma {:induction false} QueryNumbers(ps: Pairs, score: Score, name: Bytes, offset: int, limit: int,
      doubles: Bytes -> int)
    requires PairsFit(ps, doubles)
    ensures Client.Numbers(Codec.Arr(Flat(Slice(ps, score, name, offset, limit))), doubles)
  {
    var s := Slice(ps, score, name, offset, limit);
    assert forall p | p in s :: p in ps;
    FlatNumbers(s, doubles);
  }

  /** One command: the record stays within the limits, and only ZQUERY's reply can be too long for the client. */
  lemma {:induction false} ActFits(r: Option<Rec>, cmd: Cmd, t: nat, t2: nat, doubles: Bytes -> int)
    requires BadArg(cmd) == None && CmdOk(cmd) && CmdFits(cmd, doubles) && t <= t2
    requires r.Some? ==> RecFits(r.value, t, doubles)
    ensures Act(r, cmd, t2).0.Some? ==> RecFits(Act(r, cmd, t2).0.value, t2, doubles)
    ensures Client.Numbers(Act(r, cmd, t2).1, doubles) && (!cmd.ZQuery? ==> Client.Short(Act(r, cmd, t2).1))
  {
    match cmd
    case ZAdd(score, name) =>
      PutFits(if r.Some? && r.value.value.Zset? then r.value.value.ps else [], name, score.value, doubles);
    case ZRem(name) => if r.Some? && r.value.value.Zset? { DropFits(r.value.value.ps, name, doubles); }
    case ZScore(name) => if r.Some? && r.value.value.Zset? { FindFits(r.value.value.ps, name, doubles); }
    case ZQuery(score, name, offset, limit) =>
      if r.Some? && r.value.value.Zset? {
        QueryNumbers(r.value.value.ps, score.value, name, offset.value as int, limit.value as int, doubles);
      }
    case _ =>
  }

  lemma {:induction false} SaneLater(st: Store, t: nat, t': nat, doubles: Bytes -> int)
    requires Sane(st, t, doubles) && t <= t'
    ensures Sane(st, t', doubles)
  {
    forall k | k in st ensures KeyFits(st, k, t', doubles) { assert KeyFits(st, k, t, doubles); }
  }

  lemma {:induction false} AssignFits(st: Store, key: Bytes, r: Option<Rec>, t: nat, doubles: Bytes -> int)
    requires Sane(st, t, doubles) && |key| <= MAX_ARG && (r.Some? ==> RecFits(r.value, t, doubles))
    ensures Sane(Assign(st, key, r), t, doubles)
  {
    var st' := Assign(st, key, r);
    forall k | k in st' ensures KeyFits(st', k, t, doubles) {
      assert k != key ==> KeyFits(st, k, t, doubles);
    }
  }

  lemma {:induction false} StrsNumbers(ks: seq<Bytes>, doubles: Bytes -> int)
    ensures forall v | v in Strs(ks) :: Client.Numbers(v, doubles)
  {
    if ks != [] { StrsNumbers(ks[1..], doubles); }
  }

  lemma {:induction false} RequestNumbers(q: Request, st: Store, st': Store, reply: Codec.Value,
      t: nat, t1: nat, t2: nat, doubles: Bytes -> int)
    requires Sane(st, t, doubles) && RequestFits(q, doubles) && t <= t1 <= t2 && Answers(q, st, st', reply, t1, t2)
    ensures Sane(st', t2, doubles) && Client.Numbers(reply, doubles) && (!Listing(q) ==> Client.Short(reply))
  {
    SaneLater(st, t, t2, doubles);
    match q
    case Keyed(key, cmd) =>
      var r := LiveRec(st, key, t1);
      if r.Some? { assert KeyFits(st, key, t, doubles); }
      if Outgrown(q, st, t1) {
        var ps :| Picks(ps, st[key].value.ps, cmd.limit.value as int) && reply == Codec.Arr(Flat(ps));
        FlatNumbers(ps, doubles);
      } else if BadArg(cmd) == None {
        ActFits(r, cmd, t, t2, doubles);
        AssignFits(st, key, Act(r, cmd, t2).0, t2, doubles);
      }
    case AllKeys =>
      var ks :| Lists(ks, st) && reply == Codec.Arr(Strs(ks));
      StrsNumbers(ks, doubles);
    case Reject(_) =>
  }

  /** Over every request the store stays within its limits, and the reply is one that the client takes exactly when its
      encoding is at most 32 KiB, which only KEYS and ZQUERY can exceed. */
  lemma {:induction false} RequestDecodes(q: Request, st: Store, st': Store, reply: Codec.Value,
      t: nat, t1: nat, t2: nat, rest: Bytes, doubles: Bytes -> int)
    requires Sane(st, t, doubles) && RequestFits(q, doubles) && t <= t1 <= t2 && Answers(q, st, st', reply, t1, t2)
    ensures Sane(st', t2, doubles) && (!Listing(q) ==> Client.Short(reply))
    ensures var stream := Framing.Frame(Codec.Encode(reply)) + rest;
      Client.Receive(stream, doubles) == Client.Printed(reply, rest) <==> Client.Short(reply)
  {
    RequestNumbers(q, st, st', reply, t, t1, t2, doubles);
    Client.ReceiveIff(reply, rest, doubles);
  }

  /** str2dbl yields doubles. */
  ghost predicate Doubles(dbls: Bytes -> Option<Score>, doubles: Bytes -> int) {
    forall b: Bytes :: dbls(b).Some? ==> ScoreFits(dbls(b).value, doubles)
  }

  lemma {:induction false} DispatchFits(args: seq<Bytes>, ints: Bytes -> Option<Int64>, dbls: Bytes -> Option<Score>,
      doubles: Bytes -> int)
    requires Doubles(dbls, doubles) && forall i :: 0 <= i < |args| ==> |args[i]| <= MAX_ARG
    ensures RequestFits(Dispatch(args, ints, dbls), doubles)
  {}

  /** Every argument of a body leaves room for the count and for its own length. */
  lemma {:induction false} ArgsFit(args: seq<Bytes>, i: nat)
    requires i < |args|
    ensures 4 + |args[i]| <= |Wire.EncodeArgs(args)|
  {
    if i > 0 { ArgsFit(args[1..], i - 1); }
  }

  // ---- how long the two listings are ----

  function KeysLength(ks: seq<Bytes>): nat { if ks == [] then 0 else 5 + |ks[0]| + KeysLength(ks[1..]) }

  function PairsLength(ps: Pairs): nat { if ps == [] then 0 else 14 + |ps[0].name| + PairsLength(ps[1..]) }

  lemma {:induction false} ArrLength(vs: seq<Codec.Value>)
    ensures |Codec.Encode(Codec.Arr(vs))| == 5 + |Codec.EncodeAll(vs)|
  {}

  lemma {:induction false} KeysSize(ks: seq<Bytes>)
    ensures |Codec.EncodeAll(Strs(ks))| == KeysLength(ks)
  {
    if ks != [] {
      KeysSize(ks[1..]);
      assert Strs(ks)[1..] == Strs(ks[1..]);
    }
  }

  lemma {:induction false} QuerySize(ps: Pairs)
    requires forall p | p in ps :: |p.score.bits| == 8
    ensures |Codec.EncodeAll(Flat(ps))| == PairsLength(ps)
  {
    if ps != [] {
      assert forall p | p in ps[1..] :: p in ps;
      QuerySize(ps[1..]);
      var a, d := Codec.Str(ps[0].name), Codec.Dbl(ps[0].score);
      Codec.EncodeAllConcat([a, d], Flat(ps[1..]));
      Codec.EncodeTwo(a, d);
      assert ps[0] in ps;
    }
  }

  /** KEYS is taken exactly when the keys, with five bytes each, fit behind the header. */
  lemma {:induction false} KeysShortIff(ks: seq<Bytes>)
    ensures Client.Short(Codec.Arr(Strs(ks))) <==> KeysLength(ks) <= Wire.MAX_MSG - 5
  {
    ArrLength(Strs(ks));
    KeysSize(ks);
  }

  lemma {:induction false} KeysLengthPick(ks: seq<Bytes>, j: nat)
    requires j < |ks|
    ensures KeysLength(ks) == 5 + |ks[j]| + KeysLength(ks[..j] + ks[j + 1..])
  {
    var rest := ks[..j] + ks[j + 1..];
    if j == 0 {
      assert rest == ks[1..];
    } else {
      KeysLengthPick(ks[1..], j - 1);
      assert rest[1..] == ks[1..][..j - 1] + ks[1..][j..];
    }
  }

  lemma {:induction false} PickKeeps(ks: seq<Bytes>, j: nat, k: Bytes)
    requires NoDup(ks) && j < |ks|
    ensures var rest := ks[..j] + ks[j + 1..]; NoDup(rest) && (k in rest <==> k in ks && k != ks[j])
  {
    var rest := ks[..j] + ks[j + 1..];
    forall i, l | 0 <= i < l < |rest| ensures rest[i] != rest[l] {
      assert rest[i] == ks[if i < j then i else i + 1] && rest[l] == ks[if l < j then l else l + 1];
    }
    if k in rest {
      var i :| 0 <= i < |rest| && rest[i] == k;
      assert rest[i] == ks[if i < j then i else i + 1];
    }
    if k in ks && k != ks[j] {
      var i :| 0 <= i < |ks| && ks[i] == k;
      assert rest[if i < j then i else i - 1] == k;
    }
  }

  lemma {:induction false} SameKeysLength(ks: seq<Bytes>, ls: seq<Bytes>)
    requires NoDup(ks) && NoDup(ls) && |ks| == |ls| && forall k :: k in ks <==> k in ls
    ensures KeysLength(ks) == KeysLength(ls)
    decreases |ks|
  {
    if ks != [] {
      assert ks[0] in ls;
      var j :| 0 <= j < |ls| && ls[j] == ks[0];
      var rest := ls[..j] + ls[j + 1..];
      KeysLengthPick(ls, j);
      PickKeeps(ls, j, ks[0]);
      forall k ensures k in ks[1..] <==> k in rest {
        PickKeeps(ls, j, k);
        if k in ks[1..] { assert k in ks && k != ks[0]; }
      }
      SameKeysLength(ks[1..], rest);
    }
  }

  /** Whether the client takes KEYS depends on the store alone: every listing of its keys is equally long. */
  lemma {:induction false} KeysByStore(st: Store, ks: seq<Bytes>, ls: seq<Bytes>)
    requires Lists(ks, st) && Lists(ls, st)
    ensures KeysLength(ks) == KeysLength(ls)
    ensures Client.Short(Codec.Arr(Strs(ks))) <==> Client.Short(Codec.Arr(Strs(ls)))
  {
    forall k ensures k in ks <==> k in ls {
      assert k in ks ==> k in st;
      assert k in ls ==> k in st;
    }
    HashMap.NoDupCount(ks, st.Keys);
    HashMap.NoDupCount(ls, st.Keys);
    SameKeysLength(ks, ls);
    KeysShortIff(ks);
    KeysShortIff(ls);
  }

  /** ZQUERY is taken exactly when the names in its slice, with fourteen bytes each, fit behind the header. */
  lemma {:induction false} QueryShortIff(ps: Pairs, score: Score, name: Bytes, offset: int, limit: int,
      doubles: Bytes -> int)
    requires PairsFit(ps, doubles)
    ensures var s := Slice(ps, score, name, offset, limit);
      Client.Short(Codec.Arr(Flat(s))) <==> PairsLength(s) <= Wire.MAX_MSG - 5
  {
    var s := Slice(ps, score, name, offset, limit);
    assert forall p | p in s :: p in ps && PairFits(p, doubles);
    ArrLength(Flat(s));
    QuerySize(s);
  }

  // ---- a store, two requests away from empty, whose KEYS the client cannot take ----

  function LongKey(b: Byte): Bytes { seq(20000, _ => b) }

  lemma {:induction false} KeysLengthAt(ks: seq<Bytes>, i: nat, j: nat)
    requires i < j < |ks|
    ensures KeysLength(ks) >= 10 + |ks[i]| + |ks[j]|
  {
    if i > 0 { KeysLengthAt(ks[1..], i - 1, j - 1); } else { KeysLengthOne(ks[1..], j - 1); }
  }

  lemma {:induction false} KeysLengthOne(ks: seq<Bytes>, i: nat)
    requires i < |ks|
    ensures KeysLength(ks) >= 5 + |ks[i]|
  {
    if i > 0 { KeysLengthOne(ks[1..], i - 1); }
  }

  ghost function TwoSets(): seq<Expiry.Event> {
    [Expiry.Command(LongKey(1), Set([]), 0, 0), Expiry.Command(LongKey(2), Set([]), 0, 0)]
  }

  /** SET of two keys of 20000 bytes, each request well within 32 KiB, then KEYS: "bad reply", in whatever order the
      keys are listed. */
  lemma {:induction false} KeysTooLong(ks: seq<Bytes>)
    ensures Expiry.Runnable(TwoSets())
    ensures forall k | k == LongKey(1) || k == LongKey(2) :: |Wire.EncodeReq([Text("SET"), k, []])| <= Wire.MAX_MSG
    ensures var (st, rs) := Expiry.RunCode(map[], TwoSets());
      && Expiry.Tracks(st, TwoSets(), rs, 0) && st.Keys == {LongKey(1), LongKey(2)}
      && (Lists(ks, st) ==> !Client.Short(Codec.Arr(Strs(ks))))
  {
    var e1, e2 := TwoSets()[0], TwoSets()[1];
    var k1, k2 := LongKey(1), LongKey(2);
    assert k1[0] != k2[0];
    Expiry.TracksMore(map[], [], [], 0, e1);
    var st1 := Expiry.StepCode(map[], e1).0;
    Expiry.TracksMore(st1, [] + [e1], [] + Expiry.StepCode(map[], e1).1, 0, e2);
    assert ([] + [e1]) + [e2] == TwoSets();
    forall k | k == k1 || k == k2 ensures |Wire.EncodeReq([Text("SET"), k, []])| <= Wire.MAX_MSG { SetLength(k); }
    var st := Expiry.RunCode(map[], TwoSets()).0;
    assert st.Keys == {k1, k2};
    if Lists(ks, st) {
      assert k1 in ks && k2 in ks;
      var i :| 0 <= i < |ks| && ks[i] == k1;
      var j :| 0 <= j < |ks| && ks[j] == k2;
      if i < j { KeysLengthAt(ks, i, j); } else { KeysLengthAt(ks, j, i); }
      KeysShortIff(ks);
    }
  }

  lemma {:induction false} SetLength(k: Bytes)
    ensures |Wire.EncodeReq([Text("SET"), k, []])| == 19 + |k|
  {
    var args := [Text("SET"), k, []];
    assert args[1..] == [k, []] && [k, []][1..] == [[]] && |Text("SET")| == 3;
    var last: seq<Bytes> := [[]];
    assert |Wire.EncodeArgs(last)| == 4;
    assert |Wire.EncodeArgs([k, []])| == 4 + |k| + 4;
  }
}

/** What a client can rely on, command by command: laws about the requests of a run and the answers they get, in terms
    of command vectors, clock readings and answers alone. */
module Laws {
  import opened Base
  import opened Pairs
  import opened Store
  import opened Commands
  import opened Requests
  import opened History
  import Codec
  import Expiry
  import HashMap
  import Wire

  // ---- verbs ----

  /** b is the verb v, written in capitals, in letters of either case. */
  ghost predicate Spells(b: Bytes, v: string) {
    |b| == |v| && forall i :: 0 <= i < |v| ==> b[i] == v[i] as int || b[i] == v[i] as int + 32
  }

  ghost predicate Capitals(v: string) { forall i :: 0 <= i < |v| ==> 'A' <= v[i] <= 'Z' }

  lemma {:induction false} SpellsIs(b: Bytes, v: string)
    requires Capitals(v)
    ensures Spells(b, v) <==> Upper(b) == Text(v)
  {
    if Upper(b) == Text(v) {
      assert |Upper(b)| == |b| && |Text(v)| == |v|;
      forall i | 0 <= i < |v| ensures b[i] == v[i] as int || b[i] == v[i] as int + 32 {
        assert Upper(b)[i] == Text(v)[i];
      }
    }
    if Spells(b, v) {
      forall i | 0 <= i < |v| ensures Upper(b)[i] == Text(v)[i] {}
    }
  }

  ghost predicate Says(args: seq<Bytes>, v: string, n: nat) { |args| == n && n > 0 && Spells(args[0], v) }

  lemma {:induction false} Differ(v: string, w: string)
    requires Capitals(v) && Capitals(w) && v != w
    ensures Text(v) != Text(w)
  {
    if |v| == |w| {
      var i :| 0 <= i < |v| && v[i] != w[i];
      assert Text(v)[i] != Text(w)[i];
    }
  }

  lemma {:induction false} Verbs(b: Bytes)
    ensures Spells(b, "GET") <==> Upper(b) == Text("GET")
    ensures Spells(b, "SET") <==> Upper(b) == Text("SET")
    ensures Spells(b, "DEL") <==> Upper(b) == Text("DEL")
    ensures Spells(b, "KEYS") <==> Upper(b) == Text("KEYS")
    ensures Spells(b, "EXPIRE") <==> Upper(b) == Text("EXPIRE")
    ensures Spells(b, "PEXPIRE") <==> Upper(b) == Text("PEXPIRE")
    ensures Spells(b, "TTL") <==> Upper(b) == Text("TTL")
    ensures Spells(b, "PTTL") <==> Upper(b) == Text("PTTL")
    ensures Spells(b, "PERSIST") <==> Upper(b) == Text("PERSIST")
    ensures Spells(b, "ZADD") <==> Upper(b) == Text("ZADD")
    ensures Spells(b, "ZREM") <==> Upper(b) == Text("ZREM")
    ensures Spells(b, "ZSCORE") <==> Upper(b) == Text("ZSCORE")
    ensures Spells(b, "ZQUERY") <==> Upper(b) == Text("ZQUERY")
  {
    SpellsIs(b, "GET"); SpellsIs(b, "SET"); SpellsIs(b, "DEL"); SpellsIs(b, "KEYS"); SpellsIs(b, "EXPIRE");
    SpellsIs(b, "PEXPIRE"); SpellsIs(b, "TTL"); SpellsIs(b, "PTTL"); SpellsIs(b, "PERSIST"); SpellsIs(b, "ZADD");
    SpellsIs(b, "ZREM"); SpellsIs(b, "ZSCORE"); SpellsIs(b, "ZQUERY");
  }

  /** Verbs of equal length with the same number of arguments. */
  lemma {:induction false} Unlike()
    ensures Text("GET") != Text("DEL") && Text("GET") != Text("TTL") && Text("DEL") != Text("TTL")
    ensures Text("EXPIRE") != Text("ZSCORE")
  {
    Differ("GET", "DEL"); Differ("GET", "TTL"); Differ("DEL", "TTL"); Differ("EXPIRE", "ZSCORE");
  }

  lemma {:induction false} MeansTwo(args: seq<Bytes>, ints: Bytes -> Option<Int64>, dbls: Bytes -> Option<Score>)
    requires |args| == 2
    ensures var q, v := Dispatch(args, ints, dbls), args[0];
      && (q == Keyed(args[1], Get) <==> Spells(v, "GET")) && (q == Keyed(args[1], Del) <==> Spells(v, "DEL"))
      && (q == Keyed(args[1], Ttl(false)) <==> Spells(v, "TTL"))
      && (q == Keyed(args[1], Ttl(true)) <==> Spells(v, "PTTL"))
      && (q == Keyed(args[1], Persist) <==> Spells(v, "PERSIST"))
      && (q.Reject? || q in {Keyed(args[1], Get), Keyed(args[1], Del), Keyed(args[1], Ttl(false)),
           Keyed(args[1], Ttl(true)), Keyed(args[1], Persist)})
  {
    Verbs(args[0]);
    Unlike();
  }

  lemma {:induction false} MeansThree(args: seq<Bytes>, ints: Bytes -> Option<Int64>, dbls: Bytes -> Option<Score>)
    requires |args| == 3
    ensures var q, v := Dispatch(args, ints, dbls), args[0];
      && (q == Keyed(args[1], Set(args[2])) <==> Spells(v, "SET"))
      && (q == Keyed(args[1], Expire(ints(args[2]), 1000)) <==> Spells(v, "EXPIRE"))
      && (q == Keyed(args[1], Expire(ints(args[2]), 1)) <==> Spells(v, "PEXPIRE"))
      && (q == Keyed(args[1], ZRem(args[2])) <==> Spells(v, "ZREM"))
      && (q == Keyed(args[1], ZScore(args[2])) <==> Spells(v, "ZSCORE"))
      && (q.Reject? || q in {Keyed(args[1], Set(args[2])), Keyed(args[1], Expire(ints(args[2]), 1000)),
           Keyed(args[1], Expire(ints(args[2]), 1)), Keyed(args[1], ZRem(args[2])), Keyed(args[1], ZScore(args[2]))})
  {
    Verbs(args[0]);
    Unlike();
  }

  lemma {:induction false} MeansMore(args: seq<Bytes>, ints: Bytes -> Option<Int64>, dbls: Bytes -> Option<Score>)
    requires |args| != 2 && |args| != 3
    ensures var q := Dispatch(args, ints, dbls);
      && (q == AllKeys <==> Says(args, "KEYS", 1))
      && (Says(args, "ZADD", 4) ==> q == Keyed(args[1], ZAdd(dbls(args[2]), args[3])))
      && (Says(args, "ZQUERY", 6) ==> q == Keyed(args[1], ZQuery(dbls(args[2]), args[3], ints(args[4]), ints(args[5]))))
      && (q.Keyed? ==> Says(args, "ZADD", 4) || Says(args, "ZQUERY", 6))
  {
    if args != [] { Verbs(args[0]); }
  }

  // ---- one request ----

  /** A request with this command vector was served on st. */
  ghost predicate Asked(lib: Lib, q: Served, args: seq<Bytes>, st: Store, st': Store) {
    Serves(lib, q, st, st') && Wire.Parse(q.body) == Some(args)
  }

  lemma {:induction false} AskedIs(lib: Lib, q: Served, args: seq<Bytes>, st: Store, st': Store)
    requires Asked(lib, q, args, st, st')
    ensures var r := Dispatch(args, lib.ints, lib.dbls);
      Answers(r, st, st', q.reply, q.t.0, q.t.1) && q.outgrown == Outgrown(r, st, q.t.0)
  {
    assert Shown(0);
  }

  lemma {:induction false} DoesTwo(lib: Lib, q: Served, args: seq<Bytes>, st: Store, st': Store)
    requires Asked(lib, q, args, st, st') && |args| == 2
    ensures Spells(args[0], "GET") ==> (st', q.reply) == Exec(st, args[1], Get, q.t.0, q.t.1)
    ensures Spells(args[0], "DEL") ==> (st', q.reply) == Exec(st, args[1], Del, q.t.0, q.t.1)
    ensures Spells(args[0], "TTL") ==> (st', q.reply) == Exec(st, args[1], Ttl(false), q.t.0, q.t.1)
    ensures Spells(args[0], "PTTL") ==> (st', q.reply) == Exec(st, args[1], Ttl(true), q.t.0, q.t.1)
    ensures Spells(args[0], "PERSIST") ==> (st', q.reply) == Exec(st, args[1], Persist, q.t.0, q.t.1)
  {
    AskedIs(lib, q, args, st, st');
    MeansTwo(args, lib.ints, lib.dbls);
  }

  lemma {:induction false} DoesThree(lib: Lib, q: Served, args: seq<Bytes>, st: Store, st': Store)
    requires Asked(lib, q, args, st, st') && |args| == 3
    ensures Spells(args[0], "SET") ==> (st', q.reply) == Exec(st, args[1], Set(args[2]), q.t.0, q.t.1)
    ensures Spells(args[0], "EXPIRE") ==>
      (st', q.reply) == Exec(st, args[1], Expire(lib.ints(args[2]), 1000), q.t.0, q.t.1)
    ensures Spells(args[0], "PEXPIRE") ==>
      (st', q.reply) == Exec(st, args[1], Expire(lib.ints(args[2]), 1), q.t.0, q.t.1)
    ensures Spells(args[0], "ZREM") ==> (st', q.reply) == Exec(st, args[1], ZRem(args[2]), q.t.0, q.t.1)
    ensures Spells(args[0], "ZSCORE") ==> (st', q.reply) == Exec(st, args[1], ZScore(args[2]), q.t.0, q.t.1)
  {
    AskedIs(lib, q, args, st, st');
    MeansThree(args, lib.ints, lib.dbls);
  }

  lemma {:induction false} DoesAdd(lib: Lib, q: Served, args: seq<Bytes>, st: Store, st': Store)
    requires Asked(lib, q, args, st, st') && Says(args, "ZADD", 4)
    ensures (st', q.reply) == Exec(st, args[1], ZAdd(lib.dbls(args[2]), args[3]), q.t.0, q.t.1)
  {
    AskedIs(lib, q, args, st, st');
    MeansMore(args, lib.ints, lib.dbls);
  }

  // ---- runs ----

  /** One entry of a run: a request, or a pass that removes keys that are due. */
  ghost predicate Follows(lib: Lib, st: Store, e: Deed, st': Store) {
    match e
    case Request(_, q) => q.t.0 <= q.t.1 && Serves(lib, q, st, st')
    case Pass(dead, now) => st' == st - dead && forall k | k in dead && k in st :: Overdue(st[k], now)
  }

  /** A run from any store on, with the stores in between; the clock never runs backwards. */
  ghost predicate Runs(lib: Lib, sts: seq<Store>, tr: seq<Deed>) {
    && |sts| == |tr| + 1 && (forall i | 0 <= i < |tr| :: Follows(lib, sts[i], tr[i], sts[i + 1]))
    && forall i, j | 0 <= i < j < |tr| :: End(tr[i]) <= Start(tr[j])
  }

  /** The commands that can change a key. */
  ghost predicate Writes(args: seq<Bytes>, key: Bytes) {
    && |args| >= 2 && args[1] == key
    && (Says(args, "SET", 3) || Says(args, "DEL", 2) || Says(args, "EXPIRE", 3) || Says(args, "PEXPIRE", 3)
        || Says(args, "PERSIST", 2) || Says(args, "ZADD", 4) || Says(args, "ZREM", 3))
  }

  ghost predicate LeavesAlone(e: Deed, key: Bytes) {
    e.Request? && Wire.Parse(e.q.body).Some? ==> !Writes(Wire.Parse(e.q.body).value, key)
  }

  /** From place i to place j of the run there is no command that can change the key. */
  ghost predicate Untouched(tr: seq<Deed>, key: Bytes, i: nat, j: nat) {
    forall k | i <= k < j && k < |tr| :: LeavesAlone(tr[k], key)
  }

  lemma {:induction false} TwoKeep(lib: Lib, q: Served, args: seq<Bytes>, st: Store, st': Store, key: Bytes, t: nat)
    requires Asked(lib, q, args, st, st') && |args| == 2 && !Writes(args, key) && q.t.0 <= t
    ensures LiveRec(st', key, t) == LiveRec(st, key, t)
  {
    AskedIs(lib, q, args, st, st');
    MeansTwo(args, lib.ints, lib.dbls);
  }

  lemma {:induction false} ThreeKeep(lib: Lib, q: Served, args: seq<Bytes>, st: Store, st': Store, key: Bytes, t: nat)
    requires Asked(lib, q, args, st, st') && |args| == 3 && !Writes(args, key) && q.t.0 <= t
    ensures LiveRec(st', key, t) == LiveRec(st, key, t)
  {
    AskedIs(lib, q, args, st, st');
    MeansThree(args, lib.ints, lib.dbls);
  }

  lemma {:induction false} MoreKeep(lib: Lib, q: Served, args: seq<Bytes>, st: Store, st': Store, key: Bytes, t: nat)
    requires Asked(lib, q, args, st, st') && |args| != 2 && |args| != 3 && !Writes(args, key) && q.t.0 <= t
    ensures LiveRec(st', key, t) == LiveRec(st, key, t)
  {
    AskedIs(lib, q, args, st, st');
    MeansMore(args, lib.ints, lib.dbls);
  }

  /** GET, TTL, PTTL, ZSCORE, ZQUERY and KEYS, commands on other keys, anything refused, and reaper passes leave what a
      key holds from then on as it is. */
  lemma {:induction false} StepKeeps(lib: Lib, st: Store, e: Deed, st': Store, key: Bytes, t: nat)
    requires Follows(lib, st, e, st') && LeavesAlone(e, key) && Start(e) <= t
    ensures LiveRec(st', key, t) == LiveRec(st, key, t)
  {
    if e.Request? && Wire.Parse(e.q.body).Some? {
      var args := Wire.Parse(e.q.body).value;
      if |args| == 2 {
        TwoKeep(lib, e.q, args, st, st', key, t);
      } else if |args| == 3 {
        ThreeKeep(lib, e.q, args, st, st', key, t);
      } else {
        MoreKeep(lib, e.q, args, st, st', key, t);
      }
    } else if e.Request? {
      assert Shown(0);
    }
  }

  lemma {:induction false} Kept(lib: Lib, sts: seq<Store>, tr: seq<Deed>, key: Bytes, i: nat, j: nat, t: nat)
    requires Runs(lib, sts, tr) && i <= j <= |tr| && Untouched(tr, key, i, j)
    requires forall k | i <= k < j :: Start(tr[k]) <= t
    ensures LiveRec(sts[j], key, t) == LiveRec(sts[i], key, t)
    decreases j
  {
    if i < j {
      Kept(lib, sts, tr, key, i, j - 1, t);
      assert Follows(lib, sts[j - 1], tr[j - 1], sts[j]) && LeavesAlone(tr[j - 1], key);
      StepKeeps(lib, sts[j - 1], tr[j - 1], sts[j], key, t);
    }
  }

  /** Entry i of the run asks a, entry j asks b about the same key, and nothing in between can change the key. */
  ghost predicate Later(lib: Lib, sts: seq<Store>, tr: seq<Deed>, i: nat, a: seq<Bytes>, j: nat, b: seq<Bytes>) {
    && Runs(lib, sts, tr) && i < j < |tr| && tr[i].Request? && tr[j].Request?
    && Asked(lib, tr[i].q, a, sts[i], sts[i + 1]) && Asked(lib, tr[j].q, b, sts[j], sts[j + 1])
    && |a| >= 2 && |b| >= 2 && a[1] == b[1] && Untouched(tr, a[1], i + 1, j)
  }

  /** What entry j finds is what entry i has left, unless its time is up. */
  lemma {:induction false} Finds(lib: Lib, sts: seq<Store>, tr: seq<Deed>, i: nat, a: seq<Bytes>, j: nat, b: seq<Bytes>)
    requires Later(lib, sts, tr, i, a, j, b)
    ensures tr[i].q.t.0 <= tr[i].q.t.1 <= tr[j].q.t.0 <= tr[j].q.t.1
    ensures LiveRec(sts[j], a[1], tr[j].q.t.0) == LiveRec(sts[i + 1], a[1], tr[j].q.t.0)
  {
    assert Follows(lib, sts[i], tr[i], sts[i + 1]) && Follows(lib, sts[j], tr[j], sts[j + 1]);
    assert End(tr[i]) <= Start(tr[j]);
    forall k | i + 1 <= k < j ensures Start(tr[k]) <= tr[j].q.t.0 {
      assert End(tr[k]) <= Start(tr[j]) && Follows(lib, sts[k], tr[k], sts[k + 1]);
    }
    Kept(lib, sts, tr, a[1], i + 1, j, tr[j].q.t.0);
  }

  ghost predicate WrongType(v: Codec.Value) {
    v == Codec.Err(3, Text("WRONGTYPE Operation against a key holding the wrong kind of value"))
  }

  // ---- what a request finds ----

  /** What is answered for a key that is not there. */
  ghost predicate Missing(b: seq<Bytes>, v: Codec.Value) {
    && (Says(b, "GET", 2) || Says(b, "ZSCORE", 3) ==> v == Codec.Nil)
    && (Says(b, "TTL", 2) || Says(b, "PTTL", 2) ==> v == Codec.Int(-2))
    && (Says(b, "DEL", 2) || Says(b, "PERSIST", 2) || Says(b, "ZREM", 3) ==> v == Codec.Int(0))
  }

  lemma {:induction false} FindsNothing(lib: Lib, q: Served, b: seq<Bytes>, st: Store, st': Store)
    requires Asked(lib, q, b, st, st') && |b| >= 2 && LiveRec(st, b[1], q.t.0) == None
    ensures Missing(b, q.reply)
  {
    if |b| == 2 { DoesTwo(lib, q, b, st, st'); }
    if |b| == 3 { DoesThree(lib, q, b, st, st'); }
  }

  /** What is answered for a key that holds this string. */
  ghost predicate Holds(lib: Lib, b: seq<Bytes>, str: Bytes, v: Codec.Value) {
    && (Says(b, "GET", 2) ==> v == Codec.Str(str))
    && (Says(b, "ZSCORE", 3) || Says(b, "ZREM", 3) ==> WrongType(v))
    && (Says(b, "ZADD", 4) && lib.dbls(b[2]).Some? ==> WrongType(v))
  }

  lemma {:induction false} FindsString(lib: Lib, q: Served, b: seq<Bytes>, st: Store, st': Store)
    requires Asked(lib, q, b, st, st') && |b| >= 2
    requires LiveRec(st, b[1], q.t.0).Some? && LiveRec(st, b[1], q.t.0).value.value.Str?
    ensures Holds(lib, b, LiveRec(st, b[1], q.t.0).value.value.s, q.reply)
  {
    if |b| == 2 { DoesTwo(lib, q, b, st, st'); }
    if |b| == 3 { DoesThree(lib, q, b, st, st'); }
    if Says(b, "ZADD", 4) { DoesAdd(lib, q, b, st, st'); }
  }

  /** What is answered for a key that holds this sorted set. */
  ghost predicate HoldsSet(b: seq<Bytes>, ps: Pairs, v: Codec.Value) {
    && (Says(b, "GET", 2) || Says(b, "SET", 3) ==> WrongType(v))
    && (Says(b, "ZSCORE", 3) ==> v == if Find(ps, b[2]).Some? then Codec.Dbl(Find(ps, b[2]).value) else Codec.Nil)
  }

  lemma {:induction false} FindsSet(lib: Lib, q: Served, b: seq<Bytes>, st: Store, st': Store)
    requires Asked(lib, q, b, st, st') && |b| >= 2
    requires LiveRec(st, b[1], q.t.0).Some? && LiveRec(st, b[1], q.t.0).value.value.Zset?
    ensures HoldsSet(b, LiveRec(st, b[1], q.t.0).value.value.ps, q.reply)
  {
    if |b| == 2 { DoesTwo(lib, q, b, st, st'); }
    if |b| == 3 { DoesThree(lib, q, b, st, st'); }
  }

  /** What is answered for a key with this deadline: PTTL the milliseconds left, TTL the seconds, rounded up. */
  ghost predicate Lasts(b: seq<Bytes>, due: Option<nat>, now: nat, v: Codec.Value) {
    && (due == None && (Says(b, "TTL", 2) || Says(b, "PTTL", 2)) ==> v == Codec.Int(-1))
    && (due.Some? ==>
         var left := if now < due.value then due.value - now else 0;
         && (Says(b, "PTTL", 2) ==> v == Codec.Int(left))
         && (Says(b, "TTL", 2) ==> v.Int? && left <= 1000 * v.n < left + 1000))
  }

  lemma {:induction false} FindsDue(lib: Lib, q: Served, b: seq<Bytes>, st: Store, st': Store)
    requires Asked(lib, q, b, st, st') && |b| >= 2 && LiveRec(st, b[1], q.t.0).Some?
    ensures Lasts(b, LiveRec(st, b[1], q.t.0).value.due, q.t.1, q.reply)
  {
    if |b| == 2 { DoesTwo(lib, q, b, st, st'); }
  }

  /** GET and ZSCORE answer alike where they find the same value. */
  lemma {:induction false} FindsSame(lib: Lib, q: Served, q': Served, b: seq<Bytes>, st: Store, st1: Store, st': Store,
      st1': Store)
    requires Asked(lib, q, b, st, st1) && Asked(lib, q', b, st', st1') && (Says(b, "GET", 2) || Says(b, "ZSCORE", 3))
    requires var r, r' := LiveRec(st, b[1], q.t.0), LiveRec(st', b[1], q'.t.0);
      (r.None? && r'.None?) || (r.Some? && r'.Some? && r.value.value == r'.value.value)
    ensures q.reply == q'.reply
  {
    if |b| == 2 {
      DoesTwo(lib, q, b, st, st1);
      DoesTwo(lib, q', b, st', st1');
    } else {
      DoesThree(lib, q, b, st, st1);
      DoesThree(lib, q', b, st', st1');
    }
  }

  // ---- strings and keys ----

  /** After a SET that answers nil, GET answers that string at any later time, and the key has no deadline. */
  lemma {:induction false} SetThen(lib: Lib, sts: seq<Store>, tr: seq<Deed>, i: nat, a: seq<Bytes>, j: nat,
      b: seq<Bytes>)
    requires Later(lib, sts, tr, i, a, j, b) && Says(a, "SET", 3) && tr[i].q.reply == Codec.Nil
    ensures Holds(lib, b, a[2], tr[j].q.reply) && Lasts(b, None, tr[j].q.t.1, tr[j].q.reply)
  {
    Finds(lib, sts, tr, i, a, j, b);
    DoesThree(lib, tr[i].q, a, sts[i], sts[i + 1]);
    assert LiveRec(sts[i + 1], a[1], tr[j].q.t.0) == Some(Rec(Str(a[2]), None));
    FindsString(lib, tr[j].q, b, sts[j], sts[j + 1]);
    FindsDue(lib, tr[j].q, b, sts[j], sts[j + 1]);
  }

  /** After a DEL the key is not there. */
  lemma {:induction false} DelThen(lib: Lib, sts: seq<Store>, tr: seq<Deed>, i: nat, a: seq<Bytes>, j: nat,
      b: seq<Bytes>)
    requires Later(lib, sts, tr, i, a, j, b) && Says(a, "DEL", 2)
    ensures Missing(b, tr[j].q.reply)
  {
    Finds(lib, sts, tr, i, a, j, b);
    DoesTwo(lib, tr[i].q, a, sts[i], sts[i + 1]);
    FindsNothing(lib, tr[j].q, b, sts[j], sts[j + 1]);
  }

  // ---- deadlines ----

  /** How long a positive count keeps a key: EXPIRE counts seconds, up to as many as fit in 63 bits of milliseconds, and
      PEXPIRE milliseconds. */
  ghost function Millis(a: seq<Bytes>, n: int): int {
    if !Says(a, "EXPIRE", 3) then n
    else if n <= 9_223_372_036_854_775 then 1000 * n
    else 9_223_372_036_854_775_000
  }

  ghost predicate Expires(lib: Lib, a: seq<Bytes>) {
    (Says(a, "EXPIRE", 3) || Says(a, "PEXPIRE", 3)) && lib.ints(a[2]).Some?
  }

  lemma {:induction false} TtlIs(n: int)
    requires 0 < n <= INT64_MAX
    ensures TtlMs(n, 1) == n
    ensures TtlMs(n, 1000) == if n <= 9_223_372_036_854_775 then 1000 * n else 9_223_372_036_854_775_000
  {}

  lemma {:induction false} ExpireStep(lib: Lib, q: Served, a: seq<Bytes>, st: Store, st': Store)
    requires Asked(lib, q, a, st, st') && Expires(lib, a)
    ensures var r, n := LiveRec(st, a[1], q.t.0), lib.ints(a[2]).value as int;
      if r == None then q.reply == Codec.Int(0) && RecOf(st', a[1]) == None
      else
        && q.reply == Codec.Int(1)
        && RecOf(st', a[1]) == if n <= 0 then None else Some(Rec(r.value.value, Some(q.t.1 + Millis(a, n))))
  {
    DoesThree(lib, q, a, st, st');
    var n := lib.ints(a[2]).value as int;
    if n > 0 { TtlIs(n); }
  }

  /** After EXPIRE or PEXPIRE the key is what it was until the deadline, which TTL and PTTL tell, and from then on it is
      not there; with a count that is not positive it is gone at once. q0 is the same read just before. */
  lemma {:induction false} ExpireThen(lib: Lib, sts: seq<Store>, tr: seq<Deed>, i: nat, a: seq<Bytes>, j: nat,
      b: seq<Bytes>, q0: Served, st0: Store)
    requires Later(lib, sts, tr, i, a, j, b) && Expires(lib, a) && tr[i].q.reply == Codec.Int(1)
    requires Asked(lib, q0, b, sts[i], st0) && q0.t == tr[i].q.t
    ensures var n, q := lib.ints(a[2]).value as int, tr[j].q;
      var due := tr[i].q.t.1 + Millis(a, n);
      if n <= 0 || due <= q.t.0 then Missing(b, q.reply)
      else Lasts(b, Some(due), q.t.1, q.reply) && (Says(b, "GET", 2) || Says(b, "ZSCORE", 3) ==> q.reply == q0.reply)
  {
    var n, q := lib.ints(a[2]).value as int, tr[j].q;
    Finds(lib, sts, tr, i, a, j, b);
    ExpireStep(lib, tr[i].q, a, sts[i], sts[i + 1]);
    if n <= 0 || tr[i].q.t.1 + Millis(a, n) <= q.t.0 {
      FindsNothing(lib, q, b, sts[j], sts[j + 1]);
    } else {
      FindsDue(lib, q, b, sts[j], sts[j + 1]);
      if Says(b, "GET", 2) || Says(b, "ZSCORE", 3) {
        FindsSame(lib, q0, q, b, sts[i], st0, sts[j], sts[j + 1]);
      }
    }
  }

  /** EXPIRE n is PEXPIRE 1000 * n wherever that many milliseconds can be asked for. */
  lemma {:induction false} ExpireIsPexpire(lib: Lib, q: Served, q': Served, a: seq<Bytes>, a': seq<Bytes>, st: Store,
      st1: Store, st1': Store)
    requires Asked(lib, q, a, st, st1) && Asked(lib, q', a', st, st1') && q.t == q'.t
    requires Says(a, "EXPIRE", 3) && Says(a', "PEXPIRE", 3) && a[1] == a'[1]
    requires lib.ints(a[2]).Some? && lib.ints(a'[2]).Some?
    requires lib.ints(a'[2]).value as int == 1000 * lib.ints(a[2]).value as int
    ensures q.reply == q'.reply && st1 == st1'
  {
    DoesThree(lib, q, a, st, st1);
    DoesThree(lib, q', a', st, st1');
  }

  /** After PERSIST the key is what it was at any later time, without a deadline. */
  lemma {:induction false} PersistThen(lib: Lib, sts: seq<Store>, tr: seq<Deed>, i: nat, a: seq<Bytes>, j: nat,
      b: seq<Bytes>, q0: Served, st0: Store)
    requires Later(lib, sts, tr, i, a, j, b) && Says(a, "PERSIST", 2)
    requires Asked(lib, q0, b, sts[i], st0) && q0.t == tr[i].q.t
    ensures var q := tr[j].q;
      && (LiveRec(sts[i], a[1], q0.t.0).Some? ==> Lasts(b, None, q.t.1, q.reply))
      && (Says(b, "GET", 2) || Says(b, "ZSCORE", 3) ==> q.reply == q0.reply)
  {
    Finds(lib, sts, tr, i, a, j, b);
    DoesTwo(lib, tr[i].q, a, sts[i], sts[i + 1]);
    var r := LiveRec(sts[i], a[1], q0.t.0);
    if r.Some? {
      assert LiveRec(sts[i + 1], a[1], tr[j].q.t.0) == Some(Rec(r.value.value, None));
      FindsDue(lib, tr[j].q, b, sts[j], sts[j + 1]);
    }
    if Says(b, "GET", 2) || Says(b, "ZSCORE", 3) { FindsSame(lib, q0, tr[j].q, b, sts[i], st0, sts[j], sts[j + 1]); }
  }

  // ---- sorted sets ----

  ghost predicate AllSorted(st: Store) { forall k | k in st && st[k].value.Zset? :: Sorted(st[k].value.ps) }

  /** The members of the set under a key, as a map; no key counts as the empty set. */
  ghost function Members(st: Store, key: Bytes, now: nat): map<Bytes, Score> {
    var r := LiveRec(st, key, now);
    if r.Some? && r.value.value.Zset? then AsMap(r.value.value.ps) else map[]
  }

  ghost predicate IsString(st: Store, key: Bytes, now: nat) {
    LiveRec(st, key, now).Some? && LiveRec(st, key, now).value.value.Str?
  }

  ghost function DueOf(st: Store, key: Bytes, now: nat): Option<nat> {
    var r := LiveRec(st, key, now);
    if r.Some? then r.value.due else None
  }

  lemma {:induction false} AddStep(lib: Lib, q: Served, a: seq<Bytes>, st: Store, st': Store)
    requires Asked(lib, q, a, st, st') && Says(a, "ZADD", 4) && lib.dbls(a[2]).Some? && AllSorted(st)
    requires !IsString(st, a[1], q.t.0)
    ensures var m, s, r := Members(st, a[1], q.t.0), lib.dbls(a[2]).value, RecOf(st', a[1]);
      && q.reply == Codec.Int(if a[3] in m then 0 else 1)
      && r.Some? && r.value.value.Zset? && r.value.due == DueOf(st, a[1], q.t.0) && Sorted(r.value.value.ps)
      && AsMap(r.value.value.ps) == if a[3] in m && m[a[3]].ord == s.ord then m else m[a[3] := s]
  {
    DoesAdd(lib, q, a, st, st');
    var r := LiveRec(st, a[1], q.t.0);
    var ps := if r.Some? then r.value.value.ps else [];
    PutMap(ps, a[3], lib.dbls(a[2]).value);
    FindIsMap(ps, a[3]);
  }

  lemma {:induction false} RemStep(lib: Lib, q: Served, a: seq<Bytes>, st: Store, st': Store)
    requires Asked(lib, q, a, st, st') && Says(a, "ZREM", 3) && AllSorted(st) && !IsString(st, a[1], q.t.0)
    ensures var m, r := Members(st, a[1], q.t.0), RecOf(st', a[1]);
      && q.reply == Codec.Int(if a[2] in m then 1 else 0)
      && (r.Some? <==> LiveRec(st, a[1], q.t.0).Some?)
      && (r.Some? ==>
           && r.value.value.Zset? && r.value.due == DueOf(st, a[1], q.t.0) && Sorted(r.value.value.ps)
           && AsMap(r.value.value.ps) == m - {a[2]})
  {
    DoesThree(lib, q, a, st, st');
    var r := LiveRec(st, a[1], q.t.0);
    if r.Some? {
      var ps := r.value.value.ps;
      DropMap(ps, a[2]);
      DropSorted(ps, a[2]);
      FindIsMap(ps, a[2]);
    }
  }

  /** The key is still there at time t. */
  ghost predicate Outlives(due: Option<nat>, t: nat) { due.Some? ==> t < due.value }

  /** After a ZADD that answers a number, ZSCORE of that member answers a score equal to the one given, and the very one
      if the member was new; ZSCORE of any other answers what it did (q0, just before); the key is a sorted set and its
      deadline has not changed. */
  lemma {:induction false} AddThen(lib: Lib, sts: seq<Store>, tr: seq<Deed>, i: nat, a: seq<Bytes>, j: nat,
      b: seq<Bytes>, q0: Served, st0: Store)
    requires Later(lib, sts, tr, i, a, j, b) && Says(a, "ZADD", 4) && lib.dbls(a[2]).Some? && tr[i].q.reply.Int?
    requires Asked(lib, q0, b, sts[i], st0) && q0.t == tr[i].q.t && AllSorted(sts[i])
    requires Outlives(DueOf(sts[i], a[1], q0.t.0), tr[j].q.t.0)
    ensures var q, s := tr[j].q, lib.dbls(a[2]).value;
      && (Says(b, "GET", 2) || Says(b, "SET", 3) ==> WrongType(q.reply))
      && Lasts(b, DueOf(sts[i], a[1], q0.t.0), q.t.1, q.reply)
      && (Says(b, "ZSCORE", 3) ==> if b[2] != a[3] then q.reply == q0.reply else
           q.reply.Dbl? && q.reply.x.ord == s.ord && (tr[i].q.reply == Codec.Int(1) ==> q.reply.x == s))
  {
    var q, s := tr[j].q, lib.dbls(a[2]).value;
    Finds(lib, sts, tr, i, a, j, b);
    if IsString(sts[i], a[1], q0.t.0) { FindsString(lib, tr[i].q, a, sts[i], sts[i + 1]); }
    AddStep(lib, tr[i].q, a, sts[i], sts[i + 1]);
    FindsSet(lib, q, b, sts[j], sts[j + 1]);
    FindsDue(lib, q, b, sts[j], sts[j + 1]);
    if Says(b, "ZSCORE", 3) {
      ScoreIs(lib, q, b, sts[j], sts[j + 1]);
      ScoreIs(lib, q0, b, sts[i], st0);
    }
  }

  /** ZSCORE answers the score of a member, and nil for any other name. */
  lemma {:induction false} ScoreIs(lib: Lib, q: Served, b: seq<Bytes>, st: Store, st': Store)
    requires Asked(lib, q, b, st, st') && Says(b, "ZSCORE", 3) && !IsString(st, b[1], q.t.0)
    ensures var m := Members(st, b[1], q.t.0); q.reply == if b[2] in m then Codec.Dbl(m[b[2]]) else Codec.Nil
  {
    var r := LiveRec(st, b[1], q.t.0);
    if r == None {
      FindsNothing(lib, q, b, st, st');
    } else {
      FindsSet(lib, q, b, st, st');
      FindIsMap(r.value.value.ps, b[2]);
    }
  }

  /** After a ZREM that answers a number, ZSCORE of that member answers nil, and of any other what it did; a key that
      was there still is, with its deadline, even if its set is empty now. */
  lemma {:induction false} RemThen(lib: Lib, sts: seq<Store>, tr: seq<Deed>, i: nat, a: seq<Bytes>, j: nat,
      b: seq<Bytes>, q0: Served, st0: Store)
    requires Later(lib, sts, tr, i, a, j, b) && Says(a, "ZREM", 3) && tr[i].q.reply.Int?
    requires Asked(lib, q0, b, sts[i], st0) && q0.t == tr[i].q.t && AllSorted(sts[i])
    requires Outlives(DueOf(sts[i], a[1], q0.t.0), tr[j].q.t.0)
    ensures var q := tr[j].q;
      && (LiveRec(sts[i], a[1], q0.t.0).Some? ==> Lasts(b, DueOf(sts[i], a[1], q0.t.0), q.t.1, q.reply))
      && (Says(b, "ZSCORE", 3) ==> q.reply == if b[2] == a[2] then Codec.Nil else q0.reply)
  {
    var q := tr[j].q;
    Finds(lib, sts, tr, i, a, j, b);
    if IsString(sts[i], a[1], q0.t.0) { FindsString(lib, tr[i].q, a, sts[i], sts[i + 1]); }
    RemStep(lib, tr[i].q, a, sts[i], sts[i + 1]);
    if LiveRec(sts[i], a[1], q0.t.0).Some? { FindsDue(lib, q, b, sts[j], sts[j + 1]); }
    if Says(b, "ZSCORE", 3) {
      ScoreIs(lib, q, b, sts[j], sts[j + 1]);
      ScoreIs(lib, q0, b, sts[i], st0);
    }
  }

  lemma {:induction false} ActSorted(r: Option<Rec>, cmd: Cmd, now: nat)
    requires BadArg(cmd) == None && CmdOk(cmd) && (r.Some? && r.value.value.Zset? ==> Sorted(r.value.value.ps))
    ensures var r' := Act(r, cmd, now).0; r'.Some? && r'.value.value.Zset? ==> Sorted(r'.value.value.ps)
  {
    var ps := if r.Some? && r.value.value.Zset? then r.value.value.ps else [];
    if cmd.ZAdd? { PutMap(ps, cmd.name, cmd.score.value); }
    if cmd.ZRem? { DropSorted(ps, cmd.name); }
  }

  /** The sets of a store stay sorted. */
  lemma {:induction false} SortedKept(lib: Lib, st: Store, e: Deed, st': Store)
    requires Follows(lib, st, e, st') && AllSorted(st)
    ensures AllSorted(st')
  {
    if e.Request? {
      assert Shown(0);
      if Wire.Parse(e.q.body).Some? {
        var r := Dispatch(Wire.Parse(e.q.body).value, lib.ints, lib.dbls);
        if r.Keyed? && BadArg(r.cmd) == None { ActSorted(LiveRec(st, r.key, e.q.t.0), r.cmd, e.q.t.1); }
      }
    }
  }

  lemma {:induction false} SortedAlways(lib: Lib, sts: seq<Store>, tr: seq<Deed>, i: nat)
    requires Runs(lib, sts, tr) && AllSorted(sts[0]) && i <= |tr|
    ensures AllSorted(sts[i])
    decreases i
  {
    if i > 0 {
      SortedAlways(lib, sts, tr, i - 1);
      assert Follows(lib, sts[i - 1], tr[i - 1], sts[i]);
      SortedKept(lib, sts[i - 1], tr[i - 1], sts[i]);
    }
  }

  lemma {:induction false} FlatAt(ps: Pairs, i: nat)
    requires i < |ps|
    ensures |Flat(ps)| == 2 * |ps|
    ensures Flat(ps)[2 * i] == Codec.Str(ps[i].name) && Flat(ps)[2 * i + 1] == Codec.Dbl(ps[i].score)
  {
    FlatLength(ps);
    if i > 0 { FlatAt(ps[1..], i - 1); }
  }

  /** Name and score in turn, in order of rank, from the rank that is offset past the number of members before the key:
      as many whole pairs as it takes to reach the limit, none if no member is at or after the key. */
  ghost predicate Ranked(vs: seq<Codec.Value>, m: map<Bytes, Score>, score: Score, name: Bytes, offset: int,
      limit: int) {
    var k := |Below(m, score, name)|;
    var first := k + offset;
    var n := if limit <= 0 || k == |m| || first < 0 || first >= |m| then 0 else Min(|m| - first, (limit + 1) / 2);
    |vs| == 2 * n && forall i {:trigger Nth(vs, m, first, i)} :: 0 <= i < n ==> Nth(vs, m, first, i)
  }

  /** The i-th pair is a member with its score, and first + i members come before it. */
  ghost predicate Nth(vs: seq<Codec.Value>, m: map<Bytes, Score>, first: int, i: nat) {
    && 2 * i + 1 < |vs| && vs[2 * i].Str? && vs[2 * i].s in m && vs[2 * i + 1] == Codec.Dbl(m[vs[2 * i].s])
    && |Below(m, m[vs[2 * i].s], vs[2 * i].s)| == first + i
  }

  lemma {:induction false} SliceRanked(ps: Pairs, score: Score, name: Bytes, offset: int, limit: int)
    requires Sorted(ps)
    ensures Ranked(Flat(Slice(ps, score, name, offset, limit)), AsMap(ps), score, name, offset, limit)
  {
    var m, qs := AsMap(ps), Slice(ps, score, name, offset, limit);
    SeekCounts(ps, score, name);
    FlatLength(qs);
    var first := |Below(m, score, name)| + offset;
    forall i | 0 <= i < |qs| ensures Nth(Flat(qs), m, first, i) {
      FlatAt(qs, i);
      assert qs[i] == ps[first + i];
      RankIs(ps, first + i);
    }
  }

  ghost predicate Queries(lib: Lib, a: seq<Bytes>) {
    Says(a, "ZQUERY", 6) && lib.dbls(a[2]).Some? && lib.ints(a[4]).Some? && lib.ints(a[5]).Some?
  }

  /** ZQUERY answers the members of a set of up to 2^32 from a rank on; on a string the error. */
  lemma {:induction false} QueryIs(lib: Lib, q: Served, a: seq<Bytes>, st: Store, st': Store)
    requires Asked(lib, q, a, st, st') && Queries(lib, a) && AllSorted(st)
    requires |Members(st, a[1], q.t.0)| <= 0x1_0000_0000
    ensures if IsString(st, a[1], q.t.0) then WrongType(q.reply) else
      && q.reply.Arr?
      && Ranked(q.reply.vs, Members(st, a[1], q.t.0), lib.dbls(a[2]).value, a[3], lib.ints(a[4]).value as int,
           lib.ints(a[5]).value as int)
  {
    AskedIs(lib, q, a, st, st');
    MeansMore(a, lib.ints, lib.dbls);
    var r := LiveRec(st, a[1], q.t.0);
    var score, offset, limit := lib.dbls(a[2]).value, lib.ints(a[4]).value as int, lib.ints(a[5]).value as int;
    if r.Some? && r.value.value.Zset? {
      MapCount(r.value.value.ps);
      SliceRanked(r.value.value.ps, score, a[3], offset, limit);
    }
  }

  /** The rank decides the member. */
  lemma {:induction false} OneRank(m: map<Bytes, Score>, n1: Bytes, n2: Bytes)
    requires n1 in m && n2 in m && |Below(m, m[n1], n1)| == |Below(m, m[n2], n2)|
    ensures n1 == n2
  {
    if n1 != n2 {
      PairTrichotomy(m[n1], n1, m[n2], n2);
      PairLessIs(m[n1], n1, m[n2], n2);
      PairLessIs(m[n2], n2, m[n1], n1);
      if Precedes(m[n1], n1, m[n2], n2) { RankGrows(m, n1, n2); } else { RankGrows(m, n2, n1); }
    }
  }

  lemma {:induction false} RankGrows(m: map<Bytes, Score>, n1: Bytes, n2: Bytes)
    requires n1 in m && n2 in m && Precedes(m[n1], n1, m[n2], n2)
    ensures |Below(m, m[n1], n1)| < |Below(m, m[n2], n2)|
  {
    var a, b := Below(m, m[n1], n1), Below(m, m[n2], n2);
    forall n | n in a ensures n in b {
      PairLessIs(m[n], n, m[n1], n1);
      PairLessIs(m[n1], n1, m[n2], n2);
      PairTransitive(m[n], n, m[n1], n1, m[n2], n2);
      PairLessIs(m[n], n, m[n2], n2);
    }
    PairTrichotomy(m[n1], n1, m[n1], n1);
    PairLessIs(m[n1], n1, m[n1], n1);
    assert a <= b - {n1};
    HashMap.SubsetSize(a, b - {n1});
  }

  // ---- answers that agree: q is a command and p a read on the same store at the same time ----

  ghost predicate Together(lib: Lib, q: Served, a: seq<Bytes>, p: Served, b: seq<Bytes>, st: Store, st1: Store,
      st2: Store) {
    Asked(lib, q, a, st, st1) && Asked(lib, p, b, st, st2) && q.t == p.t && |a| >= 2 && |b| >= 2 && a[1] == b[1]
  }

  lemma {:induction false} FindsKey(lib: Lib, q: Served, a: seq<Bytes>, st: Store, st': Store)
    requires Asked(lib, q, a, st, st') && |a| >= 2 && LiveRec(st, a[1], q.t.0).Some?
    ensures Says(a, "DEL", 2) ==> q.reply == Codec.Int(1)
    ensures Says(a, "PERSIST", 2) ==> q.reply == Codec.Int(if DueOf(st, a[1], q.t.0).Some? then 1 else 0)
    ensures Says(a, "GET", 2) ==> q.reply != Codec.Nil
  {
    if |a| == 2 { DoesTwo(lib, q, a, st, st'); }
  }

  /** DEL and EXPIRE answer 1 for a key that TTL finds and 0 for another; PERSIST answers 1 exactly if PTTL finds a
      deadline; GET finds nothing exactly if TTL does. */
  lemma {:induction false} KeyAnswers(lib: Lib, q: Served, a: seq<Bytes>, p: Served, b: seq<Bytes>, st: Store,
      st1: Store, st2: Store)
    requires Together(lib, q, a, p, b, st, st1, st2) && (Says(b, "TTL", 2) || Says(b, "PTTL", 2))
    ensures p.reply.Int? && p.reply.n >= -2
    ensures Says(a, "DEL", 2) || Expires(lib, a) ==> q.reply == Codec.Int(if p.reply.n == -2 then 0 else 1)
    ensures Says(a, "PERSIST", 2) ==> q.reply == Codec.Int(if p.reply.n >= 0 then 1 else 0)
    ensures Says(a, "GET", 2) ==> (q.reply == Codec.Nil <==> p.reply.n == -2)
  {
    if LiveRec(st, b[1], p.t.0) == None {
      FindsNothing(lib, p, b, st, st2);
      FindsNothing(lib, q, a, st, st1);
    } else {
      FindsDue(lib, p, b, st, st2);
      FindsKey(lib, q, a, st, st1);
    }
    if Expires(lib, a) { ExpireStep(lib, q, a, st, st1); }
  }

  /** SET answers nil, unless GET answers that the key holds a sorted set; then so does SET. */
  lemma {:induction false} SetAnswers(lib: Lib, q: Served, a: seq<Bytes>, p: Served, b: seq<Bytes>, st: Store,
      st1: Store, st2: Store)
    requires Together(lib, q, a, p, b, st, st1, st2) && Says(a, "SET", 3) && Says(b, "GET", 2)
    ensures if WrongType(p.reply) then WrongType(q.reply) else q.reply == Codec.Nil
  {
    DoesTwo(lib, p, b, st, st2);
    DoesThree(lib, q, a, st, st1);
  }

  /** ZADD answers 1 for a member that ZSCORE does not find and 0 for another, ZREM the other way round; on a string all
      three answer the error. */
  lemma {:induction false} MemberAnswers(lib: Lib, q: Served, a: seq<Bytes>, p: Served, b: seq<Bytes>, st: Store,
      st1: Store, st2: Store)
    requires Together(lib, q, a, p, b, st, st1, st2) && Says(b, "ZSCORE", 3)
    ensures Says(a, "ZADD", 4) && lib.dbls(a[2]).Some? && a[3] == b[2] ==>
      if WrongType(p.reply) then WrongType(q.reply) else q.reply == Codec.Int(if p.reply == Codec.Nil then 1 else 0)
    ensures Says(a, "ZREM", 3) && a[2] == b[2] ==>
      if WrongType(p.reply) then WrongType(q.reply) else q.reply == Codec.Int(if p.reply == Codec.Nil then 0 else 1)
  {
    DoesThree(lib, p, b, st, st2);
    if |a| == 3 { DoesThree(lib, q, a, st, st1); }
    if Says(a, "ZADD", 4) { DoesAdd(lib, q, a, st, st1); }
  }

  // ---- KEYS and refusals ----

  lemma {:induction false} StrsAt(ks: seq<Bytes>, i: nat)
    requires i < |ks|
    ensures |Strs(ks)| == |ks| && Strs(ks)[i] == Codec.Str(ks[i])
  {
    StrsAppend(ks, []);
    if i > 0 { StrsAt(ks[1..], i - 1); }
  }

  /** KEYS answers the keys of the store, each once, and changes nothing. */
  lemma {:induction false} KeysAre(lib: Lib, q: Served, a: seq<Bytes>, st: Store, st': Store)
    requires Asked(lib, q, a, st, st') && Says(a, "KEYS", 1)
    ensures st' == st && q.reply.Arr? && NoDup(q.reply.vs)
    ensures forall v :: v in q.reply.vs <==> v.Str? && v.s in st
  {
    AskedIs(lib, q, a, st, st');
    MeansMore(a, lib.ints, lib.dbls);
    var ks :| Lists(ks, st) && q.reply == Codec.Arr(Strs(ks));
    StrsAppend(ks, []);
    forall i | 0 <= i < |ks| ensures Strs(ks)[i] == Codec.Str(ks[i]) { StrsAt(ks, i); }
    forall v: Codec.Value | v.Str? && v.s in st ensures v in Strs(ks) {
      var i :| 0 <= i < |ks| && ks[i] == v.s;
      assert Strs(ks)[i] == v;
    }
  }

  ghost predicate Known(args: seq<Bytes>) {
    || Says(args, "GET", 2) || Says(args, "SET", 3) || Says(args, "DEL", 2) || Says(args, "KEYS", 1)
    || Says(args, "EXPIRE", 3) || Says(args, "PEXPIRE", 3) || Says(args, "TTL", 2) || Says(args, "PTTL", 2)
    || Says(args, "PERSIST", 2) || Says(args, "ZADD", 4) || Says(args, "ZREM", 3) || Says(args, "ZSCORE", 3)
    || Says(args, "ZQUERY", 6)
  }

  /** Any other command vector is answered with an error and changes nothing. */
  lemma {:induction false} UnknownIs(lib: Lib, q: Served, a: seq<Bytes>, st: Store, st': Store)
    requires Asked(lib, q, a, st, st') && !Known(a)
    ensures st' == st
    ensures q.reply == if a == [] then Codec.Err(2, Text("empty command")) else Codec.Err(1, Text("unknown command"))
  {
    AskedIs(lib, q, a, st, st');
    if a != [] { Verbs(a[0]); }
  }

  /** Numbers that do not parse are answered with an error and change nothing; ZQUERY looks at its score first. */
  lemma {:induction false} BadNumberIs(lib: Lib, q: Served, a: seq<Bytes>, st: Store, st': Store)
    requires Asked(lib, q, a, st, st')
    ensures (Says(a, "EXPIRE", 3) || Says(a, "PEXPIRE", 3)) && lib.ints(a[2]) == None ==>
      st' == st && q.reply == Codec.Err(2, Text("value is not an integer"))
    ensures (Says(a, "ZADD", 4) || Says(a, "ZQUERY", 6)) && lib.dbls(a[2]) == None ==>
      st' == st && q.reply == Codec.Err(2, Text("value is not a valid float"))
    ensures Says(a, "ZQUERY", 6) && lib.dbls(a[2]).Some? && (lib.ints(a[4]) == None || lib.ints(a[5]) == None) ==>
      st' == st && q.reply == Codec.Err(2, Text("value is not an integer"))
  {
    if |a| == 3 { DoesThree(lib, q, a, st, st'); }
    if |a| == 4 || |a| == 6 {
      AskedIs(lib, q, a, st, st');
      MeansMore(a, lib.ints, lib.dbls);
    }
  }

  lemma {:induction false} MalformedIs(lib: Lib, q: Served, st: Store, st': Store)
    requires Serves(lib, q, st, st') && Wire.Parse(q.body) == None
    ensures st' == st && q.reply == Codec.Err(2, Text("bad request"))
  {
    assert Shown(0);
  }

  // ---- the laws hold of the server's own run ----

  ghost function Stores(lib: Lib, tr: seq<Deed>): seq<Store> {
    seq(|tr| + 1, i requires 0 <= i <= |tr| => StoreAfter(lib, tr[..i]))
  }

  /** Every run that the server has recorded is a run in the sense of the laws, from the empty store on. */
  lemma {:induction false} ChronicleRuns(lib: Lib, doubles: Bytes -> int, tr: seq<Deed>, st: Store, t: nat)
    requires Chronicle(lib, doubles, tr, st, t)
    ensures Runs(lib, Stores(lib, tr), tr) && AllSorted(Stores(lib, tr)[0])
  {
    assert tr[..0] == [];
    forall i | 0 <= i < |tr| ensures Follows(lib, Stores(lib, tr)[i], tr[i], Stores(lib, tr)[i + 1]) {
      ChronicleFollows(lib, doubles, tr, st, t, i);
    }
    assert Look(0);
  }

  lemma {:induction false} ChronicleFollows(lib: Lib, doubles: Bytes -> int, tr: seq<Deed>, st: Store, t: nat, i: nat)
    requires Chronicle(lib, doubles, tr, st, t) && i < |tr|
    ensures Follows(lib, StoreAfter(lib, tr[..i]), tr[i], StoreAfter(lib, tr[..i + 1]))
  {
    assert Genuine(lib, doubles, tr, i) && Tracked(lib, tr, st, t) by { assert Look(0); }
    assert GenuineBody(lib, doubles, tr, i) by { assert Shown(0); }
    if tr[i].Pass? {
      var tr' := tr[..i + 1];
      assert tr'[..i] == tr[..i];
      PassFollows(lib, tr, st, t, i);
    }
  }

  lemma {:induction false} PassFollows(lib: Lib, tr: seq<Deed>, st: Store, t: nat, i: nat)
    requires Tracked(lib, tr, st, t) && i < |tr| && tr[i].Pass?
    ensures Follows(lib, StoreAfter(lib, tr[..i]), tr[i], StoreAfter(lib, tr[..i + 1]))
  {
    var tr', e := tr[..i + 1], Expiry.Reap(tr[i].dead, tr[i].now);
    assert tr'[..i] == tr[..i];
    var es := EventsIn(lib, tr[..i]);
    assert EventsIn(lib, tr') == es + [e];
    Expiry.RunAppend(map[], es, e);
    EventsPrefix(lib, tr, i + 1);
    Expiry.LegalPrefix(map[], EventsIn(lib, tr), |es| + 1, 0);
    assert EventsIn(lib, tr)[..|es| + 1] == es + [e];
    var t' := Expiry.LegalLast(map[], es, e, 0);
  }

  lemma {:induction false} EventsPrefix(lib: Lib, tr: seq<Deed>, i: nat)
    requires i <= |tr|
    ensures EventsIn(lib, tr[..i]) <= EventsIn(lib, tr)
    decreases |tr|
  {
    if i < |tr| {
      var n := |tr| - 1;
      EventsPrefix(lib, tr[..n], i);
      assert tr[..n][..i] == tr[..i];
    } else {
      assert tr[..i] == tr;
    }
  }
}

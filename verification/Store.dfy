/** What the commands of src/server/command.cpp mean: replies and effects on a plain map of records. */
module Store {
  import opened Base
  import opened Pairs
  import Codec

  datatype Value = Str(s: Bytes) | Zset(ps: Pairs)

  /** due: the time from which the key counts as absent. */
  datatype Rec = Rec(value: Value, due: Option<nat>)

  type Store = map<Bytes, Rec>

  /** A command on one key, after dispatch and numeric parsing; None is a number that did not parse. */
  datatype Cmd =
    | Get
    | Set(str: Bytes)
    | Del
    | Expire(n: Option<Int64>, unitMs: int)
    | Ttl(inMs: bool)
    | Persist
    | ZAdd(score: Option<Score>, name: Bytes)
    | ZRem(name: Bytes)
    | ZScore(name: Bytes)
    | ZQuery(score: Option<Score>, name: Bytes, offset: Option<Int64>, limit: Option<Int64>)

  const INT64_MAX: int := 0x7FFF_FFFF_FFFF_FFFF
  const ERR_UNKNOWN: int := 1
  const ERR_ARG: int := 2
  const ERR_TYPE: int := 3

  function Text(s: string): Bytes { seq(|s|, i requires 0 <= i < |s| => (s[i] as int) % 256) }

  const NOT_FLOAT: Codec.Value := Codec.Err(ERR_ARG, Text("value is not a valid float"))
  const NOT_INT: Codec.Value := Codec.Err(ERR_ARG, Text("value is not an integer"))
  const WRONG_TYPE: Codec.Value :=
    Codec.Err(ERR_TYPE, Text("WRONGTYPE Operation against a key holding the wrong kind of value"))

  /** The error that a command answers before it looks at any key. */
  function BadArg(cmd: Cmd): Option<Codec.Value> {
    match cmd
    case Expire(None, _) => Some(NOT_INT)
    case ZAdd(None, _) => Some(NOT_FLOAT)
    case ZQuery(None, _, _, _) => Some(NOT_FLOAT)
    case ZQuery(Some(_), _, off, lim) => if off == None || lim == None then Some(NOT_INT) else None
    case _ => None
  }

  /** INT64_MAX / unit_ms for the two units there are. */
  function MaxCount(unitMs: int): nat
    requires unitMs == 1 || unitMs == 1000
  {
    if unitMs == 1 then INT64_MAX else INT64_MAX / 1000
  }

  /** TTLs are clamped so that n * unit does not overflow. */
  function TtlMs(n: int, unitMs: int): (ms: nat)
    requires n > 0 && (unitMs == 1 || unitMs == 1000)
    ensures 0 < ms <= INT64_MAX
  {
    Min(n, MaxCount(unitMs)) * unitMs
  }

  function Remaining(due: nat, now: nat, inMs: bool): int {
    var rem := if due > now then due - now else 0;
    if inMs then rem else (rem + 999) / 1000
  }

  /** ZQUERY's pairs: seek, step by rank, then ceil(limit / 2) pairs at most. */
  function Slice(ps: Pairs, score: Score, name: Bytes, offset: int, limit: int): Pairs {
    var k := SeekGe(ps, score, name);
    var start := k + offset;
    if limit <= 0 || k == |ps| || start < 0 || start >= |ps| then []
    else ps[start..start + Min(|ps| - start, (limit + 1) / 2)]
  }

  /** Pairs flattened to name, score, name, score, ... */
  function Flat(ps: Pairs): seq<Codec.Value> {
    if ps == [] then [] else [Codec.Str(ps[0].name), Codec.Dbl(ps[0].score)] + Flat(ps[1..])
  }

  /** One command on the key's live record: the new record and the reply. */
  function Act(r: Option<Rec>, cmd: Cmd, now: nat): (Option<Rec>, Codec.Value)
    requires BadArg(cmd) == None && CmdOk(cmd)
  {
    match cmd
    case Get =>
      (r, if r == None then Codec.Nil else if r.value.value.Str? then Codec.Str(r.value.value.s) else WRONG_TYPE)
    case Set(str) =>
      if r.Some? && r.value.value.Zset? then (r, WRONG_TYPE) else (Some(Rec(Str(str), None)), Codec.Nil)
    case Del =>
      (None, Codec.Int(if r.Some? then 1 else 0))
    case Expire(n, unitMs) =>
      if r == None then (None, Codec.Int(0))
      else if n.value <= 0 then (None, Codec.Int(1))
      else (Some(r.value.(due := Some(now + TtlMs(n.value as int, unitMs)))), Codec.Int(1))
    case Ttl(inMs) =>
      (r, Codec.Int(if r == None then -2
                    else if r.value.due == None then -1
                    else Remaining(r.value.due.value, now, inMs)))
    case Persist =>
      if r == None || r.value.due == None then (r, Codec.Int(0)) else (Some(r.value.(due := None)), Codec.Int(1))
    case ZAdd(score, name) =>
      if r == None then (Some(Rec(Zset(Put([], name, score.value)), None)), Codec.Int(1))
      else if r.value.value.Str? then (r, WRONG_TYPE)
      else (Some(r.value.(value := Zset(Put(r.value.value.ps, name, score.value)))),
            Codec.Int(if Find(r.value.value.ps, name) == None then 1 else 0))
    case ZRem(name) =>
      if r == None then (r, Codec.Int(0))
      else if r.value.value.Str? then (r, WRONG_TYPE)
      else if Find(r.value.value.ps, name) == None then (r, Codec.Int(0))
      else (Some(r.value.(value := Zset(Drop(r.value.value.ps, name)))), Codec.Int(1))
    case ZScore(name) =>
      (r, if r == None then Codec.Nil
          else if r.value.value.Str? then WRONG_TYPE
          else match Find(r.value.value.ps, name) case None => Codec.Nil case Some(s) => Codec.Dbl(s))
    case ZQuery(score, name, offset, limit) =>
      (r, if r == None then Codec.Arr([])
          else if r.value.value.Str? then WRONG_TYPE
          else Codec.Arr(Flat(Slice(r.value.value.ps, score.value, name, offset.value as int, limit.value as int))))
  }

  predicate Overdue(r: Rec, now: nat) { r.due.Some? && r.due.value <= now }

  /** lookup_entry's view of a key at a clock reading. */
  function LiveRec(st: Store, key: Bytes, now: nat): Option<Rec> {
    if key in st && !Overdue(st[key], now) then Some(st[key]) else None
  }

  /** The key's live value is a sorted set of more than 2^32 pairs, which its tree cannot be relied on to count. */
  predicate Vast(st: Store, key: Bytes, now: nat) {
    var r := LiveRec(st, key, now);
    r.Some? && r.value.value.Zset? && |r.value.value.ps| > TWO32
  }

  function Assign(st: Store, key: Bytes, r: Option<Rec>): Store {
    match r case None => st - {key} case Some(x) => st[key := x]
  }

  /** EXPIRE counts seconds, PEXPIRE milliseconds. */
  predicate CmdOk(cmd: Cmd) { cmd.Expire? ==> cmd.unitMs == 1 || cmd.unitMs == 1000 }

  /** One command as the code runs it: lazy expiry of its own key at t1, effects at t2. */
  function Exec(st: Store, key: Bytes, cmd: Cmd, t1: nat, t2: nat): (Store, Codec.Value)
    requires CmdOk(cmd)
  {
    match BadArg(cmd)
    case Some(err) => (st, err)
    case None =>
      var (r, reply) := Act(LiveRec(st, key, t1), cmd, t2);
      (Assign(st, key, r), reply)
  }

  lemma {:induction false} AssignAgain(st: Store, key: Bytes, r: Option<Rec>, r': Option<Rec>)
    ensures Assign(Assign(st, key, r), key, r') == Assign(st, key, r')
  {}

  lemma {:induction false} FlatAppend(ps: Pairs, p: Pair)
    ensures Flat(ps + [p]) == Flat(ps) + [Codec.Str(p.name), Codec.Dbl(p.score)]
    decreases |ps|
  {
    if ps == [] {
      assert [] + [p] == [p];
    } else {
      assert (ps + [p])[1..] == ps[1..] + [p];
      FlatAppend(ps[1..], p);
    }
  }

  lemma {:induction false} FlatLength(ps: Pairs)
    ensures |Flat(ps)| == 2 * |ps|
  {
    if ps != [] { FlatLength(ps[1..]); }
  }

  /** How many pairs there are from ZQUERY's starting place on. */
  function Rest(ps: Pairs, score: Score, name: Bytes, offset: int): nat {
    var k := SeekGe(ps, score, name);
    if k == |ps| || k + offset < 0 || k + offset >= |ps| then 0 else |ps| - (k + offset)
  }

  /** ZQUERY emits at most limit elements exactly when the limit is even or not reached: pairs are emitted whole. */
  lemma {:induction false} LimitIff(ps: Pairs, score: Score, name: Bytes, offset: int, limit: int)
    ensures |Flat(Slice(ps, score, name, offset, limit))| <= Max(limit, 0) <==>
      limit <= 0 || limit % 2 == 0 || 2 * Rest(ps, score, name, offset) < limit
  {
    FlatLength(Slice(ps, score, name, offset, limit));
  }

  /** One member at 0.0 and ZQUERY from there with limit 1: two elements. */
  lemma OddLimit()
    ensures var zero := Score(0, [0, 0, 0, 0, 0, 0, 0, 0]); |Flat(Slice([Pair([1], zero)], zero, [], 0, 1))| == 2
  {
    var zero := Score(0, [0, 0, 0, 0, 0, 0, 0, 0]);
    var ps := [Pair([1], zero)];
    assert SeekGe(ps, zero, []) == 0 by {
      NameTrichotomy([1], []);
      assert !NameLess([1], []);
    }
    FlatLength(ps);
    assert ps[0..1] == ps;
  }
}

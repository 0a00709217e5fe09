/** Lazy and active expiry are invisible: whole runs against a store that forgets each key at its deadline. */
module Expiry {
  import opened Base
  import opened Store
  import Codec
  import Pairs

  /** The keys that still count at a clock reading. */
  function Live(st: Store, now: nat): Store {
    map k | k in st && !Overdue(st[k], now) :: st[k]
  }

  /** The reference: every overdue key is gone before the command runs, and nothing else expires anything. */
  function IdealExec(st: Store, key: Bytes, cmd: Cmd, t1: nat, t2: nat): (Store, Codec.Value)
    requires CmdOk(cmd)
  {
    match BadArg(cmd)
    case Some(err) => (Live(st, t1), err)
    case None =>
      var live := Live(st, t1);
      var (r, reply) := Act(if key in live then Some(live[key]) else None, cmd, t2);
      (Assign(live, key, r), reply)
  }

  /** One step of the server as the keyspace sees it: a command, or a reaper pass that removed some keys. */
  datatype Event = Command(key: Bytes, cmd: Cmd, t1: nat, t2: nat) | Reap(dead: set<Bytes>, now: nat)

  function EndTime(e: Event): nat { if e.Command? then e.t2 else e.now }

  function StepCode(st: Store, e: Event): (Store, seq<Codec.Value>)
    requires e.Command? ==> CmdOk(e.cmd)
  {
    match e
    case Command(key, cmd, t1, t2) => var (st', reply) := Exec(st, key, cmd, t1, t2); (st', [reply])
    case Reap(dead, _) => (st - dead, [])
  }

  function StepIdeal(st: Store, e: Event): (Store, seq<Codec.Value>)
    requires e.Command? ==> CmdOk(e.cmd)
  {
    match e
    case Command(key, cmd, t1, t2) => var (st', reply) := IdealExec(st, key, cmd, t1, t2); (st', [reply])
    case Reap(_, _) => (st, [])
  }

  /** The clock never runs backwards, and the reaper removes only keys that are due. */
  ghost predicate LegalStep(st: Store, e: Event, t: nat) {
    match e
    case Command(_, cmd, t1, t2) => CmdOk(cmd) && t <= t1 <= t2
    case Reap(dead, now) => t <= now && forall k :: k in dead && k in st ==> Overdue(st[k], now)
  }

  ghost predicate Legal(st: Store, es: seq<Event>, t: nat)
    decreases |es|
  {
    es == [] || (LegalStep(st, es[0], t) && Legal(StepCode(st, es[0]).0, es[1..], EndTime(es[0])))
  }

  ghost predicate Runnable(es: seq<Event>) { forall i :: 0 <= i < |es| && es[i].Command? ==> CmdOk(es[i].cmd) }

  function RunCode(st: Store, es: seq<Event>): (Store, seq<Codec.Value>)
    requires forall i :: 0 <= i < |es| && es[i].Command? ==> CmdOk(es[i].cmd)
    decreases |es|
  {
    if es == [] then (st, []) else
    var (st1, r1) := StepCode(st, es[0]);
    var (st2, r2) := RunCode(st1, es[1..]);
    (st2, r1 + r2)
  }

  function RunIdeal(st: Store, es: seq<Event>): (Store, seq<Codec.Value>)
    requires forall i :: 0 <= i < |es| && es[i].Command? ==> CmdOk(es[i].cmd)
    decreases |es|
  {
    if es == [] then (st, []) else
    var (st1, r1) := StepIdeal(st, es[0]);
    var (st2, r2) := RunIdeal(st1, es[1..]);
    (st2, r1 + r2)
  }

  lemma {:induction false} LiveLater(c: Store, i: Store, t: nat, t': nat)
    requires Live(c, t) == Live(i, t) && t <= t'
    ensures Live(c, t') == Live(i, t')
  {
    forall k ensures k in Live(c, t') <==> k in Live(i, t') {
      assert k in Live(c, t) <==> k in Live(i, t);
    }
    forall k | k in Live(c, t') ensures Live(c, t')[k] == Live(i, t')[k] {
      assert k in Live(c, t) && Live(c, t)[k] == Live(i, t)[k];
    }
  }

  lemma {:induction false} LiveAssign(c: Store, i: Store, key: Bytes, r: Option<Rec>, t: nat)
    requires Live(c, t) == Live(i, t)
    ensures Live(Assign(c, key, r), t) == Live(Assign(i, key, r), t)
  {
    var c', i' := Assign(c, key, r), Assign(i, key, r);
    forall k ensures k in Live(c', t) <==> k in Live(i', t) {
      assert k in Live(c, t) <==> k in Live(i, t);
    }
    forall k | k in Live(c', t) ensures Live(c', t)[k] == Live(i', t)[k] {
      assert k != key ==> k in Live(c, t) && Live(c, t)[k] == Live(i, t)[k];
    }
  }

  lemma {:induction false} LiveSame(c: Store, i: Store, key: Bytes, t: nat)
    requires Live(c, t) == Live(i, t)
    ensures LiveRec(c, key, t) == LiveRec(i, key, t)
  {
    assert key in Live(c, t) <==> key in Live(i, t);
    if key in Live(i, t) { assert Live(c, t)[key] == Live(i, t)[key]; }
  }

  lemma {:induction false} LiveLive(i: Store, t: nat)
    ensures Live(Live(i, t), t) == Live(i, t)
  {}

  /** One step: stores that agree on their live keys answer alike and still agree. */
  lemma {:induction false} StepInvisible(c: Store, i: Store, e: Event, t: nat)
    requires Live(c, t) == Live(i, t) && LegalStep(c, e, t)
    ensures StepCode(c, e).1 == StepIdeal(i, e).1
    ensures Live(StepCode(c, e).0, EndTime(e)) == Live(StepIdeal(i, e).0, EndTime(e))
  {
    match e
    case Reap(dead, now) =>
      LiveLater(c, i, t, now);
      assert Live(c - dead, now) == Live(c, now);
    case Command(key, cmd, t1, t2) =>
      LiveLater(c, i, t, t1);
      LiveLive(i, t1);
      var live := Live(i, t1);
      LiveSame(c, live, key, t1);
      assert LiveRec(live, key, t1) == if key in live then Some(live[key]) else None;
      var c', i' := StepCode(c, e).0, StepIdeal(i, e).0;
      assert Live(c', t1) == Live(i', t1) by {
        if BadArg(cmd) == None { LiveAssign(c, live, key, Act(LiveRec(c, key, t1), cmd, t2).0, t1); }
      }
      LiveLater(c', i', t1, t2);
  }

  /** Over any interleaving of commands and reaper passes, the replies are those of the reference run. */
  lemma {:induction false} ExpiryInvisible(c: Store, i: Store, es: seq<Event>, t: nat)
    requires Live(c, t) == Live(i, t) && Legal(c, es, t) && Runnable(es)
    ensures RunCode(c, es).1 == RunIdeal(i, es).1
    decreases |es|
  {
    if es != [] {
      StepInvisible(c, i, es[0], t);
      ExpiryInvisible(StepCode(c, es[0]).0, StepIdeal(i, es[0]).0, es[1..], EndTime(es[0]));
    }
  }

  /** ... and the stores still agree on their live keys. */
  lemma {:induction false} RunLive(c: Store, i: Store, es: seq<Event>, t: nat, end: nat)
    requires Live(c, t) == Live(i, t) && Legal(c, es, t) && Runnable(es) && EndsBy(es, end) && t <= end
    ensures Live(RunCode(c, es).0, end) == Live(RunIdeal(i, es).0, end)
    decreases |es|
  {
    if es == [] {
      LiveLater(c, i, t, end);
    } else {
      StepInvisible(c, i, es[0], t);
      RunLive(StepCode(c, es[0]).0, StepIdeal(i, es[0]).0, es[1..], EndTime(es[0]), end);
    }
  }

  // ---- runs that grow one step at a time ----

  lemma {:induction false} RunAppend(st: Store, es: seq<Event>, e: Event)
    requires Runnable(es) && (e.Command? ==> CmdOk(e.cmd))
    ensures Runnable(es + [e])
    ensures var (mid, rs) := RunCode(st, es);
      RunCode(st, es + [e]) == (StepCode(mid, e).0, rs + StepCode(mid, e).1)
    decreases |es|
  {
    var es' := es + [e];
    if es == [] {
      assert es' == [e] && es'[1..] == [];
      assert StepCode(st, e).1 + [] == [] + StepCode(st, e).1;
    } else {
      assert es'[0] == es[0] && es'[1..] == es[1..] + [e];
      var (st1, r1) := StepCode(st, es[0]);
      RunAppend(st1, es[1..], e);
      var (mid, rs) := RunCode(st1, es[1..]);
      Codec.Reassociate(r1, rs, StepCode(mid, e).1);
    }
  }

  ghost predicate EndsBy(es: seq<Event>, t: nat) { forall i :: 0 <= i < |es| ==> EndTime(es[i]) <= t }

  lemma {:induction false} LegalAppend(st: Store, es: seq<Event>, e: Event, t: nat, t': nat)
    requires Runnable(es) && Legal(st, es, t) && EndsBy(es, t') && t <= t' && LegalStep(RunCode(st, es).0, e, t')
    ensures Legal(st, es + [e], t)
    decreases |es|
  {
    var es' := es + [e];
    if es == [] {
      assert es' == [e] && Legal(StepCode(st, e).0, es'[1..], EndTime(e));
    } else {
      assert es'[0] == es[0] && es'[1..] == es[1..] + [e];
      LegalAppend(StepCode(st, es[0]).0, es[1..], e, EndTime(es[0]), t');
    }
  }

  lemma {:induction false} LegalPrefix(st: Store, es: seq<Event>, n: nat, t: nat)
    requires Runnable(es) && Legal(st, es, t) && n <= |es|
    ensures Legal(st, es[..n], t)
    decreases |es|
  {
    if n > 0 {
      LegalPrefix(StepCode(st, es[0]).0, es[1..], n - 1, EndTime(es[0]));
      assert es[..n][1..] == es[1..][..n - 1];
    }
  }

  /** The last step of a legal history. */
  lemma {:induction false} LegalLast(st: Store, es: seq<Event>, e: Event, t: nat) returns (t': nat)
    requires Runnable(es) && Legal(st, es + [e], t)
    ensures LegalStep(RunCode(st, es).0, e, t')
    decreases |es|
  {
    var es' := es + [e];
    if es == [] {
      t' := t;
      assert es'[0] == e;
    } else {
      assert es'[0] == es[0] && es'[1..] == es[1..] + [e];
      t' := LegalLast(StepCode(st, es[0]).0, es[1..], e, EndTime(es[0]));
    }
  }

  /** A legal history from the empty store that ends by time t in store st, with its replies. */
  ghost predicate Tracks(st: Store, es: seq<Event>, replies: seq<Codec.Value>, t: nat) {
    Runnable(es) && Legal(map[], es, 0) && EndsBy(es, t) && RunCode(map[], es) == (st, replies)
  }

  lemma {:induction false} TracksMore(st: Store, es: seq<Event>, replies: seq<Codec.Value>, t: nat, e: Event)
    requires Tracks(st, es, replies, t) && LegalStep(st, e, t)
    ensures Tracks(StepCode(st, e).0, es + [e], replies + StepCode(st, e).1, EndTime(e))
  {
    RunAppend(map[], es, e);
    LegalAppend(map[], es, e, 0, t);
  }

  /** Along any history the replies are those of the store that forgets each key at its deadline. */
  lemma {:induction false} HistoryInvisible(st: Store, es: seq<Event>, replies: seq<Codec.Value>, t: nat)
    requires Tracks(st, es, replies, t)
    ensures replies == RunIdeal(map[], es).1
  {
    ExpiryInvisible(map[], map[], es, 0);
  }

  /** KEYS is the exception: what it lists beyond the live keys is exactly overdue keys not yet reaped. */
  lemma {:induction false} KeysListsOverdue(c: Store, i: Store, t: nat)
    requires Live(c, t) == Live(i, t)
    ensures Live(i, t).Keys <= c.Keys
    ensures forall k :: k in c.Keys && k !in Live(i, t).Keys ==> Overdue(c[k], t)
    ensures c.Keys == Live(i, t).Keys <==> forall k :: k in c ==> !Overdue(c[k], t)
  {
    assert Live(c, t).Keys == Live(i, t).Keys;
    forall k | k in c && !Overdue(c[k], t) ensures k in Live(c, t) {}
  }

  ghost function SetThenExpire(): seq<Event> { [Command([1], Set([]), 0, 0), Command([1], Expire(Some(5), 1), 0, 0)] }

  /** SET and PEXPIRE with 5 ms, and at time 5 no reaper pass has run: KEYS still lists a key that has expired. */
  lemma {:induction false} KeysNotInvisible()
    ensures Runnable(SetThenExpire())
    ensures var (st, rs) := RunCode(map[], SetThenExpire());
      Tracks(st, SetThenExpire(), rs, 0) && st.Keys == {[1]} && Live(RunIdeal(map[], SetThenExpire()).0, 5) == map[]
  {
    var e1, e2 := SetThenExpire()[0], SetThenExpire()[1];
    TracksMore(map[], [], [], 0, e1);
    var st1 := StepCode(map[], e1).0;
    TracksMore(st1, [] + [e1], [] + StepCode(map[], e1).1, 0, e2);
    assert ([] + [e1]) + [e2] == SetThenExpire();
    var st := RunCode(map[], SetThenExpire()).0;
    assert st == map[[1] := Rec(Str([]), Some(5))];
    RunLive(map[], map[], SetThenExpire(), 0, 5);
    assert Live(st, 5) == map[];
  }

  const ZERO: Score := Score(0, [0, 0, 0, 0, 0, 0, 0, 0])

  ghost function OneMember(): seq<Event> { [Command([1], ZAdd(Some(ZERO), [1]), 0, 0)] }

  /** ZADD of one member from the empty store, then ZQUERY with limit 1: two elements. */
  lemma {:induction false} OddLimitReached()
    ensures Runnable(OneMember())
    ensures var (st, rs) := RunCode(map[], OneMember());
      && Tracks(st, OneMember(), rs, 0)
      && Exec(st, [1], ZQuery(Some(ZERO), [], Some(0), Some(1)), 0, 0).1 ==
         Codec.Arr([Codec.Str([1]), Codec.Dbl(ZERO)])
  {
    var e := OneMember()[0];
    TracksMore(map[], [], [], 0, e);
    assert [] + [e] == OneMember();
    var ps := [Pairs.Pair([1], ZERO)];
    var st := RunCode(map[], OneMember()).0;
    assert st == map[[1] := Rec(Zset(ps), None)];
    assert Pairs.SeekGe(ps, ZERO, []) == 0 by {
      NameTrichotomy([1], []);
      assert !NameLess([1], []);
    }
    assert ps[0..1] == ps;
    assert Flat(ps) == [Codec.Str([1]), Codec.Dbl(ZERO)];
  }
}

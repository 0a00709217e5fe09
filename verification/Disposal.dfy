/** What becomes of an entry that leaves the keyspace: freed on the spot, or by a worker of the pool
    (entry_del in src/store/database.cpp over src/threadpool/thread_pool.cpp). */
module Disposal {
  import opened Base
  import opened Database
  import Pool

  /** How often the tasks done have freed entry p, where task t is the t-th entry handed off. */
  ghost function ByPool(queued: seq<Ptr>, done: seq<nat>, p: Ptr): nat {
    if done == [] then 0 else
    var t := done[|done| - 1];
    ByPool(queued, done[..|done| - 1], p) + if t < |queued| && queued[t] == p then 1 else 0
  }

  /** How often entry p has been freed. */
  ghost function Frees(db: Database, s: Pool.State, p: Ptr): nat
    reads db
  {
    (if p in db.freed then 1 else 0) + ByPool(db.queued, s.done, p)
  }

  lemma {:induction false} ByPoolNone(queued: seq<Ptr>, done: seq<nat>, p: Ptr)
    requires p !in queued
    ensures ByPool(queued, done, p) == 0
  {
    if done != [] { ByPoolNone(queued, done[..|done| - 1], p); }
  }

  lemma {:induction false} ByPoolCount(queued: seq<Ptr>, done: seq<nat>, t: nat)
    requires t < |queued| && NoDup(queued)
    ensures ByPool(queued, done, queued[t]) == Pool.Count(done, t)
  {
    if done != [] { ByPoolCount(queued, done[..|done| - 1], t); }
  }

  /** The workers have freed an entry as often as its task has run. */
  lemma {:induction false} FreesAre(db: Database, s: Pool.State, p: Ptr) returns (t: nat)
    requires db.Valid() && 0 < p < |db.ents|
    ensures if p in db.queued then t < |db.queued| && db.queued[t] == p && Frees(db, s, p) == Pool.Count(s.done, t)
      else Frees(db, s, p) == if p in db.dict.Entries() then 0 else 1
  {
    db.OnePlace(p);
    t := 0;
    if p in db.queued {
      t :| 0 <= t < |db.queued| && db.queued[t] == p;
      db.QueuedOnce();
      ByPoolCount(db.queued, s.done, t);
    } else {
      ByPoolNone(db.queued, s.done, p);
    }
  }

  /** At no time, whatever the workers are at, is an entry of the keyspace freed, or any entry freed twice. */
  lemma {:induction false} NeverTwice(db: Database, threads: nat, es: seq<Pool.Step>, s: Pool.State, p: Ptr)
    requires db.Valid() && 0 < p < |db.ents| && Pool.Reaches(Pool.Start(threads), es, s)
    ensures Frees(db, s, p) <= if p in db.dict.Entries() then 0 else 1
  {
    db.OnePlace(p);
    var t := FreesAre(db, s, p);
    Pool.AlwaysInv(threads, es, s);
    assert Pool.Once(s, t);
  }

  /** When the workers are gone, every entry that has left the keyspace has been freed, and freed once. */
  lemma {:induction false} FreedOnce(db: Database, threads: nat, es: seq<Pool.Step>, s: Pool.State, p: Ptr)
    requires db.Valid() && 0 < p < |db.ents| && Pool.Reaches(Pool.Start(threads), es, s)
    requires s.queued == |db.queued| && forall i :: 0 <= i < |s.ws| ==> s.ws[i] == Pool.Exited
    ensures Frees(db, s, p) == if p in db.dict.Entries() then 0 else 1
  {
    db.OnePlace(p);
    var t := FreesAre(db, s, p);
    Pool.AllDone(threads, es, s, t);
  }
}

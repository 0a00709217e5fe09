/** The key half of process_timers in src/server/server.cpp, and next_timer_ms. */
module Timers {
  import opened Base
  import opened Store
  import opened Database
  import Expiry
  import Heap

  /** k_max_works */
  const MAX_WORKS: nat := 2000

  ghost predicate NoEarlier(st: Store, due: nat) {
    forall k :: k in st && st[k].due.Some? ==> due <= st[k].due.value
  }

  /** The heap's root: the entry with the nearest deadline of all keys, or no key has a deadline. */
  method NextDue(db: Database) returns (r: Option<Heap.Item>, ghost key: Bytes)
    requires db.Valid()
    ensures r == if db.ttl.a == [] then None else Some(db.ttl.a[0])
    ensures r.None? ==> forall k :: k in db.st ==> db.st[k].due == None
    ensures r.Some? ==> r.value.ref in db.dict.Entries() && r.value.ref < |db.ents| && db.ents[r.value.ref].key == key
    ensures r.Some? ==> key in db.st && db.st[key].due == Some(r.value.val) && NoEarlier(db.st, r.value.val)
  {
    r, key := None, [];
    assert Open(0);
    assert db.ttl.Valid() && Heap.Open(0);
    if db.ttl.a != [] {
      r := Some(db.ttl.a[0]);
      ghost var p := r.value.ref;
      assert db.TimerOk(p) && db.EntOk(p);
      key := db.ents[p].key;
      assert db.KeyOk(key);
    }
    forall k | k in db.st && db.st[k].due.Some? ensures r.Some? && r.value.val <= db.st[k].due.value {
      assert db.KeyOk(k);
      Heap.RootMin(db.ttl.a, db.ttl.idx[db.who[k]]);
    }
  }

  /** KEYS lists exactly the keys that the ideal store has live if and only if the heap is empty or its root is not due
      yet; a pass that reaped fewer than MAX_WORKS keys leaves it so. */
  lemma {:induction false} KeysExactIff(db: Database, ideal: Store, now: nat)
    requires db.Valid() && Expiry.Live(db.st, now) == Expiry.Live(ideal, now)
    ensures db.st.Keys == Expiry.Live(ideal, now).Keys <==> db.ttl.a == [] || db.ttl.a[0].val > now
  {
    Expiry.KeysListsOverdue(db.st, ideal, now);
    assert Open(0);
    assert db.ttl.Valid() && Heap.Open(0);
    if db.ttl.a != [] && db.ttl.a[0].val <= now {
      var p := db.ttl.a[0].ref;
      assert db.TimerOk(p) && db.EntOk(p) && db.KeyOk(db.ents[p].key);
    } else {
      forall k | k in db.st ensures !Overdue(db.st[k], now) {
        assert db.KeyOk(k);
        if db.st[k].due.Some? { Heap.RootMin(db.ttl.a, db.ttl.idx[db.who[k]]); }
      }
    }
  }

  /** A reaper pass so far: only overdue keys went, nearest deadline first, and what is left is due no earlier. */
  ghost predicate Reaped(st0: Store, st: Store, dead: seq<Bytes>, now: nat) {
    && |dead| <= 2000 && NoDup(dead)
    && (forall i :: 0 <= i < |dead| ==> dead[i] in st0 && Overdue(st0[dead[i]], now))
    && (forall i, j :: 0 <= i < j < |dead| ==> st0[dead[i]].due.value <= st0[dead[j]].due.value)
    && (forall i :: 0 <= i < |dead| ==> NoEarlier(st, st0[dead[i]].due.value))
    && (forall k :: k in st <==> k in st0 && k !in dead) && (forall k :: k in st ==> st[k] == st0[k])
  }

  lemma {:induction false} ReapedOne(st0: Store, st: Store, dead: seq<Bytes>, now: nat, key: Bytes)
    requires Reaped(st0, st, dead, now) && |dead| < 2000
    requires key in st && Overdue(st[key], now) && NoEarlier(st, st[key].due.value)
    ensures Reaped(st0, st - {key}, dead + [key], now)
  {
    var st', dead' := st - {key}, dead + [key];
    forall i | 0 <= i < |dead'| ensures NoEarlier(st', st0[dead'[i]].due.value) {
      assert i < |dead| ==> NoEarlier(st, st0[dead[i]].due.value);
    }
    forall k ensures k in st' <==> k in st0 && k !in dead' {
      assert k in dead' <==> k in dead || k == key;
    }
  }

  /** process_timers, key half: at most MAX_WORKS due keys go, in deadline order, and the pass stops early only when
      no key is due any more. */
  method ReapKeys(db: Database, now: nat) returns (ghost dead: seq<Bytes>)
    requires db.Valid() && now < TWO63
    modifies db.dict, db.ttl, db`queued, db`freed, db`st, db`who
    ensures db.Valid() && Reaped(old(db.st), db.st, dead, now)
    ensures |dead| == 2000 || (db.ttl.a == [] || db.ttl.a[0].val > now)
    ensures |dead| == 2000 || forall k :: k in db.st ==> !Overdue(db.st[k], now)
  {
    dead := [];
    var nworks := 0;
    while true
      invariant db.Valid() && nworks == |dead| && Reaped(old(db.st), db.st, dead, now)
      decreases MAX_WORKS - nworks
    {
      var root, key := NextDue(db);
      if root.None? || root.value.val > now { return; }
      if nworks >= MAX_WORKS { return; }
      nworks := nworks + 1;
      ReapedOne(old(db.st), db.st, dead, now, key);
      db.DropEntry(root.value.ref, true, now);
      dead := dead + [key];
    }
  }

  /** A pass is a legal reaper event of the expiry theorem, and its effect is that event's. */
  lemma {:induction false} PassIsEvent(st0: Store, st: Store, dead: seq<Bytes>, now: nat, t: nat)
    requires Reaped(st0, st, dead, now) && t <= now
    ensures var e := Expiry.Reap((set k | k in dead), now);
      Expiry.LegalStep(st0, e, t) && Expiry.StepCode(st0, e) == (st, [])
  {
    assert st == st0 - (set k | k in dead);
  }

  // ---- next_timer_ms ----

  /** Unsigned 64-bit addition. */
  function Add64(a: nat, b: nat): nat { (a + b) % TWO64 }

  lemma NoWrap(a: nat, b: nat)
    requires a < TWO63 && b < TWO63
    ensures Add64(a, b) == a + b < TWO64 - 1
  {}

  /** Narrowing to int32_t. */
  function ToInt32(x: nat): int {
    var y := x % (2 * TWO31);
    if y < TWO31 then y else y - 2 * TWO31
  }

  /** The poll timeout for the nearest timer; the largest uint64_t means there is none. */
  function Timeout(next: nat, now: nat): int {
    if next == TWO64 - 1 then -1 else if next <= now then 0 else ToInt32(next - now)
  }

  /** The timeout is the gap to the nearest timer exactly when the gap fits in 31 bits. */
  lemma {:induction false} TimeoutExact(next: nat, now: nat)
    requires now < next < TWO64 - 1
    ensures Timeout(next, now) == next - now <==> next - now < 0x8000_0000
  {
    var gap := next - now;
    if gap < TWO31 { assert gap % (2 * TWO31) == gap; }
  }

  /** Beyond that the timeout can come out negative, which poll takes as "no timeout": a TTL of 30 days does it. */
  lemma TimeoutWraps(now: nat)
    requires now < TWO63
    ensures Timeout(now + 30 * 24 * 3600 * 1000, now) == -1702967296
  {
    assert 2592000000 % (2 * TWO31) == 2592000000;
  }
}

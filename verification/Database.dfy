/** src/store/database.cpp and lookup_entry: the keyspace, its timer heap and expiry on sight. */
module Database {
  import opened Base
  import opened Pairs
  import opened Store
  import HashMap
  import Heap
  import Zs = ZSet

  const LARGE_CONTAINER: nat := 1000

  /** An Entry's value: a string, or its own sorted set. */
  datatype Payload = PStr(s: Bytes) | PZset(z: Zs.ZSet)

  /** An Entry; its HNode and its heap_idx live at the same address in the hash map and in the timer heap. */
  datatype Entry = Entry(key: Bytes, val: Payload)

  function Foot(z: Zs.ZSet): set<object> { {z, z.tree, z.hmap} }

  ghost function FootOf(v: Payload): set<object> { if v.PStr? then {} else Foot(v.z) }

  /** entry_eq with its key applied. */
  function KeyIs(ents: seq<Entry>, key: Bytes): Ptr -> bool { (p: Ptr) => p < |ents| && ents[p].key == key }

  /** Mentioning Open unfolds Database.Valid. */
  ghost predicate Open(z: int) { true }

  class Database {
    const hash: Bytes -> nat
    const hasPool: bool
    const dict: HashMap.HMap
    const ttl: Heap.TimerHeap
    var ents: seq<Entry>
    /** Entries handed to the worker pool, oldest first. */
    var queued: seq<Ptr>
    /** Entries freed on the spot. */
    ghost var freed: set<Ptr>
    /** The abstract store, and the entry that holds each of its keys. */
    ghost var st: Store
    ghost var who: map<Bytes, Ptr>
    /** Everything the sorted sets are made of. */
    ghost var repr: set<object>

    ghost function ValueOf(p: Ptr): Value
      requires p < |ents| && FootOf(ents[p].val) <= repr
      reads this, repr
    {
      match ents[p].val case PStr(s) => Str(s) case PZset(z) => Zset(z.Listing())
    }

    ghost predicate EntOk(p: Ptr)
      reads this, dict, repr
    {
      && 0 < p < |ents| && p < |dict.mem| && dict.mem[p].hcode == hash(ents[p].key)
      && ents[p].key in who && who[ents[p].key] == p
      && FootOf(ents[p].val) <= repr && (ents[p].val.PZset? ==> ents[p].val.z.Valid())
    }

    ghost predicate KeyOk(k: Bytes)
      reads this, dict, ttl, repr
    {
      && k in who && who[k] in dict.Entries() && who[k] < |ents| && ents[who[k]].key == k
      && k in st && FootOf(ents[who[k]].val) <= repr
      && st[k] == Rec(ValueOf(who[k]), Heap.Due(ttl.a, ttl.idx, who[k]))
    }

    /** Distinct entries own distinct sorted sets. */
    ghost predicate Apart(p: Ptr, q: Ptr)
      reads this
    {
      p < |ents| && q < |ents| && FootOf(ents[p].val) !! FootOf(ents[q].val)
    }

    ghost predicate Valid()
      reads this, dict, ttl, repr
    {
      Folded() == 1
    }

    /** The invariant Inv, available only where Open is asserted. */
    ghost function Folded(): int
      reads this, dict, ttl, repr
    {
      if forall z {:trigger Open(z)} :: Open(z) ==> Inv() then 1 else 0
    }

    ghost predicate Inv()
      reads this, dict, ttl, repr
    {
      && dict.Valid() && ttl.Valid() && |ents| == |dict.mem| == |ttl.idx|
      && this !in repr && dict !in repr && ttl !in repr && st.Keys == who.Keys
      && (forall p {:trigger EntOk(p)} :: p in dict.Entries() ==> EntOk(p))
      && (forall k {:trigger KeyOk(k)} :: k in st ==> KeyOk(k))
      // what a live or queued entry holds is shared with no other, so a worker can take a queued one apart
      && (forall p, q {:trigger Apart(p, q)} :: Held(p) && Held(q) && p != q ==> Apart(p, q))
      // a timer belongs to a key that is present; every entry there has been is in exactly one of the keyspace, the
      // queue and the freed ones, so none leaks and none is freed twice
      && (forall p: Ptr {:trigger TimerOk(p)} :: TimerOk(p))
      && (forall p: Ptr {:trigger GoneOk(p)} :: GoneOk(p))
      && OnceQueued()
    }

    /** Reachable from the keyspace, or waiting for a worker. */
    ghost predicate Held(p: Ptr)
      reads this, dict
    {
      p in dict.Entries() || p in queued
    }

    /** No entry is handed off twice. */
    ghost predicate OnceQueued()
      reads this
    {
      NoDup(queued)
    }

    ghost predicate TimerOk(p: Ptr)
      reads this, dict, ttl
    {
      Heap.Due(ttl.a, ttl.idx, p).Some? ==> p in dict.Entries()
    }

    ghost predicate GoneOk(p: Ptr)
      reads this, dict
    {
      && (p in freed || p in queued ==> p !in dict.Entries() && 0 < p < |ents|)
      && (p in queued ==> p !in freed && FootOf(ents[p].val) <= repr)
      && (0 < p < |ents| ==> p in dict.Entries() || p in freed || p in queued)
    }

    constructor (hash: Bytes -> nat, hasPool: bool)
      ensures Valid() && st == map[] && this.hash == hash && fresh(dict) && fresh(ttl) && repr == {}
    {
      this.hash, this.hasPool := hash, hasPool;
      dict := new HashMap.HMap();
      ttl := new Heap.TimerHeap();
      ents, queued, freed := [Entry([], PStr([]))], [], {};
      st, who, repr := map[], map[], {};
    }

    /** A key of the store has an entry. */
    lemma {:induction false} Present(key: Bytes)
      requires Valid() && key in st
      ensures key in who && who[key] in dict.Entries() && who[key] != NULL
    {
      assert Open(0);
      assert KeyOk(key);
      assert EntOk(who[key]);
    }

    /** What the entry of a present key holds. */
    lemma {:induction false} Holds(key: Bytes, p: Ptr)
      requires Valid() && p in dict.Entries() && key in who && who[key] == p
      ensures ttl.Valid() && p < |ents| == |ttl.idx| && ents[p].key == key && key in st
      ensures FootOf(ents[p].val) <= repr && (ents[p].val.PZset? ==> ents[p].val.z.Valid())
      ensures st[key] == Rec(ValueOf(p), Heap.Due(ttl.a, ttl.idx, p))
      ensures this !in repr && dict !in repr && ttl !in repr
    {
      assert Open(0);
      assert EntOk(p) && KeyOk(key);
    }

    /** An entry waiting for a worker is out of the keyspace and the heap, is queued once and not freed, and shares
        nothing with any live entry or with another that is waiting. */
    lemma {:induction false} HandedOff(i: nat, q: Ptr)
      requires Valid() && i < |queued| && Held(q) && q != queued[i]
      ensures var p := queued[i];
        && p !in dict.Entries() && Heap.Due(ttl.a, ttl.idx, p) == None && p !in freed && NoDup(queued)
        && p < |ents| && q < |ents| && FootOf(ents[p].val) !! FootOf(ents[q].val)
    {
      assert Open(0);
      var p := queued[i];
      assert GoneOk(p) && TimerOk(p) && Held(p) && Apart(p, q);
    }

    /** Every entry there has been is in exactly one of the keyspace, the queue to the pool and the freed ones. */
    lemma {:induction false} OnePlace(p: Ptr)
      requires Valid() && 0 < p < |ents|
      ensures p in dict.Entries() <==> p !in queued && p !in freed
      ensures !(p in queued && p in freed)
    {
      assert Open(0);
      assert GoneOk(p);
    }

    lemma {:induction false} QueuedOnce()
      requires Valid()
      ensures NoDup(queued)
    {
      assert Open(0);
    }

    function KeyAt(p: Ptr): Bytes
      reads this
    {
      if p < |ents| then ents[p].key else []
    }

    /** A visit to every entry once is a visit to every key once. */
    lemma {:induction false} AllKeys(w: seq<Ptr>, ks: seq<Bytes>)
      requires Valid() && NoDup(w) && (forall i :: 0 <= i < |w| ==> w[i] in dict.Entries())
      requires forall p :: p in dict.Entries() ==> p in w
      requires |ks| == |w| && forall i :: 0 <= i < |w| ==> ks[i] == KeyAt(w[i])
      ensures NoDup(ks) && (forall i :: 0 <= i < |ks| ==> ks[i] in st) && forall k :: k in st ==> k in ks
    {
      assert Open(0);
      forall i | 0 <= i < |w| ensures ks[i] in st && ks[i] in who && who[ks[i]] == w[i] { assert EntOk(w[i]); }
      forall k | k in st ensures k in ks {
        assert KeyOk(k);
        var i :| 0 <= i < |w| && w[i] == who[k];
        assert ks[i] == k;
      }
    }

    /** heap_delete of an entry's timer, if it has one, and heap_idx = -1. */
    method DropTimer(p: Ptr)
      requires ttl.Valid() && p < |ttl.idx|
      modifies ttl
      ensures ttl.Valid() && |ttl.idx| == old(|ttl.idx|) && Heap.Due(ttl.a, ttl.idx, p) == None
      ensures forall q: Ptr :: q != p ==> Heap.Due(ttl.a, ttl.idx, q) == old(Heap.Due(ttl.a, ttl.idx, q))
    {
      assert Heap.Open(0);
      if ttl.idx[p] != Heap.NONE {
        ttl.Delete(ttl.idx[p]);
        ttl.idx := ttl.idx[p := Heap.NONE];
      }
    }

    /** entry_set_ttl: a negative TTL drops the timer, any other sets the deadline. */
    method EntrySetTtl(p: Ptr, ttlMs: int, now: nat)
      requires ttl.Valid() && p < |ttl.idx| && now < TWO63 && ttlMs < TWO63
      modifies ttl
      ensures ttl.Valid() && |ttl.idx| == old(|ttl.idx|)
      ensures Heap.Due(ttl.a, ttl.idx, p) == if ttlMs < 0 then None else Some(now + ttlMs)
      ensures forall q: Ptr :: q != p ==> Heap.Due(ttl.a, ttl.idx, q) == old(Heap.Due(ttl.a, ttl.idx, q))
    {
      if ttlMs < 0 {
        DropTimer(p);
      } else {
        var expireAt := (now + ttlMs) % (2 * TWO63);
        ttl.Upsert(ttl.idx[p], Heap.Item(expireAt, p));
      }
    }

    /** entry_del, on an entry already out of the map: drop its timer, then free it or hand it to the pool. */
    method EntryDel(p: Ptr, now: nat)
      requires ttl.Valid() && p < |ttl.idx| && p < |ents| && now < TWO63
      requires ents[p].val.PZset? ==> ents[p].val.z.Valid()
      modifies ttl, this`queued, this`freed
      ensures ttl.Valid() && |ttl.idx| == old(|ttl.idx|) && Heap.Due(ttl.a, ttl.idx, p) == None
      ensures forall q: Ptr :: q != p ==> Heap.Due(ttl.a, ttl.idx, q) == old(Heap.Due(ttl.a, ttl.idx, q))
      ensures var large := hasPool && ents[p].val.PZset? && |ents[p].val.z.Listing()| > 1000;
        && queued == (if large then old(queued) + [p] else old(queued))
        && freed == (if large then old(freed) else old(freed) + {p})
    {
      EntrySetTtl(p, -1, now);
      var setSize := 0;
      if ents[p].val.PZset? {
        setSize := ents[p].val.z.Count();
      }
      if hasPool && setSize > LARGE_CONTAINER {
        queued := queued + [p];
      } else {
        freed := freed + {p};
      }
    }

    /** hm_delete finds the entry itself, by its key or by identity. */
    method Detach(p: Ptr, byIdentity: bool)
      requires Valid() && p in dict.Entries()
      modifies dict
      ensures dict.Valid() && dict.Entries() == old(dict.Entries()) - {p} && HashMap.SameHash(old(dict.mem), dict.mem)
    {
      assert Open(0);
      assert EntOk(p);
      var eq := if byIdentity then (q: Ptr) => q == p else KeyIs(ents, ents[p].key);
      var found := dict.Delete(dict.mem[p].hcode, eq);
      assert found == p by {
        assert HashMap.Hit(dict.mem, old(dict.mem[p].hcode), eq, p);
        if found != NULL && !byIdentity { assert old(EntOk(found)); }
      }
    }

    /** hm_delete and entry_del together: the key is gone. */
    method DropEntry(p: Ptr, byIdentity: bool, now: nat)
      requires Valid() && p in dict.Entries() && now < TWO63
      modifies dict, ttl, this`queued, this`freed, this`st, this`who
      ensures Valid() && p < |ents| && st == old(st) - {ents[p].key} && dict.Entries() == old(dict.Entries()) - {p}
      ensures
        || (queued == old(queued) && freed == old(freed) + {p} && p !in old(freed))
        || (queued == old(queued) + [p] && freed == old(freed) && p !in old(queued))
    {
      assert Open(0);
      assert EntOk(p) && GoneOk(p);
      ghost var key, es := ents[p].key, dict.Entries();
      Detach(p, byIdentity);
      EntryDel(p, now);
      st, who := st - {key}, who - {key};
      Shrunk(p);
    }

    /** Removing entry p with its timer, freed or handed off, keeps the database valid. */
    twostate lemma {:induction false} Shrunk(p: Ptr)
      requires old(Valid()) && old(p in dict.Entries()) && p < |ents| && ents == old(ents)
      requires dict.Valid() && dict.Entries() == old(dict.Entries()) - {p} && HashMap.SameHash(old(dict.mem), dict.mem)
      requires ttl.Valid() && |ttl.idx| == old(|ttl.idx|) && Heap.Due(ttl.a, ttl.idx, p) == None
      requires forall q: Ptr :: q != p ==> Heap.Due(ttl.a, ttl.idx, q) == old(Heap.Due(ttl.a, ttl.idx, q))
      requires st == old(st) - {ents[p].key} && who == old(who) - {ents[p].key} && repr == old(repr)
      requires unchanged(old(repr))
      requires
        || (queued == old(queued) && freed == old(freed) + {p})
        || (queued == old(queued) + [p] && freed == old(freed))
      ensures Valid()
    {
      assert Open(0);
      assert old(EntOk(p));
      forall q {:trigger EntOk(q)} | q in dict.Entries() ensures EntOk(q) { assert old(EntOk(q)); }
      forall k {:trigger KeyOk(k)} | k in st ensures KeyOk(k) { assert old(KeyOk(k)); assert old(EntOk(who[k])); }
      assert old(GoneOk(p));
      forall q, r {:trigger Apart(q, r)} | Held(q) && Held(r) && q != r ensures Apart(q, r) {
        assert old(Held(q)) && old(Held(r));
        assert old(Apart(q, r));
      }
      forall q: Ptr {:trigger TimerOk(q)} ensures TimerOk(q) { assert old(TimerOk(q)); }
      forall q: Ptr {:trigger GoneOk(q)} ensures GoneOk(q) { assert old(GoneOk(q)); }
    }

    /** lookup_entry: NULL unless the key is present and not past its deadline; an overdue key is deleted on sight. */
    method LookupEntry(key: Bytes, now: nat) returns (p: Ptr)
      requires Valid() && now < TWO63
      modifies dict, ttl, this`queued, this`freed, this`st, this`who
      ensures Valid() && st == Assign(old(st), key, LiveRec(old(st), key, now))
      ensures p == NULL <==> LiveRec(old(st), key, now) == None
      ensures p != NULL ==> p in dict.Entries() && key in who && who[key] == p && who == old(who)
    {
      assert Open(0);
      p := Seek(key);
      if p == NULL {
        assert st - {key} == st;
        return;
      }
      assert KeyOk(key) && EntOk(p);
      var due := Deadline(p);
      if due.Some? && due.value <= now {
        DropEntry(p, false, now);
        p := NULL;
      }
    }

    /** hm_foreach over the keyspace with a callback that never stops, and hm_size. */
    method Visit() returns (w: seq<Ptr>, n: nat)
      requires Valid()
      ensures NoDup(w) && (forall i :: 0 <= i < |w| ==> w[i] in dict.Entries()) && n == |w|
      ensures forall p :: p in dict.Entries() ==> p in w
    {
      assert Open(0);
      n := dict.Size();
      w := dict.Foreach((p: Ptr) => true);
    }

    /** hm_lookup by key. */
    method Seek(key: Bytes) returns (p: Ptr)
      requires Valid()
      modifies dict
      ensures Valid() && dict.Entries() == old(dict.Entries())
      ensures if key in st then p in dict.Entries() && p != NULL && key in who && who[key] == p else p == NULL
    {
      assert Open(0);
      p := dict.Lookup(hash(key), KeyIs(ents, key));
      forall q {:trigger EntOk(q)} | q in dict.Entries() ensures EntOk(q) { assert old(EntOk(q)); }
      forall k {:trigger KeyOk(k)} | k in st ensures KeyOk(k) { assert old(KeyOk(k)); }
      forall q, r {:trigger Apart(q, r)} | Held(q) && Held(r) && q != r ensures Apart(q, r) {
        assert old(Held(q)) && old(Held(r));
        assert old(Apart(q, r));
      }
      forall q: Ptr {:trigger TimerOk(q)} ensures TimerOk(q) { assert old(TimerOk(q)); }
      forall q: Ptr {:trigger GoneOk(q)} ensures GoneOk(q) { assert old(GoneOk(q)); }
      if p != NULL {
        assert EntOk(p);
      } else if key in st {
        assert KeyOk(key) && EntOk(who[key]);
        assert HashMap.Hit(dict.mem, hash(key), KeyIs(ents, key), who[key]);
      }
    }

    /** The timer that heap_idx names, if any. */
    method Deadline(p: Ptr) returns (due: Option<nat>)
      requires ttl.Valid() && p < |ttl.idx|
      ensures due == Heap.Due(ttl.a, ttl.idx, p)
    {
      assert Heap.Open(0);
      due := if ttl.idx[p] == Heap.NONE then None else Some(ttl.a[ttl.idx[p]].val);
    }

    /** A change confined to entry p keeps the database valid if it leaves p itself in order. */
    twostate lemma {:induction false} Carry(p: Ptr)
      requires old(Valid()) && old(p in dict.Entries())
      requires dict.Valid() && ttl.Valid() && |ttl.idx| == old(|ttl.idx|)
      requires dict.Entries() == old(dict.Entries()) && HashMap.SameHash(old(dict.mem), dict.mem)
      requires who == old(who) && freed == old(freed) && queued == old(queued) && repr == old(repr)
      requires |ents| == old(|ents|) && forall q :: 0 <= q < |ents| && q != p ==> ents[q] == old(ents)[q]
      requires forall q: Ptr :: q != p ==> Heap.Due(ttl.a, ttl.idx, q) == old(Heap.Due(ttl.a, ttl.idx, q))
      requires EntOk(p) && old(p < |ents|) && ents[p].key == old(ents[p].key) && KeyOk(ents[p].key)
      requires FootOf(ents[p].val) <= old(FootOf(ents[p].val))
      requires st.Keys == old(st.Keys) && forall k :: k in st && k != ents[p].key ==> st[k] == old(st)[k]
      requires unchanged(old(repr) - old(FootOf(ents[p].val)))
      ensures Valid()
    {
      assert Open(0);
      assert old(EntOk(p));
      forall q {:trigger EntOk(q)} | q in dict.Entries() ensures EntOk(q) {
        if q != p { assert old(EntOk(q)); assert old(Held(p)) && old(Held(q)); assert old(Apart(p, q)); }
      }
      forall k {:trigger KeyOk(k)} | k in st ensures KeyOk(k) {
        if k != ents[p].key {
          assert old(KeyOk(k));
          assert old(EntOk(who[k]));
          assert old(Held(p)) && old(Held(who[k]));
          assert old(Apart(p, who[k]));
        }
      }
      forall q, r {:trigger Apart(q, r)} | Held(q) && Held(r) && q != r ensures Apart(q, r) {
        assert old(Held(q)) && old(Held(r));
        assert old(Apart(q, r));
      }
      forall q: Ptr {:trigger TimerOk(q)} ensures TimerOk(q) { assert old(TimerOk(q)); }
      forall q: Ptr {:trigger GoneOk(q)} ensures GoneOk(q) { assert old(GoneOk(q)); }
    }

    /** ent->str = str, on a string entry. */
    method Overwrite(p: Ptr, str: Bytes)
      requires Valid() && p in dict.Entries() && p < |ents| && ents[p].val.PStr?
      modifies this`ents, this`st
      ensures Valid() && |ents| == |old(ents)| && ents[p] == Entry(old(ents[p].key), PStr(str))
      ensures ents[p].key in old(st) && st == old(st)[ents[p].key := old(st)[ents[p].key].(value := Str(str))]
    {
      assert Open(0);
      assert EntOk(p);
      ghost var key := ents[p].key;
      assert KeyOk(key);
      ents := ents[p := ents[p].(val := PStr(str))];
      st := st[key := st[key].(value := Str(str))];
      assert EntOk(p) && KeyOk(key);
      Carry(p);
    }

    /** entry_set_ttl on an entry of the keyspace. */
    method SetTtl(p: Ptr, ttlMs: int, now: nat)
      requires Valid() && p in dict.Entries() && p < |ents| && now < TWO63 && ttlMs < TWO63
      modifies ttl, this`st
      ensures Valid() && ents[p].key in old(st)
      ensures st == old(st)[ents[p].key := old(st)[ents[p].key].(due := if ttlMs < 0 then None else Some(now + ttlMs))]
    {
      assert Open(0);
      assert EntOk(p);
      ghost var key := ents[p].key;
      assert KeyOk(key);
      EntrySetTtl(p, ttlMs, now);
      st := st[key := st[key].(due := if ttlMs < 0 then None else Some(now + ttlMs))];
      assert EntOk(p) && KeyOk(key);
      Carry(p);
    }

    /** new Entry() and hm_insert. */
    method LinkEntry(key: Bytes, v: Payload) returns (p: Ptr)
      requires Valid()
      modifies this`ents, dict, ttl
      ensures dict.Valid() && dict.Entries() == old(dict.Entries()) + {p} && p !in old(dict.Entries())
      ensures p == |old(ents)| > 0 && ents == old(ents) + [Entry(key, v)] && |dict.mem| == |ents| == |ttl.idx|
      ensures dict.mem[p].hcode == hash(key)
      ensures |old(dict.mem)| == p && forall q :: 0 <= q < p ==> dict.mem[q].hcode == old(dict.mem)[q].hcode
      ensures ttl.Valid() && forall q: Ptr :: Heap.Due(ttl.a, ttl.idx, q) == old(Heap.Due(ttl.a, ttl.idx, q))
    {
      assert Open(0);
      p := |ents|;
      assert p in dict.Entries() ==> EntOk(p);
      p := dict.NewNode(hash(key));
      ttl.NewOwner();
      ents := ents + [Entry(key, v)];
      dict.Insert(p);
    }

    /** A new entry, linked into the map. */
    method AddEntry(key: Bytes, v: Payload) returns (p: Ptr)
      requires Valid() && key !in st
      requires v.PZset? ==> v.z.Valid() && Foot(v.z) !! repr && v.z.hmap != dict
      modifies this`ents, this`st, this`who, this`repr, dict, ttl
      ensures Valid() && repr == old(repr) + FootOf(v)
      ensures p in dict.Entries() && 0 < p < |ents| && ents[p] == Entry(key, v)
      ensures st == old(st)[key := Rec(if v.PStr? then Str(v.s) else Zset(v.z.Listing()), None)]
      ensures key in who && who[key] == p
    {
      assert Open(0);
      p := LinkEntry(key, v);
      st := st[key := Rec(if v.PStr? then Str(v.s) else Zset(v.z.Listing()), None)];
      who, repr := who[key := p], repr + FootOf(v);
      Grown(p);
    }

    /** Adding entry p under a new key keeps the database valid. */
    twostate lemma {:induction false} Grown(p: Ptr)
      requires old(Valid()) && p < |ents| && ents[p].key !in old(st)
      requires var v := ents[p].val; v.PZset? ==> v.z.Valid() && Foot(v.z) !! old(repr) && v.z.hmap != dict
      requires dict.Valid() && dict.Entries() == old(dict.Entries()) + {p} && p !in old(dict.Entries())
      requires p == |old(ents)| > 0 && ents == old(ents) + [ents[p]] && |dict.mem| == |ents| == |ttl.idx|
      requires dict.mem[p].hcode == hash(ents[p].key)
      requires |old(dict.mem)| == p && forall q :: 0 <= q < p ==> dict.mem[q].hcode == old(dict.mem)[q].hcode
      requires ttl.Valid() && forall q: Ptr :: Heap.Due(ttl.a, ttl.idx, q) == old(Heap.Due(ttl.a, ttl.idx, q))
      requires repr == old(repr) + FootOf(ents[p].val) && st == old(st)[ents[p].key := Rec(ValueOf(p), None)]
      requires who == old(who)[ents[p].key := p] && freed == old(freed) && queued == old(queued)
      requires unchanged(old(repr))
      ensures Valid()
    {
      assert Open(0);
      assert old(TimerOk(p) && GoneOk(p));
      forall q {:trigger EntOk(q)} | q in dict.Entries() ensures EntOk(q) { assert q != p ==> old(EntOk(q)); }
      forall k {:trigger KeyOk(k)} | k in st ensures KeyOk(k) {
        if k != ents[p].key { assert old(KeyOk(k)); assert old(EntOk(who[k])); }
      }
      forall q, r {:trigger Apart(q, r)} | Held(q) && Held(r) && q != r ensures Apart(q, r) {
        assert old(GoneOk(q)) && old(GoneOk(r));
        if q != p { assert old(Held(q)); assert q in old(dict.Entries()) ==> old(EntOk(q)); }
        if r != p { assert old(Held(r)); assert r in old(dict.Entries()) ==> old(EntOk(r)); }
        if q != p && r != p { assert old(Apart(q, r)); }
      }
      forall q: Ptr {:trigger TimerOk(q)} ensures TimerOk(q) { assert old(TimerOk(q)); }
      forall q: Ptr {:trigger GoneOk(q)} ensures GoneOk(q) { assert old(GoneOk(q)); }
    }

    /** zset_insert into the set an entry holds. */
    method ZPut(p: Ptr, name: Bytes, score: Score) returns (added: bool)
      requires Valid() && p in dict.Entries() && p < |ents| && ents[p].val.PZset?
      modifies this`st, Foot(ents[p].val.z)
      ensures Valid() && ents[p].key in old(st) && old(st)[ents[p].key].value.Zset?
      ensures var r := old(st)[ents[p].key];
        && st == old(st)[ents[p].key := r.(value := Zset(Put(r.value.ps, name, score)))]
        && (added <==> Find(r.value.ps, name) == None)
    {
      assert Open(0);
      assert EntOk(p);
      ghost var key := ents[p].key;
      assert KeyOk(key);
      added := ents[p].val.z.Insert(name, score);
      st := st[key := st[key].(value := Zset(Put(st[key].value.ps, name, score)))];
      assert EntOk(p) && KeyOk(key);
      Carry(p);
    }

    /** zset_lookup in the set an entry holds. */
    method ZFind(p: Ptr, name: Bytes) returns (z: Ptr)
      requires Valid() && p in dict.Entries() && p < |ents| && ents[p].val.PZset?
      modifies ents[p].val.z.hmap
      ensures Valid() && ents[p].key in st && st[ents[p].key].value.Zset?
      ensures z == NULL <==> Find(st[ents[p].key].value.ps, name) == None
      ensures z != NULL ==> ents[p].val.z.HasNode(z, name)
      ensures z != NULL ==> Find(st[ents[p].key].value.ps, name) == Some(Zs.Get(ents[p].val.z.data, z).score)
    {
      assert Open(0);
      assert EntOk(p);
      ghost var key := ents[p].key;
      assert KeyOk(key);
      z := ents[p].val.z.Lookup(name);
      assert EntOk(p) && KeyOk(key);
      Carry(p);
    }

    /** zset_delete of a node found in the set an entry holds. */
    method ZTake(p: Ptr, z: Ptr, ghost name: Bytes)
      requires Valid() && p in dict.Entries() && p < |ents| && ents[p].val.PZset? && ents[p].val.z.HasNode(z, name)
      modifies this`st, Foot(ents[p].val.z)
      ensures Valid() && ents[p].key in old(st) && old(st)[ents[p].key].value.Zset?
      ensures var r := old(st)[ents[p].key]; st == old(st)[ents[p].key := r.(value := Zset(Drop(r.value.ps, name)))]
    {
      assert Open(0);
      assert EntOk(p);
      ghost var key := ents[p].key;
      assert KeyOk(key);
      ents[p].val.z.Delete(z);
      st := st[key := st[key].(value := Zset(Drop(st[key].value.ps, name)))];
      assert EntOk(p) && KeyOk(key);
      Carry(p);
    }
  }
}

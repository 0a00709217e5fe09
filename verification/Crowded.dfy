/** ZQUERY on sorted sets that have outgrown the 32-bit counts of their trees (cnt in include/ds/avl.h). */
module Crowded {
  import opened Base
  import opened Pairs
  import opened Store
  import opened Database
  import opened Commands
  import Codec
  import Zs = ZSet

  /** Some ZQUERY on this set gets the empty array for pairs that are there. */
  ghost predicate Faulty(db: Database, key: Bytes)
    reads db, db.repr
  {
    exists score, name, offset :: Misses(db, key, score, name, offset)
  }

  /** A sorted set answers every ZQUERY with the slice of its listing if no count has wrapped around, and otherwise
      there is one that it does not. */
  lemma {:induction false} FaultyIff(db: Database, key: Bytes)
    requires db.Valid() && key in db.st && db.st[key].value.Zset?
    ensures Faulty(db, key) <==> !Counts(db, key)
  {
    db.Present(key);
    db.Holds(key, db.who[key]);
    var z := db.ents[db.who[key]].val.z;
    Zs.MissesIff(z);
    if !Counts(db, key) {
      var score, name, offset := Zs.WrongQuery(z);
      assert Misses(db, key, score, name, offset);
    }
  }

  /** Faults depend on the number of pairs alone up to 2^32 and from 2^33 on. */
  lemma {:induction false} FaultySizes(db: Database, key: Bytes)
    requires db.Valid() && key in db.st && db.st[key].value.Zset?
    ensures |db.st[key].value.ps| <= TWO32 ==> !Faulty(db, key)
    ensures |db.st[key].value.ps| >= 2 * TWO32 ==> Faulty(db, key)
  {
    FaultyIff(db, key);
    db.Present(key);
    db.Holds(key, db.who[key]);
    db.ents[db.who[key]].val.z.CountedSizes();
  }

  // ---- such a set can be built ----

  /** The members are n numbers in little-endian words of this width. */
  ghost predicate Numbered(ps: Pairs, n: nat, width: nat) {
    |ps| == n && forall i :: 0 <= i < |ps| ==> |ps[i].name| == width && Codec.ReadLE(ps[i].name, width) < n
  }

  lemma {:induction false} PlaceLength(ps: Pairs, p: Pair)
    ensures |Place(ps, p)| == |ps| + 1
  {
    if ps != [] { PlaceLength(ps[1..], p); }
  }

  /** The next number is a new member. */
  lemma {:induction false} NumberedMore(ps: Pairs, n: nat, width: nat, score: Score)
    requires Numbered(ps, n, width) && n < Codec.Pow256(width)
    ensures Numbered(Put(ps, Codec.LE(n, width), score), n + 1, width)
  {
    var name := Codec.LE(n, width);
    Codec.LERead(n, width, []);
    assert name + [] == name;
    if Find(ps, name).Some? { var i := FindIndex(ps, name); }
    PlaceIn(ps, Pair(name, score));
    PlaceLength(ps, Pair(name, score));
  }

  /** The key holds the numbers below n and never expires. */
  ghost predicate Held(st: Store, key: Bytes, n: nat, width: nat) {
    key in st && st[key].due == None && st[key].value.Zset? && Numbered(st[key].value.ps, n, width)
  }

  lemma {:induction false} HeldMore(st: Store, key: Bytes, n: nat, width: nat, score: Score, st': Store,
      buf: Bytes, buf': Bytes)
    requires if n == 0 then st == map[] else Held(st, key, n, width)
    requires n < Codec.Pow256(width)
    requires Executed(st, key, ZAdd(Some(score), Codec.LE(n, width)), 0, 0, st', buf, buf')
    ensures Held(st', key, n + 1, width)
  {
    assert Shown(0);
    NumberedMore(if n == 0 then [] else st[key].value.ps, n, width, score);
  }

  /** ZADDs of as many members as their names can number make a set of any size, and from 2^33 members on some ZQUERY on
      it is answered wrongly at any time. */
  method Crowd(hash: Bytes -> nat, hasPool: bool, key: Bytes, score: Score, n: nat, width: nat)
    returns (db: Database)
    requires 0 < n <= Codec.Pow256(width)
    ensures db.Valid() && key in db.st && db.st[key].due == None && db.st[key].value.Zset?
    ensures |db.st[key].value.ps| == n && (n >= 2 * TWO32 ==> Faulty(db, key))
  {
    db := new Database(hash, hasPool);
    var out := new Codec.Out();
    for i := 0 to n
      invariant Ready(db, out, 0, 0) && fresh(db) && fresh(db.dict) && fresh(db.ttl) && fresh(db.repr) && fresh(out)
      invariant if i == 0 then db.st == map[] else Held(db.st, key, i, width)
    {
      ghost var st, buf := db.st, out.buf;
      DoZAdd(db, out, key, Some(score), Codec.LE(i, width), 0, 0);
      HeldMore(st, key, i, width, score, db.st, buf, out.buf);
    }
    FaultySizes(db, key);
  }
}

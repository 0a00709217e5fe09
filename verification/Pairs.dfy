/** What a sorted set is for: a map from names to scores, listed in (score, name) order. */
module Pairs {
  import opened Base

  datatype Pair = Pair(name: Bytes, score: Score)
  type Pairs = seq<Pair>

  predicate Less(p: Pair, q: Pair) { PairLess(p.score, p.name, q.score, q.name) }

  /** Strictly increasing in (score, name), names unique. */
  ghost predicate Sorted(ps: Pairs) {
    && (forall i, j :: 0 <= i < j < |ps| ==> Less(ps[i], ps[j]))
    && (forall i, j :: 0 <= i < j < |ps| ==> ps[i].name != ps[j].name)
  }

  function Find(ps: Pairs, name: Bytes): Option<Score> {
    if ps == [] then None else if ps[0].name == name then Some(ps[0].score) else Find(ps[1..], name)
  }

  function Drop(ps: Pairs, name: Bytes): Pairs {
    if ps == [] then [] else if ps[0].name == name then ps[1..] else [ps[0]] + Drop(ps[1..], name)
  }

  /** p in front of the first pair that is not below it. */
  function Place(ps: Pairs, p: Pair): Pairs {
    if ps == [] then [p] else if Less(ps[0], p) then [ps[0]] + Place(ps[1..], p) else [p] + ps
  }

  /** ZADD's effect: a pair whose score compares equal keeps its stored score. */
  function Put(ps: Pairs, name: Bytes, score: Score): Pairs {
    match Find(ps, name)
    case None => Place(ps, Pair(name, score))
    case Some(s) => if s.ord == score.ord then ps else Place(Drop(ps, name), Pair(name, score))
  }

  /** The number of pairs below (score, name). */
  function SeekGe(ps: Pairs, score: Score, name: Bytes): (k: nat)
    ensures k <= |ps|
  {
    if ps == [] || !PairLess(ps[0].score, ps[0].name, score, name) then 0 else 1 + SeekGe(ps[1..], score, name)
  }

  ghost function AsMap(ps: Pairs): map<Bytes, Score> {
    if ps == [] then map[] else AsMap(ps[1..])[ps[0].name := ps[0].score]
  }

  // ---- the listing and the map determine each other ----

  lemma {:induction false} FindIsMap(ps: Pairs, name: Bytes)
    ensures Find(ps, name) == if name in AsMap(ps) then Some(AsMap(ps)[name]) else None
  {
    if ps != [] { FindIsMap(ps[1..], name); }
  }

  lemma {:induction false} FindAt(ps: Pairs, i: nat)
    requires Sorted(ps) && i < |ps|
    ensures Find(ps, ps[i].name) == Some(ps[i].score)
  {
    if i > 0 { FindAt(ps[1..], i - 1); }
  }

  lemma {:induction false} FindIndex(ps: Pairs, name: Bytes) returns (i: nat)
    requires Find(ps, name).Some?
    ensures i < |ps| && ps[i].name == name && Find(ps, name) == Some(ps[i].score)
  {
    if ps[0].name == name { i := 0; } else { var j := FindIndex(ps[1..], name); i := j + 1; }
  }

  /** Two sorted listings of the same map are the same list. */
  lemma {:induction false} Canonical(ps: Pairs, qs: Pairs)
    requires Sorted(ps) && Sorted(qs) && AsMap(ps) == AsMap(qs)
    ensures ps == qs
    decreases |ps|
  {
    if ps == [] {
      if qs != [] { FindIsMap(qs, qs[0].name); }
    } else if qs == [] {
      FindIsMap(ps, ps[0].name);
    } else {
      SameHead(ps, qs);
      TailMap(ps);
      TailMap(qs);
      Canonical(ps[1..], qs[1..]);
    }
  }

  lemma {:induction false} TailMap(ps: Pairs)
    requires Sorted(ps) && ps != []
    ensures AsMap(ps[1..]) == AsMap(ps) - {ps[0].name} && Sorted(ps[1..])
  {
    FindIsMap(ps[1..], ps[0].name);
    if Find(ps[1..], ps[0].name).Some? {
      var i := FindIndex(ps[1..], ps[0].name);
    }
  }

  lemma {:induction false} SameHead(ps: Pairs, qs: Pairs)
    requires Sorted(ps) && Sorted(qs) && AsMap(ps) == AsMap(qs) && ps != [] && qs != []
    ensures ps[0] == qs[0]
  {
    FindIsMap(ps, ps[0].name); FindIsMap(qs, ps[0].name);
    FindIsMap(ps, qs[0].name); FindIsMap(qs, qs[0].name);
    var i := FindIndex(qs, ps[0].name);
    var j := FindIndex(ps, qs[0].name);
    PairTrichotomy(ps[0].score, ps[0].name, qs[0].score, qs[0].name);
  }

  // ---- what each operation does to the map ----

  lemma {:induction false} PlaceAt(a: Pairs, b: Pairs, p: Pair)
    requires (forall i :: 0 <= i < |a| ==> Less(a[i], p)) && (b == [] || !Less(b[0], p))
    ensures Place(a + b, p) == a + [p] + b
    decreases |a|
  {
    if a == [] {
      assert a + b == b;
    } else {
      assert (a + b)[1..] == a[1..] + b;
      PlaceAt(a[1..], b, p);
    }
  }

  lemma {:induction false} SortedCons(p: Pair, r: Pairs)
    requires Sorted(r) && forall i :: 0 <= i < |r| ==> Less(p, r[i]) && p.name != r[i].name
    ensures Sorted([p] + r)
  {}

  lemma {:induction false} DropIn(ps: Pairs, name: Bytes)
    requires Sorted(ps)
    ensures forall i :: 0 <= i < |Drop(ps, name)| ==> Drop(ps, name)[i] in ps && Drop(ps, name)[i].name != name
  {
    if ps != [] { DropIn(ps[1..], name); }
  }

  lemma {:induction false} DropSorted(ps: Pairs, name: Bytes)
    requires Sorted(ps)
    ensures Sorted(Drop(ps, name))
  {
    if ps != [] && ps[0].name != name {
      DropSorted(ps[1..], name);
      DropIn(ps[1..], name);
      SortedCons(ps[0], Drop(ps[1..], name));
    }
  }

  lemma {:induction false} DropMap(ps: Pairs, name: Bytes)
    requires Sorted(ps)
    ensures AsMap(Drop(ps, name)) == AsMap(ps) - {name}
  {
    if ps != [] {
      TailMap(ps);
      DropMap(ps[1..], name);
      if ps[0].name != name { assert ([ps[0]] + Drop(ps[1..], name))[1..] == Drop(ps[1..], name); }
    }
  }

  lemma {:induction false} PlaceIn(ps: Pairs, p: Pair)
    ensures forall i :: 0 <= i < |Place(ps, p)| ==> Place(ps, p)[i] in ps || Place(ps, p)[i] == p
  {
    if ps != [] { PlaceIn(ps[1..], p); }
  }

  lemma {:induction false} PlaceSorted(ps: Pairs, p: Pair)
    requires Sorted(ps) && forall i :: 0 <= i < |ps| ==> ps[i].name != p.name
    ensures Sorted(Place(ps, p))
  {
    if ps != [] {
      PairTrichotomy(ps[0].score, ps[0].name, p.score, p.name);
      if Less(ps[0], p) {
        PlaceSorted(ps[1..], p);
        PlaceIn(ps[1..], p);
        SortedCons(ps[0], Place(ps[1..], p));
      } else {
        forall i | 0 <= i < |ps| ensures Less(p, ps[i]) {
          if i > 0 { PairTransitive(p.score, p.name, ps[0].score, ps[0].name, ps[i].score, ps[i].name); }
        }
        SortedCons(p, ps);
      }
    }
  }

  lemma {:induction false} PlaceMap(ps: Pairs, p: Pair)
    requires forall i :: 0 <= i < |ps| ==> ps[i].name != p.name
    ensures AsMap(Place(ps, p)) == AsMap(ps)[p.name := p.score]
  {
    if ps != [] {
      if Less(ps[0], p) {
        PlaceMap(ps[1..], p);
        assert ([ps[0]] + Place(ps[1..], p))[1..] == Place(ps[1..], p);
      } else {
        assert ([p] + ps)[1..] == ps;
      }
    }
  }

  /** ZADD updates the map at one name, unless the stored score already compares equal. */
  lemma {:induction false} PutMap(ps: Pairs, name: Bytes, score: Score)
    requires Sorted(ps)
    ensures Sorted(Put(ps, name, score))
    ensures AsMap(Put(ps, name, score)) ==
      if name in AsMap(ps) && AsMap(ps)[name].ord == score.ord then AsMap(ps) else AsMap(ps)[name := score]
  {
    FindIsMap(ps, name);
    if name !in AsMap(ps) {
      Absent(ps, name);
      PlaceMap(ps, Pair(name, score));
      PlaceSorted(ps, Pair(name, score));
    } else if AsMap(ps)[name].ord != score.ord {
      DropMap(ps, name);
      DropIn(ps, name);
      DropSorted(ps, name);
      PlaceMap(Drop(ps, name), Pair(name, score));
      PlaceSorted(Drop(ps, name), Pair(name, score));
      assert (AsMap(ps) - {name})[name := score] == AsMap(ps)[name := score];
    }
  }

  lemma {:induction false} Absent(ps: Pairs, name: Bytes)
    requires Find(ps, name) == None
    ensures forall i :: 0 <= i < |ps| ==> ps[i].name != name
  {
    if ps != [] { Absent(ps[1..], name); }
  }

  /** The seek index splits a sorted listing into the pairs below the key and the rest. */
  lemma {:induction false} SeekSplits(ps: Pairs, score: Score, name: Bytes)
    requires Sorted(ps)
    ensures var k := SeekGe(ps, score, name);
      && (forall i :: 0 <= i < k ==> PairLess(ps[i].score, ps[i].name, score, name))
      && (forall i :: k <= i < |ps| ==> !PairLess(ps[i].score, ps[i].name, score, name))
  {
    if ps != [] {
      if PairLess(ps[0].score, ps[0].name, score, name) {
        SeekSplits(ps[1..], score, name);
      } else {
        forall i | 0 < i < |ps| ensures !PairLess(ps[i].score, ps[i].name, score, name) {
          if PairLess(ps[i].score, ps[i].name, score, name) {
            PairTransitive(ps[0].score, ps[0].name, ps[i].score, ps[i].name, score, name);
          }
        }
      }
    }
  }

  /** Any index that splits the listing that way is the seek index. */
  lemma {:induction false} SeekUnique(a: Pairs, b: Pairs, score: Score, name: Bytes)
    requires forall i :: 0 <= i < |a| ==> PairLess(a[i].score, a[i].name, score, name)
    requires b == [] || !PairLess(b[0].score, b[0].name, score, name)
    ensures SeekGe(a + b, score, name) == |a|
    decreases |a|
  {
    if a == [] {
      assert a + b == b;
    } else {
      assert (a + b)[1..] == a[1..] + b;
      SeekUnique(a[1..], b, score, name);
    }
  }

  /** A pair of the listing is found at its own place. */
  lemma {:induction false} SeekSelf(ps: Pairs, k: nat)
    requires Sorted(ps) && k < |ps|
    ensures SeekGe(ps, ps[k].score, ps[k].name) == k
  {
    PairTrichotomy(ps[k].score, ps[k].name, ps[k].score, ps[k].name);
    forall i | 0 <= i < k ensures PairLess(ps[..k][i].score, ps[..k][i].name, ps[k].score, ps[k].name) {
      assert Less(ps[i], ps[k]);
    }
    SeekUnique(ps[..k], ps[k..], ps[k].score, ps[k].name);
    assert ps[..k] + ps[k..] == ps;
  }

  // ---- order and rank in plain words ----

  /** A listing is sorted when scores never go down, names of equal scores are in lexicographic order, and no name comes
      twice. */
  lemma {:induction false} SortedIs(ps: Pairs)
    ensures Sorted(ps) <==> forall i, j :: 0 <= i < j < |ps| ==>
      Precedes(ps[i].score, ps[i].name, ps[j].score, ps[j].name) && ps[i].name != ps[j].name
  {
    forall i, j | 0 <= i < j < |ps|
      ensures Less(ps[i], ps[j]) <==> Precedes(ps[i].score, ps[i].name, ps[j].score, ps[j].name)
    {
      PairLessIs(ps[i].score, ps[i].name, ps[j].score, ps[j].name);
    }
  }

  /** The names whose pairs come before (score, name). */
  ghost function Below(m: map<Bytes, Score>, score: Score, name: Bytes): set<Bytes> {
    set n | n in m && Precedes(m[n], n, score, name)
  }

  lemma {:induction false} MapCount(ps: Pairs)
    requires Sorted(ps)
    ensures |AsMap(ps)| == |ps|
  {
    if ps != [] {
      TailMap(ps);
      MapCount(ps[1..]);
      assert AsMap(ps).Keys == AsMap(ps[1..]).Keys + {ps[0].name};
      assert |AsMap(ps)| == |AsMap(ps).Keys| && |AsMap(ps[1..])| == |AsMap(ps[1..]).Keys|;
    }
  }

  lemma {:induction false} MapAt(ps: Pairs, i: nat)
    requires Sorted(ps) && i < |ps|
    ensures ps[i].name in AsMap(ps) && AsMap(ps)[ps[i].name] == ps[i].score
  {
    FindAt(ps, i);
    FindIsMap(ps, ps[i].name);
  }

  lemma {:induction false} MapPlace(ps: Pairs, name: Bytes) returns (i: nat)
    requires Sorted(ps) && name in AsMap(ps)
    ensures i < |ps| && ps[i].name == name && ps[i].score == AsMap(ps)[name]
  {
    FindIsMap(ps, name);
    i := FindIndex(ps, name);
  }

  /** The names before a key are those of the pairs up to the seek index. */
  lemma {:induction false} BelowIs(ps: Pairs, score: Score, name: Bytes)
    requires Sorted(ps)
    ensures Below(AsMap(ps), score, name) == AsMap(ps[..SeekGe(ps, score, name)]).Keys
  {
    var k, m := SeekGe(ps, score, name), AsMap(ps);
    SeekSplits(ps, score, name);
    forall n | n in Below(m, score, name) ensures n in AsMap(ps[..k]) {
      var i := MapPlace(ps, n);
      PairLessIs(ps[i].score, n, score, name);
      assert ps[..k][i] == ps[i];
      MapAt(ps[..k], i);
    }
    forall n | n in AsMap(ps[..k]) ensures n in Below(m, score, name) {
      var i := MapPlace(ps[..k], n);
      PairLessIs(ps[i].score, n, score, name);
      MapAt(ps, i);
    }
  }

  /** The seek index is the number of names whose pairs come before the key. */
  lemma {:induction false} SeekCounts(ps: Pairs, score: Score, name: Bytes)
    requires Sorted(ps)
    ensures SeekGe(ps, score, name) == |Below(AsMap(ps), score, name)| && |AsMap(ps)| == |ps|
  {
    var k := SeekGe(ps, score, name);
    BelowIs(ps, score, name);
    MapCount(ps);
    MapCount(ps[..k]);
    assert |AsMap(ps[..k])| == |AsMap(ps[..k]).Keys|;
  }

  /** A pair of the listing is at the place given by how many come before it. */
  lemma {:induction false} RankIs(ps: Pairs, i: nat)
    requires Sorted(ps) && i < |ps|
    ensures ps[i].name in AsMap(ps) && AsMap(ps)[ps[i].name] == ps[i].score
    ensures |Below(AsMap(ps), ps[i].score, ps[i].name)| == i
  {
    SeekSelf(ps, i);
    SeekCounts(ps, ps[i].score, ps[i].name);
    MapAt(ps, i);
  }

  // ---- whole runs ----

  datatype Op = Add(name: Bytes, score: Score) | Remove(name: Bytes)

  /** A run of zset_insert and zset_delete on the listing. */
  function RunList(ps: Pairs, ops: seq<Op>): Pairs
    decreases |ops|
  {
    if ops == [] then ps
    else RunList(match ops[0] case Add(n, s) => Put(ps, n, s) case Remove(n) => Drop(ps, n), ops[1..])
  }

  /** The same run on a plain map; a score that compares equal to the stored one is not written. */
  function RunMap(m: map<Bytes, Score>, ops: seq<Op>): map<Bytes, Score>
    decreases |ops|
  {
    if ops == [] then m
    else RunMap(match ops[0]
                case Add(n, s) => if n in m && m[n].ord == s.ord then m else m[n := s]
                case Remove(n) => m - {n}, ops[1..])
  }

  /** After any run the listing is the one sorted listing of the map, so the map decides everything. */
  lemma {:induction false} RunRefines(ps: Pairs, ops: seq<Op>, qs: Pairs)
    requires Sorted(ps)
    ensures Sorted(RunList(ps, ops)) && AsMap(RunList(ps, ops)) == RunMap(AsMap(ps), ops)
    ensures Sorted(qs) && AsMap(qs) == RunMap(AsMap(ps), ops) ==> qs == RunList(ps, ops)
    decreases |ops|
  {
    if ops == [] {
      if Sorted(qs) && AsMap(qs) == AsMap(ps) { Canonical(qs, ps); }
    } else {
      match ops[0]
      case Add(n, s) =>
        PutMap(ps, n, s);
        RunRefines(Put(ps, n, s), ops[1..], qs);
      case Remove(n) =>
        DropMap(ps, n);
        DropSorted(ps, n);
        RunRefines(Drop(ps, n), ops[1..], qs);
    }
  }
}

/** include/ds/dlist.h: the intrusive circular list that keeps connections in last-active order. */
module Ring {
  import opened Base

  /** One embedded DList node; the list head is the node at address NULL. */
  datatype DCell = DCell(prev: Ptr, next: Ptr)

  /** The two ends of the i-th link of the circle: head, then order, then head again. */
  ghost function From(order: seq<Ptr>, i: nat): Ptr
    requires i <= |order|
  {
    if i == 0 then NULL else order[i - 1]
  }

  ghost function To(order: seq<Ptr>, i: nat): Ptr
    requires i <= |order|
  {
    if i < |order| then order[i] else NULL
  }

  ghost predicate Link(m: seq<DCell>, order: seq<Ptr>, i: nat)
    requires i <= |order|
  {
    && From(order, i) < |m| && To(order, i) < |m|
    && m[From(order, i)].next == To(order, i) && m[To(order, i)].prev == From(order, i)
  }

  /** Mentioning Look unfolds Distinct. */
  ghost predicate Look(z: int) { true }

  ghost predicate Distinct(s: seq<Ptr>) {
    forall z {:trigger Look(z)} :: Look(z) ==> NoDup(s)
  }

  ghost predicate Alone(m: seq<DCell>, p: Ptr) {
    p < |m| ==> m[p] == DCell(p, p)
  }

  /** Walking next from the head visits order and comes back, prev walks it the other way, and every node that is
      not listed is linked to itself. */
  ghost predicate IsRing(m: seq<DCell>, order: seq<Ptr>) {
    && |m| > 0 && Distinct(order) && NULL !in order
    && (forall i | 0 <= i <= |order| :: Link(m, order, i))
    && (forall p: Ptr | p !in order && p != NULL :: Alone(m, p))
  }

  ghost function RemoveAt(s: seq<Ptr>, k: nat): seq<Ptr>
    requires k < |s|
  {
    s[..k] + s[k + 1..]
  }

  /** Where the i-th element came from. */
  ghost function Skip(k: nat, i: nat): nat { if i < k then i else i + 1 }

  lemma {:induction false} NoDupRemove(s: seq<Ptr>, k: nat)
    requires Distinct(s) && k < |s|
    ensures Distinct(RemoveAt(s, k)) && s[k] !in RemoveAt(s, k)
    ensures forall p: Ptr :: p in RemoveAt(s, k) <==> p in s && p != s[k]
  {
    var t := RemoveAt(s, k);
    assert Look(0);
    forall i, j | 0 <= i < j < |t| ensures t[i] != t[j] {
      assert t[i] == s[Skip(k, i)] && t[j] == s[Skip(k, j)];
    }
    forall p: Ptr ensures p in t <==> p in s && p != s[k] {
      if p in t {
        var i :| 0 <= i < |t| && t[i] == p;
        assert p == s[Skip(k, i)];
      }
      if p in s && p != s[k] {
        var i :| 0 <= i < |s| && s[i] == p;
        assert t[if i < k then i else i - 1] == p;
      }
    }
  }

  /** Link ends are injective: no node is the start, or the end, of two links. */
  lemma {:induction false} EndsDiffer(order: seq<Ptr>, i: nat, j: nat)
    requires Distinct(order) && NULL !in order && i < j <= |order|
    ensures From(order, i) != From(order, j) && To(order, i) != To(order, j)
  {
    assert Look(0);
  }

  lemma {:induction false} Unlinked(m1: seq<DCell>, m2: seq<DCell>, order: seq<Ptr>, k: nat)
    requires IsRing(m1, order) && k < |order| && order[k] < |m1|
    requires m1[order[k]].prev < |m1| && m1[order[k]].next < |m1|
    requires m2 == Spliced(m1, order[k])
    ensures IsRing(m2, RemoveAt(order, k))
  {
    var t, x := RemoveAt(order, k), order[k];
    NoDupRemove(order, k);
    assert Link(m1, order, k) && Link(m1, order, k + 1);
    assert k > 0 ==> t[k - 1] == From(order, k);
    assert k + 1 < |order| ==> t[k] == To(order, k + 1);
    forall i | 0 <= i <= |t| ensures Link(m2, t, i) {
      UnlinkedAt(m1, m2, order, k, i);
    }
    forall p: Ptr | p !in t && p != NULL ensures Alone(m2, p) {
      assert p != x ==> Alone(m1, p);
    }
  }

  /** dlist_detach's writes, in its order. */
  ghost function Spliced(m: seq<DCell>, x: Ptr): seq<DCell>
    requires x < |m| && m[x].prev < |m| && m[x].next < |m|
  {
    var (prev, next) := (m[x].prev, m[x].next);
    var m1 := m[prev := m[prev].(next := next)];
    var m2 := m1[next := m1[next].(prev := prev)];
    m2[x := DCell(x, x)]
  }

  lemma {:induction false} UnlinkedAt(m1: seq<DCell>, m2: seq<DCell>, order: seq<Ptr>, k: nat, i: nat)
    requires Distinct(order) && NULL !in order && k < |order| && i < |order|
    requires Link(m1, order, k) && Link(m1, order, k + 1) && m2 == Spliced(m1, order[k])
    requires forall j | 0 <= j <= |order| :: Link(m1, order, j)
    ensures Link(m2, RemoveAt(order, k), i)
  {
    var t := RemoveAt(order, k);
    var j := if i <= k then i else i + 1;
    assert From(t, i) == From(order, j) && To(t, i) == To(order, if i < k then i else i + 1);
    assert Link(m1, order, j);
    if i < k {
      EndsDiffer(order, i, k);
      EndsDiffer(order, i, k + 1);
    } else if i == k {
      EndsDiffer(order, k, k + 1);
    } else {
      EndsDiffer(order, k, j);
      EndsDiffer(order, k + 1, j);
    }
  }

  lemma {:induction false} Pushed(m1: seq<DCell>, m2: seq<DCell>, order: seq<Ptr>, x: Ptr)
    requires IsRing(m1, order) && 0 < x < |m1| && x !in order && m1[NULL].prev < |m1|
    requires m2 == Inserted(m1, x)
    ensures IsRing(m2, order + [x])
  {
    var n, t := |order|, order + [x];
    assert Link(m1, order, n);
    assert Distinct(t) by { assert Look(0); }
    forall i | 0 <= i <= |t| ensures Link(m2, t, i) {
      if i < n {
        assert Link(m1, order, i);
        EndsDiffer(order, i, n);
      }
    }
    forall p: Ptr | p !in t && p != NULL ensures Alone(m2, p) {
      assert Alone(m1, p);
      assert From(order, n) in order || From(order, n) == NULL;
    }
  }

  /** The writes of dlist_insert_before with the head as target, in its order. */
  ghost function Inserted(m: seq<DCell>, x: Ptr): seq<DCell>
    requires 0 < x < |m| && m[NULL].prev < |m|
  {
    var prev := m[NULL].prev;
    var m1 := m[prev := m[prev].(next := x)];
    var m2 := m1[x := m1[x].(prev := prev)];
    var m3 := m2[x := m2[x].(next := NULL)];
    m3[NULL := m3[NULL].(prev := x)]
  }

  class IdleRing {
    var mem: seq<DCell>
    /** The listed nodes, longest idle first. */
    ghost var order: seq<Ptr>

    ghost predicate Valid()
      reads this
    {
      IsRing(mem, order)
    }

    constructor ()
      ensures Valid() && order == [] && |mem| == 1
    {
      mem, order := [DCell(NULL, NULL)], [];
    }

    /** Room for nodes up to address n, each self-linked as Conn's constructor leaves it. */
    method Grow(n: nat)
      requires Valid()
      modifies this`mem
      ensures Valid() && |mem| == Max(|old(mem)|, n + 1)
    {
      while |mem| <= n
        invariant Valid() && |old(mem)| <= |mem| <= Max(|old(mem)|, n + 1)
      {
        Wider(mem, order);
        mem := mem + [DCell(|mem|, |mem|)];
      }
    }

    /** dlist_empty(&idle_list_) */
    method Empty() returns (b: bool)
      requires Valid()
      ensures b <==> order == []
    {
      b := mem[NULL].next == NULL;
      assert Link(mem, order, 0);
    }

    /** idle_list_.next */
    method Front() returns (p: Ptr)
      requires Valid() && order != []
      ensures p == order[0] && 0 < p < |mem|
    {
      assert Link(mem, order, 0);
      p := mem[NULL].next;
    }

    /** dlist_insert_before(&idle_list_, node): append at the back. */
    method PushBack(node: Ptr)
      requires Valid() && 0 < node < |mem| && node !in order
      modifies this
      ensures Valid() && order == old(order) + [node] && |mem| == |old(mem)|
    {
      assert Link(mem, order, |order|);
      var prev := mem[NULL].prev;
      mem := mem[prev := mem[prev].(next := node)];
      mem := mem[node := mem[node].(prev := prev)];
      mem := mem[node := mem[node].(next := NULL)];
      mem := mem[NULL := mem[NULL].(prev := node)];
      Pushed(old(mem), mem, order, node);
      order := order + [node];
    }

    /** dlist_detach of a listed node: it leaves the circle and ends up linked to itself. */
    method Detach(node: Ptr, ghost k: nat)
      requires Valid() && k < |order| && order[k] == node
      modifies this
      ensures Valid() && order == RemoveAt(old(order), k) && |mem| == |old(mem)|
    {
      assert Link(mem, order, k) && Link(mem, order, k + 1);
      var prev, next := mem[node].prev, mem[node].next;
      mem := mem[prev := mem[prev].(next := next)];
      mem := mem[next := mem[next].(prev := prev)];
      mem := mem[node := DCell(node, node)];
      Unlinked(old(mem), mem, order, k);
      order := RemoveAt(order, k);
    }

    /** dlist_detach of a node that is not listed leaves every link as it is, so detaching twice is harmless. */
    method DetachAgain(node: Ptr)
      requires Valid() && 0 < node < |mem| && node !in order
      modifies this`mem
      ensures mem == old(mem)
    {
      assert Alone(mem, node);
      var prev, next := mem[node].prev, mem[node].next;
      mem := mem[prev := mem[prev].(next := next)];
      mem := mem[next := mem[next].(prev := prev)];
      mem := mem[node := DCell(node, node)];
    }
  }

  lemma {:induction false} Wider(m: seq<DCell>, order: seq<Ptr>)
    requires IsRing(m, order)
    ensures IsRing(m + [DCell(|m|, |m|)], order)
  {
    var m2 := m + [DCell(|m|, |m|)];
    forall i | 0 <= i <= |order| ensures Link(m2, order, i) {
      assert Link(m, order, i);
    }
    forall p: Ptr | p !in order && p != NULL ensures Alone(m2, p) {
      assert Alone(m, p);
    }
  }
}

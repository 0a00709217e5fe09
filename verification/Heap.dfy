/** src/ds/heap.cpp: an array min-heap whose items write their position back into their owners. */
module Heap {
  import opened Base

  /** val: deadline; ref: the owner whose heap_idx field this item maintains. */
  datatype Item = Item(val: nat, ref: Ptr)

  /** heap_idx of an owner without a timer: (size_t)-1, which no position reaches. */
  const NONE: int := -1

  function Parent(i: int): int { (i + 1) / 2 - 1 }
  function Left(i: int): int { i * 2 + 1 }
  function Right(i: int): int { i * 2 + 2 }

  ghost predicate Ordered(a: seq<Item>) {
    forall i :: 0 < i < |a| ==> 0 <= Parent(i) < |a| && a[Parent(i)].val <= a[i].val
  }

  /** Order holds everywhere but around pos, across which it still holds. */
  ghost predicate OrderedBut(a: seq<Item>, pos: int) {
    && (forall i :: 0 < i < |a| && i != pos && Parent(i) != pos ==>
          0 <= Parent(i) < |a| && a[Parent(i)].val <= a[i].val)
    && (forall i :: 0 < i < |a| && Parent(i) == pos > 0 ==> 0 <= Parent(pos) < |a| && a[Parent(pos)].val <= a[i].val)
  }

  /** Every item's owner knows its position, and an owner with a position owns the item there.
      The owner `gone`, if any, has just left the heap and its stale position is ignored. */
  ghost predicate Synced(a: seq<Item>, idx: seq<int>, gone: int) {
    && (forall i :: 0 <= i < |a| ==> a[i].ref < |idx| && a[i].ref != gone && idx[a[i].ref] == i)
    && (forall p :: 0 <= p < |idx| && p != gone ==> idx[p] == NONE || (0 <= idx[p] < |a| && a[idx[p]].ref == p))
  }

  /** The deadline of owner p. */
  ghost function Due(a: seq<Item>, idx: seq<int>, p: Ptr): Option<nat> {
    if p < |idx| && 0 <= idx[p] < |a| then Some(a[idx[p]].val) else None
  }

  /** Same deadline for every owner; the index of `gone` is not written. */
  ghost predicate SameDue(a: seq<Item>, idx: seq<int>, a': seq<Item>, idx': seq<int>, gone: int) {
    && |idx| == |idx'| && |a| == |a'| && (forall p: Ptr :: p != gone ==> Due(a', idx', p) == Due(a, idx, p))
    && (0 <= gone < |idx| ==> idx'[gone] == idx[gone])
  }

  ghost function SwapItems(a: seq<Item>, i: int, j: int): seq<Item>
    requires 0 <= i < |a| && 0 <= j < |a|
  {
    a[i := a[j]][j := a[i]]
  }

  lemma {:induction false} SwapSynced(a: seq<Item>, idx: seq<int>, i: int, j: int, gone: int)
    requires Synced(a, idx, gone) && 0 <= i < |a| && 0 <= j < |a| && i != j
    ensures var a', idx' := SwapItems(a, i, j), idx[a[i].ref := j][a[j].ref := i];
      Synced(a', idx', gone) && SameDue(a, idx, a', idx', gone)
  {
    assert a[i].ref != a[j].ref;
  }

  /** A sift in progress: item t belongs at the hole pos, and filling the hole would restore a0's deadlines. */
  ghost predicate Holding(a: seq<Item>, idx: seq<int>, pos: int, t: Item, a0: seq<Item>, idx0: seq<int>, gone: int) {
    && 0 <= pos < |a| && t.ref < |idx|
    && Synced(a[pos := t], idx[t.ref := pos], gone) && SameDue(a0, idx0, a[pos := t], idx[t.ref := pos], gone)
  }

  /** Moving item j into the hole moves the hole to j. */
  lemma {:induction false} MoveHole(a: seq<Item>, idx: seq<int>, pos: int, j: int, t: Item, a0: seq<Item>,
      idx0: seq<int>, gone: int)
    requires Holding(a, idx, pos, t, a0, idx0, gone) && 0 <= j < |a| && j != pos
    ensures a[j].ref < |idx| && Holding(a[pos := a[j]], idx[a[j].ref := pos], j, t, a0, idx0, gone)
    ensures a[pos := a[j]][j := t] == SwapItems(a[pos := t], pos, j)
  {
    var b, ix := a[pos := t], idx[t.ref := pos];
    assert b[j] == a[j] && b[j].ref != t.ref;
    SwapSynced(b, ix, pos, j, gone);
    assert idx[a[j].ref := pos][t.ref := j] == ix[t.ref := j][a[j].ref := pos];
    assert a[pos := a[j]][j := t] == SwapItems(b, pos, j);
  }

  /** Only the item at pos may be out of order, and only with its parent. */
  ghost predicate UpOk(b: seq<Item>, pos: int) {
    OrderedBut(b, pos) && 0 <= pos < |b| && forall i :: 0 < i < |b| && Parent(i) == pos ==> b[pos].val <= b[i].val
  }

  /** Only the item at pos may be out of order, and only with its children. */
  ghost predicate DownOk(b: seq<Item>, pos: int) {
    OrderedBut(b, pos) && 0 <= pos < |b| && (pos > 0 ==> 0 <= Parent(pos) < |b| && b[Parent(pos)].val <= b[pos].val)
  }

  lemma {:induction false} UpStep(b: seq<Item>, pos: int)
    requires UpOk(b, pos) && pos > 0 && b[Parent(pos)].val > b[pos].val
    ensures UpOk(SwapItems(b, pos, Parent(pos)), Parent(pos))
  {}

  lemma {:induction false} DownStep(b: seq<Item>, pos: int, c: int)
    requires DownOk(b, pos) && (c == Left(pos) || c == Right(pos)) && c < |b| && b[c].val < b[pos].val
    requires Left(pos) < |b| ==> b[c].val <= b[Left(pos)].val
    requires Right(pos) < |b| ==> b[c].val <= b[Right(pos)].val
    ensures DownOk(SwapItems(b, pos, c), c)
  {
    var b' := SwapItems(b, pos, c);
    assert Parent(c) == pos;
    forall i | 0 < i < |b'| && i != c && Parent(i) != c
      ensures 0 <= Parent(i) < |b'| && b'[Parent(i)].val <= b'[i].val
    {
      Family(i);
      assert i == pos ==> b[Parent(pos)].val <= b[c].val;
    }
    forall i | 0 < i < |b'| && Parent(i) == c ensures b'[pos].val <= b'[i].val {
      Family(i);
    }
  }

  lemma {:induction false} DownDone(b: seq<Item>, pos: int)
    requires DownOk(b, pos)
    requires Left(pos) < |b| ==> b[pos].val <= b[Left(pos)].val
    requires Right(pos) < |b| ==> b[pos].val <= b[Right(pos)].val
    ensures Ordered(b)
  {
    forall i | 0 < i < |b| ensures 0 <= Parent(i) < |b| && b[Parent(i)].val <= b[i].val { Family(i); }
  }

  lemma {:induction false} Family(i: int)
    requires i > 0
    ensures 0 <= Parent(i) < i && (i == Left(Parent(i)) || i == Right(Parent(i)))
  {}

  /** The root is the nearest deadline. */
  lemma {:induction false} RootMin(a: seq<Item>, i: nat)
    requires Ordered(a) && i < |a|
    ensures a[0].val <= a[i].val
    decreases i
  {
    if i > 0 {
      Family(i);
      RootMin(a, Parent(i));
    }
  }

  /** Mentioning Open unfolds TimerHeap.Valid. */
  ghost predicate Open(z: int) { true }

  class TimerHeap {
    var a: seq<Item>
    var idx: seq<int>

    /** Folded: the body is available only where Open is asserted. */
    ghost predicate Valid()
      reads this
    {
      forall z {:trigger Open(z)} :: Open(z) ==> Ordered(a) && Synced(a, idx, NONE)
    }

    constructor ()
      ensures Valid() && a == [] && idx == [NONE]
    {
      a, idx := [], [NONE];
    }

    /** A new owner, without a timer. */
    method NewOwner()
      requires Valid()
      modifies this
      ensures Valid() && a == old(a) && idx == old(idx) + [NONE]
      ensures forall p: Ptr :: Due(a, idx, p) == old(Due(a, idx, p))
    {
      assert Open(0);
      idx := idx + [NONE];
    }

    /** heap_up: the item at start is smaller than its parent. Items in its way move down one level. */
    method Up(start: nat, ghost gone: int)
      requires UpOk(a, start) && a[start].ref < |idx| && Synced(a, idx[a[start].ref := start], gone)
      modifies this
      ensures Ordered(a) && Synced(a, idx, gone) && SameDue(old(a), old(idx[a[start].ref := start]), a, idx, gone)
    {
      var t := a[start];
      var pos: int := start;
      ghost var ix := idx[t.ref := pos];
      assert a[pos := t] == a;
      while pos > 0 && a[Parent(pos)].val > t.val
        invariant Holding(a, idx, pos, t, old(a), ix, gone) && UpOk(a[pos := t], pos)
        decreases pos
      {
        MoveHole(a, idx, pos, Parent(pos), t, old(a), ix, gone);
        UpStep(a[pos := t], pos);
        a := a[pos := a[Parent(pos)]];
        idx := idx[a[pos].ref := pos];
        pos := Parent(pos);
      }
      a := a[pos := t];
      idx := idx[a[pos].ref := pos];
    }

    /** heap_down: the item at start may be greater than a child. */
    method Down(start: nat, ghost gone: int)
      requires DownOk(a, start) && a[start].ref < |idx| && Synced(a, idx[a[start].ref := start], gone)
      modifies this
      ensures Ordered(a) && Synced(a, idx, gone) && SameDue(old(a), old(idx[a[start].ref := start]), a, idx, gone)
    {
      var t := a[start];
      var pos: int := start;
      ghost var ix := idx[t.ref := pos];
      assert a[pos := t] == a;
      while true
        invariant Holding(a, idx, pos, t, old(a), ix, gone) && DownOk(a[pos := t], pos)
        decreases |a| - pos
      {
        var l, r, minPos, minVal := Left(pos), Right(pos), pos, t.val;
        if l < |a| && a[l].val < minVal { minPos, minVal := l, a[l].val; }
        if r < |a| && a[r].val < minVal { minPos := r; }
        if minPos == pos {
          DownDone(a[pos := t], pos);
          break;
        }
        MoveHole(a, idx, pos, minPos, t, old(a), ix, gone);
        DownStep(a[pos := t], pos, minPos);
        a := a[pos := a[minPos]];
        idx := idx[a[pos].ref := pos];
        pos := minPos;
      }
      a := a[pos := t];
      idx := idx[a[pos].ref := pos];
    }

    /** heap_update: restore order and owner indexes after a[pos] changed. */
    method Update(pos: nat, ghost gone: int)
      requires pos < |a| && OrderedBut(a, pos) && a[pos].ref < |idx| && Synced(a, idx[a[pos].ref := pos], gone)
      modifies this
      ensures Ordered(a) && Synced(a, idx, gone) && SameDue(old(a), old(idx[a[pos].ref := pos]), a, idx, gone)
    {
      if pos > 0 && a[Parent(pos)].val > a[pos].val {
        Up(pos, gone);
      } else {
        Down(pos, gone);
      }
    }

    /** heap_upsert: change the owner's deadline, or give it one. */
    method Upsert(pos: int, t: Item)
      requires Valid() && t.ref < |idx| && pos == idx[t.ref]
      modifies this
      ensures Valid() && |idx| == |old(idx)|
      ensures forall p: Ptr :: Due(a, idx, p) == if p == t.ref then Some(t.val) else old(Due(a, idx, p))
    {
      assert Open(0);
      if 0 <= pos < |a| {
        a := a[pos := t];
        assert idx[t.ref := pos] == idx;
        Update(pos, NONE);
      } else {
        var last := |a|;
        a := a + [t];
        Appended(old(a), idx, t);
        Update(last, NONE);
      }
    }

    /** heap_delete: the tail fills the gap. The owner of the removed item is not told. */
    method Delete(pos: nat)
      requires Valid() && pos < |a|
      modifies this
      ensures |a| == |old(a)| - 1 && Ordered(a) && Lost(old(a), old(idx), a, idx, old(a[pos].ref))
    {
      ghost var r := a[pos].ref;
      Ends(pos);
      a := a[pos := a[|a| - 1]];
      a := a[..|a| - 1];
      EndsOpen(old(a), old(idx), pos);
      if pos < |a| { Refit(pos, old(a), old(idx), r); }
    }

    /** heap_update on the tail item that has taken the place of the removed one. */
    method Refit(pos: nat, ghost a0: seq<Item>, ghost idx0: seq<int>, ghost r: Ptr)
      requires pos < |a| && OrderedBut(a, pos) && a[pos].ref < |idx| && Lost(a0, idx0, a, idx[a[pos].ref := pos], r)
      modifies this
      ensures |a| == |old(a)| && Ordered(a) && Lost(a0, idx0, a, idx, r)
    {
      ghost var b, ix := a, idx[a[pos].ref := pos];
      LostSynced(a0, idx0, b, ix, r);
      Update(pos, r);
      LostMore(a0, idx0, b, ix, a, idx, r);
    }

    /** What Delete starts from. */
    lemma {:induction false} Ends(pos: nat)
      requires Valid() && pos < |a|
      ensures Closed(a, idx, pos)
    {
      assert Open(0);
      Removed(a, idx, pos);
    }
  }

  /** The heap (b, ix) is (a, idx) without the item of owner r, whose own index is not written. Unfolded by Open. */
  ghost predicate Lost(a: seq<Item>, idx: seq<int>, b: seq<Item>, ix: seq<int>, r: Ptr) {
    forall z {:trigger Open(z)} :: Open(z) ==>
      && r < |ix| == |idx| && ix[r] == idx[r] && Synced(b, ix, r)
      && forall p: Ptr :: p != r ==> Due(b, ix, p) == Due(a, idx, p)
  }

  lemma {:induction false} LostSynced(a: seq<Item>, idx: seq<int>, b: seq<Item>, ix: seq<int>, r: Ptr)
    requires Lost(a, idx, b, ix, r)
    ensures Synced(b, ix, r)
  {
    assert Open(0);
  }

  lemma {:induction false} LostMore(a: seq<Item>, idx: seq<int>, b: seq<Item>, ix: seq<int>, b': seq<Item>,
      ix': seq<int>, r: Ptr)
    requires Lost(a, idx, b, ix, r) && Synced(b', ix', r) && SameDue(b, ix, b', ix', r)
    ensures Lost(a, idx, b', ix', r)
  {
    assert Open(0);
  }

  /** The tail item in the place of the removed one: order is broken there at most. */
  ghost predicate ClosedBody(a: seq<Item>, idx: seq<int>, pos: nat)
    requires pos < |a|
  {
    var last := |a| - 1;
    var b := a[pos := a[last]][..last];
    if pos == last then Ordered(b) && Lost(a, idx, b, idx, a[pos].ref)
    else OrderedBut(b, pos) && a[last].ref < |idx| && Lost(a, idx, b, idx[a[last].ref := pos], a[pos].ref)
  }

  /** ClosedBody, unfolded by Open. */
  ghost predicate Closed(a: seq<Item>, idx: seq<int>, pos: nat)
    requires pos < |a|
  {
    forall z {:trigger Open(z)} :: Open(z) ==> ClosedBody(a, idx, pos)
  }

  lemma {:induction false} EndsOpen(a: seq<Item>, idx: seq<int>, pos: nat)
    requires pos < |a| && Closed(a, idx, pos)
    ensures ClosedBody(a, idx, pos)
  {
    assert Open(0);
  }

  lemma {:induction false} Appended(a: seq<Item>, idx: seq<int>, t: Item)
    requires Ordered(a) && Synced(a, idx, NONE) && t.ref < |idx| && idx[t.ref] == NONE
    ensures OrderedBut(a + [t], |a|) && Synced(a + [t], idx[t.ref := |a|], NONE)
    ensures forall p: Ptr :: p != t.ref ==> Due(a + [t], idx[t.ref := |a|], p) == Due(a, idx, p)
  {
    forall i | 0 < i < |a| + 1 ensures Parent(i) != |a| { Family(i); }
  }

  lemma {:induction false} Removed(a: seq<Item>, idx: seq<int>, pos: nat)
    requires Ordered(a) && Synced(a, idx, NONE) && pos < |a|
    ensures Closed(a, idx, pos)
  {
    RemovedOrder(a, pos);
    RemovedOwners(a, idx, pos);
  }

  lemma {:induction false} RemovedOrder(a: seq<Item>, pos: nat)
    requires Ordered(a) && pos < |a|
    ensures var b := a[pos := a[|a| - 1]][..|a| - 1];
      if pos == |a| - 1 then Ordered(b) else OrderedBut(b, pos)
  {
    var b := a[pos := a[|a| - 1]][..|a| - 1];
    forall i | 0 < i < |b| ensures 0 <= Parent(i) < i { Family(i); }
    if 0 < pos < |b| { Family(pos); }
  }

  lemma {:induction false} RemovedOwners(a: seq<Item>, idx: seq<int>, pos: nat)
    requires Synced(a, idx, NONE) && pos < |a|
    ensures a[|a| - 1].ref < |idx|
    ensures var last := |a| - 1;
      Lost(a, idx, a[pos := a[last]][..last], if pos == last then idx else idx[a[last].ref := pos], a[pos].ref)
  {
    var last := |a| - 1;
    if pos == last {
      assert Lost(a, idx, a[..last], idx, a[pos].ref);
      assert a[pos := a[last]][..last] == a[..last];
    } else {
      RemovedInner(a, idx, pos);
    }
  }

  lemma {:induction false} RemovedInner(a: seq<Item>, idx: seq<int>, pos: nat)
    requires Synced(a, idx, NONE) && pos < |a| - 1
    ensures var last := |a| - 1; Lost(a, idx, a[pos := a[last]][..last], idx[a[last].ref := pos], a[pos].ref)
  {
    var last := |a| - 1;
    var b, ix, r := a[pos := a[last]][..last], idx[a[last].ref := pos], a[pos].ref;
    assert r != a[last].ref;
    forall i | 0 <= i < |b| ensures b[i].ref < |ix| && b[i].ref != r && ix[b[i].ref] == i {
      assert i != pos ==> b[i] == a[i];
    }
    forall p: Ptr | p != r ensures Due(b, ix, p) == Due(a, idx, p) {}
  }
}

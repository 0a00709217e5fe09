/** src/store/hashtable.cpp: two chained tables with progressive rehashing. */
module HashMap {
  import opened Base

  /** One embedded HNode; its owner has the same address. */
  datatype HCell = HCell(next: Ptr, hcode: nat)
  type Mem = seq<HCell>

  /** tab == [] is the null table; otherwise mask + 1 == |tab|. */
  datatype HTab = HTab(tab: seq<Ptr>, size: nat)

  const EMPTY: HTab := HTab([], 0)
  const REHASHING_WORK: nat := 128
  const MAX_LOAD_FACTOR: nat := 8

  /** hcode & mask for a capacity n that is a power of two (see SlotIsMask), in a form without division. */
  function SlotOf(hcode: nat, n: nat): (r: nat)
    requires n > 0
    ensures r < n
  {
    if hcode < n then hcode else SlotOf(hcode - n, n)
  }

  lemma {:induction false} SlotIsMod(hcode: nat, n: nat)
    requires n > 0
    ensures SlotOf(hcode, n) == hcode % n
  {
    var q := SlotQuotient(hcode, n);
    DivUnique(SlotOf(hcode, n), q, hcode % n, hcode / n, n);
  }

  predicate IsPow2(n: nat) { n == 1 || (n > 1 && n % 2 == 0 && IsPow2(n / 2)) }

  /** The bitwise a & b. */
  function BitAnd(a: nat, b: nat): nat {
    if a == 0 then 0 else (a % 2) * (b % 2) + 2 * BitAnd(a / 2, b / 2)
  }

  lemma {:induction false} MaskQuotient(h: nat, n: nat) returns (q: nat)
    requires IsPow2(n)
    ensures BitAnd(h, n - 1) < n && BitAnd(h, n - 1) + q * n == h
    decreases n
  {
    if n == 1 {
      MaskZero(h);
      q := h;
    } else if h == 0 {
      q := 0;
    } else {
      q := MaskQuotient(h / 2, n / 2);
      MaskStep(h, n / 2);
      Doubled(q, n / 2);
    }
  }

  lemma {:induction false} MaskStep(h: nat, m: nat)
    requires h > 0 && m > 0
    ensures BitAnd(h, 2 * m - 1) == h % 2 + 2 * BitAnd(h / 2, m - 1)
  {
    var b := 2 * m - 1;
    assert b % 2 == 1 && b / 2 == m - 1;
  }

  lemma Doubled(q: nat, m: nat)
    ensures q * (2 * m) == 2 * (q * m)
  {}

  lemma {:induction false} MaskZero(h: nat)
    ensures BitAnd(h, 0) == 0
  {
    if h > 0 { MaskZero(h / 2); }
  }

  /** For a capacity that is a power of two, the slot is the hash masked with the capacity less one. */
  lemma {:induction false} SlotIsMask(hcode: nat, n: nat)
    requires IsPow2(n)
    ensures SlotOf(hcode, n) == BitAnd(hcode, n - 1)
  {
    var q := SlotQuotient(hcode, n);
    var q' := MaskQuotient(hcode, n);
    DivUnique(SlotOf(hcode, n), q, BitAnd(hcode, n - 1), q', n);
  }

  lemma {:induction false} DivUnique(r: nat, q: nat, r': nat, q': nat, n: nat)
    requires r < n && r' < n && r + q * n == r' + q' * n
    ensures r == r'
    decreases q
  {
    if q > 0 { MulStep(q, n); }
    if q' > 0 { MulStep(q', n); }
    if q > 0 && q' > 0 { DivUnique(r, q - 1, r', q' - 1, n); }
  }

  lemma MulStep(q: nat, n: nat)
    requires q > 0
    ensures q * n == (q - 1) * n + n && (q - 1) * n >= 0
  {}

  lemma {:induction false} SlotQuotient(hcode: nat, n: nat) returns (q: nat)
    requires n > 0
    ensures SlotOf(hcode, n) + q * n == hcode
  {
    if hcode < n {
      q := 0;
    } else {
      var p := SlotQuotient(hcode - n, n);
      q := p + 1;
      assert q * n == p * n + n;
    }
  }

  /** The link that owns a node: a slot head or some node's next field. */
  datatype From = Slot(pos: nat) | Next(prev: Ptr)

  /** Ghost contents of a table: the chain of every slot, and all nodes together. */
  datatype Chains = Chains(ch: seq<seq<Ptr>>, all: set<Ptr>)

  /** Following next from head visits exactly s. */
  ghost predicate Chain(m: Mem, head: Ptr, s: seq<Ptr>)
    decreases |s|
  {
    if s == [] then head == NULL
    else head == s[0] && 0 < head < |m| && Chain(m, m[head].next, s[1..])
  }

  /** Slot i of n: a duplicate-free chain of nodes that hash here. */
  ghost predicate SlotOk(m: Mem, head: Ptr, s: seq<Ptr>, i: nat, n: nat, all: set<Ptr>)
    requires n > 0
  {
    && Chain(m, head, s) && NoDup(s)
    && forall j :: 0 <= j < |s| ==> s[j] in all && s[j] < |m| && SlotOf(m[s[j]].hcode, n) == i
  }

  /** Node x is in the chain its hash selects. */
  ghost predicate Home(m: Mem, g: Chains, x: Ptr) {
    0 < x < |m| && |g.ch| > 0 && x in g.ch[SlotOf(m[x].hcode, |g.ch|)]
  }

  /** Mentioning Look unfolds Tab. */
  ghost predicate Look(z: int) { true }

  /** The table holds exactly the nodes of g, each in its slot. */
  ghost predicate Tab(m: Mem, h: HTab, g: Chains) {
    && |g.ch| == |h.tab| && h.size == |g.all| && (h.tab == [] ==> g.all == {})
    && forall z {:trigger Look(z)} :: Look(z) ==> Slots(m, h, g)
  }

  ghost predicate Slots(m: Mem, h: HTab, g: Chains)
    requires |g.ch| == |h.tab|
  {
    && (forall i {:trigger SlotOk(m, h.tab[i], g.ch[i], i, |g.ch|, g.all)} ::
          0 <= i < |g.ch| ==> SlotOk(m, h.tab[i], g.ch[i], i, |g.ch|, g.all))
    && (forall x {:trigger Home(m, g, x)} :: x in g.all ==> Home(m, g, x))
  }

  /** m2 is m1 after writes to the next fields of W, and perhaps new nodes at the end. */
  ghost predicate Relinked(m1: Mem, m2: Mem, W: set<Ptr>) {
    |m1| <= |m2| && forall x :: 0 <= x < |m1| ==> m2[x].hcode == m1[x].hcode && (x !in W ==> m2[x] == m1[x])
  }

  /** The hash codes, which are all that a node's owner sees of its HNode, are as before. */
  ghost predicate SameHash(m1: Mem, m2: Mem) {
    |m1| == |m2| && forall x :: 0 <= x < |m1| ==> m2[x].hcode == m1[x].hcode
  }

  lemma {:induction false} ChainFrame(m1: Mem, m2: Mem, W: set<Ptr>, head: Ptr, s: seq<Ptr>)
    requires Chain(m1, head, s) && Relinked(m1, m2, W) && forall j :: 0 <= j < |s| ==> s[j] !in W
    ensures Chain(m2, head, s)
    decreases |s|
  {
    if s != [] { ChainFrame(m1, m2, W, m1[head].next, s[1..]); }
  }

  lemma {:induction false} TabFrame(m1: Mem, m2: Mem, W: set<Ptr>, h: HTab, g: Chains)
    requires Tab(m1, h, g) && Relinked(m1, m2, W) && W !! g.all
    ensures Tab(m2, h, g)
  {
    assert Look(0);
    forall i | 0 <= i < |g.ch| ensures SlotOk(m2, h.tab[i], g.ch[i], i, |g.ch|, g.all) {
      assert SlotOk(m1, h.tab[i], g.ch[i], i, |g.ch|, g.all);
      ChainFrame(m1, m2, W, h.tab[i], g.ch[i]);
    }
    forall x | x in g.all ensures Home(m2, g, x) { assert Home(m1, g, x); }
  }

  ghost function PushFront(g: Chains, pos: nat, x: Ptr): Chains
    requires pos < |g.ch|
  {
    Chains(g.ch[pos := [x] + g.ch[pos]], g.all + {x})
  }

  lemma {:induction false} Pushed(m: Mem, h: HTab, g: Chains, x: Ptr)
    requires Tab(m, h, g) && h.tab != [] && 0 < x < |m| && x !in g.all
    requires m[x].next == h.tab[SlotOf(m[x].hcode, |h.tab|)]
    ensures var pos := SlotOf(m[x].hcode, |h.tab|);
      Tab(m, HTab(h.tab[pos := x], h.size + 1), PushFront(g, pos, x))
  {
    assert Look(0);
    var pos := SlotOf(m[x].hcode, |h.tab|);
    var h', g' := HTab(h.tab[pos := x], h.size + 1), PushFront(g, pos, x);
    forall i | 0 <= i < |g'.ch| ensures SlotOk(m, h'.tab[i], g'.ch[i], i, |g'.ch|, g'.all) {
      assert SlotOk(m, h.tab[i], g.ch[i], i, |g.ch|, g.all);
      if i == pos { assert g'.ch[i][1..] == g.ch[i]; }
    }
    forall y | y in g'.all ensures Home(m, g', y) {
      if y == x { assert g'.ch[pos][0] == x; } else { assert Home(m, g, y); }
    }
  }

  ghost function RemoveAt(g: Chains, pos: nat, j: nat): Chains
    requires pos < |g.ch| && j < |g.ch[pos]|
  {
    Chains(g.ch[pos := g.ch[pos][..j] + g.ch[pos][j + 1..]], g.all - {g.ch[pos][j]})
  }

  /** The link that owns element j of the chain in slot pos. */
  ghost function LinkAt(s: seq<Ptr>, pos: nat, j: nat): From
    requires j <= |s|
  {
    if j == 0 then Slot(pos) else Next(s[j - 1])
  }

  lemma {:induction false} ChainAt(m: Mem, head: Ptr, s: seq<Ptr>, j: nat)
    requires Chain(m, head, s) && j <= |s|
    ensures j > 0 ==> 0 < s[j - 1] < |m|
    ensures (if j == 0 then head else m[s[j - 1]].next) == if j < |s| then s[j] else NULL
    ensures j < |s| ==> 0 < s[j] < |m|
    decreases j
  {
    if j > 0 { ChainAt(m, m[head].next, s[1..], j - 1); }
  }

  /** Unlinking element j leaves the chain without it. */
  lemma {:induction false} ChainCut(m1: Mem, m2: Mem, head: Ptr, s: seq<Ptr>, j: nat)
    requires Chain(m1, head, s) && j < |s| && NoDup(s) && 0 < s[j] < |m1|
    requires j == 0 ==> Relinked(m1, m2, {})
    requires j > 0 ==> 0 < s[j - 1] < |m1| && Relinked(m1, m2, {s[j - 1]}) && m2[s[j - 1]].next == m1[s[j]].next
    ensures Chain(m2, if j == 0 then m1[s[0]].next else head, s[..j] + s[j + 1..])
    decreases j
  {
    var r := s[..j] + s[j + 1..];
    if j == 0 {
      assert r == s[1..];
      ChainFrame(m1, m2, {}, m1[head].next, s[1..]);
    } else if j == 1 {
      assert Chain(m1, m1[head].next, s[1..]);
      assert s[1..][1..] == s[2..] == r[1..];
      ChainFrame(m1, m2, {s[0]}, m1[s[1]].next, s[2..]);
    } else {
      assert s[1..][..j - 1] + s[1..][j..] == r[1..];
      ChainCut(m1, m2, m1[head].next, s[1..], j - 1);
    }
  }

  lemma {:induction false} Cut(m1: Mem, m2: Mem, h: HTab, h': HTab, g: Chains, pos: nat, j: nat)
    requires Tab(m1, h, g) && pos < |g.ch| && j < |g.ch[pos]| && 0 < g.ch[pos][j] < |m1|
    requires h'.size == h.size - 1
    requires j == 0 ==> m2 == m1 && h'.tab == h.tab[pos := m1[g.ch[pos][0]].next]
    requires j > 0 ==> h'.tab == h.tab && 0 < g.ch[pos][j - 1] < |m1|
    requires j > 0 ==> m2 == m1[g.ch[pos][j - 1] := m1[g.ch[pos][j - 1]].(next := m1[g.ch[pos][j]].next)]
    ensures Tab(m2, h', RemoveAt(g, pos, j))
  {
    assert Look(0);
    var g', n := RemoveAt(g, pos, j), |g.ch|;
    assert SlotOk(m1, h.tab[pos], g.ch[pos], pos, n, g.all);
    forall i | 0 <= i < n ensures SlotOk(m2, h'.tab[i], g'.ch[i], i, n, g'.all) {
      assert SlotOk(m1, h.tab[i], g.ch[i], i, n, g.all);
      if i == pos {
        CutHere(m1, m2, h.tab[i], h'.tab[i], g.ch[i], i, n, g.all, j);
      } else {
        CutElsewhere(m1, m2, h.tab[i], g.ch[i], i, n, g.all, if j == 0 then NULL else g.ch[pos][j - 1], g.ch[pos][j]);
      }
    }
    forall x | x in g'.all ensures Home(m2, g', x) {
      assert Home(m1, g, x);
      InCut(g.ch[pos], j, x);
    }
  }

  lemma {:induction false} InCut<T>(s: seq<T>, j: nat, x: T)
    requires j < |s|
    ensures x in s && x != s[j] ==> x in s[..j] + s[j + 1..]
  {
    if x in s && x != s[j] {
      var k :| 0 <= k < |s| && s[k] == x;
      assert (s[..j] + s[j + 1..])[if k < j then k else k - 1] == x;
    }
  }

  lemma {:induction false} CutHere(m1: Mem, m2: Mem, head: Ptr, head': Ptr, s: seq<Ptr>, i: nat, n: nat,
      all: set<Ptr>, j: nat)
    requires n > 0 && SlotOk(m1, head, s, i, n, all) && j < |s| && 0 < s[j] < |m1|
    requires j == 0 ==> m2 == m1 && head' == m1[s[0]].next
    requires j > 0 ==> head' == head && 0 < s[j - 1] < |m1|
    requires j > 0 ==> m2 == m1[s[j - 1] := m1[s[j - 1]].(next := m1[s[j]].next)]
    ensures SlotOk(m2, head', s[..j] + s[j + 1..], i, n, all - {s[j]})
  {
    ChainCut(m1, m2, head, s, j);
    var r := s[..j] + s[j + 1..];
    assert forall k :: 0 <= k < |r| ==> r[k] == s[if k < j then k else k + 1];
  }

  lemma {:induction false} CutElsewhere(m1: Mem, m2: Mem, head: Ptr, s: seq<Ptr>, i: nat, n: nat, all: set<Ptr>,
      prev: Ptr, gone: Ptr)
    requires n > 0 && SlotOk(m1, head, s, i, n, all) && Relinked(m1, m2, {prev})
    requires gone < |m1| && SlotOf(m1[gone].hcode, n) != i
    requires (prev == NULL && m2 == m1) || (prev < |m1| && SlotOf(m1[prev].hcode, n) != i)
    ensures SlotOk(m2, head, s, i, n, all - {gone})
  {
    if m2 != m1 { ChainFrame(m1, m2, {prev}, head, s); }
  }

  /** While migrating from C slots to 2C, 128 * total + remaining is at most 129 * 8C (plus slack inside an insert). */
  ghost predicate Growth(n: HTab, o: HTab, slack: nat) {
    && (n.tab != [] ==> IsPow2(|n.tab|) && |n.tab| >= 4)
    && (o.tab == [] ==> n.tab == [] || n.size < 8 * |n.tab|)
    && (o.tab != [] ==> |n.tab| == 2 * |o.tab| && |o.tab| >= 4)
    && (o.tab != [] ==> 128 * (n.size + o.size) + o.size <= 129 * 8 * |o.tab| + slack)
  }

  /** What the migration loop has cost so far is paid for by the inserts: a table of capacity C > 4 takes at least 4C of
      them, and migrating out of it takes 8C turns for its nodes and C for its slots. */
  ghost predicate Paid(n: HTab, o: HTab, pos: nat, turns: nat, inserts: nat) {
    && n.size + o.size <= inserts && (|n.tab| > 4 ==> inserts >= 4 * |n.tab|)
    && (n.tab == [] ==> turns == 0 && o.tab == [])
    && (n.tab != [] && o.tab == [] ==> turns <= 9 * (|n.tab| - 4))
    && (o.tab != [] ==> pos <= |o.tab| && turns + o.size <= 9 * (|o.tab| - 4) + 8 * |o.tab| + pos)
  }

  /** Both bounds. Unfolded by Look. */
  ghost predicate Bounded(n: HTab, o: HTab, pos: nat, turns: nat, inserts: nat, slack: nat) {
    forall z {:trigger Look(z)} :: Look(z) ==> Growth(n, o, slack) && Paid(n, o, pos, turns, inserts)
  }

  /** No migration is under way and the table is just full. */
  ghost predicate Full(n: HTab, o: HTab) {
    o.tab == [] && n.tab != [] && n.size == 8 * |n.tab| && IsPow2(|n.tab|) && |n.tab| >= 4
  }

  /** One more node in the newer table is within the slack, unless it fills the table. */
  lemma {:induction false} BoundedInsert(n: HTab, n': HTab, o: HTab, pos: nat, turns: nat, inserts: nat)
    requires Bounded(n, o, pos, turns, inserts, 0) && n'.size == n.size + 1 && (n.tab == [] ==> n.size == 0)
    requires |n'.tab| == if n.tab == [] then 4 else |n.tab|
    ensures Paid(n', o, pos, turns, inserts + 1)
    ensures if o.tab == [] && n'.size >= 8 * |n'.tab| then Full(n', o)
      else Bounded(n', o, pos, turns, inserts + 1, 128)
  {
    assert Look(0);
    assert IsPow2(2) && IsPow2(4);
  }

  lemma {:induction false} BoundedDemote(n: HTab, n': HTab, o: HTab, pos: nat, turns: nat, inserts: nat)
    requires Full(n, o) && Paid(n, o, pos, turns, inserts) && |n'.tab| == 2 * |n.tab| && n'.size == 0
    ensures Bounded(n', n, 0, turns, inserts, 128)
  {
    assert IsPow2(2 * |n.tab|);
  }

  /** An operation takes one turn of the migration loop for each node it moves and each slot it passes. */
  ghost predicate Worked(o: HTab, pos: nat, pos': nat, turns: nat, turns': nat) {
    turns' == turns + Min(128, o.size) + (pos' - pos)
  }

  /** A call of hm_help_rehashing on the two tables. */
  ghost predicate Helped(n: HTab, n': HTab, o: HTab, o': HTab) {
    && |n'.tab| == |n.tab| && n'.size + o'.size == n.size + o.size
    && o'.size == o.size - Min(128, o.size)
    && (o'.tab == [] <==> o'.size == 0) && (o'.tab != [] ==> |o'.tab| == |o.tab|)
  }

  lemma {:induction false} BoundedHelp(n: HTab, n': HTab, o: HTab, o': HTab, pos: nat, pos': nat, turns: nat,
      spent: nat, inserts: nat)
    requires Bounded(n, o, pos, turns, inserts, 128) && Helped(n, n', o, o') && (o.tab == [] ==> o.size == 0)
    requires spent == Min(128, o.size) + (pos' - pos) && (pos' == pos || pos' < |o.tab|)
    ensures Bounded(n', o', pos', turns + spent, inserts, 0)
  {
    assert Look(0);
  }

  lemma {:induction false} BoundedDelete(n: HTab, n': HTab, o: HTab, o': HTab, pos: nat, turns: nat, inserts: nat)
    requires Bounded(n, o, pos, turns, inserts, 0) && |n'.tab| == |n.tab| && |o'.tab| == |o.tab|
    requires n'.size <= n.size && o'.size <= o.size
    ensures Bounded(n', o', pos, turns, inserts, 0)
  {
    assert Look(0);
  }

  /** Some node is left, and all slots before the cursor are empty, so the cursor names a slot. */
  lemma {:induction false} CursorInBounds(m: Mem, h: HTab, g: Chains, k: nat)
    requires Tab(m, h, g) && h.size > 0 && forall i :: 0 <= i < k && i < |g.ch| ==> g.ch[i] == []
    ensures k < |h.tab|
  {
    assert Look(0);
    var x :| x in g.all;
    assert Home(m, g, x);
  }

  /** What a lookup by (hcode, eq) is looking for. */
  ghost predicate Hit(m: Mem, hcode: nat, eq: Ptr -> bool, x: Ptr) {
    x < |m| && m[x].hcode == hcode && eq(x)
  }

  function HInit(n: nat): HTab { HTab(seq(n, _ => NULL), 0) }

  ghost function NoChains(n: nat): Chains { Chains(seq(n, _ => []), {}) }

  lemma {:induction false} EmptyTab(m: Mem, n: nat)
    ensures Tab(m, HInit(n), NoChains(n))
  {
    assert Look(0);
  }

  lemma {:induction false} LinkTarget(m: Mem, h: HTab, g: Chains, pos: nat, j: nat)
    requires Tab(m, h, g) && pos < |g.ch| && j < |g.ch[pos]|
    ensures j > 0 ==> 0 < g.ch[pos][j - 1] < |m|
    ensures g.ch[pos][j] in g.all
    ensures 0 < g.ch[pos][j] == if j == 0 then h.tab[pos] else m[g.ch[pos][j - 1]].next
  {
    assert Look(0);
    assert SlotOk(m, h.tab[pos], g.ch[pos], pos, |g.ch|, g.all);
    ChainAt(m, h.tab[pos], g.ch[pos], j);
  }

  lemma {:induction false} NoNullEntry(m: Mem, h: HTab, g: Chains)
    requires Tab(m, h, g)
    ensures NULL !in g.all
  {
    assert Look(0);
    assert NULL in g.all ==> Home(m, g, NULL);
  }

  /** w lists, without repetition, exactly the nodes of the slots below i. */
  ghost predicate Covered(m: Mem, g: Chains, w: seq<Ptr>, i: nat) {
    && NoDup(w)
    && (forall k :: 0 <= k < |w| ==> w[k] in g.all && w[k] < |m| && |g.ch| > 0 && SlotOf(m[w[k]].hcode, |g.ch|) < i)
    && (forall p, k :: 0 <= p < i && p < |g.ch| && 0 <= k < |g.ch[p]| ==> g.ch[p][k] in w)
  }

  lemma {:induction false} CoverMore(m: Mem, h: HTab, g: Chains, w: seq<Ptr>, i: nat)
    requires Tab(m, h, g) && i < |g.ch| && Covered(m, g, w, i)
    ensures Covered(m, g, w + g.ch[i], i + 1)
  {
    assert Look(0);
    assert SlotOk(m, h.tab[i], g.ch[i], i, |g.ch|, g.all);
    var v := w + g.ch[i];
    forall p, k | 0 <= p < i + 1 && 0 <= k < |g.ch[p]| ensures g.ch[p][k] in v {
      if p == i { assert v[|w| + k] == g.ch[p][k]; }
    }
  }

  lemma {:induction false} NoDupCount<T>(w: seq<T>, X: set<T>)
    requires NoDup(w) && (forall k :: 0 <= k < |w| ==> w[k] in X) && forall x :: x in X ==> x in w
    ensures |w| == |X|
    decreases |w|
  {
    if w == [] {
      assert X == {};
    } else {
      var v := w[..|w| - 1];
      assert w == v + [w[|w| - 1]];
      NoDupCount(v, X - {w[|w| - 1]});
    }
  }

  lemma {:induction false} SameHashTrans(m1: Mem, m2: Mem, m3: Mem)
    requires SameHash(m1, m2) && SameHash(m2, m3)
    ensures SameHash(m1, m3)
  {}

  lemma {:induction false} SlotEmpty(m: Mem, h: HTab, g: Chains, pos: nat)
    requires Tab(m, h, g) && pos < |h.tab| && h.tab[pos] == NULL
    ensures g.ch[pos] == []
  {
    assert Look(0);
    assert SlotOk(m, h.tab[pos], g.ch[pos], pos, |g.ch|, g.all);
  }

  /** An element added to one of two disjoint sets. */
  lemma {:induction false} Added<T>(a: set<T>, b: set<T>, x: T)
    requires a !! b && x !in a + b
    ensures (a + {x}) !! b && (a + {x}) + b == a + b + {x} && |a + {x}| == |a| + 1 && {x} !! b
  {}

  lemma {:induction false} SlotHead(m: Mem, h: HTab, g: Chains, pos: nat)
    requires Tab(m, h, g) && pos < |h.tab| && h.tab[pos] != NULL
    ensures g.ch[pos] != [] && g.ch[pos][0] == h.tab[pos] && h.tab[pos] in g.all && 0 < h.tab[pos] < |m|
  {
    assert Look(0);
    assert SlotOk(m, h.tab[pos], g.ch[pos], pos, |g.ch|, g.all);
  }

  /** Slot pos of a table of capacity n is where some of these nodes belong. */
  ghost predicate Populated(m: Mem, all: set<Ptr>, n: nat, pos: nat) {
    exists x :: x in all && 0 <= x < |m| && n > 0 && SlotOf(m[x].hcode, n) == pos
  }

  /** The insert that fills a table of capacity n starts a migration from it. */
  ghost predicate Started(n: HTab, n': HTab, all: set<Ptr>) {
    n.tab != [] && |n'.tab| == 2 * |n.tab| && |all| == 8 * |n.tab|
  }

  /** All nodes of a table in the order of the slots and, within a slot, of its chain. */
  ghost function Laid(ch: seq<seq<Ptr>>): seq<Ptr> { if ch == [] then [] else ch[0] + Laid(ch[1..]) }

  lemma {:induction false} LaidPop(ch: seq<seq<Ptr>>, pos: nat)
    requires pos < |ch| && ch[pos] != [] && forall i :: 0 <= i < pos ==> ch[i] == []
    ensures Laid(ch) == [ch[pos][0]] + Laid(ch[pos := ch[pos][1..]])
  {
    var ch' := ch[pos := ch[pos][1..]];
    if pos > 0 {
      LaidPop(ch[1..], pos - 1);
      assert ch'[1..] == ch[1..][pos - 1 := ch[pos][1..]];
    } else {
      assert ch'[1..] == ch[1..] && ch[0] == [ch[0][0]] + ch[0][1..];
    }
  }

  lemma {:induction false} LaidNone(ch: seq<seq<Ptr>>)
    requires forall i :: 0 <= i < |ch| ==> ch[i] == []
    ensures Laid(ch) == []
  {
    if ch != [] { LaidNone(ch[1..]); }
  }

  lemma {:induction false} NoMembers(s: seq<Ptr>, all: set<Ptr>)
    requires forall j :: 0 <= j < |s| ==> s[j] in all
    ensures all == {} ==> s == []
  {
    if s != [] { assert s[0] in all; }
  }

  lemma {:induction false} NoneLaid(m: Mem, h: HTab, g: Chains)
    requires Tab(m, h, g) && h.size == 0
    ensures Laid(g.ch) == []
  {
    assert Look(0);
    forall i | 0 <= i < |g.ch| ensures g.ch[i] == [] {
      assert SlotOk(m, h.tab[i], g.ch[i], i, |g.ch|, g.all);
      NoMembers(g.ch[i], g.all);
    }
    LaidNone(g.ch);
  }

  /** One turn of the migration loop took the first node, from slot pos, or none. Unfolded by Look. */
  ghost predicate Popped(m: Mem, g: Chains, g': Chains, pos: nat, moved: bool, node: Ptr) {
    forall z {:trigger Look(z)} :: Look(z) ==>
      if moved then
        && node in g.all && g'.all == g.all - {node} && Laid(g.ch) == [node] + Laid(g'.ch)
        && node < |m| && |g.ch| > 0 && SlotOf(m[node].hcode, |g.ch|) == pos
      else g' == g
  }

  lemma {:induction false} HeadPopped(m: Mem, h: HTab, g: Chains, pos: nat)
    requires Tab(m, h, g) && pos < |g.ch| && g.ch[pos] != [] && forall i :: 0 <= i < pos ==> g.ch[i] == []
    ensures Popped(m, g, RemoveAt(g, pos, 0), pos, true, g.ch[pos][0])
  {
    assert Look(0);
    assert SlotOk(m, h.tab[pos], g.ch[pos], pos, |g.ch|, g.all);
    LaidPop(g.ch, pos);
    assert g.ch[pos][..0] + g.ch[pos][1..] == g.ch[pos][1..];
  }

  /** The first k nodes of g are gone in g', all from slots up to pos. */
  ghost predicate Shifted(m: Mem, g: Chains, g': Chains, pos: nat, k: nat) {
    && g'.all <= g.all && |g.all - g'.all| == k <= |Laid(g.ch)| && Laid(g'.ch) == Laid(g.ch)[k..]
    && forall x | x in g.all - g'.all :: x < |m| && |g.ch| > 0 && SlotOf(m[x].hcode, |g.ch|) <= pos
  }

  lemma {:induction false} ShiftedOne(m: Mem, m1: Mem, g: Chains, g1: Chains, g2: Chains, pos: nat, k: nat, node: Ptr)
    requires Shifted(m, g, g1, pos, k) && SameHash(m, m1) && |g1.ch| == |g.ch| && Popped(m1, g1, g2, pos, true, node)
    ensures Shifted(m, g, g2, pos, k + 1) && Populated(m, g.all - g2.all, |g.ch|, pos)
  {
    assert Look(0);
    assert g.all - g2.all == (g.all - g1.all) + {node};
    assert Laid(g.ch)[k] == Laid(g.ch)[k..][0] && Laid(g.ch)[k..][1..] == Laid(g.ch)[k + 1..];
  }

  /** Part way through the migration loop: k nodes moved and size left, in so many turns. Unfolded by Look. */
  ghost predicate Moving(m: Mem, g: Chains, left: Chains, pos: nat, pos': nat, k: nat, size: nat, spent: nat) {
    forall z {:trigger Look(z)} :: Look(z) ==>
      && pos <= pos' && spent == k + (pos' - pos) && Shifted(m, g, left, pos', k)
      && (k == 0 && size == 0 ==> pos' == pos)
      && (k > 0 && (k == 128 || size == 0) ==>
           pos' < |g.ch| && Populated(m, g.all - left.all, |g.ch|, pos'))
  }

  lemma {:induction false} MovingStart(m: Mem, g: Chains, pos: nat)
    ensures Moving(m, g, g, pos, pos, 0, |g.all|, 0)
  {
    assert g.all - g.all == {};
  }

  lemma {:induction false} MovingStep(m: Mem, m1: Mem, g: Chains, g1: Chains, g2: Chains, pos: nat, pos1: nat, k: nat,
      size: nat, spent: nat, moved: bool, node: Ptr)
    requires Moving(m, g, g1, pos, pos1, k, size, spent) && size > 0 && k < 128 && pos1 < |g.ch| == |g1.ch|
    requires SameHash(m, m1) && Popped(m1, g1, g2, pos1, moved, node)
    ensures moved ==> Moving(m, g, g2, pos, pos1, k + 1, size - 1, spent + 1)
    ensures !moved ==> Moving(m, g, g2, pos, pos1 + 1, k, size, spent + 1)
  {
    assert Look(0);
    if moved { ShiftedOne(m, m1, g, g1, g2, pos1, k, node); }
  }

  /** The nodes of a table whose slots below pos are empty belong at or above it. */
  ghost predicate Above(m: Mem, g: Chains, pos: nat) {
    forall x | x in g.all :: x < |m| && |g.ch| > 0 && SlotOf(m[x].hcode, |g.ch|) >= pos
  }

  lemma {:induction false} CursorBelow(m: Mem, m1: Mem, h: HTab, g: Chains, pos: nat)
    requires Tab(m1, h, g) && SameHash(m, m1) && forall i :: 0 <= i < pos && i < |g.ch| ==> g.ch[i] == []
    ensures Above(m, g, pos)
  {
    assert Look(0);
    forall x | x in g.all ensures x < |m| && |g.ch| > 0 && SlotOf(m[x].hcode, |g.ch|) >= pos {
      assert Home(m1, g, x);
    }
  }

  /** What one call of hm_help_rehashing does to the older table o of nodes g, and to its cursor: the first nodes have
      moved, the last of them from the slot where the cursor is now. Unfolded by Look. */
  ghost predicate Advanced(m: Mem, o: HTab, g: Chains, left: Chains, pos: nat, pos': nat) {
    forall z {:trigger Look(z)} :: Look(z) ==>
      && Shifted(m, g, left, pos', Min(128, o.size)) && |g.ch| == |o.tab|
      && if o.size == 0 then pos' == pos else
         && pos <= pos' < |g.ch| && Populated(m, g.all - left.all, |g.ch|, pos')
         && forall x | x in left.all :: x < |m| && SlotOf(m[x].hcode, |g.ch|) >= pos'
  }

  lemma {:induction false} MovingEnd(m: Mem, m1: Mem, o: HTab, o1: HTab, g: Chains, left: Chains, pos: nat, pos': nat,
      k: nat, spent: nat)
    requires Moving(m, g, left, pos, pos', k, o1.size, spent) && (k == 128 || o1.size == 0)
    requires k <= 128 && o.size == o1.size + k && Tab(m1, o1, left) && SameHash(m, m1)
    requires |left.ch| == |g.ch| == |o.tab| && forall i :: 0 <= i < pos' && i < |left.ch| ==> left.ch[i] == []
    ensures Advanced(m, o, g, left, pos, pos') && spent == k + (pos' - pos)
    ensures pos' == pos || pos' < |o.tab|
  {
    assert Look(0);
    CursorBelow(m, m1, o1, left, pos');
  }

  /** The same with an emptied table dropped. */
  lemma {:induction false} AdvancedDropped(m: Mem, o: HTab, g: Chains, left: Chains, pos: nat, pos': nat)
    requires Advanced(m, o, g, left, pos, pos') && left.all == {} && Laid(left.ch) == []
    ensures Advanced(m, o, g, Chains([], {}), pos, pos')
  {
    assert Look(0);
  }

  /** The nodes that belong in slots up to b of a table of capacity n. */
  ghost function UpTo(m: Mem, all: set<Ptr>, n: nat, b: nat): set<Ptr>
    requires n > 0
  {
    set x | x in all && x < |m| && SlotOf(m[x].hcode, n) <= b
  }

  /** The cursor of a table of capacity n over these nodes gets to the first slot up to which k of them belong. */
  ghost predicate StopsAt(m: Mem, all: set<Ptr>, n: nat, k: nat, pos: nat)
    requires n > 0
  {
    forall b: nat :: pos <= b <==> |UpTo(m, all, n, b)| >= k
  }

  lemma {:induction false} AdvancedStops(m: Mem, o: HTab, g: Chains, left: Chains, pos: nat, pos': nat)
    requires Advanced(m, o, g, left, pos, pos') && o.size > 0 && o.tab != []
    ensures StopsAt(m, g.all, |o.tab|, Min(128, o.size), pos')
  {
    assert Look(0);
    var n, gone := |o.tab|, g.all - left.all;
    forall b: nat ensures pos' <= b <==> |UpTo(m, g.all, n, b)| >= |gone| {
      var up := UpTo(m, g.all, n, b);
      if pos' <= b {
        SubsetSize(gone, up);
      } else {
        var x :| x in gone && 0 <= x < |m| && SlotOf(m[x].hcode, n) == pos';
        SubsetSize(up, gone - {x});
      }
    }
  }

  /** A call goes round the loop no more than bound times beyond the nodes it moves, if and only if it finds that many
      nodes within bound slots of the cursor. */
  lemma {:induction false} PauseIff(m: Mem, o: HTab, g: Chains, left: Chains, pos: nat, pos': nat, bound: nat)
    requires Advanced(m, o, g, left, pos, pos') && o.size > 0 && o.tab != []
    ensures pos' - pos <= bound <==> |UpTo(m, g.all, |o.tab|, pos + bound)| >= Min(128, o.size)
  {
    AdvancedStops(m, o, g, left, pos, pos');
  }

  /** The first call of a migration: where the cursor stops, and how many turns it takes. */
  ghost predicate Begun(m: Mem, all: set<Ptr>, n: nat, pos: nat, turns: int) {
    n > 0 && StopsAt(m, all, n, Min(128, |all|), pos) && turns == Min(128, |all|) + pos
  }

  lemma {:induction false} StopsToo(m: Mem, m': Mem, all: set<Ptr>, n: nat, k: nat, pos: nat)
    requires n > 0 && StopsAt(m, all, n, k, pos) && SameHash(m, m')
    ensures StopsAt(m', all, n, k, pos)
  {
    forall b: nat ensures pos <= b <==> |UpTo(m', all, n, b)| >= k {
      assert UpTo(m', all, n, b) == UpTo(m, all, n, b);
    }
  }

  lemma {:induction false} SubsetSize<T>(a: set<T>, b: set<T>)
    requires a <= b
    ensures |a| <= |b|
  {
    assert b == a + (b - a);
  }

  /** Mentioning Open unfolds HMap.Valid. */
  ghost predicate Open(z: int) { true }

  class HMap {
    var mem: Mem
    var newer: HTab
    var older: HTab
    var migratePos: nat
    ghost var gn: Chains
    ghost var go: Chains
    /** How often the loop of hm_help_rehashing has gone round. */
    ghost var turns: nat
    /** How many inserts there have been. */
    ghost var inserts: nat

    /** h_insert: prepend node to its slot's chain. */
    method HInsert(h: HTab, node: Ptr, ghost g: Chains) returns (h': HTab, ghost g': Chains)
      requires Tab(mem, h, g) && h.tab != [] && 0 < node < |mem| && node !in g.all
      modifies this`mem
      ensures Relinked(old(mem), mem, {node}) && SameHash(old(mem), mem)
      ensures Tab(mem, h', g') && |h'.tab| == |h.tab|
      ensures g' == PushFront(g, SlotOf(mem[node].hcode, |g.ch|), node)
    {
      assert Look(0);
      var pos := SlotOf(mem[node].hcode, |h.tab|);
      mem := mem[node := mem[node].(next := h.tab[pos])];
      h' := HTab(h.tab[pos := node], h.size + 1);
      g' := PushFront(g, pos, node);
      TabFrame(old(mem), mem, {node}, h, g);
      Pushed(mem, h, g, node);
    }

    function Deref(h: HTab, f: From): Ptr
      reads this
      requires f.Slot? ==> f.pos < |h.tab|
      requires f.Next? ==> f.prev < |mem|
    {
      match f
      case Slot(pos) => h.tab[pos]
      case Next(prev) => mem[prev].next
    }

    /** h_lookup: the link that owns the first node of this hash for which eq holds. */
    method HLookup(h: HTab, hcode: nat, eq: Ptr -> bool, ghost g: Chains) returns (from: Option<From>, ghost j: nat)
      requires Tab(mem, h, g)
      ensures from == None ==> forall x :: x in g.all ==> !Hit(mem, hcode, eq, x)
      ensures from.Some? ==> h.tab != [] && var s := g.ch[SlotOf(hcode, |h.tab|)];
        && j < |s| && from.value == LinkAt(s, SlotOf(hcode, |h.tab|), j) && s[j] in g.all && Hit(mem, hcode, eq, s[j])
        && forall i :: 0 <= i < j ==> !Hit(mem, hcode, eq, s[i])
    {
      assert Look(0);
      j := 0;
      if h.tab == [] { return None, 0; }
      var pos := SlotOf(hcode, |h.tab|);
      ghost var s := g.ch[pos];
      assert SlotOk(mem, h.tab[pos], s, pos, |g.ch|, g.all);
      var f := Slot(pos);
      while true
        invariant j <= |s| && f == LinkAt(s, pos, j)
        invariant forall i :: 0 <= i < j ==> !Hit(mem, hcode, eq, s[i])
        decreases |s| - j
      {
        ChainAt(mem, h.tab[pos], s, j);
        var cur := Deref(h, f);
        if cur == NULL {
          forall x | x in g.all ensures !Hit(mem, hcode, eq, x) { assert Home(mem, g, x); }
          return None, 0;
        }
        if mem[cur].hcode == hcode && eq(cur) { return Some(f), j; }
        f, j := Next(cur), j + 1;
      }
    }

    /** h_detach: unlink the node that `from` owns. */
    method HDetach(h: HTab, from: From, ghost g: Chains, ghost pos: nat, ghost j: nat)
      returns (h': HTab, node: Ptr, ghost g': Chains)
      requires Tab(mem, h, g) && pos < |g.ch| && j < |g.ch[pos]| && from == LinkAt(g.ch[pos], pos, j)
      modifies this`mem
      ensures node == g.ch[pos][j] && Relinked(old(mem), mem, g.all) && SameHash(old(mem), mem)
      ensures g' == RemoveAt(g, pos, j) && Tab(mem, h', g') && |h'.tab| == |h.tab|
    {
      assert Look(0);
      assert SlotOk(mem, h.tab[pos], g.ch[pos], pos, |g.ch|, g.all);
      ChainAt(mem, h.tab[pos], g.ch[pos], j);
      ChainAt(mem, h.tab[pos], g.ch[pos], j + 1);
      node := Deref(h, from);
      h' := h.(size := h.size - 1);
      match from {
        case Slot(p) => h' := h'.(tab := h.tab[p := mem[node].next]);
        case Next(prev) => mem := mem[prev := mem[prev].(next := mem[node].next)];
      }
      g' := RemoveAt(g, pos, j);
      Cut(old(mem), mem, h, h', g, pos, j);
    }

    ghost function Entries(): set<Ptr>
      reads this
    {
      gn.all + go.all
    }

    ghost predicate Core()
      reads this
    {
      && Tab(mem, newer, gn) && Tab(mem, older, go) && gn.all !! go.all && |mem| > 0
      && (newer.tab == [] ==> older.tab == [])
      && (forall i :: 0 <= i < migratePos && i < |go.ch| ==> go.ch[i] == [])
    }

    /** Folded: the body is available only where Open is asserted. */
    ghost predicate Valid()
      reads this
    {
      forall z {:trigger Open(z)} :: Open(z) ==>
        Core() && Bounded(newer, older, migratePos, turns, inserts, 0)
    }

    constructor ()
      ensures Valid() && Entries() == {} && |mem| == 1 && newer == EMPTY && turns == 0 && inserts == 0
    {
      mem := [HCell(NULL, 0)];
      newer, older, migratePos := EMPTY, EMPTY, 0;
      gn, go, turns, inserts := Chains([], {}), Chains([], {}), 0, 0;
    }

    /** A fresh node, in no table. */
    method NewNode(hcode: nat) returns (p: Ptr)
      requires Valid()
      modifies this`mem
      ensures Valid() && mem == old(mem) + [HCell(NULL, hcode)] && p == |old(mem)| > 0
    {
      assert Open(0);
      p := |mem|;
      mem := mem + [HCell(NULL, hcode)];
      TabFrame(old(mem), mem, {}, newer, gn);
      TabFrame(old(mem), mem, {}, older, go);
    }

    /** h_detach(older, &older.tab[migrate_pos]) */
    method PopOlder() returns (node: Ptr)
      requires Core() && migratePos < |older.tab| && older.tab[migratePos] != NULL
      modifies this`mem, this`older, this`go
      ensures Core() && SameHash(old(mem), mem) && 0 < node < |mem|
      ensures node in old(Entries()) && Entries() == old(Entries()) - {node}
      ensures older.size == old(older.size) - 1 && |older.tab| == old(|older.tab|)
      ensures Popped(old(mem), old(go), go, migratePos, true, node)
    {
      SlotHead(mem, older, go, migratePos);
      HeadPopped(mem, older, go, migratePos);
      older, node, go := HDetach(older, Slot(migratePos), go, migratePos, 0);
      TabFrame(old(mem), mem, old(go.all), newer, gn);
    }

    /** h_insert(newer, node) */
    method PushNewer(node: Ptr)
      requires Core() && newer.tab != [] && 0 < node < |mem| && node !in Entries()
      modifies this`mem, this`newer, this`gn
      ensures Core() && SameHash(old(mem), mem) && Entries() == old(Entries()) + {node}
      ensures newer.size == old(newer.size) + 1 && |newer.tab| == old(|newer.tab|)
    {
      Added(gn.all, go.all, node);
      newer, gn := HInsert(newer, node, gn);
      TabFrame(old(mem), mem, {node}, older, go);
    }

    /** h_insert(newer, h_detach(older, &older.tab[migrate_pos])) */
    method MoveOne() returns (ghost node: Ptr)
      requires Core() && migratePos < |older.tab| && older.tab[migratePos] != NULL && newer.tab != []
      modifies this`mem, this`newer, this`older, this`gn, this`go
      ensures Core() && Entries() == old(Entries()) && SameHash(old(mem), mem)
      ensures older.size == old(older.size) - 1 && newer.size == old(newer.size) + 1
      ensures |newer.tab| == old(|newer.tab|) && |older.tab| == old(|older.tab|)
      ensures Popped(old(mem), old(go), go, migratePos, true, node)
    {
      var p := PopOlder();
      node := p;
      ghost var m := mem;
      PushNewer(p);
      SameHashTrans(old(mem), m, mem);
    }

    /** The body of hm_help_rehashing's loop: skip an empty slot or move one node. */
    method MigrateStep() returns (moved: bool, ghost node: Ptr)
      requires Core() && older.size > 0
      modifies this`mem, this`newer, this`older, this`gn, this`go, this`migratePos
      ensures Core() && Entries() == old(Entries()) && SameHash(old(mem), mem)
      ensures |newer.tab| == old(|newer.tab|) && |older.tab| == old(|older.tab|) && old(migratePos) < |older.tab|
      ensures newer.size + older.size == old(newer.size) + old(older.size)
      ensures if moved then older.size == old(older.size) - 1 && migratePos == old(migratePos)
        else older.size == old(older.size) && migratePos == old(migratePos) + 1
      ensures Popped(old(mem), old(go), go, migratePos, moved, node)
    {
      CursorInBounds(mem, older, go, migratePos);
      moved := older.tab[migratePos] != NULL;
      node := NULL;
      if moved {
        node := MoveOne();
      } else {
        SlotEmpty(mem, older, go, migratePos);
        migratePos := migratePos + 1;
      }
    }

    /** One turn of the loop of hm_help_rehashing, which began with the older table as g and the cursor at pos. */
    method MigrateTurn(nwork: nat, ghost m: Mem, ghost g: Chains, ghost pos: nat, ghost spent: nat)
      returns (nwork': nat)
      requires Core() && older.size > 0 && nwork < 128 && SameHash(m, mem) && |g.ch| == |older.tab|
      requires Moving(m, g, go, pos, migratePos, nwork, older.size, spent)
      modifies this`mem, this`newer, this`older, this`gn, this`go, this`migratePos
      ensures Core() && Entries() == old(Entries()) && SameHash(m, mem)
      ensures |newer.tab| == old(|newer.tab|) && |older.tab| == old(|older.tab|) && old(migratePos) < |older.tab|
      ensures newer.size + older.size == old(newer.size) + old(older.size)
      ensures nwork' + older.size == nwork + old(older.size) && nwork <= nwork' <= nwork + 1
      ensures nwork' == nwork ==> migratePos == old(migratePos) + 1
      ensures Moving(m, g, go, pos, migratePos, nwork', older.size, spent + 1)
    {
      var moved;
      ghost var node;
      moved, node := MigrateStep();
      MovingStep(m, old(mem), g, old(go), go, pos, old(migratePos), nwork, old(older.size), spent, moved, node);
      SameHashTrans(m, old(mem), mem);
      nwork' := if moved then nwork + 1 else nwork;
    }

    /** The loop of hm_help_rehashing. */
    method MigrateSome() returns (ghost spent: nat)
      requires Core()
      modifies this`mem, this`newer, this`older, this`gn, this`go, this`migratePos
      ensures Core() && Entries() == old(Entries()) && SameHash(old(mem), mem)
      ensures older.size == old(older.size) - Min(128, old(older.size))
      ensures newer.size + older.size == old(newer.size) + old(older.size)
      ensures |newer.tab| == old(|newer.tab|) && |older.tab| == old(|older.tab|)
      ensures Advanced(old(mem), old(older), old(go), go, old(migratePos), migratePos)
      ensures spent == Min(128, old(older.size)) + (migratePos - old(migratePos))
      ensures migratePos == old(migratePos) || migratePos < |older.tab|
    {
      var nwork := 0;
      spent := 0;
      MovingStart(mem, go, migratePos);
      while nwork < REHASHING_WORK && older.size > 0
        invariant Core() && Entries() == old(Entries()) && SameHash(old(mem), mem)
        invariant nwork <= 128 && older.size + nwork == old(older.size)
        invariant newer.size + older.size == old(newer.size) + old(older.size)
        invariant |newer.tab| == old(|newer.tab|) && |older.tab| == old(|older.tab|)
        invariant Moving(old(mem), old(go), go, old(migratePos), migratePos, nwork, older.size, spent)
        decreases older.size, |older.tab| - migratePos
      {
        nwork := MigrateTurn(nwork, old(mem), old(go), old(migratePos), spent);
        spent := spent + 1;
      }
      MovingEnd(old(mem), mem, old(older), older, old(go), go, old(migratePos), migratePos, nwork, spent);
    }

    /** An emptied older table is freed. */
    method DropOlder(ghost m: Mem, ghost o: HTab, ghost g: Chains, ghost pos: nat)
      requires Core() && older.size == 0 && Advanced(m, o, g, go, pos, migratePos)
      modifies this`older, this`go
      ensures Core() && Entries() == old(Entries()) && older == EMPTY && Advanced(m, o, g, go, pos, migratePos)
    {
      NoneLaid(mem, older, go);
      AdvancedDropped(m, o, g, go, pos, migratePos);
      older, go := EMPTY, Chains([], {});
    }

    /** The loop, and then an emptied table is freed. */
    method MigrateAll() returns (ghost spent: nat)
      requires Core()
      modifies this`mem, this`newer, this`older, this`gn, this`go, this`migratePos
      ensures Core() && Entries() == old(Entries()) && SameHash(old(mem), mem)
      ensures Helped(old(newer), newer, old(older), older)
      ensures Advanced(old(mem), old(older), old(go), go, old(migratePos), migratePos)
      ensures spent == Min(128, old(older.size)) + (migratePos - old(migratePos))
      ensures migratePos == old(migratePos) || migratePos < |old(older.tab)|
    {
      spent := MigrateSome();
      if older.size == 0 && older.tab != [] {
        DropOlder(old(mem), old(older), old(go), old(migratePos));
      }
    }

    /** hm_help_rehashing: move up to 128 nodes, the first ones; skipping an empty slot is free. */
    method HelpRehashing()
      requires Core() && Bounded(newer, older, migratePos, turns, inserts, 128)
      modifies this
      ensures Valid() && inserts == old(inserts) && Entries() == old(Entries()) && SameHash(old(mem), mem)
      ensures older.size == old(older.size) - Min(128, old(older.size))
      ensures older.size == 0 <==> older.tab == []
      ensures |newer.tab| == old(|newer.tab|) && (older.tab != [] ==> |older.tab| == old(|older.tab|))
      ensures Advanced(old(mem), old(older), old(go), go, old(migratePos), migratePos)
      ensures Worked(old(older), old(migratePos), migratePos, old(turns), turns)
    {
      ghost var spent := MigrateAll();
      BoundedHelp(old(newer), newer, old(older), older, old(migratePos), migratePos, turns, spent, inserts);
      turns := turns + spent;
    }

    /** hm_trigger_rehashing: the full table is demoted and a table of twice the capacity takes its place. */
    method TriggerRehashing()
      requires Core() && Full(newer, older) && Paid(newer, older, migratePos, turns, inserts)
      modifies this
      ensures Core() && Bounded(newer, older, migratePos, turns, inserts, 128)
      ensures mem == old(mem) && Entries() == old(Entries())
      ensures older == old(newer) && older.size == 8 * |older.tab| && newer.size == 0 && |newer.tab| == 2 * |older.tab|
      ensures go.all == Entries() && |Entries()| == older.size && migratePos == 0
      ensures turns == old(turns) && inserts == old(inserts)
    {
      older, go := newer, gn;
      newer, gn := HInit(|newer.tab| * 2), NoChains(|newer.tab| * 2);
      EmptyTab(mem, |newer.tab|);
      migratePos := 0;
      BoundedDemote(old(newer), newer, old(older), old(migratePos), turns, inserts);
    }

    /** hm_lookup */
    method Lookup(hcode: nat, eq: Ptr -> bool) returns (p: Ptr)
      requires Valid()
      modifies this
      ensures Valid() && Entries() == old(Entries()) && SameHash(old(mem), mem)
      ensures p == NULL ==> forall x :: x in Entries() ==> !Hit(mem, hcode, eq, x)
      ensures p != NULL ==> p in Entries() && Hit(mem, hcode, eq, p)
      ensures Worked(old(older), old(migratePos), migratePos, old(turns), turns) && inserts == old(inserts)
    {
      assert Open(0);
      HelpRehashing();
      ghost var j, k;
      var from, from';
      from, j := HLookup(newer, hcode, eq, gn);
      if from.Some? {
        LinkTarget(mem, newer, gn, SlotOf(hcode, |newer.tab|), j);
        return Deref(newer, from.value);
      }
      from', k := HLookup(older, hcode, eq, go);
      if from'.None? { return NULL; }
      LinkTarget(mem, older, go, SlotOf(hcode, |older.tab|), k);
      p := Deref(older, from'.value);
    }

    /** The first table. */
    method FirstTable()
      requires Core() && newer.tab == []
      modifies this`newer, this`gn
      ensures Core() && Entries() == old(Entries()) && newer.size == old(newer.size) && |newer.tab| == 4
    {
      newer, gn := HInit(4), NoChains(4);
      EmptyTab(mem, 4);
    }

    /** h_insert into the newer table, which is made first if there is none. */
    method Prepend(node: Ptr)
      requires Core() && 0 < node < |mem| && node !in Entries()
      modifies this`mem, this`newer, this`gn
      ensures Core() && SameHash(old(mem), mem) && Entries() == old(Entries()) + {node}
      ensures newer.size == old(newer.size) + 1
      ensures |newer.tab| == old(if newer.tab == [] then 4 else |newer.tab|)
    {
      if newer.tab == [] { FirstTable(); }
      PushNewer(node);
    }

    /** hm_insert up to its final help: always into newer; a full table starts a migration. */
    method Link(node: Ptr)
      requires Valid() && 0 < node < |mem| && node !in Entries()
      modifies this
      ensures Core() && Bounded(newer, older, migratePos, turns, inserts, 128)
      ensures inserts == old(inserts) + 1 && Entries() == old(Entries()) + {node} && SameHash(old(mem), mem)
      ensures (|newer.tab| == old(if newer.tab == [] then 4 else |newer.tab|)
               && older == old(older) && migratePos == old(migratePos)) ||
        (Started(old(newer), newer, Entries()) && older.size > 0 && |older.tab| == |old(newer.tab)|
         && go.all == Entries() && migratePos == 0 && old(older.tab) == [])
      ensures turns == old(turns)
    {
      assert Open(0);
      Prepend(node);
      BoundedInsert(old(newer), newer, older, migratePos, turns, inserts);
      inserts := inserts + 1;
      if older.tab == [] {
        var threshold := |newer.tab| * MAX_LOAD_FACTOR;
        if newer.size >= threshold { TriggerRehashing(); }
      }
    }

    /** hm_insert: the one that fills a table of capacity n starts a migration, and has gone round the migration loop
        once for every node moved and once for every slot that the cursor has passed from slot 0 on. */
    method Insert(node: Ptr)
      requires Valid() && 0 < node < |mem| && node !in Entries()
      modifies this
      ensures Valid() && Entries() == old(Entries()) + {node} && SameHash(old(mem), mem) && inserts == old(inserts) + 1
      ensures (|newer.tab| == old(if newer.tab == [] then 4 else |newer.tab|)
               && Worked(old(older), old(migratePos), migratePos, old(turns), turns)) ||
        (Started(old(newer), newer, Entries()) && old(older.tab) == []
         && Begun(mem, Entries(), |old(newer.tab)|, migratePos, turns - old(turns)))
    {
      assert Open(0);
      Link(node);
      ghost var m, o, g := mem, older, go;
      ghost var begun := older.size > 0 && go.all == Entries() && migratePos == 0;
      HelpRehashing();
      if begun {
        AdvancedStops(m, o, g, go, 0, migratePos);
        StopsToo(m, mem, Entries(), |o.tab|, Min(128, o.size), migratePos);
      }
    }

    /** h_detach from the newer table. */
    method UnlinkNewer(from: From, ghost pos: nat, ghost j: nat) returns (p: Ptr)
      requires Valid() && pos < |gn.ch| && j < |gn.ch[pos]| && from == LinkAt(gn.ch[pos], pos, j)
      modifies this`mem, this`newer, this`gn
      ensures Valid() && SameHash(old(mem), mem)
      ensures p == old(gn).ch[pos][j] && p in old(Entries()) && p != NULL && Entries() == old(Entries()) - {p}
    {
      assert Open(0);
      LinkTarget(mem, newer, gn, pos, j);
      newer, p, gn := HDetach(newer, from, gn, pos, j);
      TabFrame(old(mem), mem, old(gn.all), older, go);
      BoundedDelete(old(newer), newer, older, older, migratePos, turns, inserts);
    }

    /** h_detach from the older table. */
    method UnlinkOlder(from: From, ghost pos: nat, ghost j: nat) returns (p: Ptr)
      requires Valid() && pos < |go.ch| && j < |go.ch[pos]| && from == LinkAt(go.ch[pos], pos, j)
      modifies this`mem, this`older, this`go
      ensures Valid() && SameHash(old(mem), mem)
      ensures p == old(go).ch[pos][j] && p in old(Entries()) && p != NULL && Entries() == old(Entries()) - {p}
    {
      assert Open(0);
      LinkTarget(mem, older, go, pos, j);
      older, p, go := HDetach(older, from, go, pos, j);
      TabFrame(old(mem), mem, old(go.all), newer, gn);
      BoundedDelete(newer, newer, old(older), older, migratePos, turns, inserts);
    }

    /** hm_delete behind its migration: h_lookup and h_detach on the newer table, else on the older one. */
    method DeleteNow(hcode: nat, eq: Ptr -> bool) returns (p: Ptr)
      requires Valid()
      modifies this`mem, this`newer, this`older, this`gn, this`go
      ensures Valid() && Entries() == old(Entries()) - {p} && SameHash(old(mem), mem)
      ensures p == NULL ==> forall x :: x in Entries() ==> !Hit(mem, hcode, eq, x)
      ensures p != NULL ==> p in old(Entries()) && Hit(mem, hcode, eq, p)
    {
      assert Open(0);
      ghost var j;
      var from;
      from, j := HLookup(newer, hcode, eq, gn);
      if from.Some? {
        p := UnlinkNewer(from.value, SlotOf(hcode, |newer.tab|), j);
        return;
      }
      from, j := HLookup(older, hcode, eq, go);
      if from.Some? {
        p := UnlinkOlder(from.value, SlotOf(hcode, |older.tab|), j);
        return;
      }
      NoNullEntry(mem, newer, gn);
      NoNullEntry(mem, older, go);
      p := NULL;
    }

    /** hm_delete: detach and return the node found, NULL if none. */
    method Delete(hcode: nat, eq: Ptr -> bool) returns (p: Ptr)
      requires Valid()
      modifies this
      ensures Valid() && Entries() == old(Entries()) - {p} && SameHash(old(mem), mem)
      ensures p == NULL ==> forall x :: x in Entries() ==> !Hit(mem, hcode, eq, x)
      ensures p != NULL ==> p in old(Entries()) && Hit(mem, hcode, eq, p)
      ensures Worked(old(older), old(migratePos), migratePos, old(turns), turns) && inserts == old(inserts)
    {
      assert Open(0);
      HelpRehashing();
      ghost var m := mem;
      p := DeleteNow(hcode, eq);
      SameHashTrans(old(mem), m, mem);
    }

    /** hm_size */
    method Size() returns (n: nat)
      requires Valid()
      ensures n == |Entries()|
      ensures newer.tab != [] ==> n < 8 * |newer.tab|
      ensures newer.tab == [] ==> n == 0
    {
      assert Open(0) && Look(0);
      n := newer.size + older.size;
    }

    /** The capacity is a power of two, and while migrating the table is not much more than half full. */
    lemma {:induction false} MigratingSize()
      requires Valid()
      ensures newer.tab != [] ==> IsPow2(|newer.tab|)
      ensures older.tab != [] ==> 128 * |Entries()| <= 129 * 4 * |newer.tab|
    {
      assert Open(0) && Look(0);
    }

    /** Over any run of operations the migration loop goes round at most nine times for every four inserts. */
    lemma {:induction false} Amortized()
      requires Valid()
      ensures 4 * turns <= 9 * inserts
    {
      assert Open(0) && Look(0);
    }

    /** The inner loop of h_foreach: append one chain to w until keep answers false. */
    method ForeachChain(head: Ptr, w0: seq<Ptr>, keep: Ptr -> bool, ghost s: seq<Ptr>) returns (w: seq<Ptr>, ok: bool)
      requires Chain(mem, head, s) && forall k :: 0 <= k < |w0| ==> keep(w0[k])
      ensures ok ==> w == w0 + s
      ensures w <= w0 + s
      ensures forall k :: 0 <= k < |w| ==> keep(w[k]) == (ok || k < |w| - 1)
      ensures !ok ==> w != []
    {
      w := w0;
      var node := head;
      ghost var j := 0;
      ChainAt(mem, head, s, 0);
      while node != NULL
        invariant j <= |s| && w == w0 + s[..j] && (if j < |s| then node == s[j] && 0 < node < |mem| else node == NULL)
        invariant forall k :: 0 <= k < |w| ==> keep(w[k])
        decreases |s| - j
      {
        w := w + [node];
        assert w == w0 + s[..j + 1];
        if !keep(node) { return w, false; }
        ChainAt(mem, head, s, j + 1);
        node, j := mem[node].next, j + 1;
      }
      return w, true;
    }

    /** h_foreach: visit a table slot by slot until keep answers false. */
    method HForeach(h: HTab, keep: Ptr -> bool, ghost g: Chains) returns (w: seq<Ptr>, ok: bool)
      requires Tab(mem, h, g)
      ensures NoDup(w) && forall k :: 0 <= k < |w| ==> w[k] in g.all
      ensures ok ==> forall x :: x in g.all ==> x in w
      ensures forall k :: 0 <= k < |w| ==> keep(w[k]) == (ok || k < |w| - 1)
      ensures !ok ==> w != []
    {
      assert Look(0);
      w, ok := [], true;
      var i := 0;
      while i < |h.tab|
        invariant i <= |h.tab| && Covered(mem, g, w, i)
        invariant forall k :: 0 <= k < |w| ==> keep(w[k])
      {
        assert SlotOk(mem, h.tab[i], g.ch[i], i, |g.ch|, g.all);
        CoverMore(mem, h, g, w, i);
        ghost var v := w + g.ch[i];
        w, ok := ForeachChain(h.tab[i], w, keep, g.ch[i]);
        if !ok {
          assert forall k :: 0 <= k < |w| ==> w[k] == v[k];
          return;
        }
        i := i + 1;
      }
      forall x | x in g.all ensures x in w { assert Home(mem, g, x); }
    }

    /** hm_foreach: the newer table, then the older one. */
    method Foreach(keep: Ptr -> bool) returns (w: seq<Ptr>)
      requires Valid()
      ensures NoDup(w) && forall k :: 0 <= k < |w| ==> w[k] in Entries()
      ensures forall k :: 0 <= k < |w| - 1 ==> keep(w[k])
      ensures (w != [] && !keep(w[|w| - 1])) || (|w| == |Entries()| && forall x :: x in Entries() ==> x in w)
    {
      assert Open(0);
      var ok;
      w, ok := HForeach(newer, keep, gn);
      if ok {
        var w';
        w', ok := HForeach(older, keep, go);
        ghost var v := w;
        w := w + w';
        if ok {
          forall x | x in Entries() ensures x in w { assert x in v || x in w'; }
          NoDupCount(w, Entries());
        }
      }
    }
  }

  // ---- one call that passes nearly a whole table ----

  lemma {:induction false} Pow2Between(a: nat, b: nat)
    requires IsPow2(a) && IsPow2(b) && a <= b < 2 * a
    ensures a == b
  {
    if a > 1 { Pow2Between(a / 2, b / 2); }
  }

  /** All nodes have this hash. */
  ghost predicate Alike(h: HMap, hcode: nat)
    reads h
  {
    forall x | x in h.Entries() :: x < |h.mem| && h.mem[x].hcode == hcode
  }

  /** A table of capacity c that one more node fills, with all nodes in its last slot. */
  method NearlyFull(c: nat) returns (h: HMap)
    requires IsPow2(c) && c >= 4
    ensures fresh(h) && h.Valid() && |h.newer.tab| == c && h.older.tab == []
    ensures |h.Entries()| == 8 * c - 1 && Alike(h, c - 1)
  {
    h := new HMap();
    for n := 0 to 8 * c - 1
      invariant fresh(h) && h.Valid() && |h.Entries()| == n && Alike(h, c - 1)
      invariant (n > 0 ==> h.newer.tab != []) && (|h.newer.tab| > 4 ==> n >= 4 * |h.newer.tab|)
    {
      AddAlike(h, c - 1);
    }
    var size := h.Size();
    h.MigratingSize();
    Pow2Between(c, |h.newer.tab|);
  }

  /** A new node with this hash. */
  method AddAlike(h: HMap, hcode: nat)
    requires h.Valid() && Alike(h, hcode)
    modifies h
    ensures h.Valid() && |h.Entries()| == old(|h.Entries()|) + 1 && Alike(h, hcode)
    ensures |h.newer.tab| == old(if h.newer.tab == [] then 4 else |h.newer.tab|) ||
      (Started(old(h.newer), h.newer, h.Entries())
       && Begun(h.mem, h.Entries(), |old(h.newer.tab)|, h.migratePos, h.turns - old(h.turns)))
  {
    assert |h.mem| !in h.Entries();
    var p := h.NewNode(hcode);
    assert h.Entries() == old(h.Entries());
    h.Insert(p);
  }

  /** If all nodes belong in one slot, the cursor goes there. */
  lemma {:induction false} StopsThere(m: Mem, all: set<Ptr>, n: nat, k: nat, pos: nat, there: nat)
    requires n > 0 && StopsAt(m, all, n, k, pos) && 0 < k <= |all|
    requires forall x | x in all :: x < |m| && SlotOf(m[x].hcode, n) == there
    ensures pos == there
  {
    assert UpTo(m, all, n, there) == all;
    if there > 0 { assert UpTo(m, all, n, there - 1) == {}; }
  }

  /** The insert that starts a migration from a table of any capacity c can pass c - 1 slots at once: with all nodes in
      the last slot, that one call goes round the loop c - 1 times more often than it moves a node. */
  method LongSkip(h: HMap, c: nat)
    requires h.Valid() && |h.newer.tab| == c >= 4 && h.older.tab == []
    requires |h.Entries()| == 8 * c - 1 && Alike(h, c - 1)
    modifies h
    ensures h.Valid() && |h.newer.tab| == 2 * c && |h.Entries()| == 8 * c && h.migratePos == c - 1
    ensures h.turns == old(h.turns) + Min(128, 8 * c) + (c - 1)
  {
    AddAlike(h, c - 1);
    var size := h.Size();
    StopsThere(h.mem, h.Entries(), c, Min(128, 8 * c), h.migratePos, c - 1);
  }
}

/** src/ds/avl.cpp: in-place rebalancing, deletion and rank walks over parent-linked nodes. */
module Avl {
  import opened Base
  import opened Tree

  /** The fields of one AVLNode, and the memory that holds them. cnt is a uint32_t and wraps around. */
  datatype Cell = Cell(parent: Ptr, left: Ptr, right: Ptr, height: nat, cnt: nat)
  type Mem = seq<Cell>

  /** Memory m2 is m1 after writes to the nodes in W alone. */
  ghost predicate Only(m1: Mem, m2: Mem, W: set<Ptr>) {
    |m1| == |m2| && forall x :: 0 <= x < |m1| && x !in W ==> m2[x] == m1[x]
  }

  /** Memory m realises t, with root n under parent p: links, heights, and counts modulo 2^32. */
  ghost predicate Linked(m: Mem, t: Tree, n: Ptr, p: Ptr) {
    match t
    case Leaf => n == NULL
    case Node(l, x, r) =>
      n == x && x < |m| && m[x].parent == p && m[x].height == Height(t) && m[x].cnt == Wrap32(Size(t)) &&
      Linked(m, l, m[x].left, x) && Linked(m, r, m[x].right, x)
  }

  /** Like Linked, but the root's own height and cnt may be out of date. */
  ghost predicate Stale(m: Mem, t: Tree, n: Ptr, p: Ptr) {
    t.Node? && n == t.me && n < |m| && m[n].parent == p &&
    Linked(m, t.left, m[n].left, n) && Linked(m, t.right, m[n].right, n)
  }

  /** The context's links are in place and its hole holds child; path aggregates may be out of date. */
  ghost predicate CtxLinked(m: Mem, c: Ctx, child: Ptr) {
    match c
    case Top => true
    case InLeft(up, x, r) =>
      x < |m| && m[x].left == child && m[x].parent == CtxMe(up) && Linked(m, r, m[x].right, x) && CtxLinked(m, up, x)
    case InRight(up, l, x) =>
      x < |m| && m[x].right == child && m[x].parent == CtxMe(up) && Linked(m, l, m[x].left, x) && CtxLinked(m, up, x)
  }

  lemma {:induction false} Frame(m1: Mem, m2: Mem, W: set<Ptr>, t: Tree, n: Ptr, p: Ptr)
    requires Only(m1, m2, W) && Linked(m1, t, n, p) && W !! Nodes(t)
    ensures Linked(m2, t, n, p)
  {
    if t.Node? {
      Frame(m1, m2, W, t.left, m1[t.me].left, t.me);
      Frame(m1, m2, W, t.right, m1[t.me].right, t.me);
    }
  }

  lemma {:induction false} HeightIs(m: Mem, t: Tree, n: Ptr, p: Ptr)
    requires Linked(m, t, n, p) && Distinct(t)
    ensures if n == NULL then Height(t) == 0 else n < |m| && m[n].height == Height(t)
  {}

  lemma {:induction false} CtxFrame(m1: Mem, m2: Mem, W: set<Ptr>, c: Ctx, child: Ptr)
    requires Only(m1, m2, W) && CtxLinked(m1, c, child) && W !! CtxNodes(c)
    ensures CtxLinked(m2, c, child)
  {
    match c
    case Top =>
    case InLeft(up, x, r) =>
      CtxFrame(m1, m2, W, up, x);
      Frame(m1, m2, W, r, m1[x].right, x);
    case InRight(up, l, x) =>
      CtxFrame(m1, m2, W, up, x);
      Frame(m1, m2, W, l, m1[x].left, x);
  }

  /** Moving the root of t, if any, under a new parent. */
  lemma {:induction false} Reparent(m1: Mem, m2: Mem, W: set<Ptr>, t: Tree, n: Ptr, q: Ptr, p: Ptr)
    requires Only(m1, m2, W) && Linked(m1, t, n, q) && Distinct(t) && W * Nodes(t) <= {n}
    requires n != NULL ==> n < |m1| && m2[n] == m1[n].(parent := p)
    ensures Linked(m2, t, n, p)
  {
    if t.Node? {
      Frame(m1, m2, W, t.left, m1[n].left, n);
      Frame(m1, m2, W, t.right, m1[n].right, n);
    }
  }

  ghost function RotL(t: Tree): Tree
    requires t.Node? && t.right.Node?
  {
    Node(Node(t.left, t.me, t.right.left), t.right.me, t.right.right)
  }

  ghost function RotR(t: Tree): Tree
    requires t.Node? && t.left.Node?
  {
    Node(t.left.left, t.left.me, Node(t.left.right, t.me, t.right))
  }

  /** Five disjoint parts: two nodes and the three subtrees around them. */
  ghost predicate Apart(a: Tree, x: Ptr, b: Tree, y: Ptr, c: Tree) {
    Distinct(a) && Distinct(b) && Distinct(c) && x != y && x != NULL && y != NULL &&
    x !in Nodes(a) && x !in Nodes(b) && x !in Nodes(c) && y !in Nodes(a) && y !in Nodes(b) && y !in Nodes(c) &&
    Nodes(a) !! Nodes(b) && Nodes(a) !! Nodes(c) && Nodes(b) !! Nodes(c)
  }

  lemma {:induction false} RotLFacts(t: Tree)
    requires t.Node? && t.right.Node?
    ensures Nodes(RotL(t)) == Nodes(t)
    ensures Distinct(t) ==> Distinct(RotL(t)) && Distinct(RotL(t).left)
    ensures Distinct(t) ==> Apart(t.left, t.me, t.right.left, t.right.me, t.right.right)
  {
    assert Distinct(t) ==> Distinct(t.right);
  }

  lemma {:induction false} RotLInorder(t: Tree)
    requires t.Node? && t.right.Node?
    ensures Inorder(RotL(t)) == Inorder(t)
  {
    Regroup(Inorder(t.left), [t.me], Inorder(t.right.left), [t.right.me], Inorder(t.right.right));
  }

  lemma {:induction false} RotRFacts(t: Tree)
    requires t.Node? && t.left.Node?
    ensures Nodes(RotR(t)) == Nodes(t)
    ensures Distinct(t) ==> Distinct(RotR(t)) && Distinct(RotR(t).right)
    ensures Distinct(t) ==> Apart(t.left.left, t.left.me, t.left.right, t.me, t.right)
  {
    assert Distinct(t) ==> Distinct(t.left);
  }

  lemma {:induction false} RotRInorder(t: Tree)
    requires t.Node? && t.left.Node?
    ensures Inorder(RotR(t)) == Inorder(t)
  {
    Regroup(Inorder(t.left.left), [t.left.me], Inorder(t.left.right), [t.me], Inorder(t.right));
  }

  lemma {:induction false} Clear(x: Ptr, y: Ptr, i: Ptr, A: set<Ptr>, B: set<Ptr>, C: set<Ptr>)
    requires x !in A && x !in B && x !in C && y !in A && y !in B && y !in C && A !! B && B !! C
    requires NULL !in A && NULL !in C && (i == NULL || i in B)
    ensures {x, y, i} !! A && {x, y, i} !! C && {x, y, i} * B <= {i}
  {}

  /** The three subtrees around a rotation survive it: only x, y and the root i of the middle one are written. */
  lemma {:induction false} RotParts(m1: Mem, m2: Mem, a: Tree, x: Ptr, b: Tree, y: Ptr, c: Tree, na: Ptr, i: Ptr,
      nc: Ptr, q: Ptr, p: Ptr)
    requires Apart(a, x, b, y, c)
    requires Linked(m1, a, na, x) && Linked(m1, b, i, q) && Linked(m1, c, nc, y)
    requires Only(m1, m2, {x, y, i})
    requires i != NULL ==> i < |m1| && m2[i] == m1[i].(parent := p)
    ensures Linked(m2, a, na, x) && Linked(m2, b, i, p) && Linked(m2, c, nc, y)
  {
    var W := {x, y, i};
    NoNull(a); NoNull(b); NoNull(c);
    Clear(x, y, i, Nodes(a), Nodes(b), Nodes(c));
    Frame(m1, m2, W, a, na, x);
    Reparent(m1, m2, W, b, i, q, p);
    Frame(m1, m2, W, c, nc, y);
  }

  ghost function FixL(t: Tree): Tree
    requires t.Node? && t.left.Node? && (Height(t.left.left) < Height(t.left.right) ==> t.left.right.Node?)
  {
    if Height(t.left.left) < Height(t.left.right) then RotR(Node(RotL(t.left), t.me, t.right)) else RotR(t)
  }

  ghost function FixR(t: Tree): Tree
    requires t.Node? && t.right.Node? && (Height(t.right.right) < Height(t.right.left) ==> t.right.left.Node?)
  {
    if Height(t.right.right) < Height(t.right.left) then RotL(Node(t.left, t.me, RotR(t.right))) else RotL(t)
  }

  ghost predicate LeftHeavy(t: Tree) {
    t.Node? && Balanced(t.left) && Balanced(t.right) && Height(t.left) == Height(t.right) + 2
  }

  ghost predicate RightHeavy(t: Tree) {
    t.Node? && Balanced(t.left) && Balanced(t.right) && Height(t.left) + 2 == Height(t.right)
  }

  /** t' is t rebalanced: the same nodes in the same sequence. */
  ghost predicate Rebalanced(t: Tree, t': Tree) {
    Balanced(t') && Inorder(t') == Inorder(t) && Nodes(t') == Nodes(t) && (Distinct(t) ==> Distinct(t'))
  }

  lemma {:induction false} FixLFacts(t: Tree)
    requires LeftHeavy(t)
    ensures t.left.Node? && (Height(t.left.left) < Height(t.left.right) ==> t.left.right.Node?)
    ensures Rebalanced(t, FixL(t)) && Height(t.left) <= Height(FixL(t)) <= Height(t.left) + 1
  {
    var l := t.left;
    if Height(l.left) < Height(l.right) {
      var t1 := Node(RotL(l), t.me, t.right);
      assert Balanced(l.left) && Balanced(l.right);
      RotLFacts(l); RotLInorder(l); RotRFacts(t1); RotRInorder(t1);
    } else {
      RotRFacts(t); RotRInorder(t);
    }
  }

  lemma {:induction false} FixRFacts(t: Tree)
    requires RightHeavy(t)
    ensures t.right.Node? && (Height(t.right.right) < Height(t.right.left) ==> t.right.left.Node?)
    ensures Rebalanced(t, FixR(t)) && Height(t.right) <= Height(FixR(t)) <= Height(t.right) + 1
  {
    var r := t.right;
    if Height(r.right) < Height(r.left) {
      var t1 := Node(t.left, t.me, RotR(r));
      assert Balanced(r.right) && Balanced(r.left);
      RotRFacts(r); RotRInorder(r); RotLFacts(t1); RotLInorder(t1);
    } else {
      RotLFacts(t); RotLInorder(t);
    }
  }

  /** Children of heights hl and hr take at most one rebalancing step to a height within one of h. */
  ghost predicate Gap(hl: nat, hr: nat, h: nat) {
    var top := Max(hl, hr);
    if Near(hl, hr) then Near(1 + top, h) else -2 <= hl - hr <= 2 && (h == top || h == top + 1)
  }

  lemma {:induction false} GapAbove(a: nat, h: nat, b: nat)
    requires Near(a, h) && Near(h, b)
    ensures Gap(a, b, 1 + Max(h, b)) && Gap(b, a, 1 + Max(b, h))
  {}

  /** Where h is the height the subtree had before the change below it. */
  ghost predicate Fixable(t: Tree, h: nat) {
    t.Node? && Balanced(t.left) && Balanced(t.right) && Gap(Height(t.left), Height(t.right), h)
  }

  /** A complete tree in memory: links, aggregates and balance are all right. */
  ghost predicate Valid(m: Mem, t: Tree, root: Ptr) {
    Linked(m, t, root, NULL) && Distinct(t) && Balanced(t)
  }

  /** What avl_fix finds at each level of its walk: everything is right except the aggregates on
      the path to the root, and the subtree below has changed height by at most one. */
  ghost predicate FixState(m: Mem, c: Ctx, t: Tree, n: Ptr, h: nat) {
    Stale(m, t, n, CtxMe(c)) && CtxLinked(m, c, n) && Fixable(t, h) && CtxBalanced(c, h) &&
    Distinct(Plug(c, t))
  }

  /** The subtree one level up, and its former height when the hole held height h. */
  ghost function Join(c: Ctx, t: Tree): Tree
    requires c != Top
  {
    if c.InLeft? then Node(t, c.me, c.right) else Node(c.left, c.me, t)
  }

  ghost function JoinHeight(c: Ctx, h: nat): nat
    requires c != Top
  {
    if c.InLeft? then 1 + Max(h, Height(c.right)) else 1 + Max(Height(c.left), h)
  }

  /** The imbalance met one level up is never more than two. */
  lemma {:induction false} ClimbBalance(c: Ctx, t: Tree, h: nat)
    requires c != Top && Balanced(t) && Near(Height(t), h) && CtxBalanced(c, h)
    ensures Fixable(Join(c, t), JoinHeight(c, h)) && CtxBalanced(c.up, JoinHeight(c, h))
  {
    GapAbove(Height(t), h, Height(if c.InLeft? then c.right else c.left));
  }

  lemma {:induction false} Climb(m: Mem, c: Ctx, t: Tree, n: Ptr, h: nat)
    requires c != Top && Linked(m, t, n, c.me) && CtxLinked(m, c, n)
    requires Balanced(t) && Near(Height(t), h) && CtxBalanced(c, h) && Distinct(Plug(c, t))
    ensures FixState(m, c.up, Join(c, t), c.me, JoinHeight(c, h))
  {
    ClimbBalance(c, t, h);
  }

  lemma {:induction false} PlugSame(c: Ctx, t: Tree, t': Tree)
    requires Rebalanced(t, t') && Distinct(Plug(c, t))
    ensures Inorder(Plug(c, t')) == Inorder(Plug(c, t)) && Nodes(Plug(c, t')) == Nodes(Plug(c, t))
    ensures Distinct(Plug(c, t'))
  {
    PlugNodes(c, t); PlugNodes(c, t');
    PlugInorder(c, t); PlugInorder(c, t');
  }

  /** The aggregates stored along the path are right for a hole of height h and size k. */
  ghost predicate CtxExact(m: Mem, c: Ctx, h: nat, k: nat) {
    c == Top ||
    (c.me < |m| &&
    var s := if c.InLeft? then c.right else c.left;
    m[c.me].height == 1 + Max(h, Height(s)) && m[c.me].cnt == Wrap32(1 + k + Size(s)) &&
    CtxExact(m, c.up, 1 + Max(h, Height(s)), 1 + k + Size(s)))
  }

  lemma {:induction false} Unplug(m: Mem, c: Ctx, t: Tree)
    requires Linked(m, Plug(c, t), RootOf(Plug(c, t)), NULL)
    ensures Linked(m, t, RootOf(t), CtxMe(c)) && CtxLinked(m, c, RootOf(t)) && CtxExact(m, c, Height(t), Size(t))
    decreases c
  {
    if c != Top { Unplug(m, c.up, Join(c, t)); }
  }

  lemma {:induction false} Replug(m: Mem, c: Ctx, t: Tree)
    requires Linked(m, t, RootOf(t), CtxMe(c)) && CtxLinked(m, c, RootOf(t)) && CtxExact(m, c, Height(t), Size(t))
    ensures Linked(m, Plug(c, t), RootOf(Plug(c, t)), NULL)
    decreases c
  {
    if c != Top { Replug(m, c.up, Join(c, t)); }
  }

  ghost function OnlyChild(t: Tree): seq<Ptr>
    requires t.Node?
  {
    if t.left.Node? then Inorder(t.left) else Inorder(t.right)
  }

  /** The tree around a hole once a node with at most one child gives way to that child. */
  lemma {:induction false} Splice(c: Ctx, t: Tree, ch: Tree)
    requires t.Node? && Distinct(Plug(c, t)) && Balanced(Plug(c, t))
    requires (t.left.Leaf? && ch == t.right) || (t.right.Leaf? && ch == t.left)
    ensures Nodes(Plug(c, ch)) == CtxNodes(c) + Nodes(ch) == Nodes(Plug(c, t)) - {t.me}
    ensures Distinct(Plug(c, ch)) && Distinct(ch) && CtxDistinct(c) && Nodes(ch) !! CtxNodes(c)
    ensures t.me != NULL && t.me !in CtxNodes(c) && NULL !in Nodes(ch)
    ensures Balanced(ch) && CtxBalanced(c, Height(t)) && Near(Height(ch), Height(t))
    ensures Inorder(Plug(c, ch)) == Before(c) + Inorder(ch) + After(c)
  {
    PlugNodes(c, t);
    PlugNodes(c, ch);
    PlugBalanced(c, t);
    PlugInorder(c, ch);
    NoNull(ch);
  }

  /** The test avl_fix and avl_del_easy use to find the link that holds a node. */
  lemma {:induction false} WhichSide(m: Mem, c: Ctx, n: Ptr)
    requires c != Top && CtxLinked(m, c, n) && n != NULL && n !in CtxNodes(c)
    ensures (m[c.me].left == n) == c.InLeft?
  {}

  lemma {:induction false} OnlyTrans(m1: Mem, m2: Mem, m3: Mem, A: set<Ptr>, B: set<Ptr>)
    requires Only(m1, m2, A) && Only(m2, m3, B) && A <= B
    ensures Only(m1, m3, B)
  {}

  lemma {:induction false} ExactFrame(m1: Mem, m2: Mem, c: Ctx, h: nat, k: nat)
    requires CtxExact(m1, c, h, k) && |m1| == |m2|
    requires forall x :: x in CtxNodes(c) && x < |m1| ==> m2[x].height == m1[x].height && m2[x].cnt == m1[x].cnt
    ensures CtxExact(m2, c, h, k)
  {
    if c != Top {
      var s := if c.InLeft? then c.right else c.left;
      ExactFrame(m1, m2, c.up, 1 + Max(h, Height(s)), 1 + k + Size(s));
    }
  }

  lemma {:induction false} PlugRoot(c: Ctx, t: Tree, t': Tree)
    requires t.Node? && t'.Node?
    ensures RootOf(Plug(c, t)) == if c == Top then t.me else RootOf(Plug(c, t'))
    ensures RootOf(Plug(c, t')) == if c == Top then t'.me else RootOf(Plug(c, t))
    decreases c
  {
    if c != Top { PlugRoot(c.up, Join(c, t), Join(c, t')); }
  }

  /** A tree is whole again once a subtree of the same height and size hangs in its hole. */
  lemma {:induction false} Rehung(m1: Mem, m2: Mem, W: set<Ptr>, c: Ctx, s: Tree, s': Tree)
    requires c != Top && s.Node? && s'.Node? && CtxExact(m1, c, Height(s), Size(s)) && c.me < |m1|
    requires Only(m1, m2, W + {c.me}) && W !! CtxNodes(c)
    requires m2[c.me].height == m1[c.me].height && m2[c.me].cnt == m1[c.me].cnt
    requires Linked(m2, s', s'.me, c.me) && CtxLinked(m2, c, s'.me) && Height(s') == Height(s) && Size(s') == Size(s)
    ensures Linked(m2, Plug(c, s'), RootOf(Plug(c, s)), NULL)
  {
    PlugRoot(c, s, s');
    ExactFrame(m1, m2, c, Height(s), Size(s));
    Replug(m2, c, s');
  }

  /** A detached cell y that copies the root x of s, and to which x's children now point, stands in for x. */
  lemma {:induction false} Adopt(m1: Mem, m2: Mem, s: Tree, y: Ptr, p: Ptr, l: Ptr, r: Ptr)
    requires s.Node? && Linked(m1, s, s.me, p) && Distinct(s) && y !in Nodes(s) && 0 < y < |m1|
    requires l == m1[s.me].left && r == m1[s.me].right
    requires Only(m1, m2, {y, l, r}) && m2[y] == m1[s.me]
    requires l != NULL ==> l < |m1| && m2[l] == m1[l].(parent := y)
    requires r != NULL ==> r < |m1| && m2[r] == m1[r].(parent := y)
    ensures Linked(m2, Node(s.left, y, s.right), y, p)
  {
    NoNull(s.left); NoNull(s.right);
    Clear(y, r, l, {}, Nodes(s.left), Nodes(s.right) - {r});
    Clear(y, l, r, {}, Nodes(s.right), Nodes(s.left) - {l});
    Reparent(m1, m2, {y, l, r}, s.left, l, s.me, y);
    Reparent(m1, m2, {y, l, r}, s.right, r, s.me, y);
  }

  /** The shape after y stands in for the root of s: same heights, and y at node's place in the order. */
  lemma {:induction false} Swapped(c: Ctx, s: Tree, y: Ptr, a: seq<Ptr>, b: seq<Ptr>)
    requires s.Node? && Distinct(Plug(c, s)) && Balanced(Plug(c, s))
    requires y != NULL && y !in Nodes(Plug(c, s)) && Inorder(Plug(c, s)) == a + [s.me] + b
    ensures var t := Plug(c, Node(s.left, y, s.right));
      Distinct(t) && Balanced(t) && Inorder(t) == a + [y] + b && Nodes(t) <= Nodes(Plug(c, s)) + {y}
  {
    var s' := Node(s.left, y, s.right);
    PlugNodes(c, s); PlugNodes(c, s');
    PlugBalanced(c, s); PlugBalanced(c, s');
    SwappedOrder(c, s, y, a, b);
  }

  lemma {:induction false} SwappedOrder(c: Ctx, s: Tree, y: Ptr, a: seq<Ptr>, b: seq<Ptr>)
    requires s.Node? && Distinct(Plug(c, s)) && Inorder(Plug(c, s)) == a + [s.me] + b
    ensures Inorder(Plug(c, Node(s.left, y, s.right))) == a + [y] + b
  {
    PlugInorder(c, s); PlugInorder(c, Node(s.left, y, s.right));
    DistinctInorder(Plug(c, s));
    SwapOne(Before(c), Inorder(s.left), Inorder(s.right), After(c), s.me, y, a, b);
  }

  lemma {:induction false} SwapOne<T>(p: seq<T>, l: seq<T>, r: seq<T>, e: seq<T>, x: T, y: T, a: seq<T>, b: seq<T>)
    requires p + (l + [x] + r) + e == a + [x] + b && NoDup(a + [x] + b)
    ensures p + (l + [y] + r) + e == a + [y] + b
  {
    Regroup(p, l, [x], r, e);
    Regroup(p, l, [y], r, e);
    OnePlace(a, b, p + l, r + e, x, y);
  }

  lemma {:induction false} OnePlace<T>(a: seq<T>, b: seq<T>, a': seq<T>, b': seq<T>, x: T, y: T)
    requires NoDup(a + [x] + b) && a + [x] + b == a' + ([x] + b')
    ensures a + [y] + b == a' + ([y] + b')
  {
    var s := a + [x] + b;
    assert s[|a|] == x && (a' + ([x] + b'))[|a'|] == x;
    assert a == s[..|a|] && a' == (a' + ([x] + b'))[..|a'|];
    assert b == s[|a| + 1..] && b' == (a' + ([x] + b'))[|a'| + 1..];
  }

  /** A sequence without its element x. */
  ghost function Without<T>(s: seq<T>, x: T): seq<T> {
    if s == [] then [] else if s[0] == x then s[1..] else [s[0]] + Without(s[1..], x)
  }

  lemma {:induction false} WithoutAt<T>(a: seq<T>, x: T, b: seq<T>)
    requires x !in a
    ensures Without(a + [x] + b, x) == a + b
  {
    var s := a + [x] + b;
    if a != [] {
      assert s[1..] == a[1..] + [x] + b;
      WithoutAt(a[1..], x, b);
      assert a + b == [a[0]] + (a[1..] + b);
    } else {
      assert s[1..] == b;
    }
  }

  lemma {:induction false} EasyOrder(c: Ctx, s: Tree)
    requires s.Node? && Distinct(Plug(c, s)) && (s.left.Leaf? || s.right.Leaf?)
    ensures Without(Inorder(Plug(c, s)), s.me) == Before(c) + OnlyChild(s) + After(c)
  {
    PlugInorder(c, s);
    DistinctInorder(Plug(c, s));
    WithoutRegroup(Before(c), Inorder(s.left), s.me, Inorder(s.right), After(c));
  }

  /** The leftmost node of the right subtree is the in-order successor. */
  lemma {:induction false} SuccessorOrder(c: Ctx, s: Tree, c': Ctx, s': Tree)
    requires s.Node? && s'.Node? && Distinct(Plug(c, s)) && Plug(c', s') == Plug(c, s)
    requires s'.left == Leaf && Before(c') == Before(InRight(c, s.left, s.me))
    ensures var a, b := Before(c) + Inorder(s.left), Inorder(s'.right) + After(c');
      && Without(Inorder(Plug(c, s)), s.me) == a + [s'.me] + b
      && Before(c') + OnlyChild(s') + After(c') == a + [s.me] + b
    ensures s.me != s'.me && s.me in Nodes(Plug(c, s)) && s'.me in Nodes(Plug(c, s)) && s'.me != NULL
  {
    var a, b := Before(c) + Inorder(s.left), Inorder(s'.right) + After(c');
    PlugInorder(c', s');
    PlugNodes(c, s);
    PlugNodes(c', s');
    DistinctInorder(Plug(c, s));
    assert Before(c') == a + [s.me];
    SplitTwo(a, s.me, s'.me, Inorder(s'.right), After(c'));
  }

  lemma {:induction false} SplitTwo<T>(a: seq<T>, x: T, y: T, b: seq<T>, e: seq<T>)
    requires NoDup((a + [x]) + ([] + [y] + b) + e)
    ensures Without((a + [x]) + ([] + [y] + b) + e, x) == a + [y] + (b + e)
    ensures (a + [x]) + b + e == a + [x] + (b + e) && x != y
  {
    var s := (a + [x]) + ([] + [y] + b) + e;
    assert s == a + [x] + ([y] + b + e);
    assert s[|a|] == x && s[|a| + 1] == y;
    assert forall i :: 0 <= i < |a| ==> s[i] == a[i];
    WithoutAt(a, x, [y] + b + e);
    assert a + ([y] + b + e) == a + [y] + (b + e);
  }

  lemma {:induction false} WithoutRegroup<T>(p: seq<T>, a: seq<T>, x: T, b: seq<T>, e: seq<T>)
    requires NoDup(p + (a + [x] + b) + e)
    ensures Without(p + (a + [x] + b) + e, x) == p + a + (b + e)
    ensures a == [] ==> p + a + (b + e) == p + b + e
    ensures b == [] ==> p + a + (b + e) == p + a + e
  {
    var s := p + (a + [x] + b) + e;
    Regroup(p, a, [x], b, e);
    assert s == (p + a) + [x] + (b + e);
    assert s[|p + a|] == x;
    assert forall i :: 0 <= i < |p + a| ==> s[i] == (p + a)[i];
    WithoutAt(p + a, x, b + e);
  }

  ghost function At(s: seq<Ptr>, k: int): Ptr { if 0 <= k < |s| then s[k] else NULL }

  ghost function Depth(c: Ctx): nat { if c == Top then 0 else 1 + Depth(c.up) }

  /** avl_offset's cursor: node is the root of s, which sits in t under c. */
  ghost predicate Walk(c: Ctx, s: Tree, t: Tree, node: Ptr) { Plug(c, s) == t && s.Node? && s.me == node }

  /** The place in the order of the root of s, which sits under c. */
  ghost function Place(c: Ctx, s: Tree): nat
    requires s.Node?
  {
    |Before(c)| + Size(s.left)
  }

  /** By the counts stored below the root of s, which is pos places from the start, the target lies in s. */
  ghost predicate Sees(s: Tree, pos: int, offset: int)
    requires s.Node?
  {
    pos - Wrap32(Size(s.left)) <= offset <= pos + Wrap32(Size(s.right))
  }

  /** No count that a walk reads has wrapped around: those of the root's children have not, and the root's own is never
      read. */
  ghost predicate Narrow(t: Tree) { t.Node? ==> Size(t.left) < TWO32 && Size(t.right) < TWO32 }

  lemma {:induction false} SubNarrow(c: Ctx, s: Tree)
    requires c != Top && Narrow(Plug(c, s))
    ensures Size(s) < TWO32
    decreases c
  {
    assert Plug(c, s) == Plug(c.up, Join(c, s));
    if c.up != Top { SubNarrow(c.up, Join(c, s)); }
  }

  /** The walk from the root is exact for every target precisely in a narrow tree. */
  lemma {:induction false} NarrowIff(t: Tree)
    requires t.Node?
    ensures Narrow(t) <==>
      forall offset | 0 - TWO32 <= offset <= TWO32 && 0 <= Size(t.left) + offset < Size(t) :: Sees(t, 0, offset)
  {
    Wrap32Small(Size(t.left));
    Wrap32Small(Size(t.right));
    if Size(t.right) >= TWO32 { assert !Sees(t, 0, Wrap32(Size(t.right)) + 1); }
    if Size(t.left) >= TWO32 { assert !Sees(t, 0, -(Wrap32(Size(t.left)) + 1)); }
  }

  lemma {:induction false} WalkSize(c: Ctx, s: Tree, t: Tree)
    requires Plug(c, s) == t && s.Node?
    ensures Size(t) == |Inorder(t)| == |Before(c)| + Size(s) + |After(c)|
    ensures Inorder(t)[|Before(c)| + Size(s.left)] == s.me
    ensures |Before(InRight(c, s.left, s.me))| == |Before(c)| + Size(s.left) + 1
    ensures c.InRight? ==> |Before(c)| == |Before(c.up)| + Size(c.left) + 1
  {
    if c.InRight? { InorderNodes(c.left); }
    PlugInorder(c, s);
    InorderNodes(t); InorderNodes(s); InorderNodes(s.left);
    assert Inorder(s)[Size(s.left)] == s.me;
  }

  /** The arithmetic of a step down, to the right or to the left. */
  lemma {:induction false} WentRight(c: Ctx, s: Tree, pos: int, offset: int)
    requires s.Node? && s.right.Node? && pos < offset && Sees(s, pos, offset)
    ensures var pos' := pos + Wrap32(Wrap32(Size(s.right.left)) + 1);
      && Sees(s.right, pos', offset) && pos <= pos' <= pos + TWO32
      && (Narrow(Plug(c, s)) ==> pos' - pos == Place(InRight(c, s.left, s.me), s.right) - Place(c, s))
  {
    var c', s' := InRight(c, s.left, s.me), s.right;
    WalkSize(c, s, Plug(c, s));
    Wrap32Parts(Size(s'.left), Size(s'.right));
    if Narrow(Plug(c, s)) { SubNarrow(c', s'); }
  }

  lemma {:induction false} WentLeft(c: Ctx, s: Tree, pos: int, offset: int)
    requires s.Node? && s.left.Node? && pos > offset && Sees(s, pos, offset)
    ensures var pos' := pos - Wrap32(Wrap32(Size(s.left.right)) + 1);
      && Sees(s.left, pos', offset) && pos - TWO32 <= pos' <= pos
      && (Narrow(Plug(c, s)) ==> pos' - pos == Place(InLeft(c, s.me, s.right), s.left) - Place(c, s))
  {
    var c', s' := InLeft(c, s.me, s.right), s.left;
    Wrap32Parts(Size(s'.right), Size(s'.left));
    if Narrow(Plug(c, s)) { SubNarrow(c', s'); }
  }

  /** The arithmetic of a step up. */
  lemma {:induction false} WentUp(c: Ctx, s: Tree)
    requires s.Node? && c != Top
    ensures var l, r := Wrap32(Wrap32(Size(s.left)) + 1), Wrap32(Wrap32(Size(s.right)) + 1);
      && l <= TWO32 && r <= TWO32
      && (Narrow(Plug(c, s)) ==>
           Place(c.up, Join(c, s)) - Place(c, s) == if c.InRight? then 0 - l else r)
  {
    WalkSize(c, s, Plug(c, s));
    Wrap32Parts(Size(s.left), 0);
    Wrap32Parts(Size(s.right), 0);
    if Narrow(Plug(c, s)) { SubNarrow(c, s); }
  }

  /** A target that the root of a narrow tree does not see is out of range. */
  lemma {:induction false} NotInRange(t: Tree, k: int, pos: int, offset: int)
    requires t.Node? && Narrow(t) && k + pos == Size(t.left) && !Sees(t, pos, offset)
    ensures At(Inorder(t), k + offset) == NULL
  {
    InorderNodes(t);
    Wrap32Small(Size(t.left));
    Wrap32Small(Size(t.right));
  }

  /** The walk's state: where it stands, and after a descent that the target is below. */
  ghost predicate Going(c: Ctx, s: Tree, t: Tree, node: Ptr, k: nat, pos: int, offset: int, down: bool) {
    Walk(c, s, t, node) && (Narrow(t) ==> k + pos == Place(c, s)) && (down ==> Sees(s, pos, offset))
  }

  /** The walk's cost so far: it has only climbed, or it has gone down into s; pos is at most a count per step
      from 0. */
  ghost predicate Cheap(c: Ctx, s: Tree, t: Tree, down: bool, depth: nat, pos: int, steps: nat, reach: nat) {
    && depth <= Height(t) && (if down then steps + Height(s) <= depth + Height(t) else steps + Depth(c) == depth)
    && 0 - TWO32 * steps <= pos <= TWO32 * steps && reach <= TWO32 * (2 * Height(t) + 1)
  }

  lemma {:induction false} CheapStep(c: Ctx, s: Tree, t: Tree, down: bool, depth: nat, pos: int, steps: nat, reach: nat,
      c': Ctx, s': Tree, down': bool, pos': int)
    requires Cheap(c, s, t, down, depth, pos, steps, reach) && Plug(c, s) == t && s.Node?
    requires pos - TWO32 <= pos' <= pos + TWO32
    requires if down' then Height(s') < Height(s) else !down && c != Top && c' == c.up
    ensures Cheap(c', s', t, down', depth, pos', steps + 1, Max(reach, Span(pos)))
  {
    DepthHeight(c, s);
  }

  lemma {:induction false} CheapEnd(c: Ctx, s: Tree, t: Tree, down: bool, depth: nat, pos: int, steps: nat, reach: nat)
    requires Cheap(c, s, t, down, depth, pos, steps, reach) && Plug(c, s) == t && s.Node?
    ensures steps < 2 * Height(t) && Max(reach, Span(pos)) <= TWO32 * (2 * Height(t) + 1)
  {
    DepthHeight(c, s);
  }

  lemma {:induction false} Arrived(c: Ctx, s: Tree, t: Tree, node: Ptr, k: nat, pos: int, down: bool)
    requires Going(c, s, t, node, k, pos, pos, down)
    ensures node in Nodes(t) && (Narrow(t) ==> node == At(Inorder(t), k + pos))
  {
    WalkSize(c, s, t);
    PlugNodes(c, s);
  }

  /** A count added to or taken from pos gives nothing farther than this from 0. */
  ghost function Span(pos: int): nat { Max(pos, -pos) + TWO32 }

  /** Whatever avl_offset computes stays in the int64_t range. */
  lemma {:induction false} NoOverflow(t: Tree, reach: nat)
    requires Balanced(t) && Size(t) < TWO64 && reach <= TWO32 * (2 * Height(t) + 1)
    ensures reach < TWO63
  {
    HeightBound(t);
  }

  lemma {:induction false} LocateAt(c0: Ctx, t: Tree, k: nat) returns (c: Ctx, s: Tree)
    requires k < |Inorder(t)|
    ensures Walk(c, s, Plug(c0, t), Inorder(t)[k]) && Place(c, s) == |Before(c0)| + k
    ensures k == Size(t.left) ==> c == c0 && s == t
    decreases t
  {
    var Node(l, m, r) := t;
    InorderNodes(l);
    if k < |Inorder(l)| {
      c, s := LocateAt(InLeft(c0, m, r), l, k);
    } else if k == |Inorder(l)| {
      c, s := c0, t;
    } else {
      c, s := LocateAt(InRight(c0, l, m), r, k - |Inorder(l)| - 1);
    }
  }

  lemma {:induction false} DepthHeight(c: Ctx, s: Tree)
    ensures Depth(c) + Height(s) <= Height(Plug(c, s))
    decreases c
  {
    if c != Top { DepthHeight(c.up, Join(c, s)); }
  }

  /** Everything avl_offset can see from the root of a subtree. */
  lemma {:induction false} Peek(m: Mem, c: Ctx, s: Tree)
    requires Valid(m, Plug(c, s), RootOf(Plug(c, s))) && s.Node?
    ensures s.me < |m| && m[s.me].left == RootOf(s.left) && m[s.me].right == RootOf(s.right)
    ensures s.left == Leaf ==> m[s.me].left == NULL
    ensures s.left != Leaf ==> 0 < s.left.me < |m| && m[s.left.me].cnt == Wrap32(Size(s.left))
    ensures s.right == Leaf ==> m[s.me].right == NULL
    ensures s.right != Leaf ==> 0 < s.right.me < |m| && m[s.right.me].cnt == Wrap32(Size(s.right))
    ensures m[s.me].parent == CtxMe(c) && (CtxMe(c) == NULL <==> c == Top)
    ensures c != Top ==> c.me < |m| && (m[c.me].right == s.me <==> c.InRight?)
  {
    Unplug(m, c, s);
    PlugNodes(c, s);
    assert Distinct(s.left) && Distinct(s.right);
    assert c.InLeft? ==> RootOf(c.right) != s.me;
  }

  /** avl_init */
  const INIT: Cell := Cell(NULL, NULL, NULL, 1, 1)

  lemma {:induction false} FrameGrow(m1: Mem, m2: Mem, t: Tree, n: Ptr, p: Ptr)
    requires Linked(m1, t, n, p) && m1 <= m2
    ensures Linked(m2, t, n, p)
  {
    if t.Node? {
      FrameGrow(m1, m2, t.left, m1[t.me].left, t.me);
      FrameGrow(m1, m2, t.right, m1[t.me].right, t.me);
    }
  }

  /** The tree around an empty hole once a leaf fills it. */
  lemma {:induction false} Graft(c: Ctx, x: Ptr)
    requires Distinct(Plug(c, Leaf)) && Balanced(Plug(c, Leaf)) && x != NULL && x !in Nodes(Plug(c, Leaf))
    ensures CtxDistinct(c) && CtxBalanced(c, 0) && {x} !! CtxNodes(c)
    ensures c != Top ==> c.me in CtxNodes(c) && c.me != NULL
    ensures var t := Plug(c, Node(Leaf, x, Leaf));
      && Distinct(t) && Inorder(t) == Before(c) + [x] + After(c)
      && Nodes(t) == CtxNodes(c) + {x} == Nodes(Plug(c, Leaf)) + {x}
  {
    var leaf := Node(Leaf, x, Leaf);
    PlugNodes(c, Leaf);
    PlugNodes(c, leaf);
    PlugBalanced(c, Leaf);
    PlugInorder(c, leaf);
    assert Inorder(leaf) == [x];
  }

  lemma {:induction false} NodeInMem(m: Mem, t: Tree, root: Ptr, x: Ptr)
    requires Valid(m, t, root) && x in Nodes(t)
    ensures 0 < x < |m|
  {
    var c, s := Locate(t, x);
    Unplug(m, c, s);
    NoNull(t);
  }

  /** After a deletion the tree holds exactly the other nodes. */
  lemma {:induction false} WithoutNodes(t: Tree, t': Tree, x: Ptr)
    requires Distinct(t) && Inorder(t') == Without(Inorder(t), x) && x in Nodes(t)
    ensures Nodes(t') == Nodes(t) - {x}
  {
    InorderNodes(t); InorderNodes(t');
    DistinctInorder(t);
    WithoutMembers(Inorder(t), x);
    forall y ensures y in Nodes(t') <==> y in Nodes(t) - {x} {
      assert y in Nodes(t') <==> y in Inorder(t');
      assert y in Nodes(t) <==> y in Inorder(t);
    }
  }

  lemma {:induction false} WithoutMembers<T>(s: seq<T>, x: T)
    requires NoDup(s)
    ensures forall y :: y in Without(s, x) <==> y in s && y != x
  {
    if s != [] { WithoutMembers(s[1..], x); }
  }

  class Arena {
    var mem: Mem

    function HeightOf(n: Ptr): nat
      reads this
      requires n == NULL || n < |mem|
    {
      if n == NULL then 0 else mem[n].height
    }

    function CntOf(n: Ptr): nat
      reads this
      requires n == NULL || n < |mem|
    {
      if n == NULL then 0 else mem[n].cnt
    }

    /** avl_update: recompute a node's aggregates from its children. */
    method Update(node: Ptr, ghost t: Tree, ghost p: Ptr)
      requires Stale(mem, t, node, p) && Distinct(t)
      modifies this
      ensures Linked(mem, t, node, p) && Only(old(mem), mem, {node})
    {
      var c := mem[node];
      var height := 1 + Max(HeightOf(c.left), HeightOf(c.right));
      var cnt := Wrap32(1 + CntOf(c.left) + CntOf(c.right));
      Wrap32Sum(Size(t.left), Size(t.right));
      mem := mem[node := c.(height := height, cnt := cnt)];
      Frame(old(mem), mem, {node}, t.left, c.left, node);
      Frame(old(mem), mem, {node}, t.right, c.right, node);
    }

    method RotLeft(node: Ptr, ghost t: Tree, ghost p: Ptr) returns (newNode: Ptr)
      requires Stale(mem, t, node, p) && Distinct(t) && t.right.Node?
      modifies this
      ensures Linked(mem, RotL(t), newNode, p) && Only(old(mem), mem, Nodes(t))
    {
      RotLFacts(t);
      var parent := mem[node].parent;
      newNode := mem[node].right;
      var inner := mem[newNode].left;
      assert Linked(mem, t.right.left, inner, newNode);

      mem := mem[node := mem[node].(right := inner)];
      if inner != NULL { mem := mem[inner := mem[inner].(parent := node)]; }
      mem := mem[newNode := mem[newNode].(parent := parent, left := node)];
      mem := mem[node := mem[node].(parent := newNode)];

      ghost var m2 := mem;
      RotParts(old(mem), m2, t.left, node, t.right.left, newNode, t.right.right, m2[node].left, inner,
        m2[newNode].right, newNode, node);
      Update(node, RotL(t).left, newNode);
      Frame(m2, mem, {node}, t.right.right, m2[newNode].right, newNode);
      Update(newNode, RotL(t), parent);
    }

    method RotRight(node: Ptr, ghost t: Tree, ghost p: Ptr) returns (newNode: Ptr)
      requires Stale(mem, t, node, p) && Distinct(t) && t.left.Node?
      modifies this
      ensures Linked(mem, RotR(t), newNode, p) && Only(old(mem), mem, Nodes(t))
    {
      RotRFacts(t);
      var parent := mem[node].parent;
      newNode := mem[node].left;
      var inner := mem[newNode].right;
      assert Linked(mem, t.left.right, inner, newNode);

      mem := mem[node := mem[node].(left := inner)];
      if inner != NULL { mem := mem[inner := mem[inner].(parent := node)]; }
      mem := mem[newNode := mem[newNode].(parent := parent, right := node)];
      mem := mem[node := mem[node].(parent := newNode)];

      ghost var m2 := mem;
      RotParts(old(mem), m2, t.left.left, newNode, t.left.right, node, t.right, m2[newNode].left, inner,
        m2[node].right, newNode, node);
      Update(node, RotR(t).right, newNode);
      Frame(m2, mem, {node}, t.left.left, m2[newNode].left, newNode);
      Update(newNode, RotR(t), parent);
    }

    /** node->left = rot_left(node->left) */
    method TurnLeft(node: Ptr, ghost t: Tree, ghost p: Ptr)
      requires Linked(mem, t, node, p) && Distinct(t) && t.Node? && t.left.Node? && t.left.right.Node?
      modifies this
      ensures var t1 := Node(RotL(t.left), t.me, t.right);
        Stale(mem, t1, node, p) && Distinct(t1) && Nodes(t1) == Nodes(t) && Only(old(mem), mem, Nodes(t))
    {
      RotLFacts(t.left);
      var l := RotLeft(mem[node].left, t.left, node);
      ghost var m1 := mem;
      Frame(old(mem), m1, Nodes(t.left), t.right, m1[node].right, node);
      mem := mem[node := mem[node].(left := l)];
      Frame(m1, mem, {node}, RotL(t.left), l, node);
      Frame(m1, mem, {node}, t.right, mem[node].right, node);
    }

    /** node->right = rot_right(node->right) */
    method TurnRight(node: Ptr, ghost t: Tree, ghost p: Ptr)
      requires Linked(mem, t, node, p) && Distinct(t) && t.Node? && t.right.Node? && t.right.left.Node?
      modifies this
      ensures var t1 := Node(t.left, t.me, RotR(t.right));
        Stale(mem, t1, node, p) && Distinct(t1) && Nodes(t1) == Nodes(t) && Only(old(mem), mem, Nodes(t))
    {
      RotRFacts(t.right);
      var r := RotRight(mem[node].right, t.right, node);
      ghost var m1 := mem;
      Frame(old(mem), m1, Nodes(t.right), t.left, m1[node].left, node);
      mem := mem[node := mem[node].(right := r)];
      Frame(m1, mem, {node}, RotR(t.right), r, node);
      Frame(m1, mem, {node}, t.left, mem[node].left, node);
    }

    method FixLeft(node: Ptr, ghost t: Tree, ghost p: Ptr) returns (top: Ptr)
      requires Linked(mem, t, node, p) && Distinct(t) && LeftHeavy(t)
      modifies this
      ensures FixL.requires(t) && Linked(mem, FixL(t), top, p) && Only(old(mem), mem, Nodes(t))
    {
      FixLFacts(t);
      var l := mem[node].left;
      ghost var t1, m1 := t, mem;
      assert Linked(mem, t.left, l, node);
      HeightIs(mem, t.left.left, mem[l].left, l);
      HeightIs(mem, t.left.right, mem[l].right, l);
      var inner := HeightOf(mem[l].left) < HeightOf(mem[l].right);
      assert inner <==> Height(t.left.left) < Height(t.left.right);
      if inner {
        TurnLeft(node, t, p);
        t1, m1 := Node(RotL(t.left), t.me, t.right), mem;
      }
      top := RotRight(node, t1, p);
      OnlyTrans(old(mem), m1, mem, Nodes(t), Nodes(t));
    }

    method FixRight(node: Ptr, ghost t: Tree, ghost p: Ptr) returns (top: Ptr)
      requires Linked(mem, t, node, p) && Distinct(t) && RightHeavy(t)
      modifies this
      ensures FixR.requires(t) && Linked(mem, FixR(t), top, p) && Only(old(mem), mem, Nodes(t))
    {
      FixRFacts(t);
      var r := mem[node].right;
      ghost var t1, m1 := t, mem;
      assert Linked(mem, t.right, r, node);
      HeightIs(mem, t.right.left, mem[r].left, r);
      HeightIs(mem, t.right.right, mem[r].right, r);
      var inner := HeightOf(mem[r].right) < HeightOf(mem[r].left);
      assert inner <==> Height(t.right.right) < Height(t.right.left);
      if inner {
        TurnRight(node, t, p);
        t1, m1 := Node(t.left, t.me, RotR(t.right)), mem;
      }
      top := RotLeft(node, t1, p);
      OnlyTrans(old(mem), m1, mem, Nodes(t), Nodes(t));
    }

    /** One level of avl_fix: refresh the node and rotate if its children differ by two. */
    method Rebalance(node: Ptr, ghost t: Tree, ghost p: Ptr, ghost h: nat) returns (top: Ptr, ghost t': Tree)
      requires Stale(mem, t, node, p) && Distinct(t) && Fixable(t, h)
      modifies this
      ensures Linked(mem, t', top, p) && Only(old(mem), mem, Nodes(t))
      ensures Rebalanced(t, t') && Near(Height(t'), h)
    {
      Update(node, t, p);
      var l, r := HeightOf(mem[node].left), HeightOf(mem[node].right);
      top, t' := node, t;
      if l == r + 2 {
        FixLFacts(t);
        top := FixLeft(node, t, p);
        t' := FixL(t);
      } else if l + 2 == r {
        FixRFacts(t);
        top := FixRight(node, t, p);
        t' := FixR(t);
      }
    }

    /** Store top, the root of t, in the child link of parent that held was; W covers the earlier writes. */
    method SetChild(parent: Ptr, isLeft: bool, top: Ptr, ghost was: Ptr, ghost m0: Mem, ghost W: set<Ptr>,
        ghost c: Ctx, ghost t: Tree)
      requires c != Top && parent == c.me && CtxLinked(m0, c, was) && CtxDistinct(c) && isLeft == c.InLeft?
      requires Only(m0, mem, W) && W !! CtxNodes(c) && Nodes(t) <= W
      requires Linked(mem, t, top, parent)
      modifies this
      ensures Linked(mem, t, top, parent) && CtxLinked(mem, c, top)
      ensures Only(m0, mem, W + {parent}) && mem[parent].height == m0[parent].height
      ensures mem[parent].cnt == m0[parent].cnt
    {
      ghost var m1 := mem;
      CtxFrame(m0, m1, W, c, was);
      if isLeft {
        mem := mem[parent := mem[parent].(left := top)];
        Frame(m1, mem, {parent}, c.right, mem[parent].right, parent);
      } else {
        mem := mem[parent := mem[parent].(right := top)];
        Frame(m1, mem, {parent}, c.left, mem[parent].left, parent);
      }
      Frame(m1, mem, {parent}, t, top, parent);
      CtxFrame(m1, mem, {parent}, c.up, parent);
    }

    /** The body of avl_fix's loop: rebalance one node and hang the result where it hung. */
    method FixStep(node: Ptr, ghost c: Ctx, ghost t: Tree, ghost h: nat) returns (top: Ptr, parent: Ptr, ghost t': Tree)
      requires FixState(mem, c, t, node, h)
      modifies this
      ensures parent == CtxMe(c) && (parent == NULL <==> c == Top)
      ensures c == Top ==> Valid(mem, t', top)
      ensures c != Top ==> FixState(mem, c.up, Join(c, t'), parent, JoinHeight(c, h))
      ensures Inorder(Plug(c, t')) == Inorder(Plug(c, t)) && Nodes(Plug(c, t')) == Nodes(Plug(c, t))
      ensures Only(old(mem), mem, Nodes(Plug(c, t)))
    {
      ghost var m0 := mem;
      PlugNodes(c, t);
      parent := mem[node].parent;
      var isLeft := parent != NULL && mem[parent].left == node;
      top, t' := Rebalance(node, t, parent, h);
      PlugSame(c, t, t');
      if parent != NULL {
        SetChild(parent, isLeft, top, node, m0, Nodes(t), c, t');
        Climb(mem, c, t', top, h);
      }
    }

    /** avl_fix: walk from a changed node to the root, restoring every aggregate and the balance. */
    method Fix(start: Ptr, ghost c0: Ctx, ghost t0: Tree, ghost h0: nat) returns (root: Ptr, ghost t': Tree)
      requires FixState(mem, c0, t0, start, h0)
      modifies this
      ensures Valid(mem, t', root)
      ensures Inorder(t') == Inorder(Plug(c0, t0)) && Nodes(t') == Nodes(Plug(c0, t0))
      ensures Only(old(mem), mem, Nodes(t'))
    {
      var node := start;
      ghost var c, t, h := c0, t0, h0;
      ghost var all := Plug(c0, t0);
      while true
        invariant FixState(mem, c, t, node, h)
        invariant Inorder(Plug(c, t)) == Inorder(all) && Nodes(Plug(c, t)) == Nodes(all)
        invariant Only(old(mem), mem, Nodes(all))
        decreases c
      {
        var parent;
        root, parent, t' := FixStep(node, c, t, h);
        if parent == NULL { return; }
        node, t, h, c := parent, Join(c, t'), JoinHeight(c, h), c.up;
      }
    }

    /** The link writes of avl_del_easy: the only child takes the node's place. */
    method SpliceOut(node: Ptr, ghost c: Ctx, ghost t: Tree, ghost ch: Tree) returns (child: Ptr, parent: Ptr)
      requires Linked(mem, Plug(c, t), RootOf(Plug(c, t)), NULL) && t.Node? && t.me == node
      requires (t.left.Leaf? && ch == t.right) || (t.right.Leaf? && ch == t.left)
      requires Distinct(ch) && CtxDistinct(c) && Nodes(ch) !! CtxNodes(c)
      requires node != NULL && node !in CtxNodes(c) && NULL !in Nodes(ch)
      modifies this
      ensures parent == CtxMe(c)
      ensures Linked(mem, ch, child, parent) && CtxLinked(mem, c, child)
      ensures Only(old(mem), mem, Nodes(ch) + {parent})
    {
      Unplug(mem, c, t);
      child := if mem[node].left != NULL then mem[node].left else mem[node].right;
      parent := mem[node].parent;
      assert child == RootOf(ch);
      if child != NULL { mem := mem[child := mem[child].(parent := parent)]; }
      assert Only(old(mem), mem, Nodes(ch));
      Reparent(old(mem), mem, if child == NULL then {} else {child}, ch, child, node, parent);
      if parent != NULL {
        WhichSide(old(mem), c, node);
        var isLeft := mem[parent].left == node;
        SetChild(parent, isLeft, child, node, old(mem), Nodes(ch), c, ch);
      }
    }

    /** avl_del_easy: detach a node with at most one child and rebalance above it. */
    method DelEasy(node: Ptr, ghost c: Ctx, ghost t: Tree) returns (root: Ptr, ghost t': Tree)
      requires Valid(mem, Plug(c, t), RootOf(Plug(c, t)))
      requires t.Node? && t.me == node && (t.left.Leaf? || t.right.Leaf?)
      modifies this
      ensures Valid(mem, t', root) && Only(old(mem), mem, Nodes(t') + {NULL})
      ensures Inorder(t') == Before(c) + OnlyChild(t) + After(c)
      ensures Nodes(t') == Nodes(Plug(c, t)) - {node}
    {
      ghost var ch := if t.left.Node? then t.left else t.right;
      Splice(c, t, ch);
      var child, parent := SpliceOut(node, c, t, ch);
      if parent == NULL { return child, ch; }
      ghost var m2 := mem;
      Climb(mem, c, ch, child, Height(t));
      root, t' := Fix(parent, c.up, Join(c, ch), JoinHeight(c, Height(t)));
      OnlyTrans(old(mem), m2, mem, Nodes(ch) + {parent}, Nodes(t'));
    }

    /** The leftmost node of the subtree s: avl_del's search for the in-order successor. */
    method Leftmost(start: Ptr, ghost c: Ctx, ghost s: Tree) returns (v: Ptr, ghost c': Ctx, ghost s': Tree)
      requires Linked(mem, Plug(c, s), RootOf(Plug(c, s)), NULL) && s.Node? && start == s.me
      requires Distinct(Plug(c, s))
      ensures Plug(c', s') == Plug(c, s) && s'.Node? && s'.me == v && s'.left == Leaf
      ensures Before(c') == Before(c)
    {
      v, c', s' := start, c, s;
      while true
        invariant Plug(c', s') == Plug(c, s) && s'.Node? && s'.me == v && Before(c') == Before(c)
        decreases s'
      {
        Unplug(mem, c', s');
        PlugNodes(c', s');
        if mem[v].left == NULL { return; }
        v, c', s' := mem[v].left, InLeft(c', v, s'.right), s'.left;
      }
    }

    /** `*victim = *node`, and node's children now point at victim. */
    method AdoptCell(node: Ptr, victim: Ptr, ghost s: Tree, ghost p: Ptr)
      requires s.Node? && s.me == node && Linked(mem, s, node, p) && Distinct(s)
      requires victim !in Nodes(s) && 0 < victim < |mem|
      modifies this
      ensures Only(old(mem), mem, Nodes(s) + {victim})
      ensures Linked(mem, Node(s.left, victim, s.right), victim, p) && mem[node] == old(mem)[node]
    {
      NoNull(s.left); NoNull(s.right);
      mem := mem[victim := mem[node]];
      var l, r := mem[victim].left, mem[victim].right;
      assert l == RootOf(s.left) && r == RootOf(s.right);
      if l != NULL { mem := mem[l := mem[l].(parent := victim)]; }
      if r != NULL { mem := mem[r := mem[r].(parent := victim)]; }
      Adopt(old(mem), mem, s, victim, p, l, r);
    }

    /** The last part of avl_del: the detached victim takes over node's cell, its children and its parent link. */
    method Transplant(node: Ptr, victim: Ptr, top: Ptr, ghost c: Ctx, ghost s: Tree) returns (root: Ptr)
      requires s.Node? && s.me == node && top == RootOf(Plug(c, s)) && Linked(mem, Plug(c, s), top, NULL)
      requires Distinct(Plug(c, s)) && 0 < victim < |mem| && victim !in Nodes(Plug(c, s))
      modifies this
      ensures Linked(mem, Plug(c, Node(s.left, victim, s.right)), root, NULL)
      ensures Only(old(mem), mem, Nodes(Plug(c, s)) + {victim})
    {
      PlugNodes(c, s);
      Unplug(mem, c, s);
      AdoptCell(node, victim, s, CtxMe(c));
      var parent := mem[node].parent;
      if parent == NULL {
        root := victim;
      } else {
        WhichSide(old(mem), c, node);
        ghost var W, s' := Nodes(s) + {victim}, Node(s.left, victim, s.right);
        SetChild(parent, mem[parent].left == node, victim, node, old(mem), W, c, s');
        root := top;
        Rehung(old(mem), mem, W, c, s, s');
      }
    }

    /** avl_del on a node with two children: its successor is detached first, then moved into its place. */
    method DelTwo(node: Ptr, ghost c: Ctx, ghost s: Tree) returns (root: Ptr, ghost t': Tree)
      requires Valid(mem, Plug(c, s), RootOf(Plug(c, s))) && s.Node? && s.me == node && s.left.Node? && s.right.Node?
      modifies this
      ensures Valid(mem, t', root)
      ensures Inorder(t') == Without(Inorder(Plug(c, s)), node)
      ensures Only(old(mem), mem, Nodes(Plug(c, s)) + {NULL})
    {
      Unplug(mem, c, s);
      var victim;
      ghost var c', s';
      victim, c', s' := Leftmost(mem[node].right, InRight(c, s.left, node), s.right);
      SuccessorOrder(c, s, c', s');
      Unplug(mem, c', s');
      root, t' := DelEasy(victim, c', s');
      ghost var a, b := Before(c) + Inorder(s.left), Inorder(s'.right) + After(c');
      ghost var c1, s1 := Locate(t', node);
      Swapped(c1, s1, victim, a, b);
      root := Transplant(node, victim, root, c1, s1);
      t' := Plug(c1, Node(s1.left, victim, s1.right));
    }

    /** avl_del: detach any node of any valid tree. */
    method Del(node: Ptr, ghost top: Ptr, ghost t: Tree) returns (root: Ptr, ghost t': Tree)
      requires Valid(mem, t, top) && node in Nodes(t)
      modifies this
      ensures Valid(mem, t', root)
      ensures Inorder(t') == Without(Inorder(t), node)
      ensures Only(old(mem), mem, Nodes(t) + {NULL})
    {
      ghost var c, s := Locate(t, node);
      Unplug(mem, c, s);
      PlugNodes(c, s);
      NoNull(s);
      if mem[node].left == NULL || mem[node].right == NULL {
        EasyOrder(c, s);
        root, t' := DelEasy(node, c, s);
      } else {
        root, t' := DelTwo(node, c, s);
      }
    }

    /** The two descending branches of avl_offset's loop: into a child that holds the target by its count. It then
        holds it by the counts below too, wrapped or not. */
    method OffsetRight(node: Ptr, pos: int, ghost offset: int, ghost c: Ctx, ghost s: Tree)
      returns (next: Ptr, pos': int)
      requires Valid(mem, Plug(c, s), RootOf(Plug(c, s))) && Walk(c, s, Plug(c, s), node) && s.right.Node?
      requires pos < offset && Sees(s, pos, offset)
      ensures next != NULL && Walk(InRight(c, s.left, node), s.right, Plug(c, s), next)
      ensures Sees(s.right, pos', offset) && pos <= pos' <= pos + TWO32
      ensures Narrow(Plug(c, s)) ==> pos' - pos == Place(InRight(c, s.left, node), s.right) - Place(c, s)
    {
      ghost var c', s' := InRight(c, s.left, node), s.right;
      Peek(mem, c, s);
      Peek(mem, c', s');
      WentRight(c, s, pos, offset);
      next := mem[node].right;
      pos' := pos + Wrap32(CntOf(mem[next].left) + 1);
    }

    method OffsetLeft(node: Ptr, pos: int, ghost offset: int, ghost c: Ctx, ghost s: Tree)
      returns (next: Ptr, pos': int)
      requires Valid(mem, Plug(c, s), RootOf(Plug(c, s))) && Walk(c, s, Plug(c, s), node) && s.left.Node?
      requires pos > offset && Sees(s, pos, offset)
      ensures next != NULL && Walk(InLeft(c, node, s.right), s.left, Plug(c, s), next)
      ensures Sees(s.left, pos', offset) && pos - TWO32 <= pos' <= pos
      ensures Narrow(Plug(c, s)) ==> pos' - pos == Place(InLeft(c, node, s.right), s.left) - Place(c, s)
    {
      ghost var c', s' := InLeft(c, node, s.right), s.left;
      Peek(mem, c, s);
      Peek(mem, c', s');
      WentLeft(c, s, pos, offset);
      next := mem[node].left;
      pos' := pos - Wrap32(CntOf(mem[next].right) + 1);
    }

    /** The climbing branch of avl_offset's loop: to the parent, past the subtree on the way. */
    method OffsetUp(node: Ptr, pos: int, ghost c: Ctx, ghost s: Tree) returns (next: Ptr, pos': int)
      requires Valid(mem, Plug(c, s), RootOf(Plug(c, s))) && Walk(c, s, Plug(c, s), node)
      ensures next == NULL <==> c == Top
      ensures c != Top ==> Walk(c.up, Join(c, s), Plug(c, s), next) && pos - TWO32 <= pos' <= pos + TWO32
      ensures c != Top && Narrow(Plug(c, s)) ==> pos' - pos == Place(c.up, Join(c, s)) - Place(c, s)
    {
      Peek(mem, c, s);
      if c != Top { WentUp(c, s); }
      next, pos' := mem[node].parent, pos;
      if next != NULL {
        if mem[next].right == node {
          pos' := pos - Wrap32(CntOf(mem[node].left) + 1);
        } else {
          pos' := pos + Wrap32(CntOf(mem[node].right) + 1);
        }
      }
    }

    /** One turn of avl_offset's loop: into the child whose subtree holds the target, else up; NULL above the root.
        Once down, the target stays inside the subtree, so the walk never climbs again. */
    method OffsetStep(node: Ptr, pos: int, offset: int, ghost c: Ctx, ghost s: Tree, ghost down: bool)
      returns (next: Ptr, pos': int, ghost c': Ctx, ghost s': Tree, ghost down': bool)
      requires Valid(mem, Plug(c, s), RootOf(Plug(c, s))) && Walk(c, s, Plug(c, s), node) && pos != offset
      requires down ==> Sees(s, pos, offset)
      ensures next == NULL <==> c == Top && !Sees(s, pos, offset)
      ensures next == NULL ==> c' == c && s' == s
      ensures next != NULL ==> Walk(c', s', Plug(c, s), next) && pos - TWO32 <= pos' <= pos + TWO32
      ensures next != NULL && Narrow(Plug(c, s)) ==> pos' - pos == Place(c', s') - Place(c, s)
      ensures next != NULL && down' ==> Sees(s', pos', offset) && Height(s') < Height(s)
      ensures next != NULL && !down' ==> !down && c != Top && c' == c.up
    {
      Peek(mem, c, s);
      var left, right := CntOf(mem[node].left), CntOf(mem[node].right);
      c', s', down' := c, s, true;
      if pos < offset && pos + right >= offset {
        c', s' := InRight(c, s.left, node), s.right;
        next, pos' := OffsetRight(node, pos, offset, c, s);
      } else if pos > offset && pos - left <= offset {
        c', s' := InLeft(c, node, s.right), s.left;
        next, pos' := OffsetLeft(node, pos, offset, c, s);
      } else {
        next, pos' := OffsetUp(node, pos, c, s);
        if next != NULL { c', s', down' := c.up, Join(c, s), false; }
      }
    }

    /** avl_offset: the node `offset` places away in order, by subtree counts; NULL when there is none. k is the start's
        own place. In a tree that is not narrow a count has wrapped around, and the walk from the root misses every
        target that the counts do not show. reach covers every value computed on the way. */
    method Offset(start: Ptr, offset: Int64, ghost t: Tree, ghost k: nat)
      returns (node: Ptr, ghost steps: nat, ghost reach: nat)
      requires Valid(mem, t, RootOf(t)) && k < |Inorder(t)| && Inorder(t)[k] == start
      ensures node == NULL || node in Nodes(t)
      ensures Narrow(t) ==> node == At(Inorder(t), k + offset as int)
      ensures k == Size(t.left) && offset != 0 && !Sees(t, 0, offset as int) ==> node == NULL
      ensures steps <= 2 * Height(t) && reach <= TWO32 * (2 * Height(t) + 1)
    {
      var pos: int := 0;
      node := start;
      InorderNodes(t);
      ghost var c, s := LocateAt(Top, t, k);
      ghost var down, depth := false, Depth(c);
      steps, reach := 0, 0;
      DepthHeight(c, s);
      while offset as int != pos
        invariant Going(c, s, t, node, k, pos, offset as int, down)
        invariant Cheap(c, s, t, down, depth, pos, steps, reach) && steps <= 2 * Height(t)
        invariant k == Size(t.left) && !Sees(t, 0, offset as int) ==> c == Top && s == t && pos == 0
        decreases if down then 0 else Depth(c) + 1, Height(s)
      {
        if c == Top && Narrow(t) && !Sees(s, pos, offset as int) { NotInRange(t, k, pos, offset as int); }
        CheapEnd(c, s, t, down, depth, pos, steps, reach);
        ghost var c0, s0, down0, pos0 := c, s, down, pos;
        node, pos, c, s, down := OffsetStep(node, pos, offset as int, c, s, down);
        if node != NULL { CheapStep(c0, s0, t, down0, depth, pos0, steps, reach, c, s, down, pos); }
        reach := Max(reach, Span(pos0));
        if node == NULL { return; }
        steps := steps + 1;
      }
      Arrived(c, s, t, node, k, pos, down);
    }

    constructor ()
      ensures mem == [INIT]
    {
      mem := [INIT];
    }

    /** Room for one more node, in no tree yet. */
    method NewCell() returns (p: Ptr)
      modifies this
      ensures p == |old(mem)| && mem == old(mem) + [INIT]
    {
      p := |mem|;
      mem := mem + [INIT];
    }

    /** The end of tree_insert: hang a fresh node in the empty link that the descent stopped at, and rebalance. */
    method LinkLeaf(node: Ptr, parent: Ptr, isLeft: bool, ghost c: Ctx) returns (root: Ptr, ghost t': Tree)
      requires Valid(mem, Plug(c, Leaf), RootOf(Plug(c, Leaf)))
      requires parent == CtxMe(c) && (c != Top ==> isLeft == c.InLeft?)
      requires 0 < node < |mem| && node !in Nodes(Plug(c, Leaf)) && mem[node] == INIT
      modifies this
      ensures Valid(mem, t', root) && Inorder(t') == Before(c) + [node] + After(c)
      ensures Nodes(t') == Nodes(Plug(c, Leaf)) + {node} && Only(old(mem), mem, Nodes(t'))
    {
      ghost var leaf := Node(Leaf, node, Leaf);
      Graft(c, node);
      Unplug(mem, c, Leaf);
      mem := mem[node := mem[node].(parent := parent)];
      if parent == NULL {
        assert c == Top;
      } else {
        SetChild(parent, isLeft, node, NULL, old(mem), {node}, c, leaf);
      }
      ghost var m1 := mem;
      root, t' := Fix(node, c, leaf, 0);
      OnlyTrans(old(mem), m1, mem, if c == Top then {node} else {node} + {parent}, Nodes(t'));
    }

    /** avl_init on a detached node. */
    method Reset(node: Ptr, ghost root: Ptr, ghost t: Tree)
      requires Valid(mem, t, root) && 0 < node < |mem| && node !in Nodes(t)
      modifies this
      ensures Valid(mem, t, root) && mem == old(mem)[node := INIT]
    {
      mem := mem[node := INIT];
      Frame(old(mem), mem, {node}, t, root, NULL);
    }
  }

  /** A tree of any size, grown leaf by leaf at its left end. */
  method Grow(n: nat) returns (a: Arena, root: Ptr, ghost t: Tree)
    ensures Valid(a.mem, t, root) && Size(t) == n && fresh(a)
  {
    a := new Arena();
    root, t := NULL, Leaf;
    for i := 0 to n
      invariant Valid(a.mem, t, root) && Size(t) == i && fresh(a) && root == RootOf(t) && |a.mem| == i + 1
      invariant forall x :: x in Nodes(t) ==> x < |a.mem|
    {
      root, t := GrowOne(a, root, t);
    }
  }

  method GrowOne(a: Arena, top: Ptr, ghost t: Tree) returns (root: Ptr, ghost t': Tree)
    requires Valid(a.mem, t, top) && top == RootOf(t) && |a.mem| > 0 && forall x :: x in Nodes(t) ==> x < |a.mem|
    modifies a
    ensures Valid(a.mem, t', root) && root == RootOf(t') && Size(t') == Size(t) + 1 && |a.mem| == old(|a.mem|) + 1
    ensures forall x :: x in Nodes(t') ==> x < |a.mem|
  {
    var node := a.NewCell();
    FrameGrow(old(a.mem), a.mem, t, top, NULL);
    ghost var c := Top;
    var v := NULL;
    if top != NULL {
      ghost var c1, s1;
      v, c1, s1 := a.Leftmost(top, Top, t);
      c := InLeft(c1, v, s1.right);
    }
    root, t' := a.LinkLeaf(node, v, true, c);
    InorderNodes(t');
    InorderNodes(t);
    PlugInorder(c, Leaf);
  }

  /** A tree that is not narrow has a node that the counts at its root do not show, so that Offset from there gives NULL
      for it. */
  lemma {:induction false} Unseen(t: Tree) returns (offset: Int64)
    requires t.Node? && !Narrow(t)
    ensures !Sees(t, 0, offset as int) && At(Inorder(t), Size(t.left) + offset as int) in Nodes(t)
  {
    Wrap32Small(Size(t.left));
    Wrap32Small(Size(t.right));
    InorderNodes(t);
    if Size(t.right) >= TWO32 {
      offset := (Wrap32(Size(t.right)) + 1) as Int64;
    } else {
      offset := -((Wrap32(Size(t.left)) + 1) as Int64);
    }
  }

  /** Up to 2^32 nodes every tree is narrow, and from 2^33 on none is. */
  lemma {:induction false} NarrowSizes(t: Tree)
    ensures Size(t) <= TWO32 ==> Narrow(t)
    ensures Size(t) >= 2 * TWO32 ==> !Narrow(t)
  {}

  /** Trees that are not narrow can be built, of any size from 2^33 on. */
  method LostRank(n: nat) returns (a: Arena, root: Ptr, ghost t: Tree, ghost offset: Int64)
    requires n >= 2 * TWO32
    ensures Valid(a.mem, t, root) && t.Node? && root == t.me && Size(t) == n && !Narrow(t)
    ensures !Sees(t, 0, offset as int) && At(Inorder(t), Size(t.left) + offset as int) in Nodes(t)
  {
    a, root, t := Grow(n);
    NarrowSizes(t);
    offset := Unseen(t);
  }
}

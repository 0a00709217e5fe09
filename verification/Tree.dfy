/** The functional shape of the order-statistic AVL tree, whole and seen from a hole. */
module Tree {
  import opened Base

  /** Functional image of a linked tree: the same nodes, without the links. */
  datatype Tree = Leaf | Node(left: Tree, me: Ptr, right: Tree)

  /** A tree with one hole, seen from the hole upward. */
  datatype Ctx = Top
               | InLeft(up: Ctx, me: Ptr, right: Tree)
               | InRight(up: Ctx, left: Tree, me: Ptr)

  ghost function Nodes(t: Tree): set<Ptr> {
    match t
    case Leaf => {}
    case Node(l, m, r) => Nodes(l) + {m} + Nodes(r)
  }

  ghost function Inorder(t: Tree): seq<Ptr> {
    match t
    case Leaf => []
    case Node(l, m, r) => Inorder(l) + [m] + Inorder(r)
  }

  ghost function Height(t: Tree): nat {
    match t
    case Leaf => 0
    case Node(l, m, r) => 1 + Max(Height(l), Height(r))
  }

  ghost function Size(t: Tree): nat {
    match t
    case Leaf => 0
    case Node(l, m, r) => 1 + Size(l) + Size(r)
  }

  ghost predicate Near(a: int, b: int) { -1 <= a - b <= 1 }

  ghost predicate Balanced(t: Tree) {
    match t
    case Leaf => true
    case Node(l, m, r) => Balanced(l) && Balanced(r) && Near(Height(l), Height(r))
  }

  function Fib(n: nat): nat { if n < 2 then n else Fib(n - 2) + Fib(n - 1) }

  lemma {:induction false} FibGrows(n: nat)
    ensures Fib(n) <= Fib(n + 1)
  {
    if n > 1 { FibGrows(n - 1); }
  }

  lemma {:induction false} FibStep(h: nat, a: nat, b: nat)
    requires h <= a <= h + 1 && h <= b <= h + 1 && (a == h + 1 || b == h + 1) && Fib(h) <= Fib(h + 1)
    ensures Fib(h + 2) <= Fib(a) + Fib(b)
  {
    assert Fib(h + 2) == Fib(h) + Fib(h + 1);
  }

  /** A balanced tree of height h has at least Fib(h + 2) - 1 nodes, so its height is logarithmic in its size. */
  lemma {:induction false} FibSize(t: Tree)
    requires Balanced(t)
    ensures Size(t) + 1 >= Fib(Height(t) + 2)
  {
    match t
    case Leaf =>
    case Node(l, m, r) =>
      FibSize(l);
      FibSize(r);
      var h := Height(t);
      FibGrows(h);
      FibStep(h, Height(l) + 2, Height(r) + 2);
  }

  lemma {:induction false} FibMonotone(m: nat, n: nat)
    requires m <= n
    ensures Fib(m) <= Fib(n)
    decreases n - m
  {
    if m < n { FibMonotone(m, n - 1); FibGrows(n - 1); }
  }

  function Pow2(n: nat): nat { if n == 0 then 1 else 2 * Pow2(n - 1) }

  lemma {:induction false} FibDoubles(k: nat, n: nat)
    requires 2 * k + 2 <= n
    ensures Fib(n) >= Pow2(k)
  {
    if k == 0 {
      FibMonotone(2, n);
    } else {
      FibDoubles(k - 1, n - 2);
      FibGrows(n - 2);
    }
  }

  lemma Pow2At65()
    ensures Pow2(65) == 2 * TWO64
  {
    assert Pow2(13) == 0x2000 && Pow2(26) == 0x400_0000 && Pow2(39) == 0x80_0000_0000;
    assert Pow2(52) == 0x10_0000_0000_0000;
  }

  /** A tree whose nodes have 64-bit addresses has fewer than 130 levels. */
  lemma {:induction false} HeightBound(t: Tree)
    requires Balanced(t) && Size(t) < TWO64
    ensures Height(t) < 130
  {
    FibSize(t);
    if Height(t) >= 130 {
      FibDoubles(65, Height(t) + 2);
      Pow2At65();
    }
  }

  /** Every node is a real address and none occurs twice. */
  ghost predicate Distinct(t: Tree) {
    match t
    case Leaf => true
    case Node(l, m, r) =>
      m != NULL && Distinct(l) && Distinct(r) && m !in Nodes(l) && m !in Nodes(r) && Nodes(l) !! Nodes(r)
  }

  ghost function RootOf(t: Tree): Ptr { if t.Leaf? then NULL else t.me }

  ghost function CtxMe(c: Ctx): Ptr { if c.Top? then NULL else c.me }

  ghost function CtxNodes(c: Ctx): set<Ptr> {
    match c
    case Top => {}
    case InLeft(up, m, r) => CtxNodes(up) + {m} + Nodes(r)
    case InRight(up, l, m) => CtxNodes(up) + {m} + Nodes(l)
  }

  ghost predicate CtxDistinct(c: Ctx) {
    match c
    case Top => true
    case InLeft(up, m, r) =>
      m != NULL && CtxDistinct(up) && Distinct(r) && m !in Nodes(r) && m !in CtxNodes(up) && Nodes(r) !! CtxNodes(up)
    case InRight(up, l, m) =>
      m != NULL && CtxDistinct(up) && Distinct(l) && m !in Nodes(l) && m !in CtxNodes(up) && Nodes(l) !! CtxNodes(up)
  }

  ghost function Plug(c: Ctx, t: Tree): Tree
    decreases c
  {
    match c
    case Top => t
    case InLeft(up, m, r) => Plug(up, Node(t, m, r))
    case InRight(up, l, m) => Plug(up, Node(l, m, t))
  }

  /** In-order neighbours to the left and to the right of the hole. */
  ghost function Before(c: Ctx): seq<Ptr> {
    match c
    case Top => []
    case InLeft(up, m, r) => Before(up)
    case InRight(up, l, m) => Before(up) + Inorder(l) + [m]
  }

  ghost function After(c: Ctx): seq<Ptr> {
    match c
    case Top => []
    case InLeft(up, m, r) => [m] + Inorder(r) + After(up)
    case InRight(up, l, m) => After(up)
  }

  /** The context is balanced when a tree of height h fills the hole. */
  ghost predicate CtxBalanced(c: Ctx, h: nat) {
    match c
    case Top => true
    case InLeft(up, m, r) => Balanced(r) && Near(h, Height(r)) && CtxBalanced(up, 1 + Max(h, Height(r)))
    case InRight(up, l, m) => Balanced(l) && Near(Height(l), h) && CtxBalanced(up, 1 + Max(Height(l), h))
  }

  lemma {:induction false} NoDupJoin<T>(a: seq<T>, m: T, b: seq<T>)
    requires NoDup(a) && NoDup(b) && m !in a && m !in b
    requires forall i, j :: 0 <= i < |a| && 0 <= j < |b| ==> a[i] != b[j]
    ensures NoDup(a + [m] + b)
  {
    var s := a + [m] + b;
    forall i, j | 0 <= i < j < |s| ensures s[i] != s[j] {
      assert i < |a| ==> s[i] in a;
      assert j > |a| ==> s[j] == b[j - |a| - 1] && s[j] in b;
    }
  }

  lemma {:induction false} Regroup<T>(a: seq<T>, b: seq<T>, c: seq<T>, d: seq<T>, e: seq<T>)
    ensures a + (b + c + d) + e == a + b + (c + d + e)
    ensures a + (b + c + d) + e == (a + b + c) + d + e
    ensures a + b + (c + d + e) == (a + b + c) + d + e
  {}

  lemma {:induction false} PlugInorder(c: Ctx, t: Tree)
    ensures Inorder(Plug(c, t)) == Before(c) + Inorder(t) + After(c)
    decreases c
  {
    match c
    case Top =>
    case InLeft(up, m, r) =>
      PlugInorder(up, Node(t, m, r));
      Regroup(Before(up), Inorder(t), [m], Inorder(r), After(up));
    case InRight(up, l, m) =>
      PlugInorder(up, Node(l, m, t));
      Regroup(Before(up), Inorder(l), [m], Inorder(t), After(up));
  }

  lemma {:induction false} PlugNodes(c: Ctx, t: Tree)
    ensures Nodes(Plug(c, t)) == CtxNodes(c) + Nodes(t)
    ensures Distinct(Plug(c, t)) <==> CtxDistinct(c) && Distinct(t) && CtxNodes(c) !! Nodes(t)
    decreases c
  {
    match c
    case Top =>
    case InLeft(up, m, r) => PlugNodes(up, Node(t, m, r));
    case InRight(up, l, m) => PlugNodes(up, Node(l, m, t));
  }

  lemma {:induction false} PlugBalanced(c: Ctx, t: Tree)
    ensures Balanced(Plug(c, t)) <==> CtxBalanced(c, Height(t)) && Balanced(t)
    decreases c
  {
    match c
    case Top =>
    case InLeft(up, m, r) => PlugBalanced(up, Node(t, m, r));
    case InRight(up, l, m) => PlugBalanced(up, Node(l, m, t));
  }

  lemma {:induction false} NoNull(t: Tree)
    requires Distinct(t)
    ensures NULL !in Nodes(t)
  {
    if t.Node? { NoNull(t.left); NoNull(t.right); }
  }

  lemma {:induction false} InorderNodes(t: Tree)
    ensures |Inorder(t)| == Size(t)
    ensures forall i :: 0 <= i < |Inorder(t)| ==> Inorder(t)[i] in Nodes(t)
    ensures forall n :: n in Nodes(t) ==> n in Inorder(t)
  {
    match t
    case Leaf =>
    case Node(l, m, r) => InorderNodes(l); InorderNodes(r);
  }

  lemma {:induction false} DistinctInorder(t: Tree)
    requires Distinct(t)
    ensures NoDup(Inorder(t))
  {
    match t
    case Leaf =>
    case Node(l, m, r) =>
      DistinctInorder(l); DistinctInorder(r);
      InorderNodes(l); InorderNodes(r);
      NoDupJoin(Inorder(l), m, Inorder(r));
  }

  /** The subtree of t rooted at n, with its context. */
  lemma {:induction false} Locate(t: Tree, n: Ptr) returns (c: Ctx, s: Tree)
    requires n in Nodes(t)
    ensures s.Node? && s.me == n && Plug(c, s) == t
  {
    c, s := LocateIn(Top, t, n);
  }

  lemma {:induction false} LocateIn(c0: Ctx, t: Tree, n: Ptr) returns (c: Ctx, s: Tree)
    requires n in Nodes(t)
    ensures s.Node? && s.me == n && Plug(c, s) == Plug(c0, t)
    decreases t
  {
    var Node(l, m, r) := t;
    if n == m {
      c, s := c0, t;
    } else if n in Nodes(l) {
      c, s := LocateIn(InLeft(c0, m, r), l, n);
    } else {
      c, s := LocateIn(InRight(c0, l, m), r, n);
    }
  }
}

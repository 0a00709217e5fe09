/** src/ds/zset.cpp: one set of nodes, indexed by (score, name) in an AVL tree and by name in a hash map. */
module ZSet {
  import opened Base
  import opened Tree
  import opened Pairs
  import Avl
  import HashMap

  /** The payload of the node at address x. */
  function Get(d: seq<Pair>, x: Ptr): Pair { if x < |d| then d[x] else Pair([], Score(0, [])) }

  /** The pairs stored in a sequence of nodes. */
  ghost function ToPairs(s: seq<Ptr>, d: seq<Pair>): (ps: Pairs)
    ensures |ps| == |s| && forall i :: 0 <= i < |s| ==> ps[i] == Get(d, s[i])
  {
    seq(|s|, i requires 0 <= i < |s| => Get(d, s[i]))
  }

  lemma {:induction false} ToPairsConcat(a: seq<Ptr>, b: seq<Ptr>, d: seq<Pair>)
    ensures ToPairs(a + b, d) == ToPairs(a, d) + ToPairs(b, d)
  {}

  lemma {:induction false} ToPairsWithout(s: seq<Ptr>, x: Ptr, d: seq<Pair>)
    requires Sorted(ToPairs(s, d)) && x in s
    ensures ToPairs(Avl.Without(s, x), d) == Drop(ToPairs(s, d), Get(d, x).name)
    decreases |s|
  {
    var ps := ToPairs(s, d);
    assert ps[1..] == ToPairs(s[1..], d);
    var k :| 0 <= k < |s| && s[k] == x;
    if s[0] != x {
      assert ps[0].name != ps[k].name;
      assert s[1..][k - 1] == x;
      ToPairsWithout(s[1..], x, d);
      ToPairsConcat([s[0]], Avl.Without(s[1..], x), d);
    }
  }

  /** A new pair between its neighbours lands where Place puts it. */
  lemma {:induction false} PlacedBetween(a: seq<Ptr>, x: Ptr, b: seq<Ptr>, d: seq<Pair>)
    requires Sorted(ToPairs(a + b, d))
    requires a == [] || Less(Get(d, a[|a| - 1]), Get(d, x))
    requires b == [] || Less(Get(d, x), Get(d, b[0]))
    ensures ToPairs(a + [x] + b, d) == Place(ToPairs(a + b, d), Get(d, x))
  {
    var pa, pb := ToPairs(a, d), ToPairs(b, d);
    ToPairsConcat(a, b, d);
    PlacedPairs(pa, Get(d, x), pb);
    ToPairsConcat(a, [x], d);
    ToPairsConcat(a + [x], b, d);
    assert ToPairs([x], d) == [Get(d, x)];
  }

  lemma {:induction false} PlacedPairs(a: Pairs, p: Pair, b: Pairs)
    requires Sorted(a + b) && (a == [] || Less(a[|a| - 1], p)) && (b == [] || Less(p, b[0]))
    ensures Place(a + b, p) == a + [p] + b
  {
    forall i | 0 <= i < |a| ensures Less(a[i], p) {
      if i < |a| - 1 {
        var q := a[|a| - 1];
        assert Less((a + b)[i], (a + b)[|a| - 1]);
        PairTransitive(a[i].score, a[i].name, q.score, q.name, p.score, p.name);
      }
    }
    if b != [] {
      PairTrichotomy(p.score, p.name, p.score, p.name);
      if Less(b[0], p) { PairTransitive(p.score, p.name, b[0].score, b[0].name, p.score, p.name); }
    }
    PlaceAt(a, b, p);
  }

  /** Mentioning Open unfolds ZSet.Valid. */
  ghost predicate Open(z: int) { true }

  class ZSet {
    const hash: Bytes -> nat
    const tree: Avl.Arena
    const hmap: HashMap.HMap
    var root: Ptr
    var data: seq<Pair>
    ghost var shape: Tree

    /** The score index: a valid tree over allocated nodes, in strictly increasing (score, name) order. */
    ghost predicate TreeOk()
      reads this, tree
    {
      Avl.Valid(tree.mem, shape, root) && |tree.mem| == |data| && Sorted(Listing())
    }

    /** The pairs in tree order: the abstract value of the set. */
    ghost function Listing(): Pairs
      reads this
    {
      ToPairs(Inorder(shape), data)
    }

    /** Folded: the body is available only where Open is asserted. */
    ghost predicate Valid()
      reads this, tree, hmap
    {
      forall z {:trigger Open(z)} :: Open(z) ==> Agree()
    }

    /** Both indexes hold the same nodes, each hashed by its name. */
    ghost predicate Agree()
      reads this, tree, hmap
    {
      && TreeOk() && hmap.Valid() && |hmap.mem| == |data| > 0
      && Nodes(shape) == hmap.Entries()
      && (forall x {:trigger Hashed(x)} :: x in hmap.Entries() ==> Hashed(x))
    }

    ghost predicate Hashed(x: Ptr)
      reads this, hmap
    {
      x < |hmap.mem| && hmap.mem[x].hcode == hash(Get(data, x).name)
    }

    constructor (hash: Bytes -> nat)
      ensures Valid() && Listing() == [] && this.hash == hash && fresh(tree) && fresh(hmap)
    {
      this.hash := hash;
      tree := new Avl.Arena();
      hmap := new HashMap.HMap();
      root, data, shape := NULL, [Pair([], Score(0, []))], Leaf;
    }

    /** zless(node, parent) walks down to an empty link: tree_insert's loop. */
    method FindSlot(node: Ptr) returns (parent: Ptr, isLeft: bool, ghost c: Ctx)
      requires TreeOk() && node !in Nodes(shape)
      requires forall i :: 0 <= i < |Listing()| ==> Listing()[i].name != Get(data, node).name
      ensures Plug(c, Leaf) == shape && parent == CtxMe(c) && (c != Top ==> isLeft == c.InLeft?)
      ensures Between(Before(c), node, After(c), data)
    {
      var cur := root;
      parent, isLeft := NULL, false;
      ghost var s := shape;
      c := Top;
      while cur != NULL
        invariant Plug(c, s) == shape && cur == RootOf(s) && parent == CtxMe(c) && (c != Top ==> isLeft == c.InLeft?)
        invariant Between(Before(c), node, After(c), data)
        decreases s
      {
        Avl.Peek(tree.mem, c, s);
        NamesDiffer(c, s, node, data);
        parent := cur;
        isLeft := Less(Get(data, node), Get(data, cur));
        if isLeft {
          cur, c, s := tree.mem[cur].left, InLeft(c, cur, s.right), s.left;
        } else {
          cur, c, s := tree.mem[cur].right, InRight(c, s.left, cur), s.right;
        }
      }
      PlugNodes(c, s);
    }

    /** tree_insert */
    method TreeInsert(node: Ptr)
      requires TreeOk() && 0 < node < |data| && node !in Nodes(shape) && tree.mem[node] == Avl.INIT
      requires forall i :: 0 <= i < |Listing()| ==> Listing()[i].name != Get(data, node).name
      modifies this`root, this`shape, tree
      ensures TreeOk() && Nodes(shape) == old(Nodes(shape)) + {node}
      ensures Listing() == Place(old(Listing()), Get(data, node))
    {
      var parent, isLeft;
      ghost var c;
      parent, isLeft, c := FindSlot(node);
      PlugInorder(c, Leaf);
      assert Inorder(shape) == Before(c) + After(c);
      PlacedBetween(Before(c), node, After(c), data);
      PlaceSorted(Listing(), Get(data, node));
      root, shape := tree.LinkLeaf(node, parent, isLeft, c);
    }

    /** avl_del of a member, then avl_init: the node leaves the tree and can be linked again. */
    method TreeRemove(node: Ptr)
      requires TreeOk() && node in Nodes(shape)
      modifies this`root, this`shape, tree
      ensures TreeOk() && Nodes(shape) == old(Nodes(shape)) - {node}
      ensures 0 < node < |data| && tree.mem[node] == Avl.INIT
      ensures Listing() == Drop(old(Listing()), Get(data, node).name)
    {
      InorderNodes(shape);
      NoNull(shape);
      ToPairsWithout(Inorder(shape), node, data);
      DropSorted(Listing(), Get(data, node).name);
      ghost var t := shape;
      Avl.NodeInMem(tree.mem, t, root, node);
      root, shape := tree.Del(node, root, shape);
      Avl.WithoutNodes(t, shape, node);
      tree.Reset(node, root, shape);
    }

    /** node->score = score, while the node is in neither place of the tree. */
    method Rescore(node: Ptr, score: Score)
      requires TreeOk() && 0 < node < |data| && node !in Nodes(shape)
      modifies this`data
      ensures TreeOk() && Listing() == old(Listing())
      ensures data == old(data)[node := old(data)[node].(score := score)]
    {
      InorderNodes(shape);
      data := data[node := data[node].(score := score)];
      assert Listing() == old(Listing());
    }

    /** zset_update: a score that compares equal changes nothing; otherwise the pair is detached and re-inserted. */
    method Update(node: Ptr, score: Score)
      requires TreeOk() && node in Nodes(shape)
      modifies this`root, this`shape, this`data, tree
      ensures TreeOk() && Nodes(shape) == old(Nodes(shape)) && |data| == |old(data)|
      ensures SameNames(old(data), data)
      ensures Listing() == Put(old(Listing()), Get(old(data), node).name, score)
    {
      ghost var k := ListingAt(Inorder(shape), node, shape, data);
      FindAt(Listing(), k);
      if Get(data, node).score.ord == score.ord { return; }
      ghost var ps, name := Listing(), Get(data, node).name;
      TreeRemove(node);
      Rescore(node, score);
      DropIn(ps, name);
      TreeInsert(node);
    }

    /** The tree order lists real nodes, and Listing lists their pairs. */
    lemma {:induction false} OrderFacts()
      requires Valid()
      ensures |Order(this)| == |Listing()|
      ensures forall i :: 0 <= i < |Listing()| ==> Order(this)[i] != NULL && Listing()[i] == Get(data, Order(this)[i])
    {
      assert Open(0);
      InorderNodes(shape);
      NoNull(shape);
    }

    /** z is the member called name. */
    ghost predicate HasNode(z: Ptr, name: Bytes)
      reads this
    {
      z in Nodes(shape) && Get(data, z).name == name
    }

    /** zset_lookup */
    method Lookup(name: Bytes) returns (z: Ptr)
      requires Valid()
      modifies hmap
      ensures Valid() && hmap.Entries() == old(hmap.Entries())
      ensures z == NULL <==> Find(Listing(), name) == None
      ensures z != NULL ==> HasNode(z, name) && Find(Listing(), name) == Some(Get(data, z).score)
    {
      assert Open(0);
      NoNull(shape);
      if root == NULL { return NULL; }
      forall x | x in hmap.Entries() ensures Hashed(x) {}
      z := hmap.Lookup(hash(name), NameIs(data, name));
      forall x | x in hmap.Entries() ensures Hashed(x) { assert old(Hashed(x)); }
      if z == NULL {
        forall x | x in Nodes(shape) ensures Get(data, x).name != name {
          assert Hashed(x) && !HashMap.Hit(hmap.mem, hash(name), NameIs(data, name), x);
        }
        NoNode(shape, data, name);
      } else {
        ghost var k := ListingAt(Inorder(shape), z, shape, data);
        FindAt(Listing(), k);
      }
    }

    /** The payload and the tree hook of a new node. */
    method Allocate(pair: Pair) returns (p: Ptr)
      requires TreeOk()
      modifies this`data, tree
      ensures TreeOk() && Listing() == old(Listing()) && data == old(data) + [pair] && p == |old(data)|
      ensures p !in Nodes(shape) && tree.mem[p] == Avl.INIT
      ensures forall x :: x in Nodes(shape) ==> x < |old(data)|
    {
      DataGrow(tree.mem, shape, root, data, pair);
      p := tree.NewCell();
      Avl.FrameGrow(old(tree.mem), tree.mem, shape, root, NULL);
      data := data + [pair];
    }

    /** znode_new: a node in neither index. */
    method NewNode(name: Bytes, score: Score) returns (p: Ptr)
      requires Agree()
      modifies this`data, tree, hmap
      ensures Agree() && Listing() == old(Listing())
      ensures 0 < p < |data| && p !in Nodes(shape) && Get(data, p) == Pair(name, score) && tree.mem[p] == Avl.INIT
      ensures hmap.mem[p].hcode == hash(name)
    {
      ghost var es := hmap.Entries();
      forall x | x in es ensures Hashed(x) {}
      p := Allocate(Pair(name, score));
      var h := hmap.NewNode(hash(name));
      forall x | x in es ensures Hashed(x) { assert old(Hashed(x)); }
    }

    /** zset_insert */
    method Insert(name: Bytes, score: Score) returns (added: bool)
      requires Valid()
      modifies this, tree, hmap
      ensures Valid() && Listing() == Put(old(Listing()), name, score)
      ensures added <==> Find(old(Listing()), name) == None
    {
      assert Open(0);
      var z := Lookup(name);
      ghost var es := hmap.Entries();
      if z != NULL {
        forall x | x in es ensures Hashed(x) {}
        label before:
        Update(z, score);
        forall x | x in es ensures Hashed(x) { assert old@before(Hashed(x)); }
        return false;
      }
      Absent(Listing(), name);
      var node := NewNode(name, score);
      LinkBoth(node);
      return true;
    }

    /** hm_insert of a node hashed by its name. */
    method AddHash(node: Ptr)
      requires Agree() && 0 < node < |data| && node !in Nodes(shape)
      requires hmap.mem[node].hcode == hash(Get(data, node).name)
      modifies hmap
      ensures hmap.Valid() && hmap.Entries() == old(hmap.Entries()) + {node} && |hmap.mem| == old(|hmap.mem|)
      ensures forall x {:trigger Hashed(x)} :: x in hmap.Entries() ==> Hashed(x)
    {
      ghost var es := hmap.Entries();
      forall x | x in es ensures Hashed(x) {}
      hmap.Insert(node);
      forall x | x in es ensures Hashed(x) { assert old(Hashed(x)); }
    }

    /** The two insertions of zset_insert. */
    method LinkBoth(node: Ptr)
      requires Agree() && 0 < node < |data| && node !in Nodes(shape) && tree.mem[node] == Avl.INIT
      requires hmap.mem[node].hcode == hash(Get(data, node).name)
      requires forall i :: 0 <= i < |Listing()| ==> Listing()[i].name != Get(data, node).name
      modifies this`root, this`shape, tree, hmap
      ensures Agree() && Listing() == Place(old(Listing()), Get(data, node))
    {
      AddHash(node);
      ghost var es := hmap.Entries();
      forall x | x in es ensures Hashed(x) {}
      label hashed:
      TreeInsert(node);
      forall x | x in es ensures Hashed(x) { assert old@hashed(Hashed(x)); }
    }

    /** zset_delete: out of the name index, then out of the tree. */
    method Delete(node: Ptr)
      requires Valid() && node in Nodes(shape)
      modifies this, tree, hmap
      ensures Valid() && Listing() == Drop(old(Listing()), Get(old(data), node).name)
    {
      assert Open(0);
      Unhash(node);
      label Unhashed:
      TreeRemove(node);
      forall x | x in hmap.Entries() ensures Hashed(x) { assert old@Unhashed(Hashed(x)); }
    }

    /** hm_delete by the node's own name finds the node itself. */
    method Unhash(node: Ptr)
      requires Agree() && node in Nodes(shape)
      modifies hmap
      ensures hmap.Valid() && hmap.Entries() == old(hmap.Entries()) - {node} && |hmap.mem| == old(|hmap.mem|)
      ensures forall x {:trigger Hashed(x)} :: x in hmap.Entries() ==> Hashed(x)
    {
      ghost var es, name := hmap.Entries(), Get(data, node).name;
      forall x | x in es ensures Hashed(x) {}
      var found := hmap.Delete(hmap.mem[node].hcode, NameIs(data, Get(data, node).name));
      forall x | x in es ensures Hashed(x) { assert old(Hashed(x)); }
      assert found == node by {
        if found == NULL {
          assert HashMap.Hit(hmap.mem, hash(name), NameIs(data, name), node);
        } else {
          OneNode(shape, data, found, node);
        }
      }
    }

    /** zset_seekge: the first node whose pair is not below (score, name). */
    method Seek(score: Score, name: Bytes) returns (found: Ptr)
      requires Valid()
      ensures found == Avl.At(Order(this), SeekGe(Listing(), score, name))
    {
      assert Open(0);
      var node := root;
      found := NULL;
      ghost var c, s := Top, shape;
      while node != NULL
        invariant Plug(c, s) == shape && node == RootOf(s) && Sought(Before(c), After(c), data, score, name)
        invariant found == if After(c) == [] then NULL else After(c)[0]
        decreases s
      {
        Avl.Peek(tree.mem, c, s);
        SoughtStep(c, s, data, score, name);
        if PairLess(Get(data, node).score, Get(data, node).name, score, name) {
          node, c, s := tree.mem[node].right, InRight(c, s.left, node), s.right;
        } else {
          found := node;
          node, c, s := tree.mem[node].left, InLeft(c, node, s.right), s.left;
        }
      }
      SoughtNode(c, s, data, score, name);
    }

    /** No count that a rank walk reads has wrapped around. */
    ghost predicate Counted()
      reads this
    {
      Avl.Narrow(shape)
    }

    /** That is so in any set of up to 2^32 pairs, and in none of 2^33 or more. */
    lemma {:induction false} CountedSizes()
      requires Valid()
      ensures |Listing()| <= TWO32 ==> Counted()
      ensures |Listing()| >= 2 * TWO32 ==> !Counted()
    {
      assert Open(0);
      InorderNodes(shape);
      Avl.NarrowSizes(shape);
    }

    /** The node at place k is the root, and its counts do not show the place `offset` from there. */
    ghost predicate Lost(k: int, offset: int)
      reads this
    {
      shape.Node? && k == Size(shape.left) && !Avl.Sees(shape, 0, offset)
    }

    /** From the pair sought there are pairs at this offset, but the counts at the root do not show them. */
    ghost predicate Misses(score: Score, name: Bytes, offset: Int64)
      reads this
    {
      var k := SeekGe(Listing(), score, name);
      Lost(k, offset as int) && k < |Listing()| && 0 <= k + offset as int < |Listing()|
    }

    /** znode_offset: the node `offset` places from z, which is at place k; NULL in, NULL out. Where a count has wrapped
        around, the result is some node of the set or NULL, and NULL for a place that the counts at the root do not
        show. */
    method Offset(z: Ptr, offset: Int64, ghost k: int) returns (r: Ptr)
      requires Valid() && z == Avl.At(Order(this), k)
      ensures r == NULL || r in Order(this)
      ensures z == NULL ==> r == NULL
      ensures z != NULL && Counted() ==> r == Avl.At(Order(this), k + offset as int)
      ensures Lost(k, offset as int) ==> r == NULL
    {
      assert Open(0);
      InorderNodes(shape);
      NoNull(shape);
      if z == NULL { return NULL; }
      ghost var steps, reach;
      r, steps, reach := tree.Offset(z, offset, shape, k);
    }

    /** hm_size of the name index. */
    method Count() returns (n: nat)
      requires Valid()
      ensures n == |Listing()|
    {
      assert Open(0);
      n := hmap.Size();
      InorderNodes(shape);
      DistinctInorder(shape);
      HashMap.NoDupCount(Inorder(shape), hmap.Entries());
    }
  }

  // ---- queries that wrapped counts lose ----

  /** In a set with a wrapped count there is a query that starts at a pair of the set and misses it: from the pair at
      the root, to one that its counts do not show. */
  lemma {:induction false} WrongQuery(z: ZSet) returns (score: Score, name: Bytes, offset: Int64)
    requires z.Valid() && !z.Counted()
    ensures z.Misses(score, name, offset)
  {
    assert Open(0);
    offset := Avl.Unseen(z.shape);
    Avl.WalkSize(Top, z.shape, z.shape);
    InorderNodes(z.shape);
    NoNull(z.shape);
    var k := Size(z.shape.left);
    var p := z.Listing()[k];
    SeekSelf(z.Listing(), k);
    score, name := p.score, p.name;
  }

  /** No query misses a pair, if and only if no count has wrapped around. */
  lemma {:induction false} MissesIff(z: ZSet)
    requires z.Valid()
    ensures z.Counted() <==> forall score, name, offset :: !z.Misses(score, name, offset)
  {
    if z.Counted() {
      forall score, name, offset ensures !z.Misses(score, name, offset) {
        if z.shape.Node? {
          Wrap32Small(Size(z.shape.left));
          Wrap32Small(Size(z.shape.right));
          InorderNodes(z.shape);
        }
      }
    } else {
      var score, name, offset := WrongQuery(z);
    }
  }

  /** Any run of zset_insert, and of zset_lookup with zset_delete, on one set does to its listing what the run of the
      same operations on lists does. */
  method RunOps(z: ZSet, ops: seq<Op>)
    requires z.Valid()
    modifies z, z.tree, z.hmap
    ensures z.Valid() && z.Listing() == RunList(old(z.Listing()), ops)
  {
    assert ops[0..] == ops;
    for i := 0 to |ops|
      invariant z.Valid() && RunList(z.Listing(), ops[i..]) == RunList(old(z.Listing()), ops)
    {
      assert ops[i..][0] == ops[i] && ops[i..][1..] == ops[i + 1..];
      match ops[i] {
        case Add(name, score) =>
          var added := z.Insert(name, score);
        case Remove(name) =>
          DropAbsent(z.Listing(), name);
          var node := z.Lookup(name);
          if node != NULL { z.Delete(node); }
      }
    }
    assert ops[|ops|..] == [];
  }

  lemma {:induction false} DropAbsent(ps: Pairs, name: Bytes)
    ensures Find(ps, name) == None ==> Drop(ps, name) == ps
  {
    if ps != [] { DropAbsent(ps[1..], name); }
  }

  ghost function Order(z: ZSet): seq<Ptr>
    reads z
  {
    Inorder(z.shape)
  }

  /** hcmp with its key applied. */
  function NameIs(d: seq<Pair>, name: Bytes): Ptr -> bool { (p: Ptr) => Get(d, p).name == name }

  /** The left neighbour is below the key and the right one is not. */
  ghost predicate Sought(a: seq<Ptr>, b: seq<Ptr>, d: seq<Pair>, score: Score, name: Bytes) {
    && (a == [] || PairLess(Get(d, a[|a| - 1]).score, Get(d, a[|a| - 1]).name, score, name))
    && (b == [] || !PairLess(Get(d, b[0]).score, Get(d, b[0]).name, score, name))
  }

  /** Going right of a pair below the key, or left of one that is not, keeps the key between the neighbours. */
  lemma {:induction false} SoughtStep(c: Ctx, s: Tree, d: seq<Pair>, score: Score, name: Bytes)
    requires s.Node? && Sought(Before(c), After(c), d, score, name)
    ensures var p, c' := Get(d, s.me), InRight(c, s.left, s.me);
      PairLess(p.score, p.name, score, name) ==> Sought(Before(c'), After(c'), d, score, name) && After(c') == After(c)
    ensures var p, c' := Get(d, s.me), InLeft(c, s.me, s.right);
      !PairLess(p.score, p.name, score, name) ==> Sought(Before(c'), After(c'), d, score, name)
    ensures var c' := InLeft(c, s.me, s.right); After(c') != [] && After(c')[0] == s.me
  {}

  lemma {:induction false} SoughtIndex(a: seq<Ptr>, b: seq<Ptr>, d: seq<Pair>, score: Score, name: Bytes)
    requires Sorted(ToPairs(a + b, d)) && Sought(a, b, d, score, name)
    ensures SeekGe(ToPairs(a + b, d), score, name) == |a|
  {
    var pa, pb := ToPairs(a, d), ToPairs(b, d);
    ToPairsConcat(a, b, d);
    forall i | 0 <= i < |pa| ensures PairLess(pa[i].score, pa[i].name, score, name) {
      if i < |pa| - 1 {
        var q := pa[|pa| - 1];
        assert Less((pa + pb)[i], (pa + pb)[|pa| - 1]);
        PairTransitive(pa[i].score, pa[i].name, q.score, q.name, score, name);
      }
    }
    SeekUnique(pa, pb, score, name);
  }

  /** At the bottom of the walk the right neighbour is the node at the seek index. */
  lemma {:induction false} SoughtNode(c: Ctx, s: Tree, d: seq<Pair>, score: Score, name: Bytes)
    requires Sorted(ToPairs(Inorder(Plug(c, s)), d)) && Sought(Before(c), After(c), d, score, name)
    requires RootOf(s) == NULL && Distinct(Plug(c, s))
    ensures var t := Inorder(Plug(c, s));
      Avl.At(t, SeekGe(ToPairs(t, d), score, name)) == if After(c) == [] then NULL else After(c)[0]
  {
    PlugNodes(c, s);
    PlugInorder(c, s);
    assert Inorder(Plug(c, s)) == Before(c) + After(c);
    SoughtIndex(Before(c), After(c), d, score, name);
  }

  lemma {:induction false} DataGrow(m: Avl.Mem, t: Tree, root: Ptr, d: seq<Pair>, p: Pair)
    requires Avl.Valid(m, t, root) && |m| == |d|
    ensures ToPairs(Inorder(t), d + [p]) == ToPairs(Inorder(t), d) && |d| !in Nodes(t)
    ensures forall x :: x in Nodes(t) ==> x < |d|
  {
    forall x | x in Nodes(t) ensures x < |d| { Avl.NodeInMem(m, t, root, x); }
    InorderNodes(t);
  }

  lemma {:induction false} OneNode(t: Tree, d: seq<Pair>, x: Ptr, y: Ptr)
    requires Sorted(ToPairs(Inorder(t), d)) && x in Nodes(t) && y in Nodes(t) && Get(d, x).name == Get(d, y).name
    ensures x == y
  {
    var i := ListingAt(Inorder(t), x, t, d);
    var j := ListingAt(Inorder(t), y, t, d);
  }

  /** If no node of the set carries the name, the listing does not either. */
  lemma {:induction false} NoNode(t: Tree, d: seq<Pair>, name: Bytes)
    requires forall x :: x in Nodes(t) ==> Get(d, x).name != name
    ensures Find(ToPairs(Inorder(t), d), name) == None
  {
    var ps := ToPairs(Inorder(t), d);
    if Find(ps, name).Some? {
      var i := FindIndex(ps, name);
      InorderNodes(t);
    }
  }

  lemma {:induction false} ListingAt(s: seq<Ptr>, x: Ptr, t: Tree, d: seq<Pair>) returns (k: nat)
    requires s == Inorder(t) && x in Nodes(t)
    ensures k < |s| && s[k] == x && ToPairs(s, d)[k] == Get(d, x)
  {
    InorderNodes(t);
    k :| 0 <= k < |s| && s[k] == x;
  }

  ghost predicate SameNames(d1: seq<Pair>, d2: seq<Pair>) {
    |d1| == |d2| && forall x :: 0 <= x < |d1| ==> d2[x].name == d1[x].name
  }

  /** x is above its left neighbour and below its right one. */
  ghost predicate Between(a: seq<Ptr>, x: Ptr, b: seq<Ptr>, d: seq<Pair>) {
    (a == [] || Less(Get(d, a[|a| - 1]), Get(d, x))) && (b == [] || Less(Get(d, x), Get(d, b[0])))
  }

  lemma {:induction false} NamesDiffer(c: Ctx, s: Tree, x: Ptr, d: seq<Pair>)
    requires s.Node?
    requires var ps := ToPairs(Inorder(Plug(c, s)), d); forall i :: 0 <= i < |ps| ==> ps[i].name != Get(d, x).name
    ensures Less(Get(d, x), Get(d, s.me)) != Less(Get(d, s.me), Get(d, x))
  {
    var all := Inorder(Plug(c, s));
    Avl.WalkSize(c, s, Plug(c, s));
    var k := |Before(c)| + Size(s.left);
    assert ToPairs(all, d)[k] == Get(d, s.me);
    PairTrichotomy(Get(d, x).score, Get(d, x).name, Get(d, s.me).score, Get(d, s.me).name);
  }
}

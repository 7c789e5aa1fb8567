/**
 * The rotations of avl_tree.py relink nodes but never recompute a cached
 * height, so after a rotation the heights the balance test reads can be
 * wrong: later insertions stop rebalancing where they should, or pick a
 * double rotation whose inner rotation finds no child to promote. This module
 * exhibits both, with six insertions that unbalance the tree and five that
 * raise AttributeError in the as-written model, and then
 * defines the rotations as AVL insertion intends them (both relinked nodes
 * get their height recomputed, the lower one first) and proves that the
 * corrected insertion keeps the AVL invariant.
 */
module AvlFixed {
  import opened AvlSpec

  // --------------------------------------------------------------------------
  // The code as written
  // --------------------------------------------------------------------------

  /** `root = tree.insert(root, key)` for each key in turn, stopping at the first exception. */
  function InsertAll(t: Subtree, keys: seq<int>): (res: InsertResult)
    ensures keys == [] ==> res == Inserted(t)
    decreases |keys|
  {
    if keys == [] then Inserted(t)
    else match Insert(t, keys[0])
      case Failed(e, t') => Failed(e, t')
      case Inserted(t') => InsertAll(t', keys[1..])
  }

  lemma InsertSecond(a: int, b: int)
    requires a < b
    ensures Insert(Leaf(a), b) == Inserted(Node(Nil, a, Leaf(b), 2))
  {
    assert Insert(Nil, b) == Inserted(Leaf(b));
  }

  /** The tree six increasing insertions leave: in order, but its root is unbalanced by two. */
  lemma SixthTreeUnbalanced(a: int, b: int, c: int, d: int, e: int, f: int)
    requires a < b < c < d < e < f
    ensures var t := Node(Node(Nil, a, Nil, 3), b,
      Node(Node(Nil, c, Nil, 3), d, Node(Nil, e, Leaf(f), 2), 4), 5);
      InOrder(t) == [a, b, c, d, e, f] &&
      TrueHeight(t.left) == 1 && TrueHeight(t.right) == 3 && !HeightBalanced(t)
  {
    var r := Node(Node(Nil, c, Nil, 3), d, Node(Nil, e, Leaf(f), 2), 4);
    assert TrueHeight(r.right) == 2;
    assert TrueHeight(r) == 3;
    assert InOrder(r.right) == [e, f] by {
      assert InOrder(Leaf(f)) == [f];
    }
    assert InOrder(r) == [c] + [d] + [e, f];
    assert InOrder(Node(Nil, a, Nil, 3)) == [a];
  }

  /** Into the two-node chain a -> b, a larger key c: node a is rotated down but keeps the cached height 3. */
  lemma InsertThird(a: int, b: int, c: int)
    requires a < b < c
    ensures Insert(Node(Nil, a, Leaf(b), 2), c) == Inserted(Node(Node(Nil, a, Nil, 3), b, Leaf(c), 2))
  {
    assert Insert(Leaf(b), c) == Inserted(Node(Nil, b, Leaf(c), 2));
  }

  /** No rotation: the stale height 3 of node a hides that the right side has grown. */
  lemma InsertFourth(a: int, b: int, c: int, d: int)
    requires a < b < c < d
    ensures Insert(Node(Node(Nil, a, Nil, 3), b, Leaf(c), 2), d) ==
      Inserted(Node(Node(Nil, a, Nil, 3), b, Node(Nil, c, Leaf(d), 2), 4))
  {
    assert Insert(Leaf(c), d) == Inserted(Node(Nil, c, Leaf(d), 2));
  }

  /** A left rotation at c leaves node c with the stale cached height 3 as well. */
  lemma InsertFifth(a: int, b: int, c: int, d: int, e: int)
    requires a < b < c < d < e
    ensures Insert(Node(Node(Nil, a, Nil, 3), b, Node(Nil, c, Leaf(d), 2), 4), e) ==
      Inserted(Node(Node(Nil, a, Nil, 3), b, Node(Node(Nil, c, Nil, 3), d, Leaf(e), 2), 4))
  {
    InsertThird(c, d, e);
  }

  /** No rotation anywhere: both visited nodes look balanced through the stale heights. */
  lemma InsertSixth(a: int, b: int, c: int, d: int, e: int, f: int)
    requires a < b < c < d < e < f
    ensures Insert(Node(Node(Nil, a, Nil, 3), b, Node(Node(Nil, c, Nil, 3), d, Leaf(e), 2), 4), f) ==
      Inserted(Node(Node(Nil, a, Nil, 3), b, Node(Node(Nil, c, Nil, 3), d, Node(Nil, e, Leaf(f), 2), 4), 5))
  {
    assert Insert(Node(Node(Nil, c, Nil, 3), d, Leaf(e), 2), f) ==
      Inserted(Node(Node(Nil, c, Nil, 3), d, Node(Nil, e, Leaf(f), 2), 4)) by {
      assert Insert(Leaf(e), f) == Inserted(Node(Nil, e, Leaf(f), 2));
    }
  }

  /**
   * Inserting any six increasing keys into an empty tree succeeds every time
   * and keeps the search order, but ends with a root whose left subtree is two
   * levels lower than its right subtree: the tree has lost the AVL shape.
   */
  lemma StaleHeightsUnbalance(a: int, b: int, c: int, d: int, e: int, f: int)
    requires a < b < c < d < e < f
    ensures InsertAll(Nil, [a, b, c, d, e, f]).Inserted?
    ensures var t := InsertAll(Nil, [a, b, c, d, e, f]).tree;
      InOrder(t) == [a, b, c, d, e, f] &&
      TrueHeight(t.left) == 1 && TrueHeight(t.right) == 3 && !HeightBalanced(t)
  {
    var t1 := Leaf(a);
    var t2 := Node(Nil, a, Leaf(b), 2);
    var t3 := Node(Node(Nil, a, Nil, 3), b, Leaf(c), 2);
    var t4 := Node(Node(Nil, a, Nil, 3), b, Node(Nil, c, Leaf(d), 2), 4);
    var t5 := Node(Node(Nil, a, Nil, 3), b, Node(Node(Nil, c, Nil, 3), d, Leaf(e), 2), 4);
    var t6 := Node(Node(Nil, a, Nil, 3), b, Node(Node(Nil, c, Nil, 3), d, Node(Nil, e, Leaf(f), 2), 4), 5);
    InsertSecond(a, b);
    InsertThird(a, b, c);
    InsertFourth(a, b, c, d);
    InsertFifth(a, b, c, d, e);
    InsertSixth(a, b, c, d, e, f);
    assert InsertAll(t5, [f]) == InsertAll(t6, []);
    assert InsertAll(t4, [e, f]) == InsertAll(t5, [f]);
    assert InsertAll(t3, [d, e, f]) == InsertAll(t4, [e, f]);
    assert InsertAll(t2, [c, d, e, f]) == InsertAll(t3, [d, e, f]);
    assert InsertAll(t1, [b, c, d, e, f]) == InsertAll(t2, [c, d, e, f]);
    assert InsertAll(Nil, [a, b, c, d, e, f]) == InsertAll(t1, [b, c, d, e, f]);
    SixthTreeUnbalanced(a, b, c, d, e, f);
  }

  /**
   * Into the tree four increasing keys a, b, c, e leave, a key d between c and
   * e: a right-left rotation at c gives the new subtree root d the stale cached
   * height 1, so node b looks unbalanced by two towards its left; `key > a`
   * picks the left-right rotation, whose `left_rotate` reads `.left` of the
   * missing right child of a.
   */
  lemma InsertFifthCrash(a: int, b: int, c: int, d: int, e: int)
    requires a < b < c < d < e
    ensures Insert(Node(Node(Nil, a, Nil, 3), b, Node(Nil, c, Leaf(e), 2), 4), d) ==
      Failed(NoneAttribute, Node(Node(Nil, a, Nil, 3), b,
        Node(Node(Nil, c, Nil, 3), d, Node(Nil, e, Nil, 2), 1), 4))
  {
    assert Insert(Leaf(e), d) == Inserted(Node(Leaf(d), e, Nil, 2));
    assert Insert(Node(Nil, c, Leaf(e), 2), d) ==
      Inserted(Node(Node(Nil, c, Nil, 3), d, Node(Nil, e, Nil, 2), 1));
  }

  /**
   * Inserting five distinct keys in the order 1, 2, 3, 5, 4 (any keys ordered
   * like these) into an empty tree raises AttributeError at the fifth key,
   * although every key is new and every earlier insertion succeeded.
   */
  lemma StaleHeightsCrash(a: int, b: int, c: int, d: int, e: int)
    requires a < b < c < d < e
    ensures InsertAll(Nil, [a, b, c, e]).Inserted?
    ensures InsertAll(Nil, [a, b, c, e, d]).Failed?
    ensures InsertAll(Nil, [a, b, c, e, d]).error == NoneAttribute
  {
    var t1 := Leaf(a);
    var t2 := Node(Nil, a, Leaf(b), 2);
    var t3 := Node(Node(Nil, a, Nil, 3), b, Leaf(c), 2);
    var t4 := Node(Node(Nil, a, Nil, 3), b, Node(Nil, c, Leaf(e), 2), 4);
    InsertSecond(a, b);
    InsertThird(a, b, c);
    InsertFourth(a, b, c, e);
    InsertFifthCrash(a, b, c, d, e);
    assert InsertAll(t3, [e]) == InsertAll(t4, []);
    assert InsertAll(t2, [c, e]) == InsertAll(t3, [e]);
    assert InsertAll(t1, [b, c, e]) == InsertAll(t2, [c, e]);
    assert InsertAll(Nil, [a, b, c, e]) == InsertAll(t1, [b, c, e]);
    assert InsertAll(t3, [e, d]) == InsertAll(t4, [d]);
    assert InsertAll(t2, [c, e, d]) == InsertAll(t3, [e, d]);
    assert InsertAll(t1, [b, c, e, d]) == InsertAll(t2, [c, e, d]);
    assert InsertAll(Nil, [a, b, c, e, d]) == InsertAll(t1, [b, c, e, d]);
  }

  // --------------------------------------------------------------------------
  // The rotations as AVL insertion intends them
  // --------------------------------------------------------------------------

  /** A node whose cached height is recomputed from its children. */
  function Join(l: Subtree, k: int, r: Subtree): (t: Subtree)
    ensures t.Node? && t.left == l && t.key == k && t.right == r
    ensures Height(t) == Max(Height(l), Height(r)) + 1
  {
    Node(l, k, r, Max(Height(l), Height(r)) + 1)
  }

  /** `left_rotate`, refreshing the height of the lowered root and then of the new root. */
  function FixedLeftRotate(t: Subtree): (r: Subtree)
    requires t.Node? && t.right.Node?
    ensures r.Node? && r.key == t.right.key
    ensures InOrder(r) == InOrder(t)
  {
    Join(Join(t.left, t.key, t.right.left), t.right.key, t.right.right)
  }

  /** `right_rotate`, refreshing the height of the lowered root and then of the new root. */
  function FixedRightRotate(t: Subtree): (r: Subtree)
    requires t.Node? && t.left.Node?
    ensures r.Node? && r.key == t.left.key
    ensures InOrder(r) == InOrder(t)
  {
    Join(t.left.left, t.left.key, Join(t.left.right, t.key, t.right))
  }

  function FixedLeftRightRotate(t: Subtree): (r: Subtree)
    requires t.Node? && t.left.Node? && t.left.right.Node?
    ensures r.Node? && r.key == t.left.right.key
    ensures InOrder(r) == InOrder(t)
  {
    FixedRightRotate(t.(left := FixedLeftRotate(t.left)))
  }

  function FixedRightLeftRotate(t: Subtree): (r: Subtree)
    requires t.Node? && t.right.Node? && t.right.left.Node?
    ensures r.Node? && r.key == t.right.left.key
    ensures InOrder(r) == InOrder(t)
  {
    FixedLeftRotate(t.(right := FixedRightRotate(t.right)))
  }

  /** The rotation step of `insert` with the corrected rotations; the tests are those of the code. */
  function FixedRebalance(t: Subtree, key: int): (res: InsertResult)
    requires t.Node?
    ensures InOrder(res.tree) == InOrder(t)
    ensures res.Failed? ==> res.error == NoneAttribute && res.tree == t
  {
    var b := Balance(t);
    if b > 1 && t.left.Nil? then Failed(NoneAttribute, t)
    else if b > 1 && key < t.left.key then Inserted(FixedRightRotate(t))
    else if b > 1 && key > t.left.key then
      if t.left.right.Nil? then Failed(NoneAttribute, t) else Inserted(FixedLeftRightRotate(t))
    else if b < -1 && t.right.Nil? then Failed(NoneAttribute, t)
    else if b < -1 && key > t.right.key then Inserted(FixedLeftRotate(t))
    else if b < -1 && key < t.right.key then
      if t.right.left.Nil? then Failed(NoneAttribute, t) else Inserted(FixedRightLeftRotate(t))
    else Inserted(t)
  }

  /** `insert` with the corrected rotations. */
  function FixedInsert(t: Subtree, key: int): (res: InsertResult)
    ensures res.Failed? && res.error == DuplicatedKey ==> res.tree == t
    decreases t
  {
    match t
    case Nil => Inserted(Leaf(key))
    case Node(l, k, r, h) =>
      if k > key then
        match FixedInsert(l, key)
        case Failed(e, l') => Failed(e, Node(l', k, r, h))
        case Inserted(l') => FixedRebalance(Join(l', k, r), key)
      else if k < key then
        match FixedInsert(r, key)
        case Failed(e, r') => Failed(e, Node(l, k, r', h))
        case Inserted(r') => FixedRebalance(Join(l, k, r'), key)
      else
        Failed(DuplicatedKey, t)
  }

  // --------------------------------------------------------------------------
  // The corrected insertion keeps the AVL invariant
  // --------------------------------------------------------------------------

  lemma {:induction false} AvlHeightNonNegative(t: Subtree)
    requires IsAvl(t)
    ensures Height(t) >= 0
  {
    if t.Node? {
      AvlHeightNonNegative(t.left);
      AvlHeightNonNegative(t.right);
    }
  }

  /** How an insertion that made a subtree taller leaves its root: not rotated, and leaning toward the key. */
  ghost predicate GrewToward(t: Subtree, key: int, t': Subtree) {
    if t.Nil? then t' == Leaf(key)
    else (t'.Node? && t'.key == t.key &&
          (key < t.key ==> Balance(t') == 1) && (key > t.key ==> Balance(t') == -1))
  }

  /** A left-left overweight node is repaired by one right rotation, back to its old height. */
  lemma RightRotateRepairs(l: Subtree, k: int, r: Subtree, h: int)
    requires IsAvl(l) && IsAvl(r) && l.Node?
    requires Height(l) == Height(r) + 2 && Balance(l) == 1
    ensures IsAvl(FixedRightRotate(Node(l, k, r, h)))
    ensures Height(FixedRightRotate(Node(l, k, r, h))) == Height(r) + 2
  {
    var x := Join(l.right, k, r);
    assert Height(x) == Height(r) + 1 && IsAvl(x);
  }

  /** A right-right overweight node is repaired by one left rotation, back to its old height. */
  lemma LeftRotateRepairs(l: Subtree, k: int, r: Subtree, h: int)
    requires IsAvl(l) && IsAvl(r) && r.Node?
    requires Height(r) == Height(l) + 2 && Balance(r) == -1
    ensures IsAvl(FixedLeftRotate(Node(l, k, r, h)))
    ensures Height(FixedLeftRotate(Node(l, k, r, h))) == Height(l) + 2
  {
    var x := Join(l, k, r.left);
    assert Height(x) == Height(l) + 1 && IsAvl(x);
  }

  /** A left-right overweight node is repaired by the double rotation, back to its old height. */
  lemma LeftRightRotateRepairs(l: Subtree, k: int, r: Subtree, h: int)
    requires IsAvl(l) && IsAvl(r) && l.Node?
    requires Height(l) == Height(r) + 2 && Balance(l) == -1
    ensures l.right.Node?
    ensures IsAvl(FixedLeftRightRotate(Node(l, k, r, h)))
    ensures Height(FixedLeftRightRotate(Node(l, k, r, h))) == Height(r) + 2
  {
    AvlHeightNonNegative(r);
    var b := l.right;
    assert b.Node?;
    AvlHeightNonNegative(b.left);
    AvlHeightNonNegative(b.right);
    var x := Join(l.left, l.key, b.left);
    var y := Join(b.right, k, r);
    assert Height(x) == Height(r) + 1 && IsAvl(x);
    assert Height(y) == Height(r) + 1 && IsAvl(y);
    var l1 := FixedLeftRotate(l);
    assert l1 == Join(x, b.key, b.right);
    assert FixedLeftRightRotate(Node(l, k, r, h)) == Join(x, b.key, y);
  }

  /** A right-left overweight node is repaired by the double rotation, back to its old height. */
  lemma RightLeftRotateRepairs(l: Subtree, k: int, r: Subtree, h: int)
    requires IsAvl(l) && IsAvl(r) && r.Node?
    requires Height(r) == Height(l) + 2 && Balance(r) == 1
    ensures r.left.Node?
    ensures IsAvl(FixedRightLeftRotate(Node(l, k, r, h)))
    ensures Height(FixedRightLeftRotate(Node(l, k, r, h))) == Height(l) + 2
  {
    AvlHeightNonNegative(l);
    var b := r.left;
    assert b.Node?;
    AvlHeightNonNegative(b.left);
    AvlHeightNonNegative(b.right);
    var x := Join(l, k, b.left);
    var y := Join(b.right, r.key, r.right);
    assert Height(x) == Height(l) + 1 && IsAvl(x);
    assert Height(y) == Height(l) + 1 && IsAvl(y);
    var r1 := FixedRightRotate(r);
    assert r1 == Join(b.left, b.key, y);
    assert FixedRightLeftRotate(Node(l, k, r, h)) == Join(x, b.key, y);
  }

  /**
   * Inserting an absent key into an AVL tree with the corrected rotations
   * never fails, keeps the AVL invariant, and makes the tree at most one
   * level taller.
   */
  lemma {:induction false} FixedInsertKeepsAvl(t: Subtree, key: int)
    requires IsAvl(t) && key !in Keys(t)
    ensures FixedInsert(t, key).Inserted?
    ensures IsAvl(FixedInsert(t, key).tree)
    ensures Height(t) <= Height(FixedInsert(t, key).tree) <= Height(t) + 1
    ensures Height(FixedInsert(t, key).tree) == Height(t) + 1 ==> GrewToward(t, key, FixedInsert(t, key).tree)
  {
    match t
    case Nil =>
    case Node(l, k, r, h) =>
      if k > key {
        FixedInsertKeepsAvl(l, key);
        FixedInsertLeftStep(l, k, r, h, key);
      } else {
        FixedInsertKeepsAvl(r, key);
        FixedInsertRightStep(l, k, r, h, key);
      }
  }

  /** One step of FixedInsertKeepsAvl, for a key that goes to the left. */
  lemma FixedInsertLeftStep(l: Subtree, k: int, r: Subtree, h: int, key: int)
    requires k > key && IsAvl(Node(l, k, r, h))
    requires FixedInsert(l, key).Inserted? && IsAvl(FixedInsert(l, key).tree)
    requires Height(l) <= Height(FixedInsert(l, key).tree) <= Height(l) + 1
    requires Height(FixedInsert(l, key).tree) == Height(l) + 1 ==> GrewToward(l, key, FixedInsert(l, key).tree)
    ensures FixedInsert(Node(l, k, r, h), key).Inserted?
    ensures IsAvl(FixedInsert(Node(l, k, r, h), key).tree)
    ensures h <= Height(FixedInsert(Node(l, k, r, h), key).tree) <= h + 1
    ensures Height(FixedInsert(Node(l, k, r, h), key).tree) == h + 1 ==>
      GrewToward(Node(l, k, r, h), key, FixedInsert(Node(l, k, r, h), key).tree)
  {
    var l' := FixedInsert(l, key).tree;
    var n := Join(l', k, r);
    assert FixedInsert(Node(l, k, r, h), key) == FixedRebalance(n, key);
    AvlHeightNonNegative(r);
    if Balance(n) > 1 {
      assert l.Node?;
      if key < l'.key {
        RightRotateRepairs(l', k, r, n.height);
      } else {
        LeftRightRotateRepairs(l', k, r, n.height);
      }
    }
  }

  /** One step of FixedInsertKeepsAvl, for a key that goes to the right. */
  lemma FixedInsertRightStep(l: Subtree, k: int, r: Subtree, h: int, key: int)
    requires k < key && IsAvl(Node(l, k, r, h))
    requires FixedInsert(r, key).Inserted? && IsAvl(FixedInsert(r, key).tree)
    requires Height(r) <= Height(FixedInsert(r, key).tree) <= Height(r) + 1
    requires Height(FixedInsert(r, key).tree) == Height(r) + 1 ==> GrewToward(r, key, FixedInsert(r, key).tree)
    ensures FixedInsert(Node(l, k, r, h), key).Inserted?
    ensures IsAvl(FixedInsert(Node(l, k, r, h), key).tree)
    ensures h <= Height(FixedInsert(Node(l, k, r, h), key).tree) <= h + 1
    ensures Height(FixedInsert(Node(l, k, r, h), key).tree) == h + 1 ==>
      GrewToward(Node(l, k, r, h), key, FixedInsert(Node(l, k, r, h), key).tree)
  {
    var r' := FixedInsert(r, key).tree;
    var n := Join(l, k, r');
    assert FixedInsert(Node(l, k, r, h), key) == FixedRebalance(n, key);
    AvlHeightNonNegative(l);
    if Balance(n) < -1 {
      assert r.Node?;
      if key > r'.key {
        LeftRotateRepairs(l, k, r', n.height);
      } else {
        RightLeftRotateRepairs(l, k, r', n.height);
      }
    }
  }

  /**
   * With the corrected rotations, inserting an absent key into an AVL search
   * tree gives an AVL search tree holding exactly the old keys and the new
   * one, so the tree keeps the AVL shape.
   */
  lemma FixedInsertCorrect(t: Subtree, key: int)
    requires IsAvl(t) && IsBst(t) && key !in Keys(t)
    ensures FixedInsert(t, key).Inserted?
    ensures IsAvl(FixedInsert(t, key).tree) && HeightBalanced(FixedInsert(t, key).tree)
    ensures IsBst(FixedInsert(t, key).tree)
    ensures Keys(FixedInsert(t, key).tree) == Keys(t) + {key}
  {
    FixedInsertKeepsAvl(t, key);
    AvlHeights(FixedInsert(t, key).tree);
    FixedInsertOrdered(t, key);
  }

  /** With the corrected rotations an insertion that succeeds puts the key in its place in the order. */
  lemma {:induction false} FixedInsertOrdered(t: Subtree, key: int)
    requires IsBst(t) && key !in Keys(t) && FixedInsert(t, key).Inserted?
    ensures IsBst(FixedInsert(t, key).tree)
    ensures Keys(FixedInsert(t, key).tree) == Keys(t) + {key}
  {
    match t
    case Nil =>
    case Node(l, k, r, h) =>
      BstNode(t);
      if k > key {
        var l' := FixedInsert(l, key).tree;
        FixedInsertOrdered(l, key);
        assert FixedInsert(t, key) == FixedRebalance(Join(l', k, r), key);
        JoinAndRebalanceFixed(l', k, r, key);
      } else {
        var r' := FixedInsert(r, key).tree;
        FixedInsertOrdered(r, key);
        assert FixedInsert(t, key) == FixedRebalance(Join(l, k, r'), key);
        JoinAndRebalanceFixed(l, k, r', key);
      }
  }

  lemma JoinAndRebalanceFixed(l: Subtree, k: int, r: Subtree, key: int)
    requires IsBst(l) && IsBst(r)
    requires forall x :: x in Keys(l) ==> x < k
    requires forall y :: y in Keys(r) ==> k < y
    ensures IsBst(FixedRebalance(Join(l, k, r), key).tree)
    ensures Keys(FixedRebalance(Join(l, k, r), key).tree) == Keys(l) + {k} + Keys(r)
  {
    BstJoin(l, k, r, Join(l, k, r).height);
    SameInOrder(FixedRebalance(Join(l, k, r), key).tree, Join(l, k, r));
  }
}

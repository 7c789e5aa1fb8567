/**
 * The AVL tree of avl_tree.py as values: a subtree is either empty or a node
 * with a key, two children and the height cached in the node. The operations
 * here are the specification of the imperative methods in module AvlTree;
 * they do what the code does, including the fact that the rotations relink
 * nodes without refreshing any cached height.
 */
module AvlSpec {
  import opened Sequences

  datatype Subtree = Nil | Node(left: Subtree, key: int, right: Subtree, height: int)

  /** Why an insertion stopped early: the duplicate-key error, or an attribute read on None. */
  datatype Error = DuplicatedKey | NoneAttribute

  /**
   * The outcome of an insertion. On failure `tree` is what the caller's root
   * holds afterwards (the exception may leave earlier in-place writes behind).
   */
  datatype InsertResult = Inserted(tree: Subtree) | Failed(error: Error, tree: Subtree)

  function Max(a: int, b: int): int {
    if a >= b then a else b
  }

  /** `get_height`: 0 for an empty subtree, otherwise the cached height. */
  function Height(t: Subtree): (h: int) {
    if t.Nil? then 0 else t.height
  }

  /** `get_balance`: cached height of the left child minus that of the right child. */
  function Balance(t: Subtree): (b: int) {
    if t.Nil? then 0 else Height(t.left) - Height(t.right)
  }

  /** A freshly allocated `TreeNode(key)`: a one-key AVL tree. */
  function Leaf(key: int): (t: Subtree)
    ensures IsAvl(t) && Height(t) == 1
    ensures InOrder(t) == [key]
  {
    Node(Nil, key, Nil, 1)
  }

  function InOrder(t: Subtree): seq<int> {
    if t.Nil? then [] else InOrder(t.left) + [t.key] + InOrder(t.right)
  }

  function Keys(t: Subtree): set<int> {
    if t.Nil? then {} else Keys(t.left) + {t.key} + Keys(t.right)
  }

  /** The (key, cached height) pair of every node. */
  function Entries(t: Subtree): multiset<(int, int)> {
    if t.Nil? then multiset{} else Entries(t.left) + multiset{(t.key, t.height)} + Entries(t.right)
  }

  /** The height a subtree really has, as opposed to the one cached in its root. */
  function TrueHeight(t: Subtree): nat {
    if t.Nil? then 0 else Max(TrueHeight(t.left), TrueHeight(t.right)) + 1
  }

  /** The AVL shape: the true heights of the two children of every node differ by at most one. */
  ghost predicate HeightBalanced(t: Subtree) {
    t.Nil? ||
    (-1 <= TrueHeight(t.left) - TrueHeight(t.right) <= 1 && HeightBalanced(t.left) && HeightBalanced(t.right))
  }

  /**
   * The invariant the AVL operations are meant to keep: every cached height is
   * recomputed from the children, and every cached balance lies within -1..1.
   */
  ghost predicate IsAvl(t: Subtree) {
    t.Nil? ||
    (t.height == Max(Height(t.left), Height(t.right)) + 1 && -1 <= Balance(t) <= 1 &&
     IsAvl(t.left) && IsAvl(t.right))
  }

  /** Under the invariant every cached height is the true one, so the tree has the AVL shape. */
  lemma {:induction false} AvlHeights(t: Subtree)
    requires IsAvl(t)
    ensures Height(t) == TrueHeight(t)
    ensures HeightBalanced(t)
  {
    if t.Node? {
      AvlHeights(t.left);
      AvlHeights(t.right);
    }
  }

  /** Search-tree order: the in-order key sequence is strictly increasing. */
  ghost predicate IsBst(t: Subtree) {
    StrictlyIncreasing(InOrder(t))
  }

  lemma KeysInOrder(t: Subtree)
    ensures forall x :: x in Keys(t) <==> x in InOrder(t)
    ensures Keys(t) == set x | x in InOrder(t)
  {
  }

  /** The order facts a search needs at one node of a search tree. */
  lemma BstNode(t: Subtree)
    requires t.Node? && IsBst(t)
    ensures IsBst(t.left) && IsBst(t.right)
    ensures forall x :: x in Keys(t.left) ==> x < t.key
    ensures forall y :: y in Keys(t.right) ==> t.key < y
  {
    SplitIncreasing(InOrder(t.left), t.key, InOrder(t.right));
    KeysInOrder(t.left);
    KeysInOrder(t.right);
  }

  /** A node whose children are search trees on the right sides of its key is a search tree. */
  lemma BstJoin(l: Subtree, k: int, r: Subtree, h: int)
    requires IsBst(l) && IsBst(r)
    requires forall x :: x in Keys(l) ==> x < k
    requires forall y :: y in Keys(r) ==> k < y
    ensures IsBst(Node(l, k, r, h))
  {
    KeysInOrder(l);
    KeysInOrder(r);
    SplitIncreasing(InOrder(l), k, InOrder(r));
  }

  // --------------------------------------------------------------------------
  // Rotations (avl_tree.py:58-100). No cached height is recomputed.
  // --------------------------------------------------------------------------

  /** `left_rotate`: the right child becomes the root; the old root takes the child's left subtree. */
  function LeftRotate(t: Subtree): (r: Subtree)
    requires t.Node? && t.right.Node?
    ensures r.Node? && r.key == t.right.key && r.left.Node? && r.left.key == t.key
    ensures InOrder(r) == InOrder(t)
  {
    Node(Node(t.left, t.key, t.right.left, t.height), t.right.key, t.right.right, t.right.height)
  }

  /** `right_rotate`: the left child becomes the root; the old root takes the child's right subtree. */
  function RightRotate(t: Subtree): (r: Subtree)
    requires t.Node? && t.left.Node?
    ensures r.Node? && r.key == t.left.key && r.right.Node? && r.right.key == t.key
    ensures InOrder(r) == InOrder(t)
  {
    Node(t.left.left, t.left.key, Node(t.left.right, t.key, t.right, t.height), t.left.height)
  }

  /** `left_right_rotate`: a left rotation of the left child, then a right rotation of the root. */
  function LeftRightRotate(t: Subtree): (r: Subtree)
    requires t.Node? && t.left.Node? && t.left.right.Node?
    ensures r.Node? && r.key == t.left.right.key
    ensures InOrder(r) == InOrder(t)
  {
    RightRotate(t.(left := LeftRotate(t.left)))
  }

  /** `right_left_rotate`: a right rotation of the right child, then a left rotation of the root. */
  function RightLeftRotate(t: Subtree): (r: Subtree)
    requires t.Node? && t.right.Node? && t.right.left.Node?
    ensures r.Node? && r.key == t.right.left.key
    ensures InOrder(r) == InOrder(t)
  {
    LeftRotate(t.(right := RightRotate(t.right)))
  }

  /** A left rotation keeps every node's key and cached height. */
  lemma LeftRotateKeepsEntries(t: Subtree)
    requires t.Node? && t.right.Node?
    ensures Entries(LeftRotate(t)) == Entries(t)
  {
    var a, b, c := Entries(t.left), Entries(t.right.left), Entries(t.right.right);
    var x, y := multiset{(t.key, t.height)}, multiset{(t.right.key, t.right.height)};
    assert Entries(t) == a + x + (b + y + c);
    assert Entries(LeftRotate(t)) == (a + x + b) + y + c;
  }

  /** A right rotation keeps every node's key and cached height. */
  lemma RightRotateKeepsEntries(t: Subtree)
    requires t.Node? && t.left.Node?
    ensures Entries(RightRotate(t)) == Entries(t)
  {
    var a, b, c := Entries(t.left.left), Entries(t.left.right), Entries(t.right);
    var x, y := multiset{(t.left.key, t.left.height)}, multiset{(t.key, t.height)};
    assert Entries(t) == (a + x + b) + y + c;
    assert Entries(RightRotate(t)) == a + x + (b + y + c);
  }

  /** No rotation touches a cached height: every node keeps its key and its height. */
  lemma RotationsKeepCachedHeights(t: Subtree)
    requires t.Node?
    ensures t.right.Node? ==> Entries(LeftRotate(t)) == Entries(t)
    ensures t.left.Node? ==> Entries(RightRotate(t)) == Entries(t)
    ensures t.left.Node? && t.left.right.Node? ==> Entries(LeftRightRotate(t)) == Entries(t)
    ensures t.right.Node? && t.right.left.Node? ==> Entries(RightLeftRotate(t)) == Entries(t)
  {
    if t.right.Node? {
      LeftRotateKeepsEntries(t);
    }
    if t.left.Node? {
      RightRotateKeepsEntries(t);
    }
    if t.left.Node? && t.left.right.Node? {
      var t1 := t.(left := LeftRotate(t.left));
      LeftRotateKeepsEntries(t.left);
      assert Entries(t1) == Entries(t);
      RightRotateKeepsEntries(t1);
    }
    if t.right.Node? && t.right.left.Node? {
      var t1 := t.(right := RightRotate(t.right));
      RightRotateKeepsEntries(t.right);
      assert Entries(t1) == Entries(t);
      LeftRotateKeepsEntries(t1);
    }
  }

  // --------------------------------------------------------------------------
  // Insertion (avl_tree.py:142-174)
  // --------------------------------------------------------------------------

  /**
   * The rotation step at the end of `insert`, applied to the visited node once
   * its height has been recomputed. Python raises AttributeError in two ways,
   * both before anything is written, so `t` is left as it is: reading `.key`
   * of a missing child (which cached heights of at least 1 rule out, since
   * the balance could not then exceed one), and `left_rotate` reading `.left`
   * of a missing right child of the left child when `left_right_rotate`
   * calls it, or symmetrically `right_rotate` inside `right_left_rotate`.
   */
  function Rebalance(t: Subtree, key: int): (res: InsertResult)
    requires t.Node?
    ensures InOrder(res.tree) == InOrder(t)
    ensures res.Failed? ==> res.error == NoneAttribute && res.tree == t
  {
    var b := Balance(t);
    if b > 1 && t.left.Nil? then Failed(NoneAttribute, t)
    else if b > 1 && key < t.left.key then Inserted(RightRotate(t))
    else if b > 1 && key > t.left.key then
      if t.left.right.Nil? then Failed(NoneAttribute, t) else Inserted(LeftRightRotate(t))
    else if b < -1 && t.right.Nil? then Failed(NoneAttribute, t)
    else if b < -1 && key > t.right.key then Inserted(LeftRotate(t))
    else if b < -1 && key < t.right.key then
      if t.right.left.Nil? then Failed(NoneAttribute, t) else Inserted(RightLeftRotate(t))
    else Inserted(t)
  }

  /**
   * The rotation step relinks nodes only: every node keeps its key and its
   * cached height, so after a rotation the cached heights may be stale.
   */
  lemma RebalanceKeepsCachedHeights(t: Subtree, key: int)
    requires t.Node?
    ensures Entries(Rebalance(t, key).tree) == Entries(t)
  {
    var b := Balance(t);
    if b > 1 && t.left.Nil? {
    } else if b > 1 && key < t.left.key {
      RightRotateKeepsEntries(t);
    } else if b > 1 && key > t.left.key {
      if t.left.right.Node? {
        RotationsKeepCachedHeights(t);
      }
    } else if b < -1 && t.right.Nil? {
    } else if b < -1 && key > t.right.key {
      LeftRotateKeepsEntries(t);
    } else if b < -1 && key < t.right.key {
      if t.right.left.Node? {
        RotationsKeepCachedHeights(t);
      }
    }
  }

  /**
   * `insert(root, key)`: the new subtree root, or the failure and what it
   * leaves behind. The duplicate-key error is raised before anything is
   * written, so it leaves the tree as it was.
   */
  function Insert(t: Subtree, key: int): (res: InsertResult)
    ensures res.Failed? && res.error == DuplicatedKey ==> res.tree == t
    decreases t
  {
    match t
    case Nil => Inserted(Leaf(key))
    case Node(l, k, r, h) =>
      if k > key then
        match Insert(l, key)
        case Failed(e, l') => Failed(e, Node(l', k, r, h))
        case Inserted(l') => Rebalance(Node(l', k, r, Max(Height(l'), Height(r)) + 1), key)
      else if k < key then
        match Insert(r, key)
        case Failed(e, r') => Failed(e, Node(l, k, r', h))
        case Inserted(r') => Rebalance(Node(l, k, r', Max(Height(l), Height(r')) + 1), key)
      else
        Failed(DuplicatedKey, t)
  }

  // --------------------------------------------------------------------------
  // Properties of insertion
  // --------------------------------------------------------------------------

  /** The duplicate-key error is raised only for a key already there. */
  lemma {:induction false} DuplicateOnlyIfPresent(t: Subtree, key: int)
    requires Insert(t, key).Failed? && Insert(t, key).error == DuplicatedKey
    ensures key in Keys(t)
  {
    match t
    case Nil =>
    case Node(l, k, r, h) =>
      if k > key && Insert(l, key).Failed? {
        DuplicateOnlyIfPresent(l, key);
      } else if k < key && Insert(r, key).Failed? {
        DuplicateOnlyIfPresent(r, key);
      }
  }

  /** On a search tree, inserting a key already present raises the duplicate-key error. */
  lemma {:induction false} InsertPresent(t: Subtree, key: int)
    requires IsBst(t) && key in Keys(t)
    ensures Insert(t, key) == Failed(DuplicatedKey, t)
  {
    match t
    case Node(l, k, r, h) =>
      BstNode(t);
      if k > key {
        InsertPresent(l, key);
      } else if k < key {
        InsertPresent(r, key);
      }
  }

  /**
   * On a search tree, inserting an absent key never raises the duplicate-key
   * error, and the tree it leaves behind (also after an AttributeError) is a
   * search tree holding the old keys and the new one.
   */
  lemma {:induction false} InsertAbsent(t: Subtree, key: int)
    requires IsBst(t) && key !in Keys(t)
    ensures Insert(t, key).Failed? ==> Insert(t, key).error == NoneAttribute
    ensures IsBst(Insert(t, key).tree)
    ensures Keys(Insert(t, key).tree) == Keys(t) + {key}
  {
    match t
    case Nil =>
    case Node(l, k, r, h) =>
      BstNode(t);
      if k > key {
        InsertAbsent(l, key);
        InsertAbsentLeft(l, k, r, h, key);
      } else {
        InsertAbsent(r, key);
        InsertAbsentRight(l, k, r, h, key);
      }
  }

  /** One step of InsertAbsent, for a key that goes to the left. */
  lemma InsertAbsentLeft(l: Subtree, k: int, r: Subtree, h: int, key: int)
    requires k > key && IsBst(Node(l, k, r, h)) && key !in Keys(l)
    requires Insert(l, key).Failed? ==> Insert(l, key).error == NoneAttribute
    requires IsBst(Insert(l, key).tree) && Keys(Insert(l, key).tree) == Keys(l) + {key}
    ensures Insert(Node(l, k, r, h), key).Failed? ==> Insert(Node(l, k, r, h), key).error == NoneAttribute
    ensures IsBst(Insert(Node(l, k, r, h), key).tree)
    ensures Keys(Insert(Node(l, k, r, h), key).tree) == Keys(l) + {k} + Keys(r) + {key}
  {
    var l' := Insert(l, key).tree;
    assert forall x :: x in Keys(l') ==> x < k by {
      BstNode(Node(l, k, r, h));
    }
    assert IsBst(r) && forall y :: y in Keys(r) ==> k < y by {
      BstNode(Node(l, k, r, h));
    }
    match Insert(l, key)
    case Failed(e, _) =>
      assert Insert(Node(l, k, r, h), key) == Failed(e, Node(l', k, r, h));
      BstJoin(l', k, r, h);
    case Inserted(_) =>
      var n := Node(l', k, r, Max(Height(l'), Height(r)) + 1);
      assert Insert(Node(l, k, r, h), key) == Rebalance(n, key);
      JoinAndRebalance(l', k, r, n.height, key);
      assert Keys(Rebalance(n, key).tree) == Keys(l) + {k} + Keys(r) + {key};
  }


  /** One step of InsertAbsent, for a key that goes to the right. */
  lemma InsertAbsentRight(l: Subtree, k: int, r: Subtree, h: int, key: int)
    requires k < key && IsBst(Node(l, k, r, h)) && key !in Keys(r)
    requires Insert(r, key).Failed? ==> Insert(r, key).error == NoneAttribute
    requires IsBst(Insert(r, key).tree) && Keys(Insert(r, key).tree) == Keys(r) + {key}
    ensures Insert(Node(l, k, r, h), key).Failed? ==> Insert(Node(l, k, r, h), key).error == NoneAttribute
    ensures IsBst(Insert(Node(l, k, r, h), key).tree)
    ensures Keys(Insert(Node(l, k, r, h), key).tree) == Keys(l) + {k} + Keys(r) + {key}
  {
    var r' := Insert(r, key).tree;
    assert forall y :: y in Keys(r') ==> k < y by {
      BstNode(Node(l, k, r, h));
    }
    assert IsBst(l) && forall x :: x in Keys(l) ==> x < k by {
      BstNode(Node(l, k, r, h));
    }
    match Insert(r, key)
    case Failed(e, _) =>
      assert Insert(Node(l, k, r, h), key) == Failed(e, Node(l, k, r', h));
      BstJoin(l, k, r', h);
    case Inserted(_) =>
      var n := Node(l, k, r', Max(Height(l), Height(r')) + 1);
      assert Insert(Node(l, k, r, h), key) == Rebalance(n, key);
      JoinAndRebalance(l, k, r', n.height, key);
      assert Keys(Rebalance(n, key).tree) == Keys(l) + {k} + Keys(r) + {key};
  }


  /** `insert` at a node whose key is greater: recurse left, then recompute the height and rebalance. */
  lemma InsertUnfoldLeft(l: Subtree, k: int, r: Subtree, h: int, key: int)
    requires k > key
    ensures Insert(Node(l, k, r, h), key) ==
      if Insert(l, key).Failed? then Failed(Insert(l, key).error, Node(Insert(l, key).tree, k, r, h))
      else Rebalance(Node(Insert(l, key).tree, k, r, Max(Height(Insert(l, key).tree), Height(r)) + 1), key)
  {
  }

  /** `insert` at a node whose key is smaller: recurse right, then recompute the height and rebalance. */
  lemma InsertUnfoldRight(l: Subtree, k: int, r: Subtree, h: int, key: int)
    requires k < key
    ensures Insert(Node(l, k, r, h), key) ==
      if Insert(r, key).Failed? then Failed(Insert(r, key).error, Node(l, k, Insert(r, key).tree, h))
      else Rebalance(Node(l, k, Insert(r, key).tree, Max(Height(l), Height(Insert(r, key).tree)) + 1), key)
  {
  }

  /** Joining two ordered subtrees around a key and rebalancing gives a search tree with all their keys. */
  lemma JoinAndRebalance(l: Subtree, k: int, r: Subtree, h: int, key: int)
    requires IsBst(l) && IsBst(r)
    requires forall x :: x in Keys(l) ==> x < k
    requires forall y :: y in Keys(r) ==> k < y
    ensures Rebalance(Node(l, k, r, h), key).Failed? ==> Rebalance(Node(l, k, r, h), key).error == NoneAttribute
    ensures IsBst(Rebalance(Node(l, k, r, h), key).tree)
    ensures Keys(Rebalance(Node(l, k, r, h), key).tree) == Keys(l) + {k} + Keys(r)
  {
    BstJoin(l, k, r, h);
    RebalanceKeepsKeys(Node(l, k, r, h), key);
  }

  /** The rotation step keeps the keys, and with them the search-tree order. */
  lemma RebalanceKeepsKeys(t: Subtree, key: int)
    requires t.Node?
    ensures Keys(Rebalance(t, key).tree) == Keys(t)
    ensures IsBst(t) ==> IsBst(Rebalance(t, key).tree)
  {
    SameInOrder(Rebalance(t, key).tree, t);
  }

  /** Trees with the same in-order sequence hold the same keys, and both or neither are search trees. */
  lemma SameInOrder(a: Subtree, b: Subtree)
    requires InOrder(a) == InOrder(b)
    ensures Keys(a) == Keys(b)
    ensures IsBst(a) <==> IsBst(b)
  {
    KeysInOrder(a);
    KeysInOrder(b);
  }

  /**
   * On a search tree, the visited node comes back unrotated exactly when its
   * balance lies within -1..1, or when the key equals the key of the heavier
   * child (neither comparison fires). Otherwise one of the four rotations
   * promotes a child or grandchild to the root.
   */
  lemma RotationIffUnbalanced(t: Subtree, key: int)
    requires t.Node? && IsBst(t) && Rebalance(t, key).Inserted?
    ensures Rebalance(t, key).tree == t <==>
      !(Balance(t) > 1 && key != t.left.key) && !(Balance(t) < -1 && key != t.right.key)
    ensures Rebalance(t, key).tree != t ==> Rebalance(t, key).tree.key != t.key
  {
    BstNode(t);
    if Balance(t) > 1 && key != t.left.key {
      assert t.left.key in Keys(t.left);
      if key > t.left.key {
        BstNode(t.left);
        assert t.left.right.key in Keys(t.left.right);
      }
    } else if Balance(t) < -1 && key != t.right.key {
      assert t.right.key in Keys(t.right);
      if key < t.right.key {
        BstNode(t.right);
        assert t.right.left.key in Keys(t.right.left);
      }
    }
  }

  /**
   * When the root of a search tree is not rotated away by an insertion, its
   * cached height is the one recomputed from its children on the way back up.
   */
  lemma {:induction false} RootHeightRecomputed(t: Subtree, key: int)
    requires t.Node? && IsBst(t) && key !in Keys(t)
    requires Insert(t, key).Inserted? && Insert(t, key).tree.key == t.key
    ensures var t' := Insert(t, key).tree;
      t'.height == Max(Height(t'.left), Height(t'.right)) + 1
  {
    if t.key > key {
      var l' := Insert(t.left, key).tree;
      assert Insert(t, key) == Rebalance(Node(l', t.key, t.right, Max(Height(l'), Height(t.right)) + 1), key);
      InsertBelowOrdered(t, key);
      UnrotatedRoot(l', t.key, t.right, key);
      assert Insert(t, key).tree == Node(l', t.key, t.right, Max(Height(l'), Height(t.right)) + 1);
    } else {
      var r' := Insert(t.right, key).tree;
      assert Insert(t, key) == Rebalance(Node(t.left, t.key, r', Max(Height(t.left), Height(r')) + 1), key);
      InsertBelowOrdered(t, key);
      UnrotatedRoot(t.left, t.key, r', key);
      assert Insert(t, key).tree == Node(t.left, t.key, r', Max(Height(t.left), Height(r')) + 1);
    }
  }

  /** Below the root of a search tree, the insertion of an absent key leaves both sides ordered around the root key. */
  lemma InsertBelowOrdered(t: Subtree, key: int)
    requires t.Node? && IsBst(t) && key !in Keys(t)
    ensures t.key > key ==>
      IsBst(Insert(t.left, key).tree) && IsBst(t.right) &&
      (forall x :: x in Keys(Insert(t.left, key).tree) ==> x < t.key) &&
      (forall y :: y in Keys(t.right) ==> t.key < y)
    ensures t.key < key ==>
      IsBst(t.left) && IsBst(Insert(t.right, key).tree) &&
      (forall x :: x in Keys(t.left) ==> x < t.key) &&
      (forall y :: y in Keys(Insert(t.right, key).tree) ==> t.key < y)
  {
    BstNode(t);
    if t.key > key {
      InsertAbsent(t.left, key);
    } else if t.key < key {
      InsertAbsent(t.right, key);
    }
  }

  /** A node over two ordered subtrees, with its height recomputed, keeps its root only by not rotating at all. */
  lemma UnrotatedRoot(l: Subtree, k: int, r: Subtree, key: int)
    requires IsBst(l) && IsBst(r)
    requires forall x :: x in Keys(l) ==> x < k
    requires forall y :: y in Keys(r) ==> k < y
    requires var n := Node(l, k, r, Max(Height(l), Height(r)) + 1);
      Rebalance(n, key).Inserted? && Rebalance(n, key).tree.key == k
    ensures var n := Node(l, k, r, Max(Height(l), Height(r)) + 1);
      Rebalance(n, key).tree == n
  {
    var n := Node(l, k, r, Max(Height(l), Height(r)) + 1);
    BstJoin(l, k, r, n.height);
    RotationIffUnbalanced(n, key);
  }
}

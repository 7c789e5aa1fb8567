/**
 * avl_tree.py on the heap: `TreeNode` objects linked through `left` and
 * `right`, and the stateless `AVLTree` methods, which take a root and
 * return the new root, as module-level methods. Every node carries a ghost
 * footprint `Repr` and a ghost value `Value` of type AvlSpec.Subtree, and each
 * method is proved to leave behind exactly what the corresponding AvlSpec
 * function computes.
 */
module AvlTree {
  import opened Wrappers
  import opened AvlSpec

  class TreeNode {
    var key: int
    var left: TreeNode?
    var right: TreeNode?
    var height: int

    ghost var Repr: set<object>
    ghost var Value: Subtree

    /** The nodes below are disjoint trees, and `Value` is the tree this node heads. */
    ghost predicate Valid()
      reads this, Repr
      ensures Valid() ==> this in Repr && Value.Node? && Value.key == key
      decreases Repr
    {
      this in Repr &&
      (left != null ==>
        left in Repr && left.Repr <= Repr && this !in left.Repr && left.Valid()) &&
      (right != null ==>
        right in Repr && right.Repr <= Repr && this !in right.Repr && right.Valid()) &&
      (left != null && right != null ==> left.Repr !! right.Repr) &&
      Value == Node(if left == null then Nil else left.Value, key,
                    if right == null then Nil else right.Value, height)
    }

    /** `TreeNode(key)`: a node without children and with height 1. */
    constructor (key: int)
      ensures Valid() && fresh(Repr)
      ensures Value == Leaf(key)
      ensures this.key == key && left == null && right == null && height == 1
    {
      this.key := key;
      left := null;
      right := null;
      height := 1;
      Repr := {this};
      Value := Leaf(key);
    }
  }

  /** The tree a possibly missing node heads. */
  ghost function ValueOf(n: TreeNode?): Subtree
    reads n
  {
    if n == null then Nil else n.Value
  }

  /** The objects of the tree a possibly missing node heads. */
  ghost function ReprOf(n: TreeNode?): set<object>
    reads n
  {
    if n == null then {} else n.Repr
  }

  ghost predicate ValidOrNull(n: TreeNode?)
    reads n, ReprOf(n)
  {
    n == null || n.Valid()
  }

  /** `get_height`. */
  function GetHeight(root: TreeNode?): (h: int)
    requires ValidOrNull(root)
    reads root, ReprOf(root)
    ensures h == Height(ValueOf(root))
  {
    if root == null then 0 else root.height
  }

  /** `get_balance`. */
  function GetBalance(root: TreeNode?): (b: int)
    requires ValidOrNull(root)
    reads root, ReprOf(root)
    ensures b == Balance(ValueOf(root))
  {
    if root == null then 0 else GetHeight(root.left) - GetHeight(root.right)
  }

  /**
   * `search`: the node holding `key`, or null. A node it returns lies in the
   * tree and holds the key.
   */
  function Search(root: TreeNode?, key: int): (r: TreeNode?)
    requires ValidOrNull(root)
    reads root, ReprOf(root)
    ensures r != null ==> r in ReprOf(root) && r.key == key && key in Keys(ValueOf(root))
    decreases ReprOf(root)
  {
    if root == null then null
    else if root.key > key then Search(root.left, key)
    else if root.key < key then Search(root.right, key)
    else root
  }

  /** On a search tree, `search` finds every key the tree holds. */
  lemma {:induction false} SearchFindsPresent(root: TreeNode?, key: int)
    requires ValidOrNull(root)
    requires IsBst(ValueOf(root)) && key in Keys(ValueOf(root))
    ensures Search(root, key) != null
    decreases ReprOf(root)
  {
    if root != null {
      BstNode(root.Value);
      if root.key > key {
        SearchFindsPresent(root.left, key);
      } else if root.key < key {
        SearchFindsPresent(root.right, key);
      }
    }
  }

  /** `left_rotate`: the right child becomes the root of the same set of nodes. */
  method LeftRotate(root: TreeNode) returns (r: TreeNode)
    requires root.Valid() && root.right != null
    modifies root, root.right
    ensures r.Valid() && r.Repr == old(root.Repr)
    ensures r.Value == AvlSpec.LeftRotate(old(root.Value))
    ensures r == old(root.right)
  {
    ghost var repr := root.Repr;
    var temp := root.right;
    root.right := temp.left;
    temp.left := root;
    root.Repr := {root} + ReprOf(root.left) + ReprOf(root.right);
    root.Value := Node(ValueOf(root.left), root.key, ValueOf(root.right), root.height);
    temp.Repr := repr;
    temp.Value := Node(root.Value, temp.key, ValueOf(temp.right), temp.height);
    r := temp;
  }

  /** `right_rotate`: the left child becomes the root of the same set of nodes. */
  method RightRotate(root: TreeNode) returns (r: TreeNode)
    requires root.Valid() && root.left != null
    modifies root, root.left
    ensures r.Valid() && r.Repr == old(root.Repr)
    ensures r.Value == AvlSpec.RightRotate(old(root.Value))
    ensures r == old(root.left)
  {
    ghost var repr := root.Repr;
    var temp := root.left;
    root.left := temp.right;
    temp.right := root;
    root.Repr := {root} + ReprOf(root.left) + ReprOf(root.right);
    root.Value := Node(ValueOf(root.left), root.key, ValueOf(root.right), root.height);
    temp.Repr := repr;
    temp.Value := Node(ValueOf(temp.left), temp.key, root.Value, temp.height);
    r := temp;
  }

  /** `left_right_rotate`. */
  method LeftRightRotate(root: TreeNode) returns (r: TreeNode)
    requires root.Valid() && root.left != null && root.left.right != null
    modifies root, root.left, root.left.right
    ensures r.Valid() && r.Repr == old(root.Repr)
    ensures old(root.Value).left.Node? && old(root.Value).left.right.Node? &&
      r.Value == AvlSpec.LeftRightRotate(old(root.Value))
  {
    var l := LeftRotate(root.left);
    root.left := l;
    root.Value := Node(l.Value, root.key, ValueOf(root.right), root.height);
    r := RightRotate(root);
  }

  /** `right_left_rotate`. */
  method RightLeftRotate(root: TreeNode) returns (r: TreeNode)
    requires root.Valid() && root.right != null && root.right.left != null
    modifies root, root.right, root.right.left
    ensures r.Valid() && r.Repr == old(root.Repr)
    ensures old(root.Value).right.Node? && old(root.Value).right.left.Node? &&
      r.Value == AvlSpec.RightLeftRotate(old(root.Value))
  {
    var rr := RightRotate(root.right);
    root.right := rr;
    root.Value := Node(ValueOf(root.left), root.key, rr.Value, root.height);
    r := LeftRotate(root);
  }

  /**
   * What a call of `insert` on `root` leaves behind when the pure insertion
   * computes `res`: `r` is a valid node heading `res.tree`. On success it is
   * the new root; on an exception `err` names it and `r` is the caller's own
   * `root`, which keeps heading the tree the exception left behind.
   */
  ghost predicate Outcome(res: InsertResult, root: TreeNode?, r: TreeNode?, err: Option<Error>)
    reads r, ReprOf(r)
  {
    r != null && r.Valid() && r.Value == res.tree &&
    (res.Inserted? ==> err.None?) &&
    (res.Failed? ==> err == Some(res.error) && r == root)
  }

  /** `insert(root, key)`: the outcome AvlSpec.Insert computes; every node not in the old tree is new. */
  method Insert(root: TreeNode?, key: int) returns (r: TreeNode?, err: Option<Error>)
    requires ValidOrNull(root)
    modifies ReprOf(root)
    ensures Outcome(AvlSpec.Insert(old(ValueOf(root)), key), root, r, err)
    ensures r != null && fresh(r.Repr - old(ReprOf(root)))
    decreases ReprOf(root), 1
  {
    if root == null {
      r := new TreeNode(key);
      err := None;
    } else if root.key > key {
      r, err := InsertLeft(root, key);
    } else if root.key < key {
      r, err := InsertRight(root, key);
    } else {
      r, err := root, Some(DuplicatedKey);
    }
  }

  /**
   * `insert` at a node whose key is greater than `key` (line 145, then the
   * rotation step). When the recursive call raises, the child it was given is
   * still the left child, and so is what `SetLeft` links again.
   */
  method InsertLeft(root: TreeNode, key: int) returns (r: TreeNode?, err: Option<Error>)
    requires root.Valid() && root.key > key
    modifies root.Repr
    ensures Outcome(AvlSpec.Insert(old(root.Value), key), root, r, err)
    ensures r != null && fresh(r.Repr - old(root.Repr))
    decreases root.Repr, 0
  {
    ghost var t := root.Value;
    InsertUnfoldLeft(t.left, t.key, t.right, t.height, key);
    var l, e := Insert(root.left, key);
    SetLeft(root, l);
    assert root.Value == Node(l.Value, t.key, t.right, t.height);
    if e.Some? {
      r, err := root, e;
    } else {
      assert AvlSpec.Insert(t, key) ==
        AvlSpec.Rebalance(Node(l.Value, t.key, t.right, Max(Height(l.Value), Height(t.right)) + 1), key);
      r, err := Rebalance(root, key);
    }
  }

  /** `insert` at a node whose key is less than `key` (line 147, then the rotation step). */
  method InsertRight(root: TreeNode, key: int) returns (r: TreeNode?, err: Option<Error>)
    requires root.Valid() && root.key < key
    modifies root.Repr
    ensures Outcome(AvlSpec.Insert(old(root.Value), key), root, r, err)
    ensures r != null && fresh(r.Repr - old(root.Repr))
    decreases root.Repr, 0
  {
    ghost var t := root.Value;
    InsertUnfoldRight(t.left, t.key, t.right, t.height, key);
    var rr, e := Insert(root.right, key);
    SetRight(root, rr);
    assert root.Value == Node(t.left, t.key, rr.Value, t.height);
    if e.Some? {
      r, err := root, e;
    } else {
      assert AvlSpec.Insert(t, key) ==
        AvlSpec.Rebalance(Node(t.left, t.key, rr.Value, Max(Height(t.left), Height(rr.Value)) + 1), key);
      r, err := Rebalance(root, key);
    }
  }

  /** `root.left = l`, for a tree `l` that does not overlap the rest of `root`. */
  method SetLeft(root: TreeNode, l: TreeNode)
    requires l.Valid() && root !in l.Repr
    requires root.right != null ==> root.right.Valid() && root !in root.right.Repr && l.Repr !! root.right.Repr
    modifies root
    ensures root.Valid() && root.Repr == {root} + l.Repr + old(ReprOf(root.right))
    ensures root.left == l && root.right == old(root.right)
    ensures root.Value == Node(l.Value, old(root.key), old(ValueOf(root.right)), old(root.height))
  {
    root.left, root.Repr, root.Value :=
      l, {root} + l.Repr + ReprOf(root.right), Node(l.Value, root.key, ValueOf(root.right), root.height);
  }

  /** `root.right = r`, for a tree `r` that does not overlap the rest of `root`. */
  method SetRight(root: TreeNode, r: TreeNode)
    requires r.Valid() && root !in r.Repr
    requires root.left != null ==> root.left.Valid() && root !in root.left.Repr && r.Repr !! root.left.Repr
    modifies root
    ensures root.Valid() && root.Repr == {root} + old(ReprOf(root.left)) + r.Repr
    ensures root.left == old(root.left) && root.right == r
    ensures root.Value == Node(old(ValueOf(root.left)), old(root.key), r.Value, old(root.height))
  {
    root.right, root.Repr, root.Value :=
      r, {root} + ReprOf(root.left) + r.Repr, Node(ValueOf(root.left), root.key, r.Value, root.height);
  }

  /**
   * The end of `insert` at a node whose child has just been replaced: the
   * height is recomputed from the children, then the rotation tests run.
   */
  method Rebalance(root: TreeNode, key: int) returns (r: TreeNode, err: Option<Error>)
    requires root.Valid()
    modifies root.Repr
    ensures Outcome(AvlSpec.Rebalance(old(root.Value).(height := Max(Height(old(root.Value).left),
      Height(old(root.Value).right)) + 1), key), root, r, err)
    ensures r.Repr == old(root.Repr)
  {
    root.height := Max(GetHeight(root.left), GetHeight(root.right)) + 1;
    root.Value := root.Value.(height := root.height);
    var balance := GetBalance(root);
    err := None;
    if balance > 1 && root.left == null {
      r, err := root, Some(NoneAttribute);
    } else if balance > 1 && key < root.left.key {
      r := RightRotate(root);
    } else if balance > 1 && key > root.left.key {
      if root.left.right == null {
        r, err := root, Some(NoneAttribute);
      } else {
        r := LeftRightRotate(root);
      }
    } else if balance < -1 && root.right == null {
      r, err := root, Some(NoneAttribute);
    } else if balance < -1 && key > root.right.key {
      r := LeftRotate(root);
    } else if balance < -1 && key < root.right.key {
      if root.right.left == null {
        r, err := root, Some(NoneAttribute);
      } else {
        r := RightLeftRotate(root);
      }
    } else {
      r := root;
    }
  }
}

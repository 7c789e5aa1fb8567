/**
 * tree.py on the heap: `Tree` objects linked through `left` and `right`, with
 * a `parent` link that `insert` sets on every node it creates and that no
 * operation reads or repairs afterwards. Every node carries a ghost footprint
 * `Repr` and a ghost value `Value` of type BstSpec.Subtree, and each method is
 * proved to leave behind what the corresponding BstSpec function computes.
 * The frames name fields, so that a method may change `key`, `left` and
 * `right` but provably never a `parent` link.
 */
module BinaryTree {
  import opened Wrappers
  import Spec = BstSpec

  class Tree {
    var key: int
    var left: Tree?
    var right: Tree?
    var parent: Tree?

    ghost var Repr: set<Tree>
    ghost var Value: Spec.Subtree

    /** The nodes below are disjoint trees, and `Value` is the tree this node heads. */
    ghost predicate Valid()
      reads this, Repr
      ensures Valid() ==> this in Repr && Value.Node? && Value.key == key
      decreases Repr
    {
      this in Repr &&
      (left != null ==>
        left in Repr && left.Repr <= Repr && this !in left.Repr && left.Valid()) &&
      (right != null ==>
        right in Repr && right.Repr <= Repr && this !in right.Repr && right.Valid()) &&
      (left != null && right != null ==> left.Repr !! right.Repr) &&
      Value == Spec.Node(if left == null then Spec.Nil else left.Value, key,
                         if right == null then Spec.Nil else right.Value)
    }

    /** `Tree(key, parent)`; `Tree()` is `Tree(0, null)`, its absent key `None` standing as 0. */
    constructor (key: int, parent: Tree?)
      ensures Valid() && Repr == {this}
      ensures Value == Spec.Node(Spec.Nil, key, Spec.Nil)
      ensures this.key == key && left == null && right == null && this.parent == parent
    {
      this.key := key;
      left := null;
      right := null;
      this.parent := parent;
      Repr := {this};
      Value := Spec.Node(Spec.Nil, key, Spec.Nil);
    }

    /** `is_leaf`. */
    function IsLeaf(): (b: bool)
      requires Valid()
      reads this, Repr
      ensures b <==> |Spec.InOrder(Value)| == 1
    {
      left == null && right == null
    }

    /**
     * `insert`: `None` stands for DuplicatedKeyError, which leaves every node
     * as it was. Otherwise the node now holding `key` is returned: this node
     * itself when its key is falsy, and a newly created leaf whenever the
     * search reaches a missing child, which it always does for a key absent
     * from a tree without a falsy key. A new leaf's `parent` is the node it
     * hangs from.
     */
    method Insert(key: int) returns (r: Option<Tree>)
      requires Valid()
      modifies Repr`key, Repr`left, Repr`right, Repr`Repr, Repr`Value
      ensures Valid() && fresh(Repr - old(Repr))
      ensures r.Some? <==> Spec.Insert(old(Value), key).Some?
      ensures r.Some? ==> Value == Spec.Insert(old(Value), key).value
      ensures r.None? ==> Value == old(Value)
      ensures r.Some? ==> r.value in Repr && r.value.key == key
      ensures old(this.key) == 0 ==> r == Some(this)
      ensures 0 !in Spec.Keys(old(Value)) && key !in Spec.Keys(old(Value)) ==> r.Some? && fresh(r.value)
      ensures r.Some? && fresh(r.value) ==>
        r.value.left == null && r.value.right == null &&
        r.value.parent != null && r.value.parent in old(Repr) &&
        (r.value.parent.left == r.value || r.value.parent.right == r.value)
      decreases Repr
    {
      if this.key == 0 {
        this.key := key;
        Value := Value.(key := key);
        r := Some(this);
      } else if this.key > key {
        if left == null {
          var n := new Tree(key, this);
          left := n;
          Repr := Repr + {n};
          Value := Value.(left := n.Value);
          r := Some(n);
        } else {
          r := left.Insert(key);
          Repr := Repr + left.Repr;
          Value := Value.(left := left.Value);
        }
      } else if this.key < key {
        if right == null {
          var n := new Tree(key, this);
          right := n;
          Repr := Repr + {n};
          Value := Value.(right := n.Value);
          r := Some(n);
        } else {
          r := right.Insert(key);
          Repr := Repr + right.Repr;
          Value := Value.(right := right.Value);
        }
      } else {
        r := None;
      }
    }

    /** `search`: the node holding `key` on the path `insert` would follow, or null. */
    function Search(key: int): (r: Tree?)
      requires Valid()
      reads this, Repr
      ensures r != null <==> Spec.Search(Value, key).Some?
      ensures r != null ==> r in Repr && r.Repr <= Repr && r.Valid() && r.Value == Spec.Search(Value, key).value
      decreases Repr
    {
      if this.key == key then this
      else if this.key > key then
        if left == null then null else left.Search(key)
      else
        if right == null then null else right.Search(key)
    }

    /** `get_min`: follows left children down to the node without one. */
    method GetMin() returns (r: Tree)
      requires Valid()
      ensures r in Repr && r.Valid() && r.left == null
      ensures r.Value == Spec.Leftmost(Value)
    {
      r := this;
      while r.left != null
        invariant r in Repr && r.Valid() && r.Repr <= Repr
        invariant Spec.Leftmost(r.Value) == Spec.Leftmost(Value)
        decreases r.Repr
      {
        r := r.left;
      }
    }

    /** `get_max`: follows right children down to the node without one. */
    method GetMax() returns (r: Tree)
      requires Valid()
      ensures r in Repr && r.Valid() && r.right == null
      ensures r.Value == Spec.Rightmost(Value)
    {
      r := this;
      while r.right != null
        invariant r in Repr && r.Valid() && r.Repr <= Repr
        invariant Spec.Rightmost(r.Value) == Spec.Rightmost(Value)
        decreases r.Repr
      {
        r := r.right;
      }
    }

    /**
     * `remove`: the node that heads this subtree once `key` is gone, or null
     * when nothing is left. The subtree is changed in place; no `parent` link
     * is touched, so one left behind may point to a node no longer above it.
     */
    method Remove(key: int) returns (r: Tree?)
      requires Valid()
      modifies Repr`key, Repr`left, Repr`right, Repr`Repr, Repr`Value
      ensures r == null <==> Spec.Remove(old(Value), key).Nil?
      ensures r != null ==> r.Valid() && r.Value == Spec.Remove(old(Value), key)
      ensures r != null ==> r.Repr <= old(Repr)
      decreases Repr, 1
    {
      if left == null && right == null {
        if this.key == key {
          r := null;
        } else {
          r := this;
        }
      } else if key < this.key {
        if left != null {
          var l := left.Remove(key);
          SetLeft(l);
        }
        r := this;
      } else if key > this.key {
        if right != null {
          var rr := right.Remove(key);
          SetRight(rr);
        }
        r := this;
      } else {
        r := RemoveHere();
      }
    }

    /** `remove` at the node holding the key, which has at least one child (tree.py:111-120). */
    method RemoveHere() returns (r: Tree?)
      requires Valid() && (left != null || right != null)
      modifies Repr`key, Repr`left, Repr`right, Repr`Repr, Repr`Value
      ensures r == null <==> Spec.Remove(old(Value), old(key)).Nil?
      ensures r != null ==> r.Valid() && r.Value == Spec.Remove(old(Value), old(key))
      ensures r != null ==> r.Repr <= old(Repr)
      decreases Repr, 0
    {
      if left == null {
        r := right;
      } else if right == null {
        r := left;
      } else {
        var newRoot := right.GetMin();
        this.key := newRoot.key;
        var rr := right.Remove(newRoot.key);
        SetRight(rr);
        r := this;
      }
    }

    /** `self.left = l`, for a possibly empty tree `l` that does not overlap the rest of this node. */
    method SetLeft(l: Tree?)
      requires l != null ==> l.Valid() && this !in l.Repr
      requires right != null ==> right.Valid() && this !in right.Repr
      requires l != null && right != null ==> l.Repr !! right.Repr
      modifies this`left, this`Repr, this`Value
      ensures Valid()
      ensures Repr == {this} + (if l == null then {} else l.Repr) + (if right == null then {} else right.Repr)
      ensures left == l
      ensures Value == Spec.Node(if l == null then Spec.Nil else l.Value, key,
                                 if right == null then Spec.Nil else right.Value)
    {
      left := l;
      Repr := {this} + (if l == null then {} else l.Repr) + (if right == null then {} else right.Repr);
      Value := Spec.Node(if l == null then Spec.Nil else l.Value, key,
                         if right == null then Spec.Nil else right.Value);
    }

    /** `self.right = r`, for a possibly empty tree `r` that does not overlap the rest of this node. */
    method SetRight(r: Tree?)
      requires r != null ==> r.Valid() && this !in r.Repr
      requires left != null ==> left.Valid() && this !in left.Repr
      requires r != null && left != null ==> r.Repr !! left.Repr
      modifies this`right, this`Repr, this`Value
      ensures Valid()
      ensures Repr == {this} + (if left == null then {} else left.Repr) + (if r == null then {} else r.Repr)
      ensures right == r
      ensures Value == Spec.Node(if left == null then Spec.Nil else left.Value, key,
                                 if r == null then Spec.Nil else r.Value)
    {
      right := r;
      Repr := {this} + (if left == null then {} else left.Repr) + (if r == null then {} else r.Repr);
      Value := Spec.Node(if left == null then Spec.Nil else left.Value, key,
                         if r == null then Spec.Nil else r.Value);
    }
  }
}

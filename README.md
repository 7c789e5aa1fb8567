# Four in-memory data structures, modelled and verified

This project models the data-structure core of a small Python repository that
builds a weighted directed graph for shortest-path experiments. There are four
components:

- **AVL tree** (`avl_tree.py`). `TreeNode` objects have a key, two children and
  a cached height. `AVLTree` is a stateless helper with `get_height`,
  `get_balance`, four rotations, `search` and a recursive `insert` that
  returns the new subtree root.
- **Binary search tree with parent links** (`tree.py`). It has `is_leaf`,
  `insert`, `search`, `get_min`, `get_max` and a recursive `remove` that
  promotes the right subtree's minimum when the node has two children.
- **Array-backed binary min-heap** (`helpers.py`). It has `min_heapify`,
  `build_min_heap` and `extract_min` over a Python list.
- **Graph construction** (`graph.py`). It has `Vertex`, `Edge`, `add_edge`, and
  the part of `create_from_file` that turns an adjacency matrix into edges.

Each component has two layers:

- **A specification on values.** Modules `AvlSpec`, `BstSpec`, `HeapSpec`, and
  the first half of `Graph`, with datatypes, functions and lemmas.
- **An imperative model in the source's own form.** Modules `AvlTree`,
  `BinaryTree` and `MinHeap`, and the classes of `Graph`. Nodes are classes
  whose fields are updated in place. The heap is a `seq` field reassigned by
  every swap and pop. The graph's lists are `seq` fields that are appended to.
  - Each method is proved to leave behind what the corresponding specification
    function computes.
  - The properties of those functions appear as lemmas.
  - Heap-allocated trees carry a ghost footprint (`Repr`) and a ghost abstract
    value (`Value`).
  - Frames name individual fields (`Repr`key`, `vs`edges`, ...). This proves,
    for example, that `remove` never touches a `parent` link.

## Behaviour kept as written

- **Stale heights.** The rotations relink nodes but never recompute a cached
  height. The model does the same, and "## Findings" shows where this leads.
- **Exceptions in the AVL insert.** `insert` can fail in two ways:
  - An equal key gives `Failed(DuplicatedKey, t)`. The code names an
    unqualified `DuplicatedKeyError`, which really raises NameError; either
    way the insertion stops with the tree unchanged.
  - An AttributeError on `None` gives `Failed(NoneAttribute, t)`. Writes made
    in the frames below, before the exception, stay in place. Once a rotation
    has left a stale height, `left_right_rotate` can be chosen at a node whose
    left child has no right child. Its `left_rotate` then reads `.left` of
    `None` (avl_tree.py:64-65, called at avl_tree.py:89). The same happens
    symmetrically in `right_left_rotate` (avl_tree.py:76-77, called at
    avl_tree.py:99). Reading `.key` of a missing child (avl_tree.py:161-170)
    is modelled as well, but it needs a cached height below 1 and so does
    not happen in trees built by `insert`.
- **The BST's empty key.** An empty `Tree()` has key `None`, modelled as key 0.
  Both are falsy at tree.py:37, so `insert` treats them alike. They differ
  only when `search` or `remove` is given the key 0; "## Left out" says how.
  Inserting into a node whose key is 0
  overwrites that key, so a real key 0 can be lost. `BstSpec.ZeroKeyOverwritten`
  exhibits this case.
- **The BST's duplicate key.** Inserting a key that is already there returns
  `None`. This stands for the DuplicatedKeyError (likewise a NameError).
- **Empty heap.** `extract_min` on an empty heap raises IndexError before
  anything changes. It returns `None` and leaves the heap unchanged.
- **Missing vertex.** A positive matrix entry whose row or column names no
  vertex raises IndexError (`Some(IndexError)`). The edges added before that
  entry stay.
  - `Applied(entries, n)` is the prefix of entries the loops get through.
  - `EdgesOf` maps entries to edges.
  - `RowOf` selects one vertex's entries.

## Model

| member | source | states |
|---|---|---|
| AvlSpec.Leaf | avl_tree.py:6-11 | a new node is a one-key AVL tree of height 1 |
| AvlSpec.LeftRotate | avl_tree.py:58-68 | the old right child becomes the root, with the old root as its left child; the in-order key sequence is unchanged |
| AvlSpec.RightRotate | avl_tree.py:70-80 | the old left child becomes the root, with the old root as its right child; the in-order key sequence is unchanged |
| AvlSpec.LeftRightRotate | avl_tree.py:82-90 | the left child's right child becomes the root; the in-order key sequence is unchanged |
| AvlSpec.RightLeftRotate | avl_tree.py:92-100 | the right child's left child becomes the root; the in-order key sequence is unchanged |
| AvlSpec.LeftRotateKeepsEntries | avl_tree.py:58-68 | a left rotation keeps the multiset of (key, cached height) pairs: no height is recomputed |
| AvlSpec.RightRotateKeepsEntries | avl_tree.py:70-80 | a right rotation keeps the multiset of (key, cached height) pairs |
| AvlSpec.RotationsKeepCachedHeights | avl_tree.py:58-100 | all four rotations keep every node's key and cached height |
| AvlSpec.AvlHeights | avl_tree.py:38-53 | when every cached height is right and every balance is in -1..1, each cached height is the true height and the tree has the AVL shape |
| AvlSpec.Rebalance | avl_tree.py:158-174 | the rotation step keeps the in-order sequence; it fails only by an AttributeError (the inner rotation of a double rotation finding no child to promote, or a missing child's `.key`), and then leaves the node as it was |
| AvlSpec.RebalanceKeepsCachedHeights | avl_tree.py:158-174 | the rotation step relinks nodes only: keys and cached heights are the same multiset |
| AvlSpec.RebalanceKeepsKeys | avl_tree.py:158-174 | the rotation step keeps the key set, and it keeps search-tree order |
| AvlSpec.JoinAndRebalance | avl_tree.py:144-174 | a node over two ordered subtrees, once rebalanced, is a search tree holding their keys and its own |
| AvlSpec.RotationIffUnbalanced | avl_tree.py:161-174 | on a search tree the node comes back unrotated if and only if neither `balance > 1` with a key different from the left child's nor `balance < -1` with a key different from the right child's; otherwise a rotation replaces the root key |
| AvlSpec.RootHeightRecomputed | avl_tree.py:153-156 | when the visited root is not rotated away, its cached height is max(child heights) + 1 |
| AvlSpec.Insert | avl_tree.py:142-151 | the duplicate-key failure leaves the tree exactly as it was (it is raised before any write) |
| AvlSpec.DuplicateOnlyIfPresent | avl_tree.py:142-151 | the duplicate-key failure happens only for a key already present |
| AvlSpec.InsertPresent | avl_tree.py:142-151 | on a search tree, inserting a present key fails with the duplicate error and changes nothing |
| AvlSpec.InsertAbsent | avl_tree.py:122-174 | on a search tree, inserting an absent key gives a search tree whose key set is the old set plus the key; the only possible failure is the AttributeError |
| AvlFixed.StaleHeightsUnbalance | avl_tree.py:58-80 | any six increasing keys inserted into an empty tree all succeed and stay in order, but the root's subtrees end up with true heights 1 and 3: the tree is not height-balanced |
| AvlFixed.StaleHeightsCrash | avl_tree.py:58-100 | any five distinct keys inserted in the order 1, 2, 3, 5, 4 into an empty tree: the first four insertions succeed and the fifth raises AttributeError |
| AvlFixed.FixedLeftRotate | avl_tree.py:58-68 | the corrected left rotation: the old right child becomes the root and the in-order sequence is unchanged |
| AvlFixed.FixedRightRotate | avl_tree.py:70-80 | the corrected right rotation: the old left child becomes the root and the in-order sequence is unchanged |
| AvlFixed.FixedLeftRightRotate | avl_tree.py:82-90 | the corrected left-right rotation keeps the in-order sequence |
| AvlFixed.FixedRightLeftRotate | avl_tree.py:92-100 | the corrected right-left rotation keeps the in-order sequence |
| AvlFixed.FixedRebalance | avl_tree.py:158-174 | the rotation step with corrected rotations keeps the in-order sequence and fails only on a missing child |
| AvlFixed.RightRotateRepairs | avl_tree.py:161-163 | a left-left overweight node is repaired by one corrected right rotation and goes back to its old height |
| AvlFixed.LeftRotateRepairs | avl_tree.py:167-169 | a right-right overweight node is repaired by one corrected left rotation and goes back to its old height |
| AvlFixed.LeftRightRotateRepairs | avl_tree.py:164-166 | a left-right overweight node is repaired by the corrected double rotation |
| AvlFixed.RightLeftRotateRepairs | avl_tree.py:170-172 | a right-left overweight node is repaired by the corrected double rotation |
| AvlFixed.FixedInsert | avl_tree.py:142-151 | with corrected rotations, the duplicate-key failure still leaves the tree exactly as it was |
| AvlFixed.FixedInsertKeepsAvl | avl_tree.py:122-174 | with corrected rotations, inserting an absent key into an AVL tree always succeeds, gives an AVL tree, and raises the height by at most one |
| AvlFixed.FixedInsertOrdered | avl_tree.py:122-174 | with corrected rotations, a successful insertion of an absent key keeps search order and adds exactly that key |
| AvlFixed.FixedInsertCorrect | avl_tree.py:122-174 | with corrected rotations, inserting an absent key into an AVL search tree gives a height-balanced AVL search tree holding the old keys plus the new one |
| AvlTree.TreeNode.constructor | avl_tree.py:6-11 | a new node has the key, no children and height 1 |
| AvlTree.GetHeight | avl_tree.py:38-47 | 0 for a missing node, otherwise the node's cached height |
| AvlTree.GetBalance | avl_tree.py:49-53 | 0 for a missing node, otherwise the left child's height minus the right child's |
| AvlTree.Search | avl_tree.py:105-120 | a node it returns belongs to the tree and holds the key |
| AvlTree.SearchFindsPresent | avl_tree.py:105-120 | on a search tree, `search` finds every key present (so None means absent) |
| AvlTree.LeftRotate | avl_tree.py:58-68 | relinks the same nodes in place into the tree AvlSpec.LeftRotate describes; the old right child is returned |
| AvlTree.RightRotate | avl_tree.py:70-80 | relinks the same nodes in place into the tree AvlSpec.RightRotate describes; the old left child is returned |
| AvlTree.LeftRightRotate | avl_tree.py:82-90 | the in-place composition of the two rotations, giving AvlSpec.LeftRightRotate |
| AvlTree.RightLeftRotate | avl_tree.py:92-100 | the in-place composition of the two rotations, giving AvlSpec.RightLeftRotate |
| AvlTree.Insert | avl_tree.py:122-174 | returns the new root (or the failure) exactly as AvlSpec.Insert computes; every node of the result that was not in the old tree is newly allocated |
| AvlTree.InsertLeft | avl_tree.py:144-174 | `insert` at a node with a greater key: recurse left, relink, recompute the height, rebalance |
| AvlTree.InsertRight | avl_tree.py:146-174 | `insert` at a node with a smaller key: recurse right, relink, recompute the height, rebalance |
| AvlTree.SetLeft | avl_tree.py:145 | `root.left = ...`: the node's tree value has the new left subtree and nothing else changes |
| AvlTree.SetRight | avl_tree.py:147 | `root.right = ...`: the node's tree value has the new right subtree and nothing else changes |
| AvlTree.Rebalance | avl_tree.py:153-174 | recomputes the cached height and applies the rotation AvlSpec.Rebalance chooses, on the same set of nodes |
| BstSpec.IsLeaf | tree.py:32-33 | a node is a leaf if and only if it holds exactly one key |
| BstSpec.Insert | tree.py:35-57 | a successful insertion puts the key in the tree |
| BstSpec.InsertIntoEmpty | tree.py:37-39 | inserting into an empty `Tree()` stores the key in that node |
| BstSpec.ZeroKeyOverwritten | tree.py:37-44 | a key 0 inserted below another key is overwritten by the next key inserted at it |
| BstSpec.InsertAbsent | tree.py:41-53 | on a search tree without a falsy key, inserting an absent key succeeds, keeps search order and adds exactly that key |
| BstSpec.InsertDuplicate | tree.py:55-57 | on such a tree, inserting a present key fails |
| BstSpec.InsertFailsIffPresent | tree.py:35-57 | both directions: the insertion fails if and only if the key is present |
| BstSpec.Search | tree.py:59-73 | a found subtree is headed by the key and lies within the tree |
| BstSpec.SearchFindsIffPresent | tree.py:59-73 | on a search tree, `search` finds the key if and only if it is present |
| BstSpec.Leftmost | tree.py:81-85 | the node `get_min` stops at has no left child and belongs to the tree |
| BstSpec.Rightmost | tree.py:75-79 | the node `get_max` stops at has no right child and belongs to the tree |
| BstSpec.LeftmostIsMin | tree.py:81-85 | the leftmost key is the first in order and, on a search tree, the least key |
| BstSpec.RightmostIsMax | tree.py:75-79 | the rightmost key is the last in order and, on a search tree, the greatest key |
| BstSpec.Remove | tree.py:87-122 | removal never adds a key |
| BstSpec.RemoveAbsent | tree.py:91-106 | removing an absent key gives back the same tree |
| BstSpec.RemoveInOrder | tree.py:87-122 | on a search tree, the in-order sequence after removal is the old one with the key taken out, and the result is a search tree |
| BstSpec.RemoveTwoChildren | tree.py:116-120 | at a node with two children, promoting the right subtree's minimum removes exactly the node's key from the in-order sequence |
| BstSpec.RemoveKeys | tree.py:87-122 | on a search tree, the keys after removal are the old keys minus the removed one |
| BinaryTree.Tree.constructor | tree.py:11-17 | a new node has the key, the parent, and no children |
| BinaryTree.Tree.IsLeaf | tree.py:32-33 | true if and only if the node heads a one-key tree |
| BinaryTree.Tree.Insert | tree.py:35-57 | changes the nodes in place into BstSpec.Insert's tree, or leaves them unchanged on the duplicate error; the returned node holds the key; a node with a falsy key returns itself; a key absent from a tree without a falsy key comes back in a newly created node, which has no children and whose parent is the node it hangs from |
| BinaryTree.Tree.Search | tree.py:59-73 | returns a node if and only if BstSpec.Search finds one, and it heads the subtree found |
| BinaryTree.Tree.GetMin | tree.py:81-85 | the loop stops at the node BstSpec.Leftmost describes |
| BinaryTree.Tree.GetMax | tree.py:75-79 | the loop stops at the node BstSpec.Rightmost describes |
| BinaryTree.Tree.Remove | tree.py:87-122 | returns the head of BstSpec.Remove's tree (null when it is empty), built in place from the old nodes only |
| BinaryTree.Tree.RemoveHere | tree.py:109-120 | the found-key case: a missing child hands over the other child; otherwise the key is replaced by the right subtree's minimum, which is then removed from it |
| BinaryTree.Tree.SetLeft | tree.py:99 | `self.left = ...`: the node's value has the new left subtree |
| BinaryTree.Tree.SetRight | tree.py:104 | `self.right = ...`: the node's value has the new right subtree |
| HeapSpec.Swap | helpers.py:43 | the tuple assignment exchanges two positions and keeps the length and the multiset |
| HeapSpec.Smallest | helpers.py:29-40 | the chosen position is `idx` itself or an existing child holding a strictly smaller element |
| HeapSpec.MinHeapify | helpers.py:26-44 | `min_heapify(idx)` only exchanges elements: the length and the multiset stay, and no position before `idx` changes |
| HeapSpec.SiftStep | helpers.py:42-44 | one exchange moves the sift-down invariant from `idx` to the child swapped with |
| HeapSpec.MinHeapifyOrders | helpers.py:26-44 | when every position after `idx` is ordered with its children, after `min_heapify(idx)` every position from `idx` on is |
| HeapSpec.BuildMinHeap | helpers.py:46-50 | `build_min_heap` keeps the length and the multiset of elements |
| HeapSpec.BuildFromCorrect | helpers.py:48-50 | heapifying from position i-1 down to 0, once positions i and above are ordered, gives a min-heap with the same elements |
| HeapSpec.BuildMinHeapCorrect | helpers.py:46-50 | after `build_min_heap` each heap[i] is at most heap[2i+1] and heap[2i+2] wherever those exist, and the elements are the same |
| HeapSpec.RootIsMin | helpers.py:62 | in a min-heap, position 0 holds a minimum |
| HeapSpec.ExtractMin | helpers.py:52-62 | fails if and only if the array is empty |
| HeapSpec.ExtractMinCorrect | helpers.py:52-62 | on a non-empty array, returns the old heap[0]; the rest has one element fewer and, with the returned element, the old multiset; the rest is a min-heap; on a min-heap the returned element is a minimum |
| MinHeap.BinaryMinHeap.constructor | helpers.py:15-17 | the heap holds the given list as it is |
| MinHeap.BinaryMinHeap.MinHeapify | helpers.py:26-44 | the swaps in place leave HeapSpec.MinHeapify of the old array |
| MinHeap.BinaryMinHeap.BuildMinHeap | helpers.py:46-50 | the reversed loop leaves HeapSpec.BuildMinHeap of the old array |
| MinHeap.BinaryMinHeap.ExtractMin | helpers.py:52-62 | on an empty heap: fails and changes nothing; otherwise the returned element and the new array are HeapSpec.ExtractMin's |
| Graph.Decimal | graph.py:68 | `str(i)`: a non-empty string of decimal digits |
| Graph.DecimalRoundTrip | graph.py:68 | reading a label back gives its index |
| Graph.DecimalInjective | graph.py:67-68 | different vertices get different labels |
| Graph.Vertex.constructor | graph.py:32-36 | a new vertex has its label and distance (default `sys.maxint`), no edges and is not visited |
| Graph.Vertex.AddEdge | graph.py:51-52 | exactly one edge (target, weight) is appended; the existing edges stay, in order |
| Graph.Graph.constructor | graph.py:57-58 | a new graph has no vertices |
| Graph.Graph.AddVertices | graph.py:67-68 | n fresh vertices (none for a negative n, as `range` gives) labelled "0".."n-1" are appended in index order, each with distance `sys.maxint`, no edges and not visited; the old ones stay |
| Graph.Graph.CreateFromMatrix | graph.py:63-82 | the vertices as AddVertices states; IndexError if and only if some positive entry names a missing vertex; each vertex's edges gain those of its row's entries that come before the failing entry, in order |
| Graph.AddMatrixEdges | graph.py:71-82 | the outer loop: fails if and only if not every positive entry is applied; vertex k's edges gain the edges of the applied entries of row k |
| Graph.AddRowEdges | graph.py:73-82 | the inner loop for row r: only vertex r gains edges, those of the row's applied entries; fails if and only if one is not applied |
| Graph.AddCell | graph.py:74-82 | one entry: an edge from row to column when the distance is positive; IndexError, with nothing changed, when that names a missing vertex |
| Graph.DistinctAt | graph.py:67-68 | in a vertex list without repeats, the vertex at r occurs at no other position, so adding an edge to it changes no other vertex |
| Graph.Applied | graph.py:79-80 | the applied entries are a prefix, all within range, and the next entry is out of range |
| Graph.AppliedStops | graph.py:79-80 | the applying stops exactly at the first out-of-range entry |
| Graph.AppliedAll | graph.py:79-82 | when every entry is in range, all of them are applied |
| Graph.AppliedAfter | graph.py:72-82 | an in-range prefix is applied in full, and applying then goes on with what follows |
| Graph.AppliedStopsInside | graph.py:72-82 | once the applying stops inside a row, later rows are not reached |
| Graph.RowEntriesExact | graph.py:74-77 | an entry of row i is there if and only if it lies in the row and is positive: zero and negative entries give no edge |
| Graph.RowEntriesIncrease | graph.py:73-82 | within a row the entries, and so a vertex's edges, come in strictly increasing column order |
| Graph.MatrixEntriesExact | graph.py:72-82 | an entry (i, j, d) is produced if and only if the matrix has d > 0 at row i, column j |
| Graph.VertexEntries | graph.py:72-82 | the entries of vertex i are exactly those of row i, in column order (none for a vertex without a row) |
| Graph.EdgesOf | graph.py:79-82 | at most one edge per entry, and exactly one per entry when every entry's column names a vertex |
| Graph.EdgesOfAppend | graph.py:82 | appending edges entry by entry distributes over concatenation |
| Graph.RowOfAppend | graph.py:79-82 | selecting the entries of one vertex distributes over concatenation |

## Left out

- The printing of `AVLTree.inorder` and every `__repr__` are left out. They only format strings; the pure `InOrder` functions serve as specification.
- main.py and first-search-main.py are not part of this model. They are command-line drivers, and the Dijkstra, path and breadth/depth-first search methods they call are not part of this model.
- Opening the file, splitting lines and `int()` parsing in `create_from_file` are left out. They are I/O. The file is given as its rows of integers, and a parse error is not modelled.
- Python exceptions become outcomes: `Failed(...)` in the AVL insert, `None` in the BST insert and the heap's `extract_min`, and `Some(IndexError)` in the graph. The NameError raised by the unqualified `DuplicatedKeyError` is modelled as the duplicate failure.
- Keys and heap elements are integers; the key `None` of an empty `Tree()` is the integer 0.
- BstSpec.Search, BstSpec.Remove, BinaryTree.Tree.Search, BinaryTree.Tree.Remove: on an empty `Tree()` with the key 0 these differ from tree.py. There `None == 0` is false (tree.py:61 and tree.py:92), so the search returns `None` and the removal returns the node. Here the node holds 0, so the search finds it and the removal gives the empty result. For every other key, and once an insertion has stored a key in the root, they agree.
- `sys.maxint` is modelled as the fixed constant 2^63 - 1 of a 64-bit Python 2.
- AvlTree.InsertLeft and AvlTree.InsertRight: when the recursive call raises, the Python parent never reassigns its child link. The model re-links the same child, which changes no field's value, so that the ghost abstraction can be refreshed.
- AvlTree.LeftRotate, AvlTree.RightRotate, AvlTree.LeftRightRotate, AvlTree.RightLeftRotate: these require the children they promote to exist. Python would raise AttributeError on None instead, most notably in the `left_rotate` that `left_right_rotate` calls (and the `right_rotate` inside `right_left_rotate`). Nothing is written before that raise. So AvlTree.Rebalance tests for the missing grandchild before calling a double rotation and returns the same failure, with the nodes as they were, as AvlSpec.Rebalance states.
- MinHeap.BinaryMinHeap.constructor: Python keeps a reference to the caller's list, so the caller sees every later swap and pop. The model copies the list's value, so that aliasing is not captured.
- HeapSpec.MinHeapifyOrders: the stated precondition is that every position after `idx` is ordered, not only those in the two subtrees below `idx`. This is the form `build_min_heap` needs, and it is weaker than the subtree-only statement.
- Graph.EdgesOf maps an entry whose column names no vertex to no edge. The construction never reaches such an entry, so this choice of a total function is not observable.
- Graph.Edge names its field `neighbor` where the source spells it `neighboor`. The Vertex field `label` is called `name` because `label` is a reserved word in Dafny.
- Garbage collection, object identity beyond the footprints, and concurrency are not modelled; the code is single-threaded.

## Findings

| source | as written | input that shows it | evidently intended | confidence | as-written member | corrected member |
|---|---|---|---|---|---|---|
| avl_tree.py:58-100 | the rotations relink nodes but never recompute the cached `height` of the two nodes they move, so later balance tests read stale heights and miss rotations | inserting any six increasing keys, such as 1, 2, 3, 4, 5, 6, into an empty tree: the root's left subtree has true height 1 and its right subtree true height 3 | after relinking, recompute the height of the lowered node and then of the new root, so that insertion keeps the AVL shape | not executed | AvlFixed.StaleHeightsUnbalance | AvlFixed.FixedInsertCorrect |
| avl_tree.py:82-90 | the stale heights also choose a left-right rotation at a node whose left child has no right child, and `left_rotate` then reads `.left` of `None` | inserting 1, 2, 3, 5, 4 into an empty tree: the right-left rotation at 3 gives the new subtree root 4 the cached height 1, node 2 then looks unbalanced towards its left, and the left-right rotation finds no right child below 1 | with heights recomputed, inserting a new key into an AVL tree never raises | not executed | AvlFixed.StaleHeightsCrash | AvlFixed.FixedInsertKeepsAvl |

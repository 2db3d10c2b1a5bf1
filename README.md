# SortedOrderedDict in Dafny

A model of `SortedOrderedDict`, a dictionary that keeps its entries both
sorted by key and in first-insertion order. Each `Node` belongs to two
structures at once:

- a **treap**: a binary search tree on `key` that is also a max-heap on a
  random `priority`, rebalanced by single rotations after each insertion;
- a **doubly linked list** of the nodes in first-insertion order, through
  `head`/`tail` on the dictionary and `prev`/`next` on the nodes.

The model is imperative, as the Python code is:

- `Node` is a class with mutable `value`, `left`, `right`, `prev` and `next`;
- `key` and `priority` are constants, because the Python code never
  reassigns them;
- the dictionary is a class with `root`, `head` and `tail`.

Four ghost fields give the heap structure its abstract meaning:

- `tree`: a `Tree` datatype mirroring the nodes reachable from `root`;
- `order`: the sequence of nodes on the list;
- `listed`: the same nodes as a set;
- `Repr`: the footprint.

On top of these, `Entries()` is the key-to-value map and `InsertionOrder()`
is the key sequence of the list.

`Valid()` ties the ghost fields to the heap and holds three invariants:

- the treap is a search tree on keys;
- it is a max-heap on priorities;
- the list visits exactly the tree's nodes (`listed` is the tree's node
  set, and `order` lists exactly `listed`).

That the treap holds at most one node per key is not a separate invariant:
it follows from the search-tree order (`OneNodePerKey`).

Every public operation (`Insert`, `Search`, `IterItemsSorted`,
`ToSortedList`) keeps `Valid()` and states its result against `Entries()`,
`InsertionOrder()` or the in-order item sequence `Items(tree)`.

Files:

- `treap.dfy` (module `Treap`): the key order, `Node`, the ghost `Tree` with
  its invariants and its abstractions (`Contents`, `Items`, `KeySet`,
  `NodeSet`), the rotations as tree functions with their preservation
  lemmas, and the `Linked` predicate for the insertion list.
- `treap_insert.dfy` (module `TreapOps`): `_insert_r` and the two rotations
  on heap nodes, each proved against `Inserted` / `Raised` / `RotatedRight`
  / `RotatedLeft`.
- `sorted_ordered_dict.dfy` (module `OrderedDict`): the dictionary class
  (`insert`, `search`, `_search`, `iteritems_sorted`, `to_sorted_list`,
  `__init__`) and a client round trip in the style of the repository's test.

Keys are `int` ordered by `<` (`LessThan`), the default comparator.
Priorities are a parameter of `Insert`, in the range `0..2000000000` that
`random.randint` draws from.

## Model

| member | source | states |
|---|---|---|
| Treap.LessThan | SortedOrderedDict.py:126-128 | the default compare_fn: true exactly when a < b |
| Treap.LessThanIsStrictTotalOrder | SortedOrderedDict.py:126-128 | the default comparator `a < b` is irreflexive, transitive, total and asymmetric, so with `==` it gives exactly one of the three branches used at lines 74-92 and 101-106 |
| Treap.Node.constructor | SortedOrderedDict.py:133-141 | a new node holds the given key, value and priority (priority in the `randint` range) and has no prev, next, left or right |
| Treap.WithValueKeepsShape | SortedOrderedDict.py:74-76 | replacing the value at a present key keeps the root, the nodes, the keys and the search order, and changes the map only at that key |
| Treap.OneNodePerKey | SortedOrderedDict.py:74-76 | in a search tree two nodes have the same key exactly when they are the same node, so a key that is already present is found at its one node |
| Treap.HeapBound | SortedOrderedDict.py:83-84 | in a heap-ordered tree no node has a priority above the root's |
| Treap.ContentsDescend | SortedOrderedDict.py:101-106 | at a node of a search tree, the key is the node's own key, or lies in the left subtree when it compares less, or in the right subtree otherwise; the stored value is found there |
| Treap.ItemsSorted | SortedOrderedDict.py:27-45 | the in-order items of a search tree have strictly ascending keys and list every entry of the tree's map exactly once, with its value |
| Treap.SortedEnumerationUnique | SortedOrderedDict.py:48-55 | two strictly ascending enumerations of the same map are equal, so the sorted list is determined by the entries alone |
| Treap.RotateRightKeepsNodes | SortedOrderedDict.py:111-116 | a right rotation keeps the set of nodes and the set of keys |
| Treap.RotateRightKeepsItems | SortedOrderedDict.py:111-116 | a right rotation keeps the in-order item sequence and the key-to-value map |
| Treap.RotateRightSearchTree | SortedOrderedDict.py:111-116 | a right rotation of a search tree is a search tree |
| Treap.RotateRightHeap | SortedOrderedDict.py:83-84 | a right rotation done because the left child outranks the root gives a heap-ordered tree, provided the rest of the tree was already in heap order |
| Treap.RotateLeftKeepsNodes | SortedOrderedDict.py:119-124 | a left rotation keeps the set of nodes and the set of keys |
| Treap.RotateLeftKeepsItems | SortedOrderedDict.py:119-124 | a left rotation keeps the in-order item sequence and the key-to-value map |
| Treap.RotateLeftSearchTree | SortedOrderedDict.py:119-124 | a left rotation of a search tree is a search tree |
| Treap.RotateLeftHeap | SortedOrderedDict.py:91-92 | a left rotation done because the right child outranks the root gives a heap-ordered tree, provided the rest of the tree was already in heap order |
| Treap.LinkedDistinct | SortedOrderedDict.py:64-70 | the prev/next chain from head to tail never visits a node twice |
| TreapOps.RotateRight | SortedOrderedDict.py:111-116 | the pointer swap turns the subtree into `RotatedRight` of it and returns the former left child as its new root |
| TreapOps.RotateLeft | SortedOrderedDict.py:119-124 | the pointer swap turns the subtree into `RotatedLeft` of it and returns the former right child as its new root |
| TreapOps.RaiseLeft | SortedOrderedDict.py:83-84 | after an insertion on the left, rotating right exactly when the left child's priority is higher gives a treap with the same nodes and entries; the subtree is untouched when no rotation is needed |
| TreapOps.RaiseRight | SortedOrderedDict.py:91-92 | the mirror image of RaiseLeft |
| TreapOps.InsertR | SortedOrderedDict.py:58-94 | inserting into a treap gives a treap (search order and heap order) whose map is the old one updated with key := value. A fresh node is made exactly when the key was absent, and it is the only new node. Otherwise the result is `WithValue` of the old tree: the same nodes in the same shape under the same root, with only that key's value replaced |
| TreapOps.InsertLeft | SortedOrderedDict.py:78-84 | the left branch of InsertR meets the same promise |
| TreapOps.InsertRight | SortedOrderedDict.py:86-92 | the right branch of InsertR meets the same promise |
| TreapOps.HangLeft | SortedOrderedDict.py:80 | `node.left = _insert_r(node.left, ...)`: the left subtree becomes an insertion result and hangs under the unchanged node |
| TreapOps.AttachedLeft | SortedOrderedDict.py:80 | re-hanging the new left subtree gives a search tree whose heap order can fail only at the root, and only against the new left child |
| TreapOps.RaisedLeft | SortedOrderedDict.py:78-84 | after the left branch rebalances, the result is what insertion into the whole subtree promises |
| TreapOps.RaisedLeftExisting | SortedOrderedDict.py:78-84 | when the key was already in the left subtree, the rebalanced left branch is the whole subtree with only that key's value replaced |
| TreapOps.RaisedRightExisting | SortedOrderedDict.py:86-92 | the mirror image of RaisedLeftExisting |
| TreapOps.HangRight | SortedOrderedDict.py:88 | the mirror image of HangLeft for the right subtree |
| TreapOps.AttachedRight | SortedOrderedDict.py:88 | the mirror image of AttachedLeft |
| TreapOps.RaisedRight | SortedOrderedDict.py:86-92 | the mirror image of RaisedLeft |
| OrderedDict.SortedOrderedDict.constructor | SortedOrderedDict.py:8-12 | a new dictionary is valid and empty: no root, no head, no tail, no entries, an empty insertion order |
| OrderedDict.SortedOrderedDict.InsertionOrderIsKeys | SortedOrderedDict.py:9-11 | the insertion list holds each stored key exactly once and no other key |
| OrderedDict.SortedOrderedDict.Insert | SortedOrderedDict.py:15-16 | keeps the dictionary valid and updates its map with key := value. A new key's fresh node becomes the tail: it is also the head when the list was empty, and otherwise head is unchanged and the old tail's next is linked to it. An existing key leaves root, list, head, tail and footprint unchanged, and the tree is the old one with only that key's value replaced (`WithValue`) |
| OrderedDict.SortedOrderedDict.Descend | SortedOrderedDict.py:16 | `root = _insert_r(root, ...)`: the map is updated with key := value; a node is returned exactly when the key was not in the tree's key set, and it still has to be linked in; for an existing key the root is unchanged and the tree keeps its shape with only that key's value replaced |
| OrderedDict.SortedOrderedDict.Link | SortedOrderedDict.py:59-72 | the one tree node not yet on the list joins it at the tail, which restores validity and appends its key to the insertion order |
| OrderedDict.SortedOrderedDict.Append | SortedOrderedDict.py:64-70 | the list gains the node at its tail: head and tail are both set when the list was empty; otherwise the old tail and the node are linked both ways |
| OrderedDict.SortedOrderedDict.SearchNode | SortedOrderedDict.py:97-108 | returns null exactly when the key is absent (including an empty tree); otherwise returns the tree node with that key and its stored value |
| OrderedDict.SortedOrderedDict.Search | SortedOrderedDict.py:20-23 | returns the stored value of a present key and None for an absent one; it has no modifies clause, so it changes nothing |
| OrderedDict.LaterPush | SortedOrderedDict.py:33-36 | pushing the current node and going left keeps what remains to be produced |
| OrderedDict.LaterPop | SortedOrderedDict.py:38-42 | popping a node, emitting its item and going right keeps what remains to be produced |
| OrderedDict.SortedOrderedDict.IterItemsSorted | SortedOrderedDict.py:27-45 | the stack walk terminates and produces exactly the in-order item sequence, which is strictly ascending in key and holds every entry exactly once with its value |
| OrderedDict.SortedOrderedDict.ToSortedList | SortedOrderedDict.py:48-55 | the list collected from the walk is exactly that sequence, strictly ascending and holding every entry once; it is the only such sequence for the current entries |
| OrderedDict.InsertThenSearch | test.py:14-21 | after inserting key with a value, searching key finds that value, and searching any other key finds what it found before |

The insertion is split differently from the Python code, with the same
effect:

- The Python code appends the new node to the list in `_insert_r`'s base
  case, before the rotations on the way up (lines 59-72).
- The model creates the node in `InsertR`'s base case and appends it
  (`Link`, `Append`) after the descent returns.
- Nothing reads the list during the descent, and the rotations write only
  `left` and `right`, so the final state is the same.

## Left out

- `PersistentDict.py`: file persistence around the dictionary; it is file
  I/O and is not part of this model.
- `test.py` is not modelled as a script. Its insert-then-search check is
  stated once, for any key and value, by `InsertThenSearch`.
- Random priorities: `random.randint(0, 2000000000)` becomes the
  `priority` parameter of `Insert`, required to lie in that range.
- Comparators: `compare_fn` is fixed to the default `less_than` on `int`
  keys; a caller-supplied comparator is not modelled.
- Generator laziness: `iteritems_sorted` yields its items one by one. The
  model returns the whole sequence at once, so mutating the dictionary
  during a traversal is not modelled.
- Search: the Python `search` returns the bare value, so a stored `None`
  cannot be told apart from a missing key. The model returns an `Option`,
  found or not found.
- Removal, reverse iteration and insertion-order iteration do not exist in
  this code and are not modelled.
- Intermediate states of an insertion: between `Descend` and `Link` the
  dictionary satisfies only `ValidBut(n)`, since the new node is in the tree
  but not yet on the list. The Python state is likewise halfway inside
  `_insert_r`, where the node is on the list before the rotations restore
  heap order. The model promises nothing about either halfway state.

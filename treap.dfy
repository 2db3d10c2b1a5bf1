/*
 * Nodes of the sorted ordered dictionary and the ghost view of the treap
 * they form: tree shape, binary-search-tree order on keys, max-heap order on
 * priorities, the key/value contents, the in-order item sequence and the
 * rotations used by insertion.
 */
module Treap {

  /** Largest priority a new node can draw (the range is 0 to this, inclusive). */
  const MaxPriority := 2000000000

  /** The dictionary's default ordering of keys. */
  function LessThan(a: int, b: int): bool {
    a < b
  }

  /** The default ordering is a strict total order that agrees with key equality. */
  lemma LessThanIsStrictTotalOrder(a: int, b: int, c: int)
    ensures !LessThan(a, a)
    ensures LessThan(a, b) && LessThan(b, c) ==> LessThan(a, c)
    ensures a == b || LessThan(a, b) || LessThan(b, a)
    ensures !(LessThan(a, b) && LessThan(b, a))
  {
  }

  /**
   * One entry of the dictionary. It is a treap node (key, value, priority,
   * left, right) and a cell of the insertion-order list (prev, next) at once.
   * Key and priority are fixed when the node is made.
   */
  class Node<V> {
    const key: int
    var value: V
    const priority: int
    var prev: Node?<V>
    var next: Node?<V>
    var left: Node?<V>
    var right: Node?<V>

    /** A fresh node with no neighbours in either structure. */
    constructor (key: int, value: V, priority: int)
      requires 0 <= priority <= MaxPriority
      ensures this.key == key && this.value == value && this.priority == priority
      ensures prev == null && next == null && left == null && right == null
    {
      this.key := key;
      this.value := value;
      this.priority := priority;
      prev := null;
      next := null;
      left := null;
      right := null;
    }
  }

  /**
   * Shape of a treap in the heap: every branch names the node at its root
   * and the value that node holds.
   */
  datatype Tree<V> = Leaf | Branch(left: Tree<V>, node: Node<V>, value: V, right: Tree<V>)

  /** The node a (sub)tree hangs from, null for the empty tree. */
  function Root<V>(t: Tree<V>): Node?<V> {
    if t.Leaf? then null else t.node
  }

  ghost function NodeSet<V>(t: Tree<V>): set<Node<V>> {
    match t
    case Leaf => {}
    case Branch(l, n, v, r) => NodeSet(l) + {n} + NodeSet(r)
  }

  ghost function KeySet<V>(t: Tree<V>): set<int> {
    match t
    case Leaf => {}
    case Branch(l, n, v, r) => KeySet(l) + {n.key} + KeySet(r)
  }

  /**
   * The heap nodes are laid out as t says: their left and right fields are
   * exactly the edges of t and their value fields the values t records.
   */
  ghost predicate Shaped<V>(t: Tree<V>)
    reads NodeSet(t)`left, NodeSet(t)`right, NodeSet(t)`value
  {
    match t
    case Leaf => true
    case Branch(l, n, v, r) =>
      n.left == Root(l) && n.right == Root(r) && n.value == v && Shaped(l) && Shaped(r)
  }

  /** Binary-search-tree order under LessThan. */
  ghost predicate SearchTree<V>(t: Tree<V>) {
    match t
    case Leaf => true
    case Branch(l, n, v, r) =>
      (forall k :: k in KeySet(l) ==> LessThan(k, n.key)) &&
      (forall k :: k in KeySet(r) ==> LessThan(n.key, k)) &&
      SearchTree(l) && SearchTree(r)
  }

  /** The root of t, if any, has priority at most p. */
  ghost predicate PriorityAtMost<V>(t: Tree<V>, p: int) {
    t.Leaf? || t.node.priority <= p
  }

  /** Max-heap order: every parent's priority is at least each child's. */
  ghost predicate HeapOrdered<V>(t: Tree<V>) {
    match t
    case Leaf => true
    case Branch(l, n, v, r) =>
      PriorityAtMost(l, n.priority) && PriorityAtMost(r, n.priority) &&
      HeapOrdered(l) && HeapOrdered(r)
  }

  /** The key-to-value map the tree stores. */
  ghost function Contents<V>(t: Tree<V>): map<int, V> {
    match t
    case Leaf => map[]
    case Branch(l, n, v, r) => Contents(l) + map[n.key := v] + Contents(r)
  }

  /** The (key, value) pairs in in-order (left, node, right). */
  ghost function Items<V>(t: Tree<V>): seq<(int, V)> {
    match t
    case Leaf => []
    case Branch(l, n, v, r) => Items(l) + [(n.key, v)] + Items(r)
  }

  /**
   * t with value put at key's branch, found by the search descent and
   * touching nothing else: the same nodes in the same shape.
   */
  ghost function WithValue<V>(t: Tree<V>, key: int, value: V): Tree<V> {
    match t
    case Leaf => Leaf
    case Branch(l, n, v, r) =>
      if key == n.key then Branch(l, n, value, r)
      else if LessThan(key, n.key) then Branch(WithValue(l, key, value), n, v, r)
      else Branch(l, n, v, WithValue(r, key, value))
  }

  /** Keys strictly increase along s under LessThan. */
  ghost predicate StrictlyAscending<V>(s: seq<(int, V)>) {
    forall i, j :: 0 <= i < j < |s| ==> LessThan(s[i].0, s[j].0)
  }

  /** Every pair of s is an entry of m, and every key of m occurs in s. */
  ghost predicate Enumerates<V>(s: seq<(int, V)>, m: map<int, V>) {
    (forall i :: 0 <= i < |s| ==> s[i].0 in m && m[s[i].0] == s[i].1) &&
    (forall k :: k in m ==> exists i :: 0 <= i < |s| && s[i].0 == k)
  }

  // ---------------------------------------------------------------------
  // Basic facts about the ghost tree

  lemma {:induction false} KeyOfNode<V>(t: Tree<V>, m: Node<V>)
    requires m in NodeSet(t)
    ensures m.key in KeySet(t)
  {
    match t
    case Branch(l, n, v, r) =>
      if m in NodeSet(l) {
        KeyOfNode(l, m);
      } else if m in NodeSet(r) {
        KeyOfNode(r, m);
      }
  }

  /** Every key of the tree is held by one of its nodes, the one returned. */
  lemma {:induction false} NodeOfKey<V>(t: Tree<V>, k: int) returns (m: Node<V>)
    requires k in KeySet(t)
    ensures m in NodeSet(t) && m.key == k
  {
    match t
    case Branch(l, n, v, r) =>
      if k in KeySet(l) {
        m := NodeOfKey(l, k);
      } else if k == n.key {
        m := n;
      } else {
        m := NodeOfKey(r, k);
      }
  }

  lemma {:induction false} ContentsDomain<V>(t: Tree<V>)
    ensures Contents(t).Keys == KeySet(t)
  {
    match t
    case Leaf =>
    case Branch(l, n, v, r) =>
      ContentsDomain(l);
      ContentsDomain(r);
  }

  /** Every node of a tree that exists is allocated. */
  lemma {:induction false} NodesAllocated<V>(t: Tree<V>)
    ensures forall n :: n in NodeSet(t) ==> allocated(n)
  {
    match t
    case Leaf =>
    case Branch(l, n, v, r) =>
      NodesAllocated(l);
      NodesAllocated(r);
  }

  /** The root of a search tree occurs in neither subtree, and the subtrees share no node. */
  lemma {:induction false} Apart<V>(t: Tree<V>)
    requires t.Branch? && SearchTree(t)
    ensures t.node !in NodeSet(t.left) && t.node !in NodeSet(t.right)
    ensures forall m :: m in NodeSet(t.left) ==> m !in NodeSet(t.right)
  {
    if t.node in NodeSet(t.left) {
      KeyOfNode(t.left, t.node);
    }
    if t.node in NodeSet(t.right) {
      KeyOfNode(t.right, t.node);
    }
    forall m | m in NodeSet(t.left) && m in NodeSet(t.right)
      ensures false
    {
      KeyOfNode(t.left, m);
      KeyOfNode(t.right, m);
    }
  }

  /** A key ordered before a search tree's root is not in its right subtree, and one after it not in the left. */
  lemma SidesOfRoot<V>(t: Tree<V>, k: int)
    requires t.Branch? && SearchTree(t)
    ensures LessThan(k, t.node.key) ==> k !in KeySet(t.right)
    ensures k != t.node.key && !LessThan(k, t.node.key) ==> k !in KeySet(t.left)
  {
  }

  /**
   * Overwriting the value of a present key keeps the root, the nodes, the
   * keys and the search order, and updates the map at that key alone.
   */
  lemma {:induction false} WithValueKeepsShape<V>(t: Tree<V>, key: int, value: V)
    requires SearchTree(t) && key in KeySet(t)
    ensures Root(WithValue(t, key, value)) == Root(t)
    ensures NodeSet(WithValue(t, key, value)) == NodeSet(t)
    ensures KeySet(WithValue(t, key, value)) == KeySet(t)
    ensures SearchTree(WithValue(t, key, value))
    ensures Contents(WithValue(t, key, value)) == Contents(t)[key := value]
  {
    match t
    case Branch(l, n, v, r) =>
      ContentsDomain(l);
      ContentsDomain(r);
      if key == n.key {
        UpdateMiddleOperand(Contents(l), Contents(r), key, v, value);
      } else if LessThan(key, n.key) {
        WithValueKeepsShape(l, key, value);
        UpdateLeftOperand(Contents(l), map[n.key := v], Contents(r), key, value);
      } else {
        WithValueKeepsShape(r, key, value);
        UpdateRightOperand(Contents(l), map[n.key := v], Contents(r), key, value);
      }
  }

  /** In a search tree, one node per key. */
  lemma {:induction false} OneNodePerKey<V>(t: Tree<V>, m1: Node<V>, m2: Node<V>)
    requires SearchTree(t) && m1 in NodeSet(t) && m2 in NodeSet(t)
    ensures m1.key == m2.key <==> m1 == m2
  {
    match t
    case Branch(l, n, v, r) =>
      if m1.key == m2.key {
        if m1 in NodeSet(l) {
          KeyOfNode(l, m1);
          if m2 in NodeSet(l) {
            OneNodePerKey(l, m1, m2);
          } else if m2 in NodeSet(r) {
            KeyOfNode(r, m2);
          }
        } else if m1 in NodeSet(r) {
          KeyOfNode(r, m1);
          if m2 in NodeSet(r) {
            OneNodePerKey(r, m1, m2);
          } else if m2 in NodeSet(l) {
            KeyOfNode(l, m2);
          }
        } else if m2 in NodeSet(l) {
          KeyOfNode(l, m2);
        } else if m2 in NodeSet(r) {
          KeyOfNode(r, m2);
        }
      }
  }

  /** In a heap-ordered tree no node has a higher priority than the root. */
  lemma {:induction false} HeapBound<V>(t: Tree<V>)
    requires t.Branch? && HeapOrdered(t)
    ensures forall m :: m in NodeSet(t) ==> m.priority <= t.node.priority
  {
    if t.left.Branch? {
      HeapBound(t.left);
    }
    if t.right.Branch? {
      HeapBound(t.right);
    }
  }

  // ---------------------------------------------------------------------
  // Lookup in a search tree

  /** Descending from a search tree's root finds exactly the entries of the side the key belongs to. */
  lemma {:induction false} ContentsDescend<V>(t: Tree<V>, k: int)
    requires t.Branch? && SearchTree(t)
    ensures k == t.node.key ==> k in Contents(t) && Contents(t)[k] == t.value
    ensures LessThan(k, t.node.key) ==>
      (k in Contents(t) <==> k in Contents(t.left)) &&
      (k in Contents(t.left) ==> Contents(t)[k] == Contents(t.left)[k])
    ensures k != t.node.key && !LessThan(k, t.node.key) ==>
      (k in Contents(t) <==> k in Contents(t.right)) &&
      (k in Contents(t.right) ==> Contents(t)[k] == Contents(t.right)[k])
  {
    ContentsDomain(t.left);
    ContentsDomain(t.right);
  }

  // ---------------------------------------------------------------------
  // The in-order item sequence

  /** Every key met along the in-order items is a key of the tree. */
  lemma {:induction false} ItemKeys<V>(t: Tree<V>)
    ensures forall i :: 0 <= i < |Items(t)| ==> Items(t)[i].0 in KeySet(t)
  {
    match t
    case Leaf =>
    case Branch(l, n, v, r) =>
      ItemKeys(l);
      ItemKeys(r);
      var sl, sr, s := Items(l), Items(r), Items(t);
      assert s == sl + [(n.key, v)] + sr;
      forall i | 0 <= i < |s|
        ensures s[i].0 in KeySet(t)
      {
        if i < |sl| {
          assert s[i] == sl[i];
        } else if i > |sl| {
          assert s[i] == sr[i - |sl| - 1];
        }
      }
  }

  /** Every key of the tree is met along the in-order items, at the position returned. */
  lemma {:induction false} ItemIndex<V>(t: Tree<V>, k: int) returns (i: nat)
    requires k in KeySet(t)
    ensures i < |Items(t)| && Items(t)[i].0 == k
  {
    match t
    case Branch(l, n, v, r) =>
      var sl, sr := Items(l), Items(r);
      assert Items(t) == sl + [(n.key, v)] + sr;
      if k in KeySet(l) {
        i := ItemIndex(l, k);
        assert Items(t)[i] == sl[i];
      } else if k == n.key {
        i := |sl|;
      } else {
        var j := ItemIndex(r, k);
        i := |sl| + 1 + j;
        assert Items(t)[i] == sr[j];
      }
  }

  /** The in-order items of a search tree have strictly ascending keys. */
  lemma {:induction false} ItemsAscending<V>(t: Tree<V>)
    requires SearchTree(t)
    ensures StrictlyAscending(Items(t))
  {
    match t
    case Leaf =>
    case Branch(l, n, v, r) =>
      ItemsAscending(l);
      ItemsAscending(r);
      ItemKeys(l);
      ItemKeys(r);
      var sl, sr, s := Items(l), Items(r), Items(t);
      assert s == sl + [(n.key, v)] + sr;
      forall i, j | 0 <= i < j < |s|
        ensures LessThan(s[i].0, s[j].0)
      {
        if j < |sl| {
          assert s[i] == sl[i] && s[j] == sl[j];
        } else if i > |sl| {
          assert s[i] == sr[i - |sl| - 1] && s[j] == sr[j - |sl| - 1];
        } else {
          assert i < |sl| ==> s[i] == sl[i];
          assert j > |sl| ==> s[j] == sr[j - |sl| - 1];
        }
      }
  }

  /** Each in-order item of a search tree carries the value the tree stores for its key. */
  lemma {:induction false} ItemValues<V>(t: Tree<V>)
    requires SearchTree(t)
    ensures forall i :: 0 <= i < |Items(t)| ==> Items(t)[i].0 in Contents(t) && Contents(t)[Items(t)[i].0] == Items(t)[i].1
  {
    match t
    case Leaf =>
    case Branch(l, n, v, r) =>
      ItemValues(l);
      ItemValues(r);
      ItemKeys(l);
      ItemKeys(r);
      var sl, sr, s := Items(l), Items(r), Items(t);
      assert s == sl + [(n.key, v)] + sr;
      forall i | 0 <= i < |s|
        ensures s[i].0 in Contents(t) && Contents(t)[s[i].0] == s[i].1
      {
        ContentsDescend(t, s[i].0);
        if i < |sl| {
          assert s[i] == sl[i];
        } else if i > |sl| {
          assert s[i] == sr[i - |sl| - 1];
        }
      }
  }

  /**
   * The in-order items of a search tree are strictly ascending by key and
   * list every stored entry: each entry exactly once.
   */
  lemma ItemsSorted<V>(t: Tree<V>)
    requires SearchTree(t)
    ensures StrictlyAscending(Items(t))
    ensures Enumerates(Items(t), Contents(t))
  {
    ItemsAscending(t);
    ItemKeys(t);
    forall k | k in KeySet(t)
      ensures exists i :: 0 <= i < |Items(t)| && Items(t)[i].0 == k
    {
      var i := ItemIndex(t, k);
    }
    ItemValues(t);
    ContentsDomain(t);
  }

  /** Dropping the first item of a strictly ascending enumeration enumerates the rest of the map. */
  lemma EnumerationTail<V>(s: seq<(int, V)>, m: map<int, V>)
    requires s != [] && StrictlyAscending(s) && Enumerates(s, m)
    ensures StrictlyAscending(s[1..]) && Enumerates(s[1..], m - {s[0].0})
  {
    var t, m' := s[1..], m - {s[0].0};
    forall x | 0 <= x < |t|
      ensures t[x].0 in m' && m'[t[x].0] == t[x].1
    {
      assert t[x] == s[x + 1];
      assert LessThan(s[0].0, s[x + 1].0);
    }
    forall k | k in m'
      ensures exists x :: 0 <= x < |t| && t[x].0 == k
    {
      var x :| 0 <= x < |s| && s[x].0 == k;
      assert t[x - 1] == s[x];
    }
  }

  /** Two strictly ascending enumerations of one map start with the same item. */
  lemma EnumerationHead<V>(s1: seq<(int, V)>, s2: seq<(int, V)>, m: map<int, V>)
    requires s1 != [] && StrictlyAscending(s1) && Enumerates(s1, m)
    requires StrictlyAscending(s2) && Enumerates(s2, m)
    ensures s2 != [] && s1[0] == s2[0]
  {
    assert s1[0].0 in m;
    var j :| 0 <= j < |s2| && s2[j].0 == s1[0].0;
    assert s2[0].0 in m;
    var i :| 0 <= i < |s1| && s1[i].0 == s2[0].0;
    assert i > 0 ==> LessThan(s1[0].0, s1[i].0);
    assert j > 0 ==> LessThan(s2[0].0, s2[j].0);
    assert i == 0;
  }

  /**
   * A strictly ascending enumeration of a map is unique: the sorted item
   * sequence is determined by the contents alone, whatever the tree's shape.
   */
  lemma {:induction false} SortedEnumerationUnique<V>(s1: seq<(int, V)>, s2: seq<(int, V)>, m: map<int, V>)
    requires StrictlyAscending(s1) && Enumerates(s1, m)
    requires StrictlyAscending(s2) && Enumerates(s2, m)
    ensures s1 == s2
    decreases |s1|
  {
    if s1 == [] {
      if s2 != [] {
        EnumerationHead(s2, s1, m);
      }
    } else {
      EnumerationHead(s1, s2, m);
      EnumerationTail(s1, m);
      EnumerationTail(s2, m);
      SortedEnumerationUnique(s1[1..], s2[1..], m - {s1[0].0});
      assert s1 == [s1[0]] + s1[1..] && s2 == [s2[0]] + s2[1..];
    }
  }

  // ---------------------------------------------------------------------
  // Rotations

  lemma UnionAssociates<K, W>(a: map<K, W>, b: map<K, W>, c: map<K, W>)
    ensures a + b + c == a + (b + c)
  {
  }

  /** Updating a key that only the left operand of a union can hold. */
  lemma UpdateLeftOperand<K, W>(a: map<K, W>, b: map<K, W>, c: map<K, W>, k: K, v: W)
    requires k !in b && k !in c
    ensures (a + b + c)[k := v] == a[k := v] + b + c
  {
  }

  /** Updating the key of the middle singleton of a union. */
  lemma UpdateMiddleOperand<K, W>(a: map<K, W>, c: map<K, W>, k: K, v0: W, v: W)
    requires k !in c
    ensures (a + map[k := v0] + c)[k := v] == a + map[k := v] + c
  {
  }

  /** Updating a key in the right operand of a union. */
  lemma UpdateRightOperand<K, W>(a: map<K, W>, b: map<K, W>, c: map<K, W>, k: K, v: W)
    ensures (a + b + c)[k := v] == a + b + c[k := v]
  {
  }

  function RotatedRight<V>(t: Tree<V>): Tree<V>
    requires t.Branch? && t.left.Branch?
  {
    Branch(t.left.left, t.left.node, t.left.value, Branch(t.left.right, t.node, t.value, t.right))
  }

  function RotatedLeft<V>(t: Tree<V>): Tree<V>
    requires t.Branch? && t.right.Branch?
  {
    Branch(Branch(t.left, t.node, t.value, t.right.left), t.right.node, t.right.value, t.right.right)
  }

  /** A right rotation keeps the set of nodes and of keys. */
  lemma {:induction false} RotateRightKeepsNodes<V>(t: Tree<V>)
    requires t.Branch? && t.left.Branch?
    ensures NodeSet(RotatedRight(t)) == NodeSet(t)
    ensures KeySet(RotatedRight(t)) == KeySet(t)
  {
  }

  /** A right rotation keeps the contents and the in-order items. */
  lemma {:induction false} RotateRightKeepsItems<V>(t: Tree<V>)
    requires t.Branch? && t.left.Branch?
    ensures Items(RotatedRight(t)) == Items(t)
    ensures Contents(RotatedRight(t)) == Contents(t)
  {
    var l := t.left;
    var a, b, r := l.left, l.right, t.right;
    var c, p := (l.node.key, l.value), (t.node.key, t.value);
    assert Items(RotatedRight(t)) == Items(a) + [c] + (Items(b) + [p] + Items(r));
    assert Items(t) == (Items(a) + [c] + Items(b)) + [p] + Items(r);
    UnionAssociates(Contents(a) + map[c.0 := c.1], Contents(b), map[p.0 := p.1]);
    UnionAssociates(Contents(a) + map[c.0 := c.1], Contents(b) + map[p.0 := p.1], Contents(r));
  }

  /** A right rotation keeps binary-search-tree order. */
  lemma {:induction false} RotateRightSearchTree<V>(t: Tree<V>)
    requires t.Branch? && t.left.Branch? && SearchTree(t)
    ensures SearchTree(RotatedRight(t))
  {
    var l := t.left;
    assert SearchTree(Branch(l.right, t.node, t.value, t.right));
  }

  /** A left rotation keeps the set of nodes and of keys. */
  lemma {:induction false} RotateLeftKeepsNodes<V>(t: Tree<V>)
    requires t.Branch? && t.right.Branch?
    ensures NodeSet(RotatedLeft(t)) == NodeSet(t)
    ensures KeySet(RotatedLeft(t)) == KeySet(t)
  {
  }

  /** A left rotation keeps the contents and the in-order items. */
  lemma {:induction false} RotateLeftKeepsItems<V>(t: Tree<V>)
    requires t.Branch? && t.right.Branch?
    ensures Items(RotatedLeft(t)) == Items(t)
    ensures Contents(RotatedLeft(t)) == Contents(t)
  {
    var r := t.right;
    var a, b, c := t.left, r.left, r.right;
    var p, q := (t.node.key, t.value), (r.node.key, r.value);
    assert Items(RotatedLeft(t)) == (Items(a) + [p] + Items(b)) + [q] + Items(c);
    assert Items(t) == Items(a) + [p] + (Items(b) + [q] + Items(c));
    UnionAssociates(Contents(a) + map[p.0 := p.1], Contents(b), map[q.0 := q.1]);
    UnionAssociates(Contents(a) + map[p.0 := p.1], Contents(b) + map[q.0 := q.1], Contents(c));
  }

  /** A left rotation keeps binary-search-tree order. */
  lemma {:induction false} RotateLeftSearchTree<V>(t: Tree<V>)
    requires t.Branch? && t.right.Branch? && SearchTree(t)
    ensures SearchTree(RotatedLeft(t))
  {
    var r := t.right;
    assert SearchTree(Branch(t.left, t.node, t.value, r.left));
  }

  /**
   * Rotating a higher-priority left child above its parent restores heap
   * order, when the child's right subtree and the parent's right subtree
   * already sit below the parent's priority.
   */
  lemma {:induction false} RotateRightHeap<V>(t: Tree<V>)
    requires t.Branch? && t.left.Branch?
    requires HeapOrdered(t.left) && HeapOrdered(t.right)
    requires PriorityAtMost(t.right, t.node.priority) && PriorityAtMost(t.left.right, t.node.priority)
    requires t.node.priority < t.left.node.priority
    ensures HeapOrdered(RotatedRight(t))
  {
  }

  /** Mirror image of RotateRightHeap. */
  lemma {:induction false} RotateLeftHeap<V>(t: Tree<V>)
    requires t.Branch? && t.right.Branch?
    requires HeapOrdered(t.left) && HeapOrdered(t.right)
    requires PriorityAtMost(t.left, t.node.priority) && PriorityAtMost(t.right.left, t.node.priority)
    requires t.node.priority < t.right.node.priority
    ensures HeapOrdered(RotatedLeft(t))
  {
  }

  // ---------------------------------------------------------------------
  // The insertion-order list

  /** The keys of a sequence of nodes, in order. */
  ghost function KeysOf<V>(s: seq<Node<V>>): seq<int> {
    seq(|s|, i requires 0 <= i < |s| => s[i].key)
  }

  /**
   * The prev/next chain runs through order from head to tail; head and tail
   * are null exactly when the list is empty.
   */
  ghost predicate Linked<V>(order: seq<Node<V>>, head: Node?<V>, tail: Node?<V>)
    reads (set n | n in order)`prev, (set n | n in order)`next
  {
    (order == [] ==> head == null && tail == null) &&
    (order != [] ==>
      head == order[0] && tail == order[|order| - 1] &&
      head.prev == null && tail.next == null) &&
    (forall i, j :: 0 <= i && j == i + 1 && j < |order| ==> order[i].next == order[j] && order[j].prev == order[i])
  }

  /** Two positions of a linked list hold different nodes: from the later one, next reaches null sooner. */
  lemma {:induction false} LinkedDistinctAt<V>(order: seq<Node<V>>, head: Node?<V>, tail: Node?<V>, i: nat, j: nat)
    requires Linked(order, head, tail) && i < j < |order|
    ensures order[i] != order[j]
    decreases |order| - j
  {
    assert order[i].next == order[i + 1];
    if j + 1 < |order| {
      assert order[j].next == order[j + 1];
      LinkedDistinctAt(order, head, tail, i + 1, j + 1);
    }
  }

  /** A linked list visits no node twice: the chain has no cycle. */
  lemma LinkedDistinct<V>(order: seq<Node<V>>, head: Node?<V>, tail: Node?<V>)
    requires Linked(order, head, tail)
    ensures forall i, j :: 0 <= i < j < |order| ==> order[i] != order[j]
  {
    forall i, j | 0 <= i < j < |order|
      ensures order[i] != order[j]
    {
      LinkedDistinctAt(order, head, tail, i, j);
    }
  }
}

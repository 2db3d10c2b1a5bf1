/*
 * The treap insertion on heap nodes: recursive descent, then the two
 * single rotations on the way back up.
 */
module TreapOps {
  import opened Treap

  /**
   * What insertion into t promises of the new tree t': it is a treap
   * holding t's entries updated with key := value, and a new node was made
   * exactly when key was absent. For an existing key t' is t with only
   * that key's value replaced.
   */
  ghost predicate Inserted<V>(t: Tree<V>, t': Tree<V>, key: int, value: V, priority: int, added: Node?<V>) {
    t'.Branch? && SearchTree(t') && HeapOrdered(t') &&
    KeySet(t') == KeySet(t) + {key} &&
    Contents(t') == Contents(t)[key := value] &&
    (key in KeySet(t) ==>
      added == null && NodeSet(t') == NodeSet(t) && t'.node == Root(t) && t' == WithValue(t, key, value)) &&
    (key !in KeySet(t) ==>
      added != null && added !in NodeSet(t) && NodeSet(t') == NodeSet(t) + {added} &&
      added.key == key && added.priority == priority &&
      (t'.node == Root(t) || t'.node == added))
  }

  /**
   * t' is t with heap order restored at its root: the same nodes, keys and
   * entries in a treap rooted at t's root or at its child c, and t itself
   * when c did not outrank the root.
   */
  ghost predicate Raised<V>(t: Tree<V>, t': Tree<V>, c: Node<V>) {
    t.Branch? && t'.Branch? && SearchTree(t') && HeapOrdered(t') &&
    NodeSet(t') == NodeSet(t) && KeySet(t') == KeySet(t) && Contents(t') == Contents(t) &&
    (t'.node == t.node || t'.node == c) &&
    (c.priority <= t.node.priority ==> t' == t)
  }

  /**
   * Inserts key into the subtree t hanging from node and returns the new
   * subtree root. A new key gets a fresh node, which the way back up
   * rotates above every ancestor of lower priority.
   */
  method InsertR<V>(node: Node?<V>, ghost t: Tree<V>, key: int, value: V, priority: int)
    returns (res: Node<V>, ghost t': Tree<V>, added: Node?<V>)
    requires 0 <= priority <= MaxPriority
    requires node == Root(t) && Shaped(t) && SearchTree(t) && HeapOrdered(t)
    modifies NodeSet(t)`left, NodeSet(t)`right, NodeSet(t)`value
    ensures Inserted(t, t', key, value, priority, added)
    ensures res == t'.node && Shaped(t')
    ensures added != null ==> fresh(added) && added.value == value && added.prev == null && added.next == null
    decreases t, 2
  {
    if node == null {
      res := new Node(key, value, priority);
      t' := Branch(Leaf, res, value, Leaf);
      added := res;
    } else if key == node.key {
      NodesAllocated(t);
      Apart(t);
      ContentsDomain(t.right);
      node.value := value;
      UpdateMiddleOperand(Contents(t.left), Contents(t.right), key, t.value, value);
      t' := Branch(t.left, node, value, t.right);
      res, added := node, null;
    } else if LessThan(key, node.key) {
      res, t', added := InsertLeft(node, t, key, value, priority);
    } else {
      res, t', added := InsertRight(node, t, key, value, priority);
    }
  }

  /** InsertR where key belongs to the left of node. */
  method InsertLeft<V>(node: Node<V>, ghost t: Tree<V>, key: int, value: V, priority: int)
    returns (res: Node<V>, ghost t': Tree<V>, added: Node?<V>)
    requires 0 <= priority <= MaxPriority
    requires t.Branch? && node == t.node && LessThan(key, node.key)
    requires Shaped(t) && SearchTree(t) && HeapOrdered(t)
    modifies NodeSet(t)`left, NodeSet(t)`right, NodeSet(t)`value
    ensures Inserted(t, t', key, value, priority, added)
    ensures res == t'.node && Shaped(t')
    ensures added != null ==> fresh(added) && added.value == value && added.prev == null && added.next == null
    decreases t, 1
  {
    ghost var lt;
    lt, added := HangLeft(node, t, key, value, priority);
    ghost var nt := Branch(lt, node, t.value, t.right);
    AttachedLeft(t, lt, key, value, priority, added);
    res, t' := RaiseLeft(node, nt);
    RaisedLeft(t, lt, t', key, value, priority, added);
  }

  /** Inserts key into node's left subtree and hangs the result back under node. */
  method HangLeft<V>(node: Node<V>, ghost t: Tree<V>, key: int, value: V, priority: int)
    returns (ghost lt: Tree<V>, added: Node?<V>)
    requires 0 <= priority <= MaxPriority
    requires t.Branch? && node == t.node
    requires Shaped(t) && SearchTree(t) && HeapOrdered(t)
    modifies NodeSet(t)`left, NodeSet(t)`right, NodeSet(t)`value
    ensures Inserted(t.left, lt, key, value, priority, added)
    ensures Shaped(Branch(lt, node, t.value, t.right))
    ensures added != null ==> fresh(added) && added.value == value && added.prev == null && added.next == null
    decreases t, 0
  {
    NodesAllocated(t);
    Apart(t);
    var l;
    l, lt, added := InsertR(node.left, t.left, key, value, priority);
    node.left := l;
  }

  /** InsertR where key belongs to the right of node. */
  method InsertRight<V>(node: Node<V>, ghost t: Tree<V>, key: int, value: V, priority: int)
    returns (res: Node<V>, ghost t': Tree<V>, added: Node?<V>)
    requires 0 <= priority <= MaxPriority
    requires t.Branch? && node == t.node && key != node.key && !LessThan(key, node.key)
    requires Shaped(t) && SearchTree(t) && HeapOrdered(t)
    modifies NodeSet(t)`left, NodeSet(t)`right, NodeSet(t)`value
    ensures Inserted(t, t', key, value, priority, added)
    ensures res == t'.node && Shaped(t')
    ensures added != null ==> fresh(added) && added.value == value && added.prev == null && added.next == null
    decreases t, 1
  {
    ghost var rt;
    rt, added := HangRight(node, t, key, value, priority);
    ghost var nt := Branch(t.left, node, t.value, rt);
    AttachedRight(t, rt, key, value, priority, added);
    res, t' := RaiseRight(node, nt);
    RaisedRight(t, rt, t', key, value, priority, added);
  }

  /** Inserts key into node's right subtree and hangs the result back under node. */
  method HangRight<V>(node: Node<V>, ghost t: Tree<V>, key: int, value: V, priority: int)
    returns (ghost rt: Tree<V>, added: Node?<V>)
    requires 0 <= priority <= MaxPriority
    requires t.Branch? && node == t.node
    requires Shaped(t) && SearchTree(t) && HeapOrdered(t)
    modifies NodeSet(t)`left, NodeSet(t)`right, NodeSet(t)`value
    ensures Inserted(t.right, rt, key, value, priority, added)
    ensures Shaped(Branch(t.left, node, t.value, rt))
    ensures added != null ==> fresh(added) && added.value == value && added.prev == null && added.next == null
    decreases t, 0
  {
    NodesAllocated(t);
    Apart(t);
    var r;
    r, rt, added := InsertR(node.right, t.right, key, value, priority);
    node.right := r;
  }

  /**
   * Hanging the result lt of inserting into t's left subtree back under
   * t's root gives a search tree holding t's entries updated with key,
   * whose heap order can only fail at the root.
   */
  lemma AttachedLeft<V>(t: Tree<V>, lt: Tree<V>, key: int, value: V, priority: int, a: Node?<V>)
    requires t.Branch? && LessThan(key, t.node.key) && SearchTree(t) && HeapOrdered(t)
    requires Inserted(t.left, lt, key, value, priority, a)
    ensures SearchTree(Branch(lt, t.node, t.value, t.right)) && HeapOrdered(lt) && HeapOrdered(t.right)
    ensures PriorityAtMost(t.right, t.node.priority)
    ensures t.node.priority < lt.node.priority ==> PriorityAtMost(lt.right, t.node.priority)
  {
    if t.node.priority < lt.node.priority {
      InsertedAbove(t.left, lt, a, t.node.priority);
    }
  }

  /**
   * Once the root of the reattached tree has been raised as needed, the
   * result is what inserting key into t promises.
   */
  lemma RaisedLeft<V>(t: Tree<V>, lt: Tree<V>, t': Tree<V>, key: int, value: V, priority: int, a: Node?<V>)
    requires t.Branch? && LessThan(key, t.node.key) && SearchTree(t) && HeapOrdered(t)
    requires Inserted(t.left, lt, key, value, priority, a)
    requires Raised(Branch(lt, t.node, t.value, t.right), t', lt.node)
    ensures Inserted(t, t', key, value, priority, a)
  {
    RaisedLeftEntries(t, lt, t', key, value, priority, a);
    GrowLeft(t, lt, key, a);
    if key in KeySet(t) {
      RaisedLeftExisting(t, lt, t', key, value, priority);
    }
    if a != null && a in NodeSet(t.right) {
      KeyOfNode(t.right, a);
    }
    if t.node.priority < lt.node.priority {
      InsertedAbove(t.left, lt, a, t.node.priority);
    }
  }

  /**
   * The existing-key part of RaisedLeft: the left subtree only had a value
   * replaced, its root still does not outrank t's, so nothing rotates.
   */
  lemma RaisedLeftExisting<V>(t: Tree<V>, lt: Tree<V>, t': Tree<V>, key: int, value: V, priority: int)
    requires t.Branch? && LessThan(key, t.node.key) && SearchTree(t) && HeapOrdered(t)
    requires key in KeySet(t)
    requires Inserted(t.left, lt, key, value, priority, null)
    requires Raised(Branch(lt, t.node, t.value, t.right), t', lt.node)
    ensures t' == WithValue(t, key, value)
  {
    SidesOfRoot(t, key);
    assert key in KeySet(t.left);
  }

  /** The entries part of RaisedLeft. */
  lemma RaisedLeftEntries<V>(t: Tree<V>, lt: Tree<V>, t': Tree<V>, key: int, value: V, priority: int, a: Node?<V>)
    requires t.Branch? && LessThan(key, t.node.key) && SearchTree(t)
    requires Contents(lt) == Contents(t.left)[key := value]
    requires Contents(t') == Contents(Branch(lt, t.node, t.value, t.right))
    ensures key !in KeySet(t.right)
    ensures Contents(t') == Contents(t)[key := value]
  {
    ContentsDomain(t.right);
    SidesOfRoot(t, key);
    UpdateLeftOperand(Contents(t.left), map[t.node.key := t.value], Contents(t.right), key, value);
  }

  /** Mirror image of AttachedLeft. */
  lemma AttachedRight<V>(t: Tree<V>, rt: Tree<V>, key: int, value: V, priority: int, a: Node?<V>)
    requires t.Branch? && key != t.node.key && !LessThan(key, t.node.key) && SearchTree(t) && HeapOrdered(t)
    requires Inserted(t.right, rt, key, value, priority, a)
    ensures SearchTree(Branch(t.left, t.node, t.value, rt)) && HeapOrdered(t.left) && HeapOrdered(rt)
    ensures PriorityAtMost(t.left, t.node.priority)
    ensures t.node.priority < rt.node.priority ==> PriorityAtMost(rt.left, t.node.priority)
  {
    if t.node.priority < rt.node.priority {
      InsertedAbove(t.right, rt, a, t.node.priority);
    }
  }

  /** Mirror image of RaisedLeft. */
  lemma RaisedRight<V>(t: Tree<V>, rt: Tree<V>, t': Tree<V>, key: int, value: V, priority: int, a: Node?<V>)
    requires t.Branch? && key != t.node.key && !LessThan(key, t.node.key) && SearchTree(t) && HeapOrdered(t)
    requires Inserted(t.right, rt, key, value, priority, a)
    requires Raised(Branch(t.left, t.node, t.value, rt), t', rt.node)
    ensures Inserted(t, t', key, value, priority, a)
  {
    RaisedRightEntries(t, rt, t', key, value, priority, a);
    GrowRight(t, rt, key, a);
    if key in KeySet(t) {
      RaisedRightExisting(t, rt, t', key, value, priority);
    }
    if a != null && a in NodeSet(t.left) {
      KeyOfNode(t.left, a);
    }
    if t.node.priority < rt.node.priority {
      InsertedAbove(t.right, rt, a, t.node.priority);
    }
  }

  /** Mirror image of RaisedLeftExisting. */
  lemma RaisedRightExisting<V>(t: Tree<V>, rt: Tree<V>, t': Tree<V>, key: int, value: V, priority: int)
    requires t.Branch? && key != t.node.key && !LessThan(key, t.node.key) && SearchTree(t) && HeapOrdered(t)
    requires key in KeySet(t)
    requires Inserted(t.right, rt, key, value, priority, null)
    requires Raised(Branch(t.left, t.node, t.value, rt), t', rt.node)
    ensures t' == WithValue(t, key, value)
  {
    SidesOfRoot(t, key);
    assert key in KeySet(t.right);
  }

  /** The entries part of RaisedRight. */
  lemma RaisedRightEntries<V>(t: Tree<V>, rt: Tree<V>, t': Tree<V>, key: int, value: V, priority: int, a: Node?<V>)
    requires t.Branch? && key != t.node.key && !LessThan(key, t.node.key) && SearchTree(t)
    requires Contents(rt) == Contents(t.right)[key := value]
    requires Contents(t') == Contents(Branch(t.left, t.node, t.value, rt))
    ensures key !in KeySet(t.left)
    ensures Contents(t') == Contents(t)[key := value]
  {
    ContentsDomain(t.left);
    SidesOfRoot(t, key);
    UpdateRightOperand(Contents(t.left), map[t.node.key := t.value], Contents(t.right), key, value);
  }

  /** Growing the left subtree of t by key (and node a, when new) grows t by the same. */
  lemma GrowLeft<V>(t: Tree<V>, lt: Tree<V>, key: int, a: Node?<V>)
    requires t.Branch? && KeySet(lt) == KeySet(t.left) + {key}
    requires key in KeySet(t.left) ==> NodeSet(lt) == NodeSet(t.left)
    requires key !in KeySet(t.left) ==> NodeSet(lt) == NodeSet(t.left) + {a}
    ensures KeySet(Branch(lt, t.node, t.value, t.right)) == KeySet(t) + {key}
    ensures key in KeySet(t.left) ==> NodeSet(Branch(lt, t.node, t.value, t.right)) == NodeSet(t)
    ensures key !in KeySet(t.left) ==> NodeSet(Branch(lt, t.node, t.value, t.right)) == NodeSet(t) + {a}
  {
  }

  /** Mirror image of GrowLeft. */
  lemma GrowRight<V>(t: Tree<V>, rt: Tree<V>, key: int, a: Node?<V>)
    requires t.Branch? && KeySet(rt) == KeySet(t.right) + {key}
    requires key in KeySet(t.right) ==> NodeSet(rt) == NodeSet(t.right)
    requires key !in KeySet(t.right) ==> NodeSet(rt) == NodeSet(t.right) + {a}
    ensures KeySet(Branch(t.left, t.node, t.value, rt)) == KeySet(t) + {key}
    ensures key in KeySet(t.right) ==> NodeSet(Branch(t.left, t.node, t.value, rt)) == NodeSet(t)
    ensures key !in KeySet(t.right) ==> NodeSet(Branch(t.left, t.node, t.value, rt)) == NodeSet(t) + {a}
  {
  }

  /**
   * Restores heap order at node after its left subtree changed: rotates
   * right when the left child now has the higher priority.
   */
  method RaiseLeft<V>(node: Node<V>, ghost t: Tree<V>) returns (res: Node<V>, ghost t': Tree<V>)
    requires t.Branch? && t.node == node && t.left.Branch?
    requires Shaped(t) && SearchTree(t) && HeapOrdered(t.left) && HeapOrdered(t.right)
    requires PriorityAtMost(t.right, node.priority)
    requires node.priority < t.left.node.priority ==> PriorityAtMost(t.left.right, node.priority)
    modifies node`left, t.left.node`right
    ensures Raised(t, t', t.left.node)
    ensures res == t'.node && Shaped(t')
  {
    if node.priority < node.left.priority {
      RotateRightHeap(t);
      RotateRightKeepsNodes(t);
      RotateRightSearchTree(t);
      RotateRightKeepsItems(t);
      res, t' := RotateRight(node, t);
    } else {
      res, t' := node, t;
    }
  }

  /** Mirror image of RaiseLeft. */
  method RaiseRight<V>(node: Node<V>, ghost t: Tree<V>) returns (res: Node<V>, ghost t': Tree<V>)
    requires t.Branch? && t.node == node && t.right.Branch?
    requires Shaped(t) && SearchTree(t) && HeapOrdered(t.left) && HeapOrdered(t.right)
    requires PriorityAtMost(t.left, node.priority)
    requires node.priority < t.right.node.priority ==> PriorityAtMost(t.right.left, node.priority)
    modifies node`right, t.right.node`left
    ensures Raised(t, t', t.right.node)
    ensures res == t'.node && Shaped(t')
  {
    if node.priority < node.right.priority {
      RotateLeftHeap(t);
      RotateLeftKeepsNodes(t);
      RotateLeftSearchTree(t);
      RotateLeftKeepsItems(t);
      res, t' := RotateLeft(node, t);
    } else {
      res, t' := node, t;
    }
  }

  /**
   * After inserting into a subtree whose priorities are all at most p, a
   * root of priority above p can only be the new node, and everything
   * below that root still has priority at most p.
   */
  lemma InsertedAbove<V>(t: Tree<V>, t': Tree<V>, added: Node?<V>, p: int)
    requires HeapOrdered(t) && PriorityAtMost(t, p) && t'.Branch? && SearchTree(t')
    requires t'.node.priority > p
    requires added != null ==> NodeSet(t') == NodeSet(t) + {added} && added !in NodeSet(t)
    requires added == null ==> NodeSet(t') == NodeSet(t) && t'.node == Root(t)
    requires t'.node == Root(t) || t'.node == added
    ensures added != null && t'.node == added
    ensures PriorityAtMost(t'.left, p) && PriorityAtMost(t'.right, p)
  {
    if t.Branch? {
      HeapBound(t);
    }
    Apart(t');
  }

  /** Lifts the left child of node above it and returns it as the new subtree root. */
  method RotateRight<V>(node: Node<V>, ghost t: Tree<V>) returns (c: Node<V>, ghost t': Tree<V>)
    requires t.Branch? && t.node == node && t.left.Branch?
    requires Shaped(t) && SearchTree(t)
    modifies node`left, t.left.node`right
    ensures t' == RotatedRight(t) && c == Root(t') && Shaped(t')
  {
    NodesAllocated(t);
    Apart(t);
    Apart(t.left);
    c := node.left;
    var t2 := c.right;
    c.right := node;
    node.left := t2;
    t' := RotatedRight(t);
  }

  /** Lifts the right child of node above it and returns it as the new subtree root. */
  method RotateLeft<V>(node: Node<V>, ghost t: Tree<V>) returns (c: Node<V>, ghost t': Tree<V>)
    requires t.Branch? && t.node == node && t.right.Branch?
    requires Shaped(t) && SearchTree(t)
    modifies node`right, t.right.node`left
    ensures t' == RotatedLeft(t) && c == Root(t') && Shaped(t')
  {
    NodesAllocated(t);
    Apart(t);
    Apart(t.right);
    c := node.right;
    var t2 := c.left;
    c.left := node;
    node.right := t2;
    t' := RotatedLeft(t);
  }
}

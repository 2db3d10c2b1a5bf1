/*
 * The sorted ordered dictionary: a treap of Node objects that is at the
 * same time a doubly linked list in first-insertion order.
 */
module OrderedDict {
  import opened Treap
  import opened TreapOps

  datatype Option<T> = None | Some(value: T)

  /**
   * What an in-order walk still has to produce for the trees on its stack
   * (last = top): each root's item followed by its right subtree's items.
   */
  ghost function Later<V>(ws: seq<Tree<V>>): seq<(int, V)>
    requires forall i :: 0 <= i < |ws| ==> ws[i].Branch?
  {
    if ws == [] then []
    else
      var w := ws[|ws| - 1];
      [(w.node.key, w.value)] + Items(w.right) + Later(ws[..|ws| - 1])
  }

  /** Going down to the left of t defers t's item and its right subtree. */
  lemma {:induction false} LaterPush<V>(items: seq<(int, V)>, t: Tree<V>, ws: seq<Tree<V>>)
    requires t.Branch? && forall i :: 0 <= i < |ws| ==> ws[i].Branch?
    ensures items + Items(t) + Later(ws) == items + Items(t.left) + Later(ws + [t])
  {
    var l, m, r := Items(t.left), [(t.node.key, t.value)], Items(t.right);
    LaterLast(t, ws);
    assert Items(t) == l + (m + r);
    SeqAssociates(items, l, m + r, Later(ws));
  }

  /** Pushing t on the stack puts its item and right subtree in front of what was waiting. */
  lemma {:induction false} LaterLast<V>(t: Tree<V>, ws: seq<Tree<V>>)
    requires t.Branch? && forall i :: 0 <= i < |ws| ==> ws[i].Branch?
    ensures Later(ws + [t]) == [(t.node.key, t.value)] + Items(t.right) + Later(ws)
  {
    assert (ws + [t])[..|ws|] == ws;
  }

  lemma SeqAssociates<T>(a: seq<T>, b: seq<T>, c: seq<T>, d: seq<T>)
    ensures a + (b + c) + d == a + b + (c + d)
  {
  }

  /** Popping the top tree emits its item and then walks its right subtree. */
  lemma {:induction false} LaterPop<V>(items: seq<(int, V)>, ws: seq<Tree<V>>)
    requires ws != [] && forall i :: 0 <= i < |ws| ==> ws[i].Branch?
    ensures var w := ws[|ws| - 1];
      items + Items(Leaf) + Later(ws) == items + [(w.node.key, w.value)] + Items(w.right) + Later(ws[..|ws| - 1])
  {
  }

  /** order lists exactly the nodes of nodes. */
  ghost predicate Lists<V>(order: seq<Node<V>>, nodes: set<Node<V>>) {
    (forall i :: 0 <= i < |order| ==> order[i] in nodes) &&
    (forall n :: n in nodes ==> n in order)
  }

  lemma ListsAppend<V>(order: seq<Node<V>>, nodes: set<Node<V>>, n: Node<V>)
    requires Lists(order, nodes)
    ensures Lists(order + [n], nodes + {n})
  {
    assert forall m :: m in order ==> m in order + [n];
  }

  class SortedOrderedDict<V> {
    var root: Node?<V>
    var head: Node?<V>
    var tail: Node?<V>

    /** The shape of the treap hanging from root. */
    ghost var tree: Tree<V>
    /** The nodes in the order their keys were first inserted. */
    ghost var order: seq<Node<V>>
    /** The nodes on the list, as a set. */
    ghost var listed: set<Node<V>>
    ghost var Repr: set<object>

    /**
     * root hangs a treap (search order on keys, max-heap on priorities) whose
     * nodes are exactly the ones on the prev/next list from head to tail.
     */
    ghost predicate Valid()
      reads this, Repr
    {
      this in Repr && NodeSet(tree) <= Repr &&
      root == Root(tree) &&
      Shaped(tree) && SearchTree(tree) && HeapOrdered(tree) &&
      NodeSet(tree) == listed && Lists(order, listed) &&
      Linked(order, head, tail)
    }

    /** Valid, except that n, when not null, is a node of the tree still missing from the list. */
    ghost predicate ValidBut(n: Node?<V>)
      reads this, Repr, n
    {
      if n == null then Valid()
      else
        this in Repr && n !in Repr && NodeSet(tree) <= Repr + {n} &&
        root == Root(tree) && Shaped(tree) && SearchTree(tree) && HeapOrdered(tree) &&
        NodeSet(tree) == listed + {n} && n !in listed && Lists(order, listed) &&
        Linked(order, head, tail) && n.prev == null && n.next == null
    }

    /** The key-to-value map the dictionary holds. */
    ghost function Entries(): map<int, V>
      reads this
    {
      Contents(tree)
    }

    /** The keys in first-insertion order. */
    ghost function InsertionOrder(): seq<int>
      reads this
    {
      KeysOf(order)
    }

    /** The insertion list holds every stored key, and each only once. */
    lemma InsertionOrderIsKeys()
      requires Valid()
      ensures forall i, j :: 0 <= i < j < |InsertionOrder()| ==> InsertionOrder()[i] != InsertionOrder()[j]
      ensures forall k :: k in Entries() <==> k in InsertionOrder()
    {
      LinkedDistinct(order, head, tail);
      ContentsDomain(tree);
      forall i, j | 0 <= i < j < |order|
        ensures InsertionOrder()[i] != InsertionOrder()[j]
      {
        OneNodePerKey(tree, order[i], order[j]);
      }
      forall k | k in Entries()
        ensures k in InsertionOrder()
      {
        var m := NodeOfKey(tree, k);
        var i :| 0 <= i < |order| && order[i] == m;
        assert InsertionOrder()[i] == k;
      }
      forall k | k in InsertionOrder()
        ensures k in Entries()
      {
        var i :| 0 <= i < |order| && InsertionOrder()[i] == k;
        KeyOfNode(tree, order[i]);
      }
    }

    /** An empty dictionary ordered by LessThan. */
    constructor ()
      ensures Valid() && fresh(Repr)
      ensures root == null && head == null && tail == null
      ensures Entries() == map[] && InsertionOrder() == []
    {
      root := null;
      head := null;
      tail := null;
      tree := Leaf;
      order := [];
      listed := {};
      Repr := {this};
    }

    /**
     * Inserts key with value, or overwrites the value when key is already
     * present. A new key's node goes at the tail of the insertion list.
     */
    method Insert(key: int, value: V, priority: int)
      requires Valid() && 0 <= priority <= MaxPriority
      modifies Repr
      ensures Valid() && fresh(Repr - old(Repr))
      ensures Entries() == old(Entries())[key := value]
      ensures InsertionOrder() == if key in old(Entries()) then old(InsertionOrder()) else old(InsertionOrder()) + [key]
      ensures key in old(Entries()) ==>
        root == old(root) && tree == WithValue(old(tree), key, value) &&
        order == old(order) && Repr == old(Repr) && head == old(head) && tail == old(tail)
      ensures key !in old(Entries()) ==>
        tail != null && fresh(tail) && order == old(order) + [tail] &&
        tail.key == key && tail.value == value && tail.priority == priority &&
        tail.prev == old(tail) && tail.next == null &&
        (old(tail) == null ==> head == tail) &&
        (old(tail) != null ==> head == old(head) && old(tail).next == tail)
    {
      ContentsDomain(tree);
      var added := Descend(key, value, priority);
      if added != null {
        Link(added);
      }
    }

    /**
     * The treap part of Insert: puts key into the tree under root and,
     * for a new key, returns its fresh unlinked node.
     */
    method Descend(key: int, value: V, priority: int) returns (added: Node?<V>)
      requires Valid() && 0 <= priority <= MaxPriority
      modifies this`root, this`tree, NodeSet(tree)`left, NodeSet(tree)`right, NodeSet(tree)`value
      ensures ValidBut(added) && Entries() == old(Entries())[key := value]
      ensures key in KeySet(old(tree)) <==> added == null
      ensures key in KeySet(old(tree)) ==> root == old(root) && tree == WithValue(old(tree), key, value)
      ensures added != null ==> fresh(added) && added.key == key && added.value == value && added.priority == priority
    {
      var r;
      ghost var t';
      r, t', added := InsertR(root, tree, key, value, priority);
      // The list is still linked: InsertR writes only left, right and value, never prev or next.
      ghost var linked := Linked(order, head, tail);
      assert linked;
      root, tree := r, t';
    }

    /** The list part of Insert: n, the tree's one unlisted node, joins the list at its tail. */
    method Link(n: Node<V>)
      requires ValidBut(n)
      modifies this`head, this`tail, this`order, this`listed, this`Repr, (set m | m in order)`next, n`prev
      ensures Valid() && Repr == old(Repr) + {n}
      ensures order == old(order) + [n] && InsertionOrder() == old(InsertionOrder()) + [n.key]
      ensures tail == n && n.prev == old(tail)
      ensures old(tail) == null ==> head == n
      ensures old(tail) != null ==> head == old(head) && old(tail).next == n
    {
      ghost var o := order;
      ListsAppend(order, listed, n);
      Append(n);
      listed := listed + {n};
      // The tree keeps its shape: Append writes only prev and next, never left, right or value.
      ghost var shaped := Shaped(tree);
      assert shaped;
      Repr := Repr + {n};
      assert KeysOf(order) == KeysOf(o) + [n.key];
    }

    /** Links the fresh node n in at the tail of the insertion list. */
    method Append(n: Node<V>)
      requires Linked(order, head, tail) && n !in order && n.prev == null && n.next == null
      modifies this`head, this`tail, this`order, (set m | m in order)`next, n`prev
      ensures order == old(order) + [n] && Linked(order, head, tail)
      ensures tail == n && n.prev == old(tail)
      ensures old(tail) == null ==> head == n
      ensures old(tail) != null ==> head == old(head) && old(tail).next == n
    {
      LinkedDistinct(order, head, tail);
      if tail == null {
        head := n;
        tail := n;
      } else {
        tail.next := n;
        n.prev := tail;
        tail := n;
      }
      order := order + [n];
    }

    /** The node holding key, or null when key is absent. */
    method SearchNode(key: int) returns (n: Node?<V>)
      requires Valid()
      ensures n == null <==> key !in Entries()
      ensures n != null ==> n in NodeSet(tree) && n.key == key && n.value == Entries()[key]
    {
      var curr := root;
      ghost var sub := tree;
      while curr != null
        invariant curr == Root(sub) && Shaped(sub) && SearchTree(sub)
        invariant forall m :: m in NodeSet(sub) ==> m in NodeSet(tree)
        invariant key in Entries() <==> key in Contents(sub)
        invariant key in Contents(sub) ==> Entries()[key] == Contents(sub)[key]
        decreases sub
      {
        ContentsDescend(sub, key);
        if key == curr.key {
          return curr;
        } else if LessThan(key, curr.key) {
          curr := curr.left;
          sub := sub.left;
        } else {
          curr := curr.right;
          sub := sub.right;
        }
      }
      return null;
    }

    /** The value stored for key, or None when key is absent. */
    method Search(key: int) returns (r: Option<V>)
      requires Valid()
      ensures key in Entries() ==> r == Some(Entries()[key])
      ensures key !in Entries() ==> r == None
    {
      var node := SearchNode(key);
      r := if node != null then Some(node.value) else None;
    }

    /**
     * The entries in ascending key order, by an in-order walk with an
     * explicit stack of the nodes whose right part is still to come.
     */
    method IterItemsSorted() returns (items: seq<(int, V)>)
      requires Valid()
      ensures items == Items(tree)
      ensures StrictlyAscending(items) && Enumerates(items, Entries())
    {
      var stack: seq<Node<V>> := [];
      var curr := root;
      ghost var sub := tree;
      ghost var waiting: seq<Tree<V>> := [];
      items := [];
      while true
        invariant curr == Root(sub) && Shaped(sub)
        invariant |waiting| == |stack|
        invariant forall i :: 0 <= i < |waiting| ==> waiting[i].Branch? && waiting[i].node == stack[i] && Shaped(waiting[i])
        invariant items + Items(sub) + Later(waiting) == Items(tree)
        decreases |Items(tree)| - |items|, sub
      {
        if curr != null {
          LaterPush(items, sub, waiting);
          stack := stack + [curr];
          waiting := waiting + [sub];
          curr := curr.left;
          sub := sub.left;
        } else if |stack| > 0 {
          LaterPop(items, waiting);
          ghost var w := waiting[|waiting| - 1];
          curr := stack[|stack| - 1];
          stack := stack[..|stack| - 1];
          waiting := waiting[..|waiting| - 1];
          items := items + [(curr.key, curr.value)];
          curr := curr.right;
          sub := w.right;
        } else {
          break;
        }
      }
      ItemsSorted(tree);
    }

    /** The entries in ascending key order, collected into a list. */
    method ToSortedList() returns (list: seq<(int, V)>)
      requires Valid()
      ensures list == Items(tree)
      ensures StrictlyAscending(list) && Enumerates(list, Entries())
      ensures forall s :: StrictlyAscending(s) && Enumerates(s, Entries()) ==> s == list
    {
      var items := IterItemsSorted();
      list := [];
      var i := 0;
      while i < |items|
        invariant 0 <= i <= |items| && list == items[..i]
      {
        list := list + [items[i]];
        i := i + 1;
      }
      assert list == items;
      forall s | StrictlyAscending(s) && Enumerates(s, Entries())
        ensures s == list
      {
        SortedEnumerationUnique(s, list, Entries());
      }
    }
  }

  /**
   * The round trip the repository's test drives: after inserting key with
   * value, searching key finds value and searching any other key finds what
   * was there before.
   */
  method InsertThenSearch<V>(d: SortedOrderedDict<V>, key: int, value: V, priority: int, other: int)
    returns (found: Option<V>, elsewhere: Option<V>)
    requires d.Valid() && 0 <= priority <= MaxPriority
    modifies d.Repr
    ensures d.Valid()
    ensures found == Some(value)
    ensures other != key ==> elsewhere == if other in old(d.Entries()) then Some(old(d.Entries())[other]) else None
  {
    d.Insert(key, value, priority);
    found := d.Search(key);
    elsewhere := d.Search(other);
  }
}

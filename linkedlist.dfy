/**
 * The singly linked list of src/linkedlist.c: a chain of nodes starting at
 * `firstNode`, a cursor `currentNode` somewhere in the list, and a `size` counter.
 * The ghost sequence `Nodes` lists the nodes in chain order and `Contents` their
 * items, so that splicing a node in can be stated as a sequence insertion.
 */
module LinkedList {

  /** A `struct listnode`. */
  class Node<T> {
    var value: T
    var nextNode: Node?<T>

    constructor (value: T, nextNode: Node?<T>)
      ensures this.value == value && this.nextNode == nextNode
    {
      this.value := value;
      this.nextNode := nextNode;
    }
  }

  /**
   * `nodes` are distinct nodes holding `contents`, each linked to the next one and
   * the last one to `end`.
   */
  ghost predicate Chain<T>(nodes: seq<Node<T>>, contents: seq<T>, end: Node?<T>)
    reads nodes
    decreases |nodes|
  {
    && |nodes| == |contents|
    && (nodes != [] ==>
          && nodes[0].value == contents[0]
          && nodes[0] !in nodes[1..]
          && nodes[0].nextNode == (if |nodes| == 1 then end else nodes[1])
          && Chain(nodes[1..], contents[1..], end))
  }

  /** What a chain says about its `i`-th node. */
  lemma {:induction false} ChainAt<T>(nodes: seq<Node<T>>, contents: seq<T>, end: Node?<T>, i: nat)
    requires Chain(nodes, contents, end)
    requires i < |nodes|
    ensures nodes[i].value == contents[i]
    ensures nodes[i].nextNode == if i + 1 < |nodes| then nodes[i + 1] else end
  {
    if i > 0 {
      ChainAt(nodes[1..], contents[1..], end, i - 1);
    }
  }

  /** No node occurs twice in a chain. */
  lemma {:induction false} ChainDistinct<T>(nodes: seq<Node<T>>, contents: seq<T>, end: Node?<T>, i: nat, j: nat)
    requires Chain(nodes, contents, end)
    requires i < j < |nodes|
    ensures nodes[i] != nodes[j]
  {
    if i == 0 {
      assert nodes[j] == nodes[1..][j - 1];
    } else {
      ChainDistinct(nodes[1..], contents[1..], end, i - 1, j - 1);
    }
  }

  /** A chain cut at `k` is a chain ending at its `k`-th node, followed by a chain. */
  lemma {:induction false} ChainSplit<T>(nodes: seq<Node<T>>, contents: seq<T>, end: Node?<T>, k: nat)
    requires Chain(nodes, contents, end)
    requires 0 < k < |nodes|
    ensures Chain(nodes[..k], contents[..k], nodes[k])
    ensures Chain(nodes[k..], contents[k..], end)
  {
    if k > 1 {
      ChainSplit(nodes[1..], contents[1..], end, k - 1);
      assert nodes[1..][..k - 1] == nodes[..k][1..];
      assert contents[1..][..k - 1] == contents[..k][1..];
      assert nodes[1..][k - 1..] == nodes[k..];
      assert contents[1..][k - 1..] == contents[k..];
    } else {
      assert nodes[1..] == nodes[k..];
    }
  }

  /** No element of `a` occurs in `b`. */
  predicate Disjoint<T(==)>(a: seq<T>, b: seq<T>)
    decreases |a|
  {
    a == [] || (a[0] !in b && Disjoint(a[1..], b))
  }

  /** Pairwise different elements make `Disjoint` hold. */
  lemma {:induction false} DisjointFromDistinct<T>(a: seq<T>, b: seq<T>)
    requires forall i, j :: 0 <= i < |a| && 0 <= j < |b| ==> a[i] != b[j]
    ensures Disjoint(a, b)
  {
    if a != [] {
      assert forall j :: 0 <= j < |b| ==> a[0] != b[j];
      DisjointFromDistinct(a[1..], b);
    }
  }

  /**
   * A chain cut before its node at `k - 1`: the nodes before it form a chain ending
   * at that node, the nodes after it a chain of their own, and none of the three
   * parts shares a node with another.
   */
  lemma {:induction false} ChainCut<T>(nodes: seq<Node<T>>, contents: seq<T>, end: Node?<T>, k: nat)
    requires Chain(nodes, contents, end)
    requires 0 < k <= |nodes|
    ensures Chain(nodes[..k - 1], contents[..k - 1], nodes[k - 1])
    ensures nodes[k - 1].value == contents[k - 1]
    ensures nodes[k - 1].nextNode == if k < |nodes| then nodes[k] else end
    ensures Chain(nodes[k..], contents[k..], end)
    ensures nodes[k - 1] !in nodes[..k - 1] && nodes[k - 1] !in nodes[k..]
    ensures Disjoint(nodes[..k - 1], nodes[k..])
  {
    ChainAt(nodes, contents, end, k - 1);
    if k > 1 {
      ChainSplit(nodes, contents, end, k - 1);
    }
    if k < |nodes| {
      ChainSplit(nodes, contents, end, k);
    }
    forall i, j | 0 <= i < j < |nodes|
      ensures nodes[i] != nodes[j]
    {
      ChainDistinct(nodes, contents, end, i, j);
    }
    DisjointFromDistinct(nodes[..k - 1], nodes[k..]);
  }

  /**
   * Two linked nodes `x` and `y` placed between a chain ending at `x` and a chain
   * starting after `y` give one chain, when no node occurs twice.
   */
  lemma {:induction false} ChainSplice<T>(front: seq<Node<T>>, fc: seq<T>, x: Node<T>, xv: T, y: Node<T>, yv: T,
                                          back: seq<Node<T>>, bc: seq<T>, end: Node?<T>)
    requires Chain(front, fc, x) && Chain(back, bc, end)
    requires x.value == xv && x.nextNode == y
    requires y.value == yv && y.nextNode == (if back == [] then end else back[0])
    requires x != y && x !in front && y !in front && x !in back && y !in back
    requires Disjoint(front, back)
    ensures Chain(front + [x, y] + back, fc + [xv, yv] + bc, end)
  {
    if front == [] {
      assert front + [x, y] + back == [x, y] + back;
      assert ([x, y] + back)[1..] == [y] + back;
      assert ([y] + back)[1..] == back;
      assert (fc + [xv, yv] + bc)[1..][1..] == bc;
    } else {
      ChainSplice(front[1..], fc[1..], x, xv, y, yv, back, bc, end);
      assert (front + [x, y] + back)[1..] == front[1..] + [x, y] + back;
      assert (fc + [xv, yv] + bc)[1..] == fc[1..] + [xv, yv] + bc;
    }
  }

  /** `s` with `x` inserted so that it ends up at position `index`. */
  function Inserted<T>(s: seq<T>, index: nat, x: T): (r: seq<T>)
    requires index <= |s|
    ensures |r| == |s| + 1 && r[index] == x
    ensures forall j :: 0 <= j < index ==> r[j] == s[j]
    ensures forall j :: index < j < |r| ==> r[j] == s[j - 1]
  {
    seq(|s| + 1, j requires 0 <= j <= |s| => if j < index then s[j] else if j == index then x else s[j - 1])
  }

  /** Splicing `x` in after the node at `k - 1` is inserting it at `k`. */
  lemma SplicedIsInserted<T>(s: seq<T>, k: nat, x: T)
    requires 0 < k <= |s|
    ensures s[..k - 1] + [s[k - 1], x] + s[k..] == Inserted(s, k, x)
    ensures k == |s| ==> Inserted(s, k, x) == s + [x]
  {
    assert s[..k] == s[..k - 1] + [s[k - 1]];
  }

  /**
   * Links a new node holding `item` in after `x`, the node at position `k - 1` of
   * the chain `nodes`: the new node takes over `x`'s successor and becomes the
   * node at position `k`.
   */
  method LinkAfter<T>(x: Node<T>, item: T, ghost nodes: seq<Node<T>>, ghost contents: seq<T>, ghost k: nat)
    returns (node: Node<T>)
    requires Chain(nodes, contents, null)
    requires 0 < k <= |nodes| && x == nodes[k - 1]
    modifies x
    ensures fresh(node)
    ensures Chain(Inserted(nodes, k, node), Inserted(contents, k, item), null)
  {
    ChainCut(nodes, contents, null, k);
    node := new Node(item, x.nextNode);
    x.nextNode := node;
    ChainSplice(nodes[..k - 1], contents[..k - 1], x, contents[k - 1], node, item, nodes[k..], contents[k..], null);
    SplicedIsInserted(nodes, k, node);
    SplicedIsInserted(contents, k, item);
  }

  /** A `struct list`. */
  class List<T> {
    var firstNode: Node?<T>
    var currentNode: Node?<T>
    var size: int

    ghost var Nodes: seq<Node<T>>
    ghost var Contents: seq<T>
    /** The position of the node the cursor is on. */
    ghost var Cursor: nat

    /**
     * The list's invariant: the nodes form one null-terminated chain from
     * `firstNode`, `size` counts them, and the cursor is either on a node of the
     * list or past its end, where `currentNode` is null (as a walk that runs off
     * the last node leaves it; on an empty list that is the only place).
     */
    ghost predicate Valid()
      reads this, Nodes
    {
      && Chain(Nodes, Contents, null)
      && size == |Nodes|
      && firstNode == (if Nodes == [] then null else Nodes[0])
      && Cursor <= |Nodes|
      && currentNode == (if Cursor < |Nodes| then Nodes[Cursor] else null)
    }

    /** `ListCreate`: an empty list; both pointers start out null. */
    constructor ()
      ensures Valid()
      ensures Contents == [] && size == 0
    {
      firstNode := null;
      currentNode := null;
      size := 0;
      Nodes, Contents, Cursor := [], [], 0;
    }

    /**
     * `ListAppendFirst`: a new head node holding `item`, followed by the old nodes.
     * The cursor follows to the new head only if it was on the old head.
     */
    method AppendFirst(item: T) returns (ok: bool)
      requires Valid()
      modifies this
      ensures Valid()
      ensures ok
      ensures Contents == [item] + old(Contents) && size == old(size) + 1
      ensures Nodes[1..] == old(Nodes) && firstNode == Nodes[0] && fresh(firstNode)
      ensures currentNode == if old(currentNode) == old(firstNode) then firstNode else old(currentNode)
      ensures Cursor == if old(currentNode) == old(firstNode) then 0 else old(Cursor) + 1
    {
      var node := new Node(item, firstNode);
      if currentNode == firstNode {
        currentNode := node;
        Cursor := 0;
      } else {
        Cursor := Cursor + 1;
        if Nodes != [] {
          ChainAt(Nodes, Contents, null, 0);
        }
      }
      firstNode := node;
      size := size + 1;
      Nodes, Contents := [node] + Nodes, [item] + Contents;
      assert Nodes[1..] == old(Nodes) && Contents[1..] == old(Contents);
      return true;
    }

    /**
     * `ListAppendLast`: walks the cursor to the last node and links a new node
     * holding `item` after it; the cursor stays on the former last node.
     */
    method AppendLast(item: T) returns (ok: bool)
      requires Valid()
      requires currentNode != null
      modifies this, Nodes
      ensures Valid()
      ensures ok
      ensures Contents == old(Contents) + [item] && size == old(size) + 1
      ensures Nodes[..|Nodes| - 1] == old(Nodes) && fresh(Nodes[|Nodes| - 1]) && firstNode == old(firstNode)
      ensures Cursor == |Nodes| - 2 && currentNode == Nodes[Cursor]
    {
      ChainAt(Nodes, Contents, null, Cursor);
      while currentNode.nextNode != null
        invariant Valid() && currentNode != null
        invariant currentNode.nextNode == if Cursor < |Nodes| - 1 then Nodes[Cursor + 1] else null
        invariant Nodes == old(Nodes) && Contents == old(Contents)
        invariant firstNode == old(firstNode) && size == old(size)
        modifies this`currentNode, this`Cursor
        decreases |Nodes| - Cursor
      {
        currentNode := currentNode.nextNode;
        Cursor := Cursor + 1;
        ChainAt(Nodes, Contents, null, Cursor);
      }
      var node := LinkAfter(currentNode, item, Nodes, Contents, |Nodes|);
      SplicedIsInserted(Nodes, |Nodes|, node);
      SplicedIsInserted(Contents, |Contents|, item);
      size, Nodes, Contents := size + 1, Nodes + [node], Contents + [item];
      return true;
    }

    /**
     * `ListPut`: inserts `item` so that it ends up at position `index`. Index 0 is
     * AppendFirst, index `size` is AppendLast, a larger index fails and changes
     * nothing; in between, the cursor walks to `index` and the new node is linked in
     * before it, so the cursor ends on the node that now follows the new one.
     */
    method Put(index: int, item: T) returns (ok: bool)
      requires Valid()
      requires index >= 0
      requires index == size > 0 ==> currentNode != null
      modifies this, Nodes
      ensures Valid()
      ensures ok <==> index <= old(size)
      ensures ok ==> Contents == Inserted(old(Contents), index, item) && size == old(size) + 1
      ensures ok ==> Nodes == Inserted(old(Nodes), index, Nodes[index]) && fresh(Nodes[index])
      ensures !ok ==> Contents == old(Contents) && Nodes == old(Nodes) && size == old(size)
      ensures !ok ==> Cursor == old(Cursor) && currentNode == old(currentNode) && firstNode == old(firstNode)
      ensures ok && index == 0 ==>
        Cursor == if old(currentNode) == old(firstNode) then 0 else old(Cursor) + 1
      ensures ok && 0 < index == old(size) ==> Cursor == index - 1
      ensures ok && 0 < index < old(size) ==> Cursor == index + 1
    {
      if index == 0 {
        ok := AppendFirst(item);
        assert Nodes == [Nodes[0]] + Nodes[1..];
        return;
      }
      if index == size {
        ok := AppendLast(item);
        assert Nodes == Nodes[..|Nodes| - 1] + [Nodes[|Nodes| - 1]];
        return;
      }
      if index > size {
        return false;
      }
      // The new node goes between the node before `index` and the cursor's node.
      var lastNode := WalkTo(index);
      var node := LinkAfter(lastNode, item, Nodes, Contents, index);
      size, Nodes, Contents, Cursor := size + 1, Inserted(Nodes, index, node), Inserted(Contents, index, item), index + 1;
      return true;
    }

    /**
     * The walk of `ListPut`: moves the cursor from the head to the node at `index`
     * and returns the node before it.
     */
    method WalkTo(index: int) returns (lastNode: Node<T>)
      requires Valid()
      requires 0 < index < size
      modifies this`currentNode, this`Cursor
      ensures Valid()
      ensures Cursor == index && lastNode == Nodes[index - 1]
    {
      var last: Node?<T> := null;
      currentNode, Cursor := firstNode, 0;
      var i := 0;
      while i < index && currentNode != null
        invariant 0 <= i <= index && Cursor == i
        invariant last == if i == 0 then null else Nodes[i - 1]
        invariant Valid()
      {
        ChainAt(Nodes, Contents, null, i);
        last := currentNode;
        currentNode, Cursor := currentNode.nextNode, Cursor + 1;
        i := i + 1;
      }
      // Running off the end of the list before `index` cannot happen, as index < size.
      assert !(currentNode == null && i < index);
      lastNode := last;
    }
  }
}

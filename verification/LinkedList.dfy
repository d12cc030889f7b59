/** Nuke's doubly linked list. */
module LinkedList {

  class Node<Element> {
    const value: Element
    var next: Node?<Element>
    var previous: Node?<Element>

    constructor (value: Element)
      ensures this.value == value && next == null && previous == null
    {
      this.value, next, previous := value, null, null;
    }
  }

  class LinkedList<Element> {
    var first: Node?<Element>
    var last: Node?<Element>
    /** The nodes from first to last. */
    ghost var nodes: seq<Node<Element>>

    constructor ()
      ensures Valid() && nodes == []
    {
      first, last, nodes := null, null, [];
    }

    static ghost function At(ns: seq<Node<Element>>, i: int): Node?<Element> {
      if 0 <= i < |ns| then ns[i] else null
    }

    static ghost predicate Distinct(ns: seq<Node<Element>>) {
      forall i, j :: 0 <= i < j < |ns| ==> ns[i] != ns[j]
    }

    /** Node i knows its neighbours. */
    static ghost predicate Linked(ns: seq<Node<Element>>, i: nat)
      requires i < |ns|
      reads ns[i]
    {
      ns[i].next == At(ns, i + 1) && ns[i].previous == At(ns, i - 1)
    }

    ghost predicate Valid()
      reads this, nodes
    {
      && first == At(nodes, 0) && last == At(nodes, |nodes| - 1) && Distinct(nodes)
      && forall i {:trigger Linked(nodes, i)} :: 0 <= i < |nodes| ==> Linked(nodes, i)
    }

    function IsEmpty(): (r: bool)
      requires Valid()
      reads this, nodes
      ensures r == (nodes == [])
    {
      last == null
    }

    method Append(element: Element) returns (node: Node<Element>)
      requires Valid()
      modifies this, nodes
      ensures Valid() && fresh(node) && node.value == element && nodes == old(nodes) + [node]
    {
      node := new Node(element);
      AppendNode(node);
    }

    /** Adds a detached node at the end. */
    method AppendNode(node: Node<Element>)
      requires Valid() && node !in nodes && node.next == null && node.previous == null
      modifies this, nodes, node
      ensures Valid() && nodes == old(nodes) + [node]
    {
      ghost var was, n := nodes, |nodes|;
      assert n > 0 ==> Linked(nodes, n - 1);
      if last != null {
        last.next := node;
        node.previous := last;
        last := node;
      } else {
        last := node;
        first := node;
      }
      nodes := nodes + [node];
      forall i | 0 <= i < |nodes| ensures Linked(nodes, i) {
        assert i < n ==> old(Linked(was, i));
      }
    }

    /** Taking node m out changes the neighbours of at most two nodes, and how. */
    static lemma NeighboursWithout(ns: seq<Node<Element>>, m: nat, i: nat)
      requires Distinct(ns) && m < |ns| && i < |ns| - 1
      ensures var left, j := ns[..m] + ns[m + 1..], if i < m then i else i + 1;
              && left[i] == ns[j] && left[i] != ns[m]
              && (left[i] == At(ns, m - 1) <==> At(ns, j + 1) == ns[m])
              && (left[i] == At(ns, m + 1) <==> At(ns, j - 1) == ns[m])
              && At(left, i + 1) == (if At(ns, j + 1) == ns[m] then At(ns, m + 1) else At(ns, j + 1))
              && At(left, i - 1) == (if At(ns, j - 1) == ns[m] then At(ns, m - 1) else At(ns, j - 1))
    {
    }

    static lemma EndsWithout(ns: seq<Node<Element>>, m: nat)
      requires Distinct(ns) && m < |ns|
      ensures var left := ns[..m] + ns[m + 1..];
              && Distinct(left)
              && At(left, 0) == (if At(ns, 0) == ns[m] then At(ns, m + 1) else At(ns, 0))
              && At(left, |left| - 1) == (if At(ns, |ns| - 1) == ns[m] then At(ns, m - 1) else At(ns, |ns| - 1))
              && At(ns, m - 1) != ns[m] && At(ns, m + 1) != ns[m]
              && (At(ns, m - 1) != null ==> At(ns, m - 1) in ns) && (At(ns, m + 1) != null ==> At(ns, m + 1) in ns)
              && (At(ns, m - 1) != null ==> At(ns, m - 1) != At(ns, m + 1))
    {
    }

    /** Unlinks a node of the list. */
    method Remove(node: Node<Element>, ghost m: nat)
      requires Valid() && m < |nodes| && nodes[m] == node
      modifies this, nodes
      ensures Valid() && nodes == old(nodes)[..m] + old(nodes)[m + 1..]
      ensures node.next == null && node.previous == null
    {
      hide Distinct, At;
      ghost var was := nodes;
      assert Linked(nodes, m);
      EndsWithout(was, m);
      if node.next != null {
        node.next.previous := node.previous;
      }
      if node.previous != null {
        node.previous.next := node.next;
      }
      if node == last {
        last := node.previous;
      }
      if node == first {
        first := node.next;
      }
      node.next := null;
      node.previous := null;
      nodes := was[..m] + was[m + 1..];
      forall i | 0 <= i < |nodes| ensures Linked(nodes, i) {
        NeighboursWithout(was, m, i);
        assert old(Linked(was, if i < m then i else i + 1));
      }
    }

    /** Takes every link apart, front to back. */
    method RemoveAll()
      requires Valid()
      modifies this, nodes
      ensures Valid() && nodes == []
      ensures forall node :: node in old(nodes) ==> node.next == null && node.previous == null
    {
      ghost var was := nodes;
      var node := first;
      ghost var k := 0;
      assert was != [] ==> Linked(was, 0);
      while node != null && node.next != null
        invariant nodes == was && first == old(first) && last == old(last)
        invariant node == At(was, k) && k <= |was| && (was != [] ==> k < |was|)
        invariant forall i :: 0 <= i < k ==> was[i].next == null && was[i].previous == null
        invariant was != [] ==> node.previous == null && node.next == At(was, k + 1)
        invariant forall i :: k < i < |was| ==> Linked(was, i)
        decreases |was| - k
      {
        var next := node.next;
        assert Linked(was, k + 1);
        node.next := null;
        next.previous := null;
        node := next;
        k := k + 1;
      }
      last := null;
      first := null;
      nodes := [];
    }
  }
}

/** The circular doubly linked list through a head node, which both the connections and the segments hang in. */
module LinkedList {
  class Node {
    var prev: Node
    var next: Node

    /** LINKED_LIST_INIT. */
    constructor ()
      ensures prev == this && next == this
    {
      prev, next := this, this;
    }
  }

  /** The ring's node `i`, for a head and the nodes behind it; the head is there again at the end. */
  function At(head: Node, nodes: seq<Node>, i: int): Node {
    if 0 < i <= |nodes| then nodes[i - 1] else head
  }

  predicate Linked(a: Node, b: Node)
    reads a, b
  {
    a.next == b && b.prev == a
  }

  predicate Distinct(head: Node, nodes: seq<Node>) {
    && (forall i :: 0 <= i < |nodes| ==> nodes[i] != head)
    && forall i, j :: 0 <= i < j < |nodes| ==> nodes[i] != nodes[j]
  }

  /** From the head, `next` leads through `nodes` and back, and `prev` the other way round. */
  ghost predicate IsRing(head: Node, nodes: seq<Node>)
    reads head, nodes
  {
    && Distinct(head, nodes)
    && forall i :: 0 <= i <= |nodes| ==> Linked(At(head, nodes, i), At(head, nodes, i + 1))
  }

  /** The links determine which nodes are in the list, and in which order. */
  lemma {:induction false} OneList(head: Node, a: seq<Node>, b: seq<Node>)
    requires IsRing(head, a) && IsRing(head, b)
    ensures a == b
  {
    var i := 0;
    while i < |a| && i < |b|
      invariant i <= |a| && i <= |b| && a[..i] == b[..i]
    {
      assert At(head, a, i) == At(head, b, i);
      assert Linked(At(head, a, i), At(head, a, i + 1)) && Linked(At(head, b, i), At(head, b, i + 1));
      i := i + 1;
    }
    assert At(head, a, i) == At(head, b, i);
    assert Linked(At(head, a, i), At(head, a, i + 1)) && Linked(At(head, b, i), At(head, b, i + 1));
  }

  function Without<T>(s: seq<T>, k: nat): seq<T>
    requires k < |s|
  {
    s[..k] + s[k + 1..]
  }

  /** The nodes a sweep leaves, in their order. */
  ghost function Kept(s: seq<Node>, closing: set<Node>): seq<Node> {
    if s == [] then []
    else Kept(s[..|s| - 1], closing) + if s[|s| - 1] in closing then [] else [s[|s| - 1]]
  }

  class List {
    const head: Node
    ghost var nodes: seq<Node>

    ghost predicate Valid()
      reads this, head, nodes
    {
      IsRing(head, nodes)
    }

    constructor ()
      ensures Valid() && nodes == [] && fresh(head)
    {
      head := new Node();
      nodes := [];
    }

    /** The head's two links. */
    lemma EndsInRing()
      requires Valid()
      ensures head.next == At(head, nodes, 1) && head.prev == At(head, nodes, |nodes|)
    {
      assert Linked(At(head, nodes, 0), At(head, nodes, 1));
      assert Linked(At(head, nodes, |nodes|), At(head, nodes, |nodes| + 1));
    }

    lemma NotHead(k: nat)
      requires Valid() && k <= |nodes|
      ensures At(head, nodes, k + 1) == head <==> k == |nodes|
    {
    }

    method IsEmpty() returns (empty: bool)
      requires Valid()
      ensures empty <==> nodes == []
    {
      assert Linked(At(head, nodes, 0), At(head, nodes, 1));
      empty := head.next == head;
    }

    method AddToFront(n: Node)
      requires Valid() && n != head && n !in nodes
      modifies this`nodes, head`next, head.next`prev, n
      ensures Valid() && nodes == [n] + old(nodes)
    {
      assert Linked(At(head, nodes, 0), At(head, nodes, 1));
      head.next.prev := n;
      n.next := head.next;
      n.prev := head;
      head.next := n;
      ghost var s := nodes;
      nodes := [n] + nodes;
      forall i | 0 <= i <= |nodes|
        ensures Linked(At(head, nodes, i), At(head, nodes, i + 1))
      {
        if i > 1 {
          assert Linked(At(head, s, i - 1), At(head, s, i));
        }
      }
    }

    method AddToTail(n: Node)
      requires Valid() && n != head && n !in nodes
      modifies this`nodes, head`prev, head.prev`next, n
      ensures Valid() && nodes == old(nodes) + [n]
    {
      assert Linked(At(head, nodes, |nodes|), At(head, nodes, |nodes| + 1));
      head.prev.next := n;
      n.prev := head.prev;
      n.next := head;
      head.prev := n;
      ghost var s := nodes;
      nodes := nodes + [n];
      forall i | 0 <= i <= |nodes|
        ensures Linked(At(head, nodes, i), At(head, nodes, i + 1))
      {
        if i < |s| {
          assert old(Linked(At(head, s, i), At(head, s, i + 1)));
        }
      }
    }

    /** `k` is where the node is. The node is left in a ring of its own. */
    method Remove(n: Node, ghost k: nat)
      requires Valid() && k < |nodes| && nodes[k] == n
      modifies this`nodes, n, n.prev`next, n.next`prev
      ensures Valid() && nodes == Without(old(nodes), k) && IsRing(n, [])
    {
      ghost var s := nodes;
      assert Linked(At(head, s, k), At(head, s, k + 1)) && Linked(At(head, s, k + 1), At(head, s, k + 2));
      n.next.prev := n.prev;
      n.prev.next := n.next;
      n.next, n.prev := n, n;
      nodes := Without(s, k);
      forall i | 0 <= i <= |nodes|
        ensures Linked(At(head, nodes, i), At(head, nodes, i + 1))
      {
        assert old(Linked(At(head, s, i), At(head, s, i + 1)));
        assert old(Linked(At(head, s, i + 1), At(head, s, i + 2)));
      }
    }

    /** The nodes visited are the first ones; of those the kept ones are still there, and all the others, of which the
        first is `n`. */
    ghost predicate Halfway(s: seq<Node>, visited: seq<Node>, closing: set<Node>, n: Node)
      reads this, head, nodes
    {
      && Valid()
      && visited <= s
      && nodes == Kept(visited, closing) + s[|visited|..]
      && n == At(head, nodes, |Kept(visited, closing)| + 1)
    }

    /** LINKED_LIST_FOREACH with a body that removes some of the nodes it comes to: the successor is saved before the
        body runs. `visited` is the nodes the body runs on, one after the other. */
    method Sweep(closing: set<Node>) returns (visited: seq<Node>)
      requires Valid()
      modifies this`nodes, head, set x | x in nodes
      ensures Valid() && visited == old(nodes) && nodes == Kept(old(nodes), closing)
    {
      ghost var s := nodes;
      visited := [];
      assert Linked(At(head, nodes, 0), At(head, nodes, 1));
      var n := head.next;
      var tmp := n.next;
      while n != head
        invariant Halfway(s, visited, closing, n) && tmp == n.next
        invariant forall x :: x in nodes ==> x in s
        decreases |s| - |visited|
      {
        hide Halfway, Kept, IsRing;
        NotDone(s, visited, closing, n);
        Visit(n, closing, s, visited);
        visited := visited + [n];
        n := tmp;
        tmp := n.next;
      }
      hide Kept;
      AllVisited(s, visited, closing);
    }

    /** The body: a node that is to go is removed. */
    method Visit(n: Node, closing: set<Node>, ghost s: seq<Node>, ghost visited: seq<Node>)
      requires Halfway(s, visited, closing, n) && n != head
      modifies this`nodes, head, set x | x in nodes
      ensures Halfway(s, visited + [n], closing, old(n.next))
      ensures forall x :: x in nodes ==> x in old(nodes)
    {
      hide Kept, IsRing;
      ghost var k := |Kept(visited, closing)|;
      KeptNext(s, visited, closing);
      LinksAround(k);
      if n in closing {
        Remove(n, k);
      }
    }

    lemma NotDone(s: seq<Node>, visited: seq<Node>, closing: set<Node>, n: Node)
      requires Halfway(s, visited, closing, n) && n != head
      ensures Valid() && visited < s && n == s[|visited|] && n in nodes
    {
      assert n == nodes[|Kept(visited, closing)|];
    }

    lemma LinksAround(k: nat)
      requires Valid() && k < |nodes|
      ensures nodes[k].next == At(head, nodes, k + 2) && nodes[k].next.prev == nodes[k]
      ensures nodes[k].prev == At(head, nodes, k) && nodes[k].prev.next == nodes[k]
    {
      assert Linked(At(head, nodes, k), At(head, nodes, k + 1)) && Linked(At(head, nodes, k + 1), At(head, nodes, k + 2));
    }

    lemma AllVisited(s: seq<Node>, visited: seq<Node>, closing: set<Node>)
      requires Halfway(s, visited, closing, head)
      ensures visited == s && nodes == Kept(s, closing)
    {
    }
  }

  /** One more node is visited. */
  lemma KeptNext(s: seq<Node>, visited: seq<Node>, closing: set<Node>)
    requires visited < s
    ensures var n := s[|visited|];
            var now, k := Kept(visited, closing) + s[|visited|..], |Kept(visited, closing)|;
            && visited + [n] <= s && now[k] == n
            && (if n in closing then Without(now, k) else now)
               == Kept(visited + [n], closing) + s[|visited| + 1..]
  {
    var n, rest := s[|visited|], s[|visited| + 1..];
    KeptOneMore(visited, n, closing);
    hide Kept;
    assert s[|visited|..] == [n] + rest;
    TakeOut(Kept(visited, closing), n, rest);
  }

  lemma KeptOneMore(visited: seq<Node>, n: Node, closing: set<Node>)
    ensures Kept(visited + [n], closing) == Kept(visited, closing) + if n in closing then [] else [n]
  {
    assert (visited + [n])[..|visited|] == visited;
  }

  lemma TakeOut<T>(a: seq<T>, x: T, b: seq<T>)
    ensures (a + ([x] + b))[|a|] == x && Without(a + ([x] + b), |a|) == a + b && a + ([x] + b) == a + [x] + b
  {
  }

  /** A sweep leaves exactly the nodes that were not to go. */
  lemma {:induction false} KeptExactly(s: seq<Node>, closing: set<Node>, n: Node)
    ensures n in Kept(s, closing) <==> n in s && n !in closing
  {
    if s != [] {
      KeptExactly(s[..|s| - 1], closing, n);
    }
  }
}

/** Singly linked chains of nodes, and the addresses of their links. */
module Links {

  class Node<T> {
    var next: Node?<T>
    var item: T

    constructor (item: T)
      ensures this.item == item && next == null
    {
      this.item, next := item, null;
    }
  }

  /** The address of a link: the head field of the list or the `next` field of a node. */
  datatype Link<T> = Head | NextOf(node: Node<T>)

  /** Element `i` of a chain, null at its end. */
  ghost function At<T>(nodes: seq<Node<T>>, i: nat): Node?<T>
  {
    if i < |nodes| then nodes[i] else null
  }

  ghost predicate Distinct<T>(nodes: seq<Node<T>>)
  {
    forall i, j :: 0 <= i < j < |nodes| ==> nodes[i] != nodes[j]
  }

  /** Starting at `first` the nodes follow one another; the chain has no cycle and ends with null. */
  ghost predicate Chain<T>(first: Node?<T>, nodes: seq<Node<T>>)
    reads nodes
  {
    && Distinct(nodes)
    && first == At(nodes, 0)
    && forall i {:trigger nodes[i].next} :: 0 <= i < |nodes| ==> nodes[i].next == At(nodes, i + 1)
  }

  /** The link that holds the address of node `i`. */
  ghost function LinkTo<T>(nodes: seq<Node<T>>, i: nat): Link<T>
    requires i <= |nodes|
  {
    if i == 0 then Head else NextOf(nodes[i - 1])
  }

  /** The nodes of a chain from the head on, and their links. */
  lemma ChainMeaning<T>(first: Node?<T>, nodes: seq<Node<T>>)
    requires Chain(first, nodes)
    ensures if nodes == [] then first == null else first == nodes[0] && nodes[|nodes| - 1].next == null
    ensures forall i :: 0 <= i < |nodes| - 1 ==> nodes[i].next == nodes[i + 1]
    ensures forall i, j :: 0 <= i < j < |nodes| ==> nodes[i] != nodes[j]
    ensures LinkTo(nodes, 0) == Head && forall i :: 0 <= i < |nodes| ==> LinkTo(nodes, i + 1) == NextOf(nodes[i])
  {
    forall i | 0 <= i < |nodes| ensures nodes[i].next == if i + 1 < |nodes| then nodes[i + 1] else null {
      assert nodes[i].next == At(nodes, i + 1);
    }
  }

  /** A sequence without element `i`. */
  ghost function Removed<T>(nodes: seq<T>, i: nat): (r: seq<T>)
    requires i < |nodes|
    ensures |r| == |nodes| - 1
    ensures forall k :: 0 <= k < |r| ==> r[k] == if k < i then nodes[k] else nodes[k + 1]
  {
    seq(|nodes| - 1, k requires 0 <= k < |nodes| - 1 => if k < i then nodes[k] else nodes[k + 1])
  }

  /** A sequence with `x` before element `i`. */
  ghost function Inserted<T>(nodes: seq<T>, i: nat, x: T): (r: seq<T>)
    requires i <= |nodes|
    ensures |r| == |nodes| + 1
    ensures forall k :: 0 <= k < |r| ==> r[k] == if k < i then nodes[k] else if k == i then x else nodes[k - 1]
  {
    seq(|nodes| + 1, k requires 0 <= k < |nodes| + 1 => if k < i then nodes[k] else if k == i then x else nodes[k - 1])
  }

  lemma DistinctRemoved<T>(nodes: seq<Node<T>>, i: nat)
    requires i < |nodes| && Distinct(nodes)
    ensures Distinct(Removed(nodes, i)) && nodes[i] !in Removed(nodes, i)
  {
    var r := Removed(nodes, i);
    forall j, k | 0 <= j < k < |r| ensures r[j] != r[k] {
      assert nodes[if j < i then j else j + 1] != nodes[if k < i then k else k + 1];
    }
  }

  lemma DistinctInserted<T>(nodes: seq<Node<T>>, i: nat, x: Node<T>)
    requires i <= |nodes| && Distinct(nodes) && x !in nodes
    ensures Distinct(Inserted(nodes, i, x))
  {
  }

  /** The link that ends a chain moves back if the last node is taken out, and only then. */
  lemma LastLinkRemoved<T>(nodes: seq<Node<T>>, i: nat)
    requires i < |nodes| && Distinct(nodes)
    ensures LinkTo(Removed(nodes, i), |nodes| - 1)
         == if LinkTo(nodes, |nodes|) == NextOf(nodes[i]) then LinkTo(nodes, i) else LinkTo(nodes, |nodes|)
  {
    if i < |nodes| - 1 { assert nodes[i] != nodes[|nodes| - 1]; }
  }

  /** Taking node `s` out leaves the address of every link as it was, except that of the node's own link. */
  lemma LinkToRemoved<T>(nodes: seq<Node<T>>, s: nat, d: nat)
    requires s < |nodes| && d <= |nodes| && Distinct(nodes)
    ensures LinkTo(nodes, d) == NextOf(nodes[s]) <==> d == s + 1
    ensures d != s + 1 ==> LinkTo(nodes, d) == LinkTo(Removed(nodes, s), if d > s then d - 1 else d)
  {
    if d > 0 && d != s + 1 { assert nodes[d - 1] != nodes[s]; }
  }

  /** A chain in which the link to node `i` skips it. */
  lemma ChainRemoved<T>(first: Node?<T>, nodes: seq<Node<T>>, i: nat)
    requires i < |nodes| && Distinct(nodes)
    requires first == if i == 0 then At(nodes, 1) else nodes[0]
    requires forall k {:trigger nodes[k].next} :: 0 <= k < |nodes| && k != i ==> nodes[k].next == At(nodes, if k + 1 == i then i + 1 else k + 1)
    ensures Chain(first, Removed(nodes, i))
  {
    var r := Removed(nodes, i);
    DistinctRemoved(nodes, i);
    forall k | 0 <= k < |r| ensures r[k].next == At(r, k + 1) {
      if k < i { assert nodes[k].next == At(nodes, if k + 1 == i then i + 1 else k + 1); }
      else { assert nodes[k + 1].next == At(nodes, k + 2); }
    }
  }

  /** A chain in which the link to place `i` leads to `x`, and `x` to what was there. */
  lemma ChainInserted<T>(first: Node?<T>, nodes: seq<Node<T>>, i: nat, x: Node<T>)
    requires i <= |nodes| && Distinct(nodes) && x !in nodes
    requires first == if i == 0 then x else nodes[0]
    requires x.next == At(nodes, i)
    requires forall k {:trigger nodes[k].next} :: 0 <= k < |nodes| ==> nodes[k].next == if k + 1 == i then x else At(nodes, k + 1)
    ensures Chain(first, Inserted(nodes, i, x))
  {
    var r := Inserted(nodes, i, x);
    DistinctInserted(nodes, i, x);
    forall k | 0 <= k < |r| ensures r[k].next == At(r, k + 1) {
      if k < i { assert r[k] == nodes[k]; } else if k > i { assert r[k] == nodes[k - 1]; }
    }
  }

  /** `*link`, in a list that begins with `first`. */
  function Load<T>(first: Node?<T>, link: Link<T>): Node?<T>
    reads if link.NextOf? then {link.node} else {}
  {
    if link.Head? then first else link.node.next
  }

  lemma LoadAt<T>(first: Node?<T>, nodes: seq<Node<T>>, i: nat)
    requires Chain(first, nodes) && i <= |nodes|
    ensures Load(first, LinkTo(nodes, i)) == At(nodes, i)
  {
    if i > 0 { assert nodes[i - 1].next == At(nodes, i); }
  }

  /** `*link = value`; the result is the new beginning of the list. */
  method Store<T>(first: Node?<T>, link: Link<T>, value: Node?<T>) returns (r: Node?<T>)
    modifies (if link.NextOf? then {link.node} else {})`next
    ensures link.Head? ==> r == value
    ensures link.NextOf? ==> r == first && link.node.next == value
  {
    r := first;
    if link.Head? { r := value; } else { link.node.next := value; }
  }

  /** `*link = (*link)->next` for the link to node `i`: takes that node, and no other, out of the chain. */
  method Skip<T>(first: Node?<T>, link: Link<T>, ghost nodes: seq<Node<T>>, ghost i: nat) returns (r: Node?<T>)
    requires Chain(first, nodes) && i < |nodes| && link == LinkTo(nodes, i)
    modifies (if i == 0 then {} else {nodes[i - 1]})`next
    ensures Chain(r, Removed(nodes, i)) && nodes[i].next == old(nodes[i].next)
  {
    var x := Load(first, link);
    assert x == nodes[i] && x.next == At(nodes, i + 1);
    assert i > 0 ==> forall k :: 0 <= k < |nodes| && k + 1 != i ==> nodes[k] != nodes[i - 1];
    r := Store(first, link, x.next);
    ChainRemoved(r, nodes, i);
  }

  /** `x->next = *link; *link = x`: puts a node into the chain at place `i`, unless the link is the node's own. */
  method Insert<T>(first: Node?<T>, link: Link<T>, x: Node<T>, ghost nodes: seq<Node<T>>, ghost i: nat) returns (r: Node?<T>)
    requires Chain(first, nodes) && i <= |nodes| && x !in nodes
    requires link == LinkTo(nodes, i) || link == NextOf(x)
    modifies x`next, (if link.NextOf? then {link.node} else {})`next
    ensures link != NextOf(x) ==> Chain(r, Inserted(nodes, i, x))
    ensures link == NextOf(x) ==> Chain(r, nodes) && x.next == x
  {
    x.next := Load(first, link);
    r := Store(first, link, x);
    if link == NextOf(x) { return; }
    assert x.next == At(nodes, i);
    assert i > 0 ==> forall k :: 0 <= k < |nodes| && k + 1 != i ==> nodes[k] != nodes[i - 1];
    ChainInserted(r, nodes, i, x);
  }
}

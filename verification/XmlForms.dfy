/** A group of an XML form (CXMLFormStructLevel): a list of elements and subgroups changed through link addresses. */
module XmlForms {
  import opened Links
  import opened PackedText
  import opened Wrappers

  datatype AggrFunc = NoAggr | Count | Sum | Avg
  datatype DadNode = DadNode(name: CString)

  /** An element keeps its three texts in one buffer; `labelAt` and `aggrAt` are positions in it. */
  datatype FormItem =
    | Elem(text: array<char>, labelAt: nat, aggrAt: nat, aggrFunc: AggrFunc, node: DadNode)
    | Group(element: DadNode, first: Node?<FormItem>)

  type FormNode = Node<FormItem>

  /** What a reader of an item sees. */
  datatype Content =
    | ElemContent(value: CString, caption: CString, aggrElem: CString, aggrFunc: AggrFunc, node: DadNode)
    | GroupContent(element: DadNode, first: Node?<FormItem>)

  ghost function ContentOf(x: FormItem): Content
    reads if x.Elem? then {x.text} else {}
  {
    match x
    case Elem(text, l, a, f, n) => ElemContent(CStr(text[..], 0), CStr(text[..], l), CStr(text[..], a), f, n)
    case Group(e, first) => GroupContent(e, first)
  }

  /** All three texts of an element end inside its buffer. */
  ghost predicate Sound(x: FormItem)
    reads if x.Elem? then {x.text} else {}
  {
    x.Elem? ==> Terminated(x.text[..], 0) && Terminated(x.text[..], x.labelAt) && Terminated(x.text[..], x.aggrAt)
  }

  /** A new element for a DAD node: its caption is the node's name and a colon. */
  method NewElem(node: DadNode, path: CString) returns (x: FormNode)
    ensures fresh(x) && x.item.Elem? && fresh(x.item.text) && x.next == null && Sound(x.item)
    ensures ContentOf(x.item) == ElemContent(path, node.name + ":", "", NoAggr, node)
  {
    var text := new char[Size(path, node.name + ":", "")];
    var l, a := Pack(text, path, node.name + ":", "");
    x := new Node(Elem(text, l, a, NoAggr, node));
  }

  /** Writes the texts and properties of an element, into a larger buffer if they do not fit. */
  method Fill(x: FormNode, val: CString, caption: CString, f: AggrFunc, aggrElem: Option<CString>, node: DadNode)
    requires x.item.Elem?
    modifies x`item, x.item.text
    ensures x.item.Elem? && (x.item.text == old(x.item.text) || fresh(x.item.text)) && Sound(x.item)
    ensures |val| + |caption| + (if aggrElem.Some? then |aggrElem.value| else 0) + 3 <= old(x.item.text.Length) ==>
      x.item.text == old(x.item.text)
    ensures x.item.labelAt == |val| + 1 && x.item.aggrAt == |val| + |caption| + 2
    ensures x.item.aggrAt <= Size(val, caption, if aggrElem.Some? then aggrElem.value else "") <= x.item.text.Length
    ensures ContentOf(x.item) == ElemContent(val, caption, if aggrElem.Some? then aggrElem.value else "", f, node)
  {
    var aggr := if aggrElem.Some? then aggrElem.value else "";
    var text := x.item.text;
    if Size(val, caption, aggr) > text.Length {
      text := new char[Size(val, caption, aggr)];
    }
    var l, a := Pack(text, val, caption, aggr);
    x.item := Elem(text, l, a, f, node);
  }

  /** The place an index addresses: past the end it is the end. */
  function Place(index: int, count: nat): (r: nat)
    ensures r <= count
  {
    if index < 0 then 0 else if index < count then index else count
  }

  lemma PlaceMeaning(index: int, count: nat)
    ensures index < 0 ==> Place(index, count) == 0
    ensures 0 <= index < count ==> Place(index, count) == index
    ensures index >= count ==> Place(index, count) == count
  {
  }

  /** The nodes after moving node `s` before the one at `d`. */
  ghost function Moved<T>(nodes: seq<T>, s: nat, d: nat): seq<T>
    requires s < |nodes| && d <= |nodes|
  {
    Inserted(Removed(nodes, s), if d > s then d - 1 else d, nodes[s])
  }

  lemma RemovedInserted<T>(w: seq<T>, i: nat, x: T)
    requires i <= |w|
    ensures Removed(Inserted(w, i, x), i) == w && multiset(Inserted(w, i, x)) == multiset(w) + multiset{x}
  {
    assert w == w[..i] + w[i..];
    assert Inserted(w, i, x) == w[..i] + [x] + w[i..];
  }

  lemma InsertedRemoved<T>(w: seq<T>, i: nat)
    requires i < |w|
    ensures Inserted(Removed(w, i), i, w[i]) == w
  {
  }

  /** `Moved` keeps the nodes and the order of all but the moved one, which stands before the node that was at the
      destination, or last. */
  lemma MovedMeaning<T>(nodes: seq<T>, s: nat, d: nat)
    requires s < |nodes| && d <= |nodes|
    ensures var r, at := Moved(nodes, s, d), if d > s then d - 1 else d;
      && |r| == |nodes| && r[at] == nodes[s] && multiset(r) == multiset(nodes)
      && Removed(r, at) == Removed(nodes, s)
      && (d != s ==> if d < |nodes| then at + 1 < |r| && r[at + 1] == nodes[d] else at + 1 == |r|)
  {
    RemovedInserted(Removed(nodes, s), if d > s then d - 1 else d, nodes[s]);
    RemovedInserted(Removed(nodes, s), s, nodes[s]);
    InsertedRemoved(nodes, s);
  }

  /** The list after a move, written out; a node moved to the place behind it is lost. */
  ghost function AfterMove<T>(was: seq<T>, s: nat, d: nat): seq<T>
    requires s < |was| && d <= |was|
  {
    if d <= s then was[..d] + [was[s]] + was[d..s] + was[s + 1..]
    else if d == s + 1 then was[..s] + was[s + 1..]
    else was[..s] + was[s + 1..d] + [was[s]] + was[d..]
  }

  lemma AfterMoveIsMoved<T>(was: seq<T>, s: nat, d: nat)
    requires s < |was| && d <= |was|
    ensures AfterMove(was, s, d) == if d == s + 1 then Removed(was, s) else Moved(was, s, d)
  {
    hide Moved, Removed;
    MovedPlain(was, s, d);
  }

  lemma MovedPlain<T>(nodes: seq<T>, s: nat, d: nat)
    requires s < |nodes| && d <= |nodes|
    ensures Removed(nodes, s) == nodes[..s] + nodes[s + 1..]
    ensures d <= s ==> Moved(nodes, s, d) == nodes[..d] + [nodes[s]] + nodes[d..s] + nodes[s + 1..]
    ensures d > s + 1 ==> Moved(nodes, s, d) == nodes[..s] + nodes[s + 1..d] + [nodes[s]] + nodes[d..]
  {
  }

  /** Unlinks a node and links it in elsewhere; both links are given by their addresses before the change. */
  method MoveNode<T>(first: Node?<T>, srcLink: Link<T>, dstLink: Link<T>, ghost nodes: seq<Node<T>>, ghost s: nat, ghost d: nat)
    returns (r: Node?<T>)
    requires Chain(first, nodes) && s < |nodes| && d <= |nodes|
    requires srcLink == LinkTo(nodes, s) && dstLink == LinkTo(nodes, d)
    modifies nodes`next
    ensures d != s + 1 ==> Chain(r, Moved(nodes, s, d))
    ensures d == s + 1 ==> Chain(r, Removed(nodes, s)) && nodes[s].next == nodes[s]
  {
    DistinctRemoved(nodes, s);
    LinkToRemoved(nodes, s, d);
    var elem := Load(first, srcLink);
    r := Skip(first, srcLink, nodes, s);
    r := Insert(r, dstLink, elem, Removed(nodes, s), if d > s then d - 1 else d);
  }

  /** The nodes with `x` at a place, behind the last one if there is none. */
  ghost function Replaced<T>(nodes: seq<T>, at: nat, x: T): seq<T>
    requires at <= |nodes|
  {
    if at < |nodes| then nodes[at := x] else nodes + [x]
  }

  lemma ReplacedIsInserted<T>(nodes: seq<T>, at: nat, x: T)
    requires at <= |nodes|
    ensures Replaced(nodes, at, x) == Inserted(if at < |nodes| then Removed(nodes, at) else nodes, at, x)
  {
    if at < |nodes| { UpdateIsInserted(nodes, at, x); } else { AppendIsInserted(nodes, x); }
  }

  lemma UpdateIsInserted<T>(nodes: seq<T>, at: nat, x: T)
    requires at < |nodes|
    ensures nodes[at := x] == Inserted(Removed(nodes, at), at, x)
  {
    var r, w := nodes[at := x], Removed(nodes, at);
    var i := Inserted(w, at, x);
    forall k | 0 <= k < |r| ensures r[k] == i[k] {
      if k < at { assert i[k] == w[k]; } else if k > at { assert i[k] == w[k - 1]; }
    }
  }

  lemma AppendIsInserted<T>(nodes: seq<T>, x: T)
    ensures nodes + [x] == Inserted(nodes, |nodes|, x)
  {
  }

  /** Puts a new node at a place; a node that was there is unlinked first and deleted. */
  method Substitute<T>(first: Node?<T>, link: Link<T>, x: Node<T>, ghost nodes: seq<Node<T>>, ghost at: nat)
    returns (r: Node?<T>, deleted: seq<Node<T>>)
    requires Chain(first, nodes) && at <= |nodes| && link == LinkTo(nodes, at) && x !in nodes
    modifies x`next, nodes`next
    ensures Chain(r, Replaced(nodes, at, x))
    ensures deleted == if at < |nodes| then [nodes[at]] else []
  {
    ReplacedIsInserted(nodes, at, x);
    ghost var rest := nodes;
    r, deleted := first, [];
    var present := Load(first, link);
    if present != null {
      deleted := [present];
      r := Skip(r, link, nodes, at);
      LinkToRemoved(nodes, at, at);
      rest := Removed(nodes, at);
    }
    r := Insert(r, link, x, rest, at);
  }

  class FormLevel {
    var first: Node?<FormItem>
    ghost var nodes: seq<FormNode>

    ghost predicate Linked()
      reads this, nodes
    {
      Chain(first, nodes)
    }

    ghost function Buffers(): set<array<char>>
      reads this, nodes
    {
      set n | n in nodes && n.item.Elem? :: n.item.text
    }

    /** The list is a chain, every text is terminated and no two elements share a buffer. */
    ghost predicate Valid()
      reads this, nodes, Buffers()
    {
      && Linked()
      && (forall i :: 0 <= i < |nodes| ==> Sound(nodes[i].item))
      && (forall i, j :: 0 <= i < j < |nodes| && nodes[i].item.Elem? && nodes[j].item.Elem? ==> nodes[i].item.text != nodes[j].item.text)
    }

    /** The address of the link to a place. */
    method GetNode(index: int) returns (link: Link<FormItem>)
      requires Linked()
      ensures link == LinkTo(nodes, Place(index, |nodes|))
      ensures index < 0 ==> link == Head
      ensures 0 <= index < |nodes| ==> Load(first, link) == nodes[index]
      ensures index >= |nodes| ==> Load(first, link) == null && link == if nodes == [] then Head else NextOf(nodes[|nodes| - 1])
    {
      link := Head;
      var i := 0;
      while i < index && Load(first, link) != null
        invariant i <= |nodes| && (i <= index || i == 0) && link == LinkTo(nodes, i)
        invariant Load(first, link) == At(nodes, i)
        decreases |nodes| - i
      {
        link := NextOf(Load(first, link));
        i := i + 1;
      }
    }

    /** The element at a place and its buffer, if there is one. */
    ghost function Reused(at: nat): set<object>
      requires at <= |nodes|
      reads this, nodes
    {
      if at < |nodes| && nodes[at].item.Elem? then {nodes[at], nodes[at].item.text} else {}
    }

    /** Inserts a new or changes an existing element: only the place addressed changes, and there the three texts read
        back. An element stays the same node; a group is deleted. */
    method SetElem(index: int, val: CString, caption: CString, f: AggrFunc, aggrElem: Option<CString>, node: DadNode)
      returns (deleted: seq<FormNode>)
      requires Valid()
      modifies this, nodes`next, Reused(Place(index, |nodes|))
      ensures Valid()
      ensures var was, at := old(nodes), Place(index, |old(nodes)|);
        && at < |nodes| && nodes == Replaced(was, at, nodes[at])
        && (if at < |was| && old(nodes[at].item.Elem?) then nodes[at] == was[at] && deleted == []
            else fresh(nodes[at]) && deleted == if at < |was| then [was[at]] else [])
        && ContentOf(nodes[at].item) == ElemContent(val, caption, if aggrElem.Some? then aggrElem.value else "", f, node)
        && (forall k :: 0 <= k < |was| && k != at ==> was[k].item == old(was[k].item) && ContentOf(was[k].item) == old(ContentOf(was[k].item)))
      ensures 0 <= index ==>
        var was, at := old(nodes), if index < |old(nodes)| then index else |old(nodes)|;
        && |nodes| == (if index < |was| then |was| else |was| + 1) && (forall k :: 0 <= k < |was| && k != at ==> nodes[k] == was[k])
        && ContentOf(nodes[at].item) == ElemContent(val, caption, if aggrElem.Some? then aggrElem.value else "", f, node)
    {
      ghost var at := Place(index, |nodes|);
      ghost var was := nodes;
      var x;
      x, deleted := ElemAt(index, val, node);
      ghost var now := nodes;
      assert forall k :: 0 <= k < |was| && k != at ==> was[k] == now[k];
      Refill(at, x, val, caption, f, aggrElem, node);
    }

    /** Finds the element at a place or makes one there. */
    method ElemAt(index: int, val: CString, node: DadNode) returns (x: FormNode, deleted: seq<FormNode>)
      requires Valid()
      modifies this, nodes`next
      ensures Valid() && x.item.Elem?
      ensures var was, at := old(nodes), Place(index, |old(nodes)|);
        && at < |nodes| && nodes[at] == x && nodes == Replaced(was, at, x)
        && (if at < |was| && was[at].item.Elem? then x == was[at] && deleted == []
            else fresh(x) && fresh(x.item.text) && deleted == if at < |was| then [was[at]] else [])
      ensures 0 <= index < |old(nodes)| ==> nodes == old(nodes)[index := x]
      ensures index >= |old(nodes)| ==> nodes == old(nodes) + [x]
    {
      ghost var at := Place(index, |nodes|);
      var link := GetNode(index);
      var present := Load(first, link);
      deleted := [];
      if present == null || present.item.Group? {
        x := NewElem(node, val);
        deleted := Replace(link, x, at);
      } else {
        x := present;
      }
    }

    /** Puts a new node with its own buffer at a place. */
    method Replace(link: Link<FormItem>, x: FormNode, ghost at: nat) returns (deleted: seq<FormNode>)
      requires Valid() && at <= |nodes| && link == LinkTo(nodes, at) && x !in nodes && Sound(x.item)
      requires forall k :: 0 <= k < |nodes| && nodes[k].item.Elem? && x.item.Elem? ==> nodes[k].item.text != x.item.text
      modifies this, x`next, nodes`next
      ensures Valid() && nodes == Replaced(old(nodes), at, x)
      ensures deleted == if at < |old(nodes)| then [old(nodes)[at]] else []
    {
      hide Chain, ContentOf;
      var r;
      r, deleted := Substitute(first, link, x, nodes, at);
      first, nodes := r, Replaced(nodes, at, x);
    }

    method Refill(ghost at: nat, x: FormNode, val: CString, caption: CString, f: AggrFunc, aggrElem: Option<CString>, node: DadNode)
      requires Valid() && at < |nodes| && nodes[at] == x && x.item.Elem?
      modifies x`item, x.item.text
      ensures Valid() && x.item.Elem? && (x.item.text == old(x.item.text) || fresh(x.item.text))
      ensures ContentOf(x.item) == ElemContent(val, caption, if aggrElem.Some? then aggrElem.value else "", f, node)
      ensures forall k :: 0 <= k < |nodes| && k != at ==>
        nodes[k].item == old(nodes[k].item) && ContentOf(nodes[k].item) == old(ContentOf(nodes[k].item))
    {
      Fill(x, val, caption, f, aggrElem, node);
    }

    /** Inserts a new group; an element at the place is deleted, a group there stays as it is, whatever its DAD node. */
    method SetLevel(index: int, node: DadNode) returns (deleted: seq<FormNode>)
      requires Valid()
      modifies this, nodes`next
      ensures Valid()
      ensures var was, at := old(nodes), Place(index, |old(nodes)|);
        && at < |nodes| && nodes == Replaced(was, at, nodes[at]) && nodes[at].item.Group?
        && (if at < |was| && was[at].item.Group? then nodes[at] == was[at] && deleted == []
            else fresh(nodes[at]) && nodes[at].item == Group(node, null) && deleted == if at < |was| then [was[at]] else [])
      ensures 0 <= index < |old(nodes)| ==> nodes[index].item.Group? && nodes == old(nodes)[index := nodes[index]]
      ensures index >= |old(nodes)| ==> |nodes| == |old(nodes)| + 1 && nodes[|nodes| - 1].item.Group? && nodes[..|nodes| - 1] == old(nodes)
    {
      ghost var at := Place(index, |nodes|);
      var link := GetNode(index);
      var present := Load(first, link);
      deleted := [];
      if present == null || present.item.Elem? {
        var x := new Node(Group(node, null));
        deleted := Replace(link, x, at);
      }
    }

    /** The source and destination links are taken before anything changes. The node arrives at its destination unless
        the destination link is the moved node's own: then that node leaves the list and is linked to itself. Without a
        node at the source it crashes. */
    method MoveElem(srcIndex: int, dstIndex: int) returns (crashed: bool)
      requires Linked()
      modifies this, nodes`next
      ensures Linked()
      ensures crashed <==> Place(srcIndex, |old(nodes)|) == |old(nodes)|
      ensures crashed ==> nodes == old(nodes)
      ensures var s, d := Place(srcIndex, |old(nodes)|), Place(dstIndex, |old(nodes)|);
        !crashed ==>
          if d == s + 1 then nodes == Removed(old(nodes), s) && old(nodes)[s].next == old(nodes)[s]
          else nodes == Moved(old(nodes), s, d)
      ensures 0 <= srcIndex < |old(nodes)| ==> !crashed
      ensures srcIndex >= |old(nodes)| ==> crashed
      ensures 0 <= srcIndex < |old(nodes)| && 0 <= dstIndex ==>
        nodes == AfterMove(old(nodes), srcIndex, if dstIndex < |old(nodes)| then dstIndex else |old(nodes)|)
    {
      hide Place, Moved, Removed, AfterMove, Chain, LinkTo;
      PlaceMeaning(srcIndex, |nodes|);
      PlaceMeaning(dstIndex, |nodes|);
      ghost var s, d := Place(srcIndex, |nodes|), Place(dstIndex, |nodes|);
      var srcLink := GetNode(srcIndex);
      var dstLink := GetNode(dstIndex);
      LoadAt(first, nodes, s);
      crashed := Load(first, srcLink) == null;
      if crashed { return; }
      AfterMoveIsMoved(nodes, s, d);
      var r := MoveNode(first, srcLink, dstLink, nodes, s, d);
      first, nodes := r, if d == s + 1 then Removed(nodes, s) else Moved(nodes, s, d);
    }
  }
}

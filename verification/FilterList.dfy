/** The list behind the filter and the ordering of a grid (CFOList). */
module FilterList {
  import opened Links

  /** What is left when a node is taken out `n` times at one place, and the nodes taken out. */
  ghost function Left<T>(nodes: seq<T>, at: nat, n: nat): (r: seq<T>)
    requires at + n <= |nodes|
    ensures |r| == |nodes| - n
  {
    if n == 0 then nodes else Removed(Left(nodes, at, n - 1), at)
  }

  ghost function Taken<T>(nodes: seq<T>, at: nat, n: nat): seq<T>
    requires at + n <= |nodes|
  {
    if n == 0 then [] else Taken(nodes, at, n - 1) + [Left(nodes, at, n - 1)[at]]
  }

  lemma {:induction false} TakenMeaning<T>(nodes: seq<T>, at: nat, n: nat)
    requires at + n <= |nodes|
    ensures Left(nodes, at, n) == nodes[..at] + nodes[at + n..]
    ensures Taken(nodes, at, n) == nodes[at..at + n]
  {
    hide Removed;
    if n > 0 {
      TakenMeaning(nodes, at, n - 1);
      OneMoreTaken(nodes, at, n - 1);
    }
  }

  lemma OneMoreTaken<T>(nodes: seq<T>, at: nat, n: nat)
    requires at + n < |nodes|
    ensures Removed(nodes[..at] + nodes[at + n..], at) == nodes[..at] + nodes[at + n + 1..]
    ensures nodes[at..at + n] + [(nodes[..at] + nodes[at + n..])[at]] == nodes[at..at + n + 1]
  {
  }

  /** How many nodes from a place on the inner loop of `Delete` takes out: `count`, if there are as many. */
  function Times(count: int, available: nat): (n: nat)
    ensures n <= available
  {
    if count < 0 then 0 else if count <= available then count else available
  }

  /** The inner loop of `Delete`, at the link to node `at`. It reads the link of the next node before it tests whether
      there is one: if there are too few nodes, it ends with an access through null, after taking out all there are. */
  method DeleteRun<T>(first: Node?<T>, link: Link<T>, count: int, ghost nodes: seq<Node<T>>, ghost at: nat)
    returns (r: Node?<T>, deleted: seq<Node<T>>, crashed: bool)
    requires Chain(first, nodes) && at < |nodes| && link == LinkTo(nodes, at)
    modifies (if link.NextOf? then {link.node} else {})`next
    ensures crashed <==> at + count > |nodes|
    ensures var n := Times(count, |nodes| - at); Chain(r, Left(nodes, at, n)) && deleted == Taken(nodes, at, n)
  {
    hide Chain, Removed;
    r, deleted, crashed := first, [], false;
    ghost var left := nodes;
    var i := 0;
    while i < count
      invariant 0 <= i <= Times(count, |nodes| - at)
      invariant left == Left(nodes, at, i) && deleted == Taken(nodes, at, i)
      invariant Chain(r, left) && link == LinkTo(left, at)
    {
      LoadAt(r, left, at);
      var item := Load(r, link);
      if item == null {
        crashed := true;
        return;
      }
      deleted := deleted + [item];
      r := Skip(r, link, left, at);
      left := Removed(left, at);
      i := i + 1;
    }
  }

  class FOList<T> {
    var first: Node?<T>
    ghost var nodes: seq<Node<T>>

    ghost predicate Valid()
      reads this, nodes
    {
      Chain(first, nodes)
    }

    constructor ()
      ensures Valid() && nodes == []
    {
      first, nodes := null, [];
    }

    /** The item at an index; null directly behind the last one. It crashes if and only if the index is negative or
        farther behind. */
    method GetItem(index: int) returns (item: Node?<T>, crashed: bool)
      requires Valid()
      ensures crashed <==> !(0 <= index <= |nodes|)
      ensures 0 <= index < |nodes| ==> item == nodes[index]
      ensures index == |nodes| ==> item == null
    {
      item, crashed := first, false;
      var left := index;
      while left != 0
        invariant index - left <= |nodes| && left <= index && item == At(nodes, index - left)
        invariant 0 <= index ==> 0 <= left
        decreases |nodes| - (index - left)
      {
        if item == null {
          crashed := true;
          return;
        }
        item, left := item.next, left - 1;
      }
    }

    method Count() returns (count: nat)
      requires Valid()
      ensures count == |nodes|
    {
      count := 0;
      var item := first;
      while item != null
        invariant count <= |nodes| && item == At(nodes, count)
        decreases |nodes| - count
      {
        item, count := item.next, count + 1;
      }
    }

    /** Appends new items until there are `count`; never removes one. `blank` is what a new item holds. */
    method SetCount(count: int, blank: T)
      requires Valid()
      modifies this, nodes`next
      ensures Valid() && old(nodes) <= nodes
      ensures |nodes| == if count > |old(nodes)| then count else |old(nodes)|
      ensures forall k :: |old(nodes)| <= k < |nodes| ==> fresh(nodes[k]) && nodes[k].item == blank
    {
      var link: Link<T> := Head;
      var i := 0;
      while i < count
        invariant Valid() && 0 <= i <= |nodes| && (i <= count || i == 0) && link == LinkTo(nodes, i)
        invariant old(nodes) <= nodes && |nodes| == if i > |old(nodes)| then i else |old(nodes)|
        invariant forall k :: |old(nodes)| <= k < |nodes| ==> fresh(nodes[k]) && nodes[k].item == blank
      {
        LoadAt(first, nodes, i);
        if Load(first, link) == null {
          var x := new Node(blank);
          Append(link, x);
          LoadAt(first, nodes, i);
        }
        link := NextOf(Load(first, link));
        i := i + 1;
      }
    }

    /** `*link = x` for the link that ends the list. */
    method Append(link: Link<T>, x: Node<T>)
      requires Valid() && link == LinkTo(nodes, |nodes|) && x !in nodes
      modifies this, x`next, nodes`next
      ensures Valid() && nodes == old(nodes) + [x]
    {
      var r := Insert(first, link, x, nodes, |nodes|);
      first, nodes := r, Inserted(nodes, |nodes|, x);
    }

    /** Removes `count` items from a place on, freeing each once; nothing happens if the place does not exist. It crashes
        if and only if the run goes past the end; then all items from the place on are gone. */
    method Delete(index: int, count: int) returns (deleted: seq<Node<T>>, crashed: bool)
      requires Valid()
      modifies this, nodes`next
      ensures Valid()
      ensures crashed <==> 0 <= index < |old(nodes)| && index + count > |old(nodes)|
      ensures 0 <= index < |old(nodes)| ==>
        var end := index + Times(count, |old(nodes)| - index);
        nodes == old(nodes)[..index] + old(nodes)[end..] && deleted == old(nodes)[index..end]
      ensures 0 <= index < |old(nodes)| && 0 <= count <= |old(nodes)| - index ==>
        nodes == old(nodes)[..index] + old(nodes)[index + count..] && deleted == old(nodes)[index..index + count]
      ensures 0 <= index < |old(nodes)| && count > |old(nodes)| - index ==>
        nodes == old(nodes)[..index] && deleted == old(nodes)[index..]
      ensures count <= 0 ==> nodes == old(nodes) && deleted == []
      ensures !(0 <= index < |old(nodes)|) ==> nodes == old(nodes) && deleted == []
    {
      hide Chain, Removed;
      ghost var was := nodes;
      deleted, crashed := DeleteFrom(index, count);
      if 0 <= index < |was| { TakenMeaning(was, index, Times(count, |was| - index)); }
    }

    /** The outer loop of `Delete`. */
    method DeleteFrom(index: int, count: int) returns (deleted: seq<Node<T>>, crashed: bool)
      requires Valid()
      modifies this, nodes`next
      ensures Valid()
      ensures crashed <==> 0 <= index < |old(nodes)| && index + count > |old(nodes)|
      ensures if 0 <= index < |old(nodes)| then
          var n := Times(count, |old(nodes)| - index);
          nodes == Left(old(nodes), index, n) && deleted == Taken(old(nodes), index, n)
        else nodes == old(nodes) && deleted == []
    {
      deleted, crashed := [], false;
      var link: Link<T> := Head;
      var i := 0;
      while Load(first, link) != null
        invariant i <= |nodes| && link == LinkTo(nodes, i) && !(0 <= index < i)
        decreases |nodes| - i
      {
        if i == index {
          var r;
          r, deleted, crashed := DeleteRun(first, link, count, nodes, i);
          first, nodes := r, Left(nodes, i, Times(count, |nodes| - i));
          return;
        }
        link := NextOf(Load(first, link));
        i := i + 1;
      }
    }

    /** Frees every item once, after its link was read. */
    method Clear() returns (deleted: seq<Node<T>>)
      requires Valid()
      modifies this
      ensures Valid() && nodes == [] && deleted == old(nodes)
    {
      deleted := [];
      var item := first;
      while item != null
        invariant |deleted| <= |nodes| && deleted == nodes[..|deleted|] && item == At(nodes, |deleted|)
        decreases |nodes| - |deleted|
      {
        var next := item.next;
        deleted := deleted + [item];
        item := next;
      }
      first, nodes := null, [];
    }
  }

  /** One item, and a request to delete two. */
  method DeletePastEnd() returns (crashed: bool)
    ensures crashed
  {
    var list := new FOList<int>();
    list.SetCount(1, 0);
    var deleted;
    deleted, crashed := list.Delete(0, 2);
  }
}

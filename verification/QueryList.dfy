/** The list of query objects (CQueryObjList), which keeps the address of its last link. */
module QueryList {
  import opened Links

  class QueryObjList<T> {
    var hdr: Node?<T>
    var tail: Link<T>            // the link that ends the list
    ghost var nodes: seq<Node<T>>

    ghost predicate Valid()
      reads this, nodes
    {
      Chain(hdr, nodes) && tail == LinkTo(nodes, |nodes|)
    }

    constructor ()
      ensures Valid() && nodes == []
    {
      hdr, tail, nodes := null, Head, [];
    }

    /** Deletes all nodes, each once and after its link was read. */
    method Clear() returns (deleted: seq<Node<T>>)
      requires Valid()
      modifies this
      ensures Valid() && nodes == [] && deleted == old(nodes)
    {
      deleted := [];
      var obj := hdr;
      while obj != null
        invariant |deleted| <= |nodes| && deleted == nodes[..|deleted|] && obj == At(nodes, |deleted|)
        decreases |nodes| - |deleted|
      {
        var d := obj;
        obj := obj.next;
        deleted := deleted + [d];
      }
      hdr, tail, nodes := null, Head, [];
    }

    /** Appends a detached object. */
    method Add(obj: Node<T>)
      requires Valid() && obj !in nodes && obj.next == null
      modifies this, nodes`next
      ensures Valid() && nodes == old(nodes) + [obj]
    {
      hdr := Store(hdr, tail, obj);
      ChainInserted(hdr, nodes, |nodes|, obj);
      tail := NextOf(obj);
      nodes := Inserted(nodes, |nodes|, obj);
    }

    /** Removes an object if it is in the list; its own link keeps its value. */
    method Remove(obj: Node<T>)
      requires Valid()
      modifies this, nodes`next
      ensures Valid() && obj.next == old(obj.next)
      ensures obj !in old(nodes) ==> nodes == old(nodes)
      ensures forall i :: 0 <= i < |old(nodes)| && old(nodes)[i] == obj ==> nodes == Removed(old(nodes), i)
    {
      var p: Link<T> := Head;
      ghost var i := 0;
      while Load(hdr, p) != null
        invariant Valid() && nodes == old(nodes) && i <= |nodes| && p == LinkTo(nodes, i)
        invariant obj.next == old(obj.next)
        invariant forall k :: 0 <= k < i ==> nodes[k] != obj
        decreases |nodes| - i
      {
        if Load(hdr, p) == obj {
          LastLinkRemoved(nodes, i);
          ghost var rest := Removed(nodes, i);
          if tail == NextOf(obj) { tail := p; }
          assert tail == LinkTo(rest, |rest|);
          hdr := Skip(hdr, p, nodes, i);
          nodes := rest;
          return;
        }
        p := NextOf(Load(hdr, p));
        i := i + 1;
      }
    }

    method GetCount() returns (count: nat)
      requires Valid()
      ensures count == |nodes|
    {
      count := 0;
      var obj := hdr;
      while obj != null
        invariant count <= |nodes| && obj == At(nodes, count)
        decreases |nodes| - count
      {
        count, obj := count + 1, obj.next;
      }
    }

    /** Moves the objects to another list. The other list is in order again if and only if something was moved or it was
        empty: otherwise its `tail` still addresses a link of its former last object. */
    method MoveTo(dst: QueryObjList<T>)
      requires Valid() && dst.Valid() && dst != this
      modifies this, dst
      ensures Valid() && nodes == []
      ensures dst.nodes == old(nodes) && Chain(dst.hdr, dst.nodes)
      ensures dst.Valid() <==> old(nodes) != [] || old(dst.nodes) == []
    {
      dst.hdr := hdr;
      hdr := null;
      if tail != Head {
        dst.tail := tail;
        tail := Head;
      }
      dst.nodes, nodes := nodes, [];
    }
  }
}

/**
 A doubly linked ring with a sentinel, standing in for Go's container/list,
 which the certificate cache uses as its recency list (internal/ca/ca.go).
 */
module LinkedList {
  import opened Prelude

  class Element<T> {
    var prev: Element?<T>
    var next: Element?<T>
    var value: Option<T>   // None only in the sentinel

    constructor (value: Option<T>)
      ensures this.value == value && prev == null && next == null
    {
      this.prev, this.next, this.value := null, null, value;
    }
  }

  class List<T> {
    const root: Element<T>
    var len: nat
    ghost var nodes: seq<Element<T>>   // front first

    /** Node i in ring order; both ends wrap to the sentinel. */
    ghost function At(i: int): Element<T>
      reads this
    {
      if 0 <= i < |nodes| then nodes[i] else root
    }

    ghost predicate Linked()
      reads this, root, nodes
    {
      forall i :: 0 <= i <= |nodes| ==> At(i - 1).next == At(i) && At(i).prev == At(i - 1)
    }

    ghost predicate Valid()
      reads this, root, nodes
    {
      && len == |nodes|
      && root !in nodes
      && Distinct(nodes)
      && Linked()
      && (forall e :: e in nodes ==> e.value.Some?)
    }

    ghost function Values(): (vs: seq<T>)
      requires Valid()
      reads this, root, nodes
      ensures |vs| == |nodes|
      ensures forall i :: 0 <= i < |vs| ==> vs[i] == nodes[i].value.value
    {
      seq(|nodes|, i requires 0 <= i < |nodes| reads this, root, nodes requires Valid() => nodes[i].value.value)
    }

    constructor ()
      ensures Valid() && nodes == [] && fresh(root)
    {
      root := new Element(None);
      len, nodes := 0, [];
      new;
      root.prev, root.next := root, root;
    }

    /** Splice e in right after the sentinel. */
    method InsertFront(e: Element<T>)
      requires Valid() && e != root && e !in nodes && e.value.Some?
      modifies this, root, nodes, e
      ensures Valid() && nodes == [e] + old(nodes)
      ensures forall n: Element<T> :: n == e || n in old(nodes) ==> n.value == old(n.value)
    {
      assert At(-1).next == At(0) && At(0).prev == At(-1);
      e.prev := root;
      e.next := root.next;
      root.next.prev := e;
      root.next := e;
      len := len + 1;
      nodes := [e] + nodes;
      assert forall i :: 1 <= i <= |nodes| ==> At(i) == old(At(i - 1));
      forall i | 0 <= i <= |nodes| ensures At(i - 1).next == At(i) && At(i).prev == At(i - 1) {
        if i >= 2 {
          assert old(At(i - 2).next == At(i - 1) && At(i - 1).prev == At(i - 2));
        }
      }
    }

    /** Take the node at position k out of the ring. */
    method Unlink(e: Element<T>, ghost k: nat)
      requires Valid() && k < |nodes| && nodes[k] == e
      modifies this, root, nodes
      ensures Valid() && nodes == old(nodes[..k] + nodes[k + 1..])
      ensures forall n: Element<T> :: n in old(nodes) ==> n.value == old(n.value)
    {
      assert At(k - 1).next == At(k) && At(k).prev == At(k - 1);
      assert At(k).next == At(k + 1) && At(k + 1).prev == At(k);
      e.prev.next := e.next;
      e.next.prev := e.prev;
      len := len - 1;
      nodes := nodes[..k] + nodes[k + 1..];
      assert forall i :: -1 <= i < k ==> At(i) == old(At(i));
      assert forall i :: k <= i <= |nodes| ==> At(i) == old(At(i + 1));
      forall i | 0 <= i <= |nodes| ensures At(i - 1).next == At(i) && At(i).prev == At(i - 1) {
        if i < k {
          assert old(At(i - 1).next == At(i) && At(i).prev == At(i - 1));
        } else if i > k {
          assert old(At(i).next == At(i + 1) && At(i + 1).prev == At(i));
        }
      }
    }

    method Remove(e: Element<T>, ghost k: nat)
      requires Valid() && k < |nodes| && nodes[k] == e
      modifies this, root, nodes
      ensures Valid() && nodes == old(nodes[..k] + nodes[k + 1..])
      ensures forall n: Element<T> :: n in old(nodes) ==> n.value == old(n.value)
    {
      Unlink(e, k);
      e.prev, e.next := null, null;
    }

    method PushFront(v: T) returns (e: Element<T>)
      requires Valid()
      modifies this, root, nodes
      ensures Valid() && fresh(e) && nodes == [e] + old(nodes) && e.value == Some(v)
      ensures forall n: Element<T> :: n in old(nodes) ==> n.value == old(n.value)
    {
      e := new Element(Some(v));
      InsertFront(e);
    }

    method MoveToFront(e: Element<T>, ghost k: nat)
      requires Valid() && k < |nodes| && nodes[k] == e
      modifies this, root, nodes
      ensures Valid() && nodes == [e] + old(nodes[..k] + nodes[k + 1..])
      ensures forall n: Element<T> :: n in old(nodes) ==> n.value == old(n.value)
    {
      assert At(-1).next == At(0);
      if root.next == e {
        return;
      }
      Unlink(e, k);
      InsertFront(e);
    }

    method SetValue(e: Element<T>, v: T)
      requires Valid() && e in nodes
      modifies nodes
      ensures Valid() && e.value == Some(v)
      ensures forall n: Element<T> :: n in nodes && n != e ==> n.value == old(n.value)
    {
      e.value := Some(v);
    }

    method Back() returns (e: Element?<T>)
      requires Valid()
      ensures e == if nodes == [] then null else nodes[|nodes| - 1]
    {
      assert At(|nodes|).prev == At(|nodes| - 1);
      e := if len == 0 then null else root.prev;
    }
  }
}

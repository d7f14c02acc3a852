/** The doubly linked list the cache keeps its entries in, as container/list provides it. */
module LinkedList {
  import opened Sequences

  function Without<T>(s: seq<T>, k: nat): (r: seq<T>)
    requires k < |s|
    ensures |r| == |s| - 1
    ensures forall i :: 0 <= i < |r| ==> r[i] == if i < k then s[i] else s[i + 1]
  {
    s[..k] + s[k + 1..]
  }

  lemma WithoutMembers<T>(s: seq<T>, k: nat)
    requires k < |s| && Distinct(s)
    ensures forall x :: x in Without(s, k) <==> x in s && x != s[k]
    ensures Distinct(Without(s, k))
  {
    var r := Without(s, k);
    forall x | x in s && x != s[k] ensures x in r {
      var i :| 0 <= i < |s| && s[i] == x;
      assert r[if i < k then i else i - 1] == x;
    }
  }

  class Element<T> {
    const value: T
    var prev: Element?<T>
    var next: Element?<T>

    constructor (value: T)
      ensures this.value == value && prev == null && next == null
    {
      this.value, prev, next := value, null, null;
    }
  }

  class List<T> {
    ghost var nodes: seq<Element<T>>
    var head: Element?<T>
    var tail: Element?<T>
    var len: nat

    /** Following `next` from `head` walks through `s`. */
    ghost predicate Forward(s: seq<Element<T>>)
      reads this`head, s`next
    {
      head == (if s == [] then null else s[0])
      && forall i {:trigger s[i].next} :: 0 <= i < |s| ==> s[i].next == if i + 1 < |s| then s[i + 1] else null
    }

    /** Following `prev` from `tail` walks through `s` the other way. */
    ghost predicate Backward(s: seq<Element<T>>)
      reads this`tail, s`prev
    {
      tail == (if s == [] then null else s[|s| - 1])
      && forall i {:trigger s[i].prev} :: 0 <= i < |s| ==> s[i].prev == if i > 0 then s[i - 1] else null
    }

    ghost predicate Valid()
      reads this, nodes
    {
      len == |nodes|
      && Distinct(nodes)
      && Forward(nodes)
      && Backward(nodes)
    }

    constructor ()
      ensures Valid() && nodes == []
    {
      nodes, head, tail, len := [], null, null, 0;
    }

    /** Where the links lead. */
    lemma Follow(k: nat)
      requires Valid()
      ensures head == (if nodes == [] then null else nodes[0])
      ensures k < |nodes| ==> nodes[k].next == if k + 1 < |nodes| then nodes[k + 1] else null
    {
      if k < |nodes| { assert nodes[k].next == if k + 1 < |nodes| then nodes[k + 1] else null; }
    }

    /** Links an element that is in no list behind the last one. */
    method LinkLast(e: Element<T>)
      requires Valid() && e !in nodes
      modifies this, e, nodes
      ensures Valid() && nodes == old(nodes) + [e]
    {
      assert nodes != [] ==> tail == nodes[|nodes| - 1];
      e.prev, e.next := tail, null;
      if tail == null { head := e; } else { tail.next := e; }
      tail, len := e, len + 1;
      nodes := nodes + [e];
    }

    method PushBack(value: T) returns (e: Element<T>)
      requires Valid()
      modifies this, nodes
      ensures Valid() && fresh(e) && e.value == value && nodes == old(nodes) + [e]
    {
      e := new Element(value);
      LinkLast(e);
    }

    method SkipForward(e: Element<T>, ghost k: nat)
      requires Valid() && k < |nodes| && nodes[k] == e
      modifies this`head, nodes`next
      ensures Forward(Without(nodes, k))
      ensures e.next == if k + 1 < |nodes| then nodes[k + 1] else null
    {
      assert nodes[k].prev == e.prev;
      assert nodes[k].next == e.next;
      if e.prev == null { head := e.next; } else { e.prev.next := e.next; }
    }

    method SkipBackward(e: Element<T>, ghost k: nat)
      requires k < |nodes| && nodes[k] == e && Backward(nodes)
      requires Distinct(nodes)
      requires e.next == if k + 1 < |nodes| then nodes[k + 1] else null
      modifies this`tail, nodes`prev
      ensures Backward(Without(nodes, k))
    {
      assert nodes[k].prev == e.prev;
      if e.next == null { tail := e.prev; } else { e.next.prev := e.prev; }
    }

    method Remove(e: Element<T>, ghost k: nat)
      requires Valid() && k < |nodes| && nodes[k] == e
      modifies this, nodes
      ensures Valid() && nodes == Without(old(nodes), k) && e !in nodes
    {
      hide Forward, Backward, Distinct, Without;
      ghost var rest := Without(nodes, k);
      WithoutMembers(nodes, k);
      assert e !in rest;
      SkipForward(e, k);
      assert Forward(rest);
      SkipBackward(e, k);
      assert Forward(rest);
      e.prev, e.next := null, null;
      len := len - 1;
      nodes := rest;
    }

    method MoveToBack(e: Element<T>, ghost k: nat)
      requires Valid() && k < |nodes| && nodes[k] == e
      modifies this, nodes
      ensures Valid() && nodes == Without(old(nodes), k) + [e]
    {
      if tail != e {
        Remove(e, k);
        LinkLast(e);
      } else {
        assert k == |nodes| - 1;
      }
    }
  }
}

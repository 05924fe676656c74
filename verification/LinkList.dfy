/** The circular doubly linked list of cache/linkList.c: head and tail are one sentinel node. */
module LinkLists {
  import opened Sequences

  class LinkNode<T(0)> {
    var data: T
    var pre: LinkNode?<T>
    var next: LinkNode?<T>

    constructor (data: T)
      ensures this.data == data && pre == null && next == null
    {
      this.data, pre, next := data, null, null;
    }
  }

  /** The nodes form a ring in this order, in both directions. */
  ghost predicate Ring<T(0)>(nodes: seq<LinkNode<T>>)
    reads nodes`next, nodes`pre
  {
    && (forall i {:trigger nodes[i].next} | 0 <= i < |nodes| ::
          nodes[i].next == nodes[After(i, |nodes|)])
    && (forall i {:trigger nodes[i].pre} | 0 <= i < |nodes| ::
          nodes[i].pre == nodes[Before(i, |nodes|)])
  }

  ghost predicate Distinct<T(0)>(nodes: seq<LinkNode<T>>) {
    forall i, j | 0 <= i < j < |nodes| :: nodes[i] != nodes[j]
  }

  /** Index after i around a ring of n nodes, and before it. */
  function After(i: nat, n: nat): nat { if i + 1 < n then i + 1 else 0 }

  function Before(i: nat, n: nat): nat
    requires i < n
  {
    if i > 0 then i - 1 else n - 1
  }

  class LinkList<T(0)> {
    var head: LinkNode<T>
    var tail: LinkNode<T>
    ghost var ring: seq<LinkNode<T>>  // the sentinel, then the list's nodes from first to last

    ghost predicate Valid()
      reads this, ring`next, ring`pre
    {
      ring != [] && ring[0] == head == tail && Distinct(ring) && Ring(ring)
    }

    /** The list's nodes from first to last. */
    ghost function Nodes(): seq<LinkNode<T>>
      reads this
      requires ring != []
    {
      ring[1..]
    }

    constructor ()
      ensures Valid() && Nodes() == [] && fresh(ring)
    {
      var junk: T := *;
      var sentinel := new LinkNode(junk);
      head, tail := sentinel, sentinel;
      ring := [sentinel];
      new;
      head.next := head;
      head.pre := head;
    }

    method PutInHead(nod: LinkNode<T>)
      requires Valid() && nod !in ring
      modifies this`ring, ring`next, ring`pre, nod`next, nod`pre
      ensures Valid() && Nodes() == [nod] + old(Nodes())
      ensures ring == [head, nod] + old(ring[1..])
    {
      hide Ring, Distinct;
      Link(head, nod, ring);
      RingWith(ring, nod);
      ring := Second(ring, nod);
    }

    /** The stores of `PutInHead`. */
    static method Link(head: LinkNode<T>, nod: LinkNode<T>, ghost nodes: seq<LinkNode<T>>)
      requires Ring(nodes) && Distinct(nodes) && nodes != [] && nodes[0] == head && nod !in nodes
      modifies nodes`next, nodes`pre, nod`next, nod`pre
      ensures head.next == nod && nod.pre == head && nod.next == nodes[After(0, |nodes|)] && nod.next.pre == nod
      ensures forall i {:trigger nodes[i].next} | 1 <= i < |nodes| :: nodes[i].next == nodes[After(i, |nodes|)]
      ensures forall i {:trigger nodes[i].pre} | 0 <= i < |nodes| && i != After(0, |nodes|) ::
                nodes[i].pre == nodes[Before(i, |nodes|)]
    {
      NextOf(nodes, 0);
      nod.next := head.next;
      head.next.pre := nod;
      head.next := nod;
      nod.pre := head;
    }

    method PutInTail(nod: LinkNode<T>)
      requires Valid() && nod !in ring
      modifies this`ring, ring`next, ring`pre, nod`next, nod`pre
      ensures Valid() && Nodes() == old(Nodes()) + [nod]
      ensures ring == old(ring) + [nod]
    {
      ghost var was := ring;
      NextOf(was, 0);
      nod.pre := tail.pre;
      tail.pre.next := nod;
      nod.next := tail;
      tail.pre := nod;
      ring := was + [nod];
    }

    method Remove(nod: LinkNode<T>, ghost k: nat)
      requires Valid() && 1 <= k < |ring| && ring[k] == nod
      modifies this`ring, ring`next, ring`pre
      ensures Valid() && ring == Cut(old(ring), k)
      ensures nod !in ring
    {
      hide Ring, Distinct;
      Unlink(nod, ring, k);
      DistinctWithout(ring, k);
      RingWithout(ring, k);
      ring := Cut(ring, k);
    }

    /** The stores of `RemoveFromLinkList`. */
    static method Unlink(nod: LinkNode<T>, ghost nodes: seq<LinkNode<T>>, ghost k: nat)
      requires Ring(nodes) && Distinct(nodes) && 1 <= k < |nodes| && nodes[k] == nod
      modifies nodes`next, nodes`pre
      ensures forall i {:trigger nodes[i].next} | 0 <= i < |nodes| && i != k ::
                nodes[i].next == nodes[if After(i, |nodes|) == k then After(k, |nodes|) else After(i, |nodes|)]
      ensures forall i {:trigger nodes[i].pre} | 0 <= i < |nodes| && i != k ::
                nodes[i].pre == nodes[if Before(i, |nodes|) == k then k - 1 else Before(i, |nodes|)]
    {
      NextOf(nodes, k);
      nod.pre.next := nod.next;
      nod.next.pre := nod.pre;
      nod.next, nod.pre := null, null;
    }

    method GetFirst() returns (r: LinkNode?<T>)
      requires Valid()
      ensures r == if Nodes() == [] then null else Nodes()[0]
    {
      NextOf(ring, 0);
      r := if head.next == tail then null else head.next;
    }

    method GetLast() returns (r: LinkNode?<T>)
      requires Valid()
      ensures r == if Nodes() == [] then null else Nodes()[|Nodes()| - 1]
    {
      NextOf(ring, 0);
      r := if head.next == tail then null else tail.pre;
    }
  }

  /** The nodes with one more behind the first. */
  ghost function Second<T(0)>(nodes: seq<LinkNode<T>>, nod: LinkNode<T>): seq<LinkNode<T>>
    requires nodes != []
  {
    [nodes[0], nod] + nodes[1..]
  }

  /** A ring into which a node has been linked behind the first is a ring with that node. */
  lemma RingWith<T(0)>(nodes: seq<LinkNode<T>>, nod: LinkNode<T>)
    requires nodes != [] && Distinct(nodes) && nod !in nodes
    requires nodes[0].next == nod && nod.pre == nodes[0]
    requires nod.next == nodes[After(0, |nodes|)] && nodes[After(0, |nodes|)].pre == nod
    requires forall i {:trigger nodes[i].next} | 1 <= i < |nodes| :: nodes[i].next == nodes[After(i, |nodes|)]
    requires forall i {:trigger nodes[i].pre} | 0 <= i < |nodes| && i != After(0, |nodes|) ::
               nodes[i].pre == nodes[Before(i, |nodes|)]
    ensures Ring(Second(nodes, nod)) && Distinct(Second(nodes, nod))
  {
    var r := Second(nodes, nod);
    assert forall i | 2 <= i < |r| :: r[i] == nodes[i - 1];
    var m := |r|;
    forall i {:trigger r[i].next} | 0 <= i < m ensures r[i].next == r[After(i, m)] && r[i].pre == r[Before(i, m)] {
      if i >= 2 {
        assert r[i] == nodes[i - 1];
        assert nodes[i - 1].next == r[After(i, m)];
        assert nodes[i - 1].pre == r[Before(i, m)];
      }
    }
  }

  lemma DistinctWithout<T(0)>(nodes: seq<LinkNode<T>>, k: nat)
    requires Distinct(nodes) && k < |nodes|
    ensures Distinct(Cut(nodes, k)) && nodes[k] !in Cut(nodes, k)
  {
  }

  /** A ring whose node k is bypassed in both directions is a ring without that node. */
  lemma RingWithout<T(0)>(nodes: seq<LinkNode<T>>, k: nat)
    requires 1 <= k < |nodes|
    requires forall i {:trigger nodes[i].next} | 0 <= i < |nodes| && i != k ::
               nodes[i].next == nodes[if After(i, |nodes|) == k then After(k, |nodes|) else After(i, |nodes|)]
    requires forall i {:trigger nodes[i].pre} | 0 <= i < |nodes| && i != k ::
               nodes[i].pre == nodes[if Before(i, |nodes|) == k then k - 1 else Before(i, |nodes|)]
    ensures Ring(Cut(nodes, k))
  {
    var rest := Cut(nodes, k);
    var m := |rest|;
    forall i {:trigger rest[i].next} | 0 <= i < m
      ensures rest[i].next == rest[After(i, m)] && rest[i].pre == rest[Before(i, m)]
    {
      var j := if i < k then i else i + 1;
      assert rest[i] == nodes[j];
      var a, b := After(i, m), Before(i, m);
      assert rest[a] == nodes[if a < k then a else a + 1];
      assert rest[b] == nodes[if b < k then b else b + 1];
      assert nodes[j].next == rest[a];
      assert nodes[j].pre == rest[b];
    }
  }

  lemma NextOf<T(0)>(nodes: seq<LinkNode<T>>, i: nat)
    requires Ring(nodes) && i < |nodes|
    ensures nodes[i].next == nodes[After(i, |nodes|)] && nodes[i].pre == nodes[Before(i, |nodes|)]
  {
  }
}

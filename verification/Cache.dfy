/** The cache of cache/cache.c: a hash table of pointers into a ring of entries, both updated in place.
    Its operations refine those of CacheModel. */
module Caches {
  import opened Bytes
  import HashTable
  import Rescaling
  import CacheRuns
  import CacheTable
  import opened LinkLists
  import opened CacheModel
  import opened Sequences

  /** The nodes carry these entries. */
  ghost predicate Carries<T(0)>(nodes: seq<LinkNode<T>>, es: seq<T>)
    reads nodes`data
  {
    |nodes| == |es| && forall i {:trigger nodes[i].data} {:trigger es[i]} | 0 <= i < |es| :: nodes[i].data == es[i]
  }

  /** The table leads from the key of every entry to the entry's node, and from nowhere else. */
  ghost predicate Indexed<V(0)>(table: map<Name, LinkNode<Entry<V>>>, nodes: seq<LinkNode<Entry<V>>>, es: Entries<V>) {
    && |es| == |nodes|
    && (forall i | 0 <= i < |es| :: es[i].key in table && table[es[i].key] == nodes[i])
    && (forall k | k in table :: exists i :: 0 <= i < |es| && es[i].key == k)
  }

  class Cache<V(0)> {
    const hTab: HashTable.HashTab<LinkNode<Entry<V>>>
    const lList: LinkList<Entry<V>>
    var len: int
    const maxSize: int
    ghost var Contents: Entries<V>             // the cached entries, most recently used first
    ghost var Nodes: set<LinkNode<Entry<V>>>   // the list's nodes, and those it has let go

    ghost predicate Valid()
      reads this, hTab, hTab.Repr, lList, lList.ring
    {
      && hTab.Valid() && hTab.Faithful()
      && lList.Valid()
      && Separate()
      && Carries(lList.ring[1..], Contents)
      && Indexed(hTab.Contents, lList.ring[1..], Contents)
      && 1 <= maxSize < 0x8000_0000 && hTab.len <= MaxLen()
      && len == hTab.num == |lList.ring| - 1 <= maxSize
    }

    /** The table doubles only when there are as many keys as the new number of buckets. */
    function MaxLen(): int {
      if maxSize < HashTable.INIT_SIZE then HashTable.INIT_SIZE else maxSize
    }

    /** The list's nodes are in Nodes, and the table's objects are others. */
    ghost predicate Separate()
      reads this`Nodes, hTab, lList
    {
      && this !in hTab.Repr && lList !in hTab.Repr && Nodes !! hTab.Repr
      && forall i | 0 <= i < |lList.ring| :: lList.ring[i] in Nodes
    }

    constructor (maxSize: int)
      requires 1 <= maxSize < 0x8000_0000
      ensures Valid() && Contents == [] && this.maxSize == maxSize && hTab.history == []
      ensures fresh(hTab.Repr) && fresh(lList) && fresh(Nodes)
    {
      var t := new HashTable.HashTab<LinkNode<Entry<V>>>();
      var l := new LinkList<Entry<V>>();
      hTab, lList, len, this.maxSize := t, l, 0, maxSize;
      Contents := [];
      Nodes := {l.head};
    }

    method MoveToFront(lkn: LinkNode<Entry<V>>, ghost k: nat)
      requires lList.Valid() && Separate() && 1 <= k < |lList.ring| && lList.ring[k] == lkn
      modifies lList`ring, Nodes`next, Nodes`pre
      ensures lList.Valid() && Separate() && lList.ring == [lList.head] + ToFront(old(lList.ring[1..]), k - 1)
    {
      hide Ring, Distinct;
      lList.Remove(lkn, k);
      lList.PutInHead(lkn);
    }

    /** The key is cached: store the new value and move its entry to the front. */
    method Refresh(lkn: LinkNode<Entry<V>>, key: Name, v: V, ttl: int, now: int)
      requires Valid() && key in hTab.Contents && hTab.Contents[key] == lkn
      modifies this`Contents, lList`ring, Nodes`next, Nodes`pre, Nodes`data
      ensures Valid()
      ensures Contents == [Entry(key, v, now, ttl)] + Without(old(Contents), key)
      ensures hTab.len == old(hTab.len) && hTab.Repr == old(hTab.Repr) && Nodes == old(Nodes)
      ensures hTab.history == old(hTab.history)
    {
      hide HashTable.HashTab.Valid, Ring, Find, Indexed, Without, ToFront;
      ghost var nodes, es, e := lList.ring[1..], Contents, Entry(key, v, now, ttl);
      DistinctRest(lList.ring);
      IndexedFind(hTab.Contents, nodes, es, key);
      ghost var i := Find(es, key);
      assert lList.ring[i + 1] == nodes[i];
      lkn.data := lkn.data.(value := v, saveTime := now, ttl := ttl);
      ReplacedIndex(hTab.Contents, nodes, es, i, e);
      MoveToFront(lkn, i + 1);
      CarriesToFront(nodes, es[i := e], i);
      MovedIndex(hTab.Contents, nodes, es[i := e], i);
      ReplaceIsPut(es, i, e);
      ToFrontSame(nodes, i);
      Contents := ToFront(es[i := e], i);
    }

    /** Delete a key that is there from the table. The table is left without a bucket exactly when it had
        one bucket and one key. */
    method Unindex(key: Name)
      requires hTab.Valid() && hTab.Faithful() && Separate() && lList.Valid() && 1 <= hTab.len <= MaxLen() && maxSize < 0x8000_0000
      requires key in hTab.Contents && hTab.num < 0x8000_0000 && Carries(lList.ring[1..], Contents)
      modifies hTab.Repr
      ensures hTab.Valid() && hTab.Faithful() && (forall o | o in hTab.Repr :: o in old(hTab.Repr) || fresh(o)) && Separate() && lList.Valid()
      ensures hTab.Contents == old(hTab.Contents) - {key} && hTab.num == old(hTab.num) - 1
      ensures hTab.len >= 1 <==> old(hTab.num > 1 || hTab.len > 1)
      ensures hTab.len <= old(hTab.len) && hTab.history == old(hTab.history) + [Rescaling.Remove]
      ensures len == old(len) && Contents == old(Contents) && lList.ring == old(lList.ring)
      ensures Nodes == old(Nodes) && Carries(lList.ring[1..], Contents)
    {
      hide HashTable.HashTab.Valid, Ring, Distinct, Rescaling.Possible, Rescaling.Run;
      hTab.Delete(key);
    }

    /** Delete an entry from the table and from the list. */
    method Drop(lkn: LinkNode<Entry<V>>, ghost i: nat)
      requires Valid() && hTab.len >= 1 && i < |lList.ring| - 1 && lList.ring[i + 1] == lkn
      modifies this`len, this`Contents, hTab.Repr, lList`ring, Nodes`next, Nodes`pre
      ensures Valid() && (forall o | o in hTab.Repr :: o in old(hTab.Repr) || fresh(o))
      ensures Contents == Without(old(Contents), old(lkn.data.key)) == Cut(old(Contents), i)
      ensures hTab.Contents == old(hTab.Contents - {lkn.data.key}) && len == old(len) - 1 && Nodes == old(Nodes)
      ensures hTab.history == old(hTab.history) + [Rescaling.Remove]
      ensures hTab.len >= 1 <==> old(hTab.num > 1 || hTab.len > 1)
    {
      ghost var nodes, es := lList.ring[1..], Contents;
      assert nodes[i] == lkn && es[i] == lkn.data;
      DistinctRest(lList.ring);
      hide HashTable.HashTab.Valid, HashTable.HashTab.Faithful, Ring, Carries, Find, Indexed, Without, Distinct, Separate, Has, Cut, MaxLen;
      DroppedIndex(hTab.Contents, nodes, es, i);
      DropIsWithout(hTab.Contents, nodes, es, i);
      Unindex(lkn.data.key);
      DropNode(lkn, i);
      assert Indexed(hTab.Contents, lList.ring[1..], Contents) && len == hTab.num == |lList.ring| - 1;
    }

    method DropNode(lkn: LinkNode<Entry<V>>, ghost i: nat)
      requires lList.Valid() && Separate() && i < |lList.ring| - 1 && lList.ring[i + 1] == lkn
      requires hTab.Valid() && hTab.Faithful() && Carries(lList.ring[1..], Contents)
      modifies this`len, this`Contents, lList`ring, Nodes`next, Nodes`pre
      ensures hTab.Valid() && hTab.Faithful() && hTab.Contents == old(hTab.Contents) && hTab.Repr == old(hTab.Repr)
      ensures hTab.num == old(hTab.num) && hTab.len == old(hTab.len) && hTab.history == old(hTab.history)
      ensures lList.Valid() && Separate()
      ensures lList.ring[1..] == Cut(old(lList.ring[1..]), i) && Carries(lList.ring[1..], Contents)
      ensures len == old(len) - 1 && Contents == Cut(old(Contents), i)
    {
      hide HashTable.HashTab.Valid, HashTable.HashTab.Faithful, Ring, Distinct, Carries;
      ghost var nodes := lList.ring[1..];
      lList.Remove(lkn, i + 1);
      assert lList.ring[1..] == Cut(nodes, i);
      CarriesCut(nodes, Contents, i);
      len := len - 1;
      Contents := Cut(Contents, i);
    }

    /** Put a new entry at the front of the list and into the table. */
    method AddNew(key: Name, v: V, ttl: int, now: int) returns (ghost n: LinkNode<Entry<V>>)
      requires Valid() && hTab.len >= 1 && !Has(Contents, key) && |key| < HashTable.KEY_MAX && len < maxSize
      modifies this`len, this`Contents, this`Nodes, hTab.Repr, lList`ring, Nodes`next, Nodes`pre
      ensures Valid() && (forall o | o in hTab.Repr :: o in old(hTab.Repr) || fresh(o)) && hTab.len >= 1
      ensures Contents == [Entry(key, v, now, ttl)] + old(Contents)
      ensures fresh(n) && Nodes == old(Nodes) + {n} && hTab.history == old(hTab.history) + [Rescaling.Add]
    {
      ghost var nodes, es, e := lList.ring[1..], Contents, Entry(key, v, now, ttl);
      DistinctRest(lList.ring);
      IndexedFind(hTab.Contents, nodes, es, key);
      assert Carries(nodes, es) && Indexed(hTab.Contents, nodes, es) && key !in hTab.Contents && Separate();
      assert 1 <= maxSize < 0x8000_0000 && hTab.len <= MaxLen() && len == hTab.num == |lList.ring| - 1 <= maxSize;
      hide *;
      var nod := PutNode(Entry(key, v, now, ttl));
      AddedIndex(hTab.Contents, nodes, es, nod, e);
      Enter(key, nod);
      n := nod;
      ValidNow(hTab.Contents, lList.ring[1..]);
    }

    lemma ValidNow(table: map<Name, LinkNode<Entry<V>>>, nodes: seq<LinkNode<Entry<V>>>)
      requires hTab.Valid() && hTab.Faithful() && lList.Valid() && Separate() && Carries(nodes, Contents)
      requires table == hTab.Contents && nodes == lList.ring[1..] && Indexed(table, nodes, Contents)
      requires 1 <= maxSize < 0x8000_0000 && hTab.len <= MaxLen() && len == hTab.num == |lList.ring| - 1 <= maxSize
      ensures Valid()
    {
    }

    method PutNode(e: Entry<V>) returns (nod: LinkNode<Entry<V>>)
      requires hTab.Valid() && hTab.Faithful() && lList.Valid() && Separate() && Carries(lList.ring[1..], Contents)
      modifies this`Contents, this`Nodes, lList`ring, Nodes`next, Nodes`pre
      ensures fresh(nod) && Nodes == old(Nodes) + {nod}
      ensures hTab.Valid() && hTab.Faithful() && lList.Valid() && Separate() && Carries(lList.ring[1..], Contents)
      ensures Contents == [e] + old(Contents) && hTab.Contents == old(hTab.Contents) && hTab.Repr == old(hTab.Repr)
      ensures hTab.num == old(hTab.num) && hTab.len == old(hTab.len) && len == old(len)
      ensures hTab.history == old(hTab.history)
      ensures lList.ring == [lList.head, nod] + old(lList.ring[1..]) && lList.ring[1..] == [nod] + old(lList.ring[1..])
    {
      hide HashTable.HashTab.Valid, HashTable.HashTab.Faithful, Ring, Distinct, Carries;
      ghost var nodes := lList.ring[1..];
      nod := new LinkNode(e);
      lList.PutInHead(nod);
      assert lList.ring[1..] == [nod] + nodes;
      CarriesMore(nodes, Contents, nod);
      Contents := [e] + Contents;
      Nodes := Nodes + {nod};
    }

    method Enter(key: Name, nod: LinkNode<Entry<V>>)
      requires hTab.Valid() && hTab.Faithful() && lList.Valid() && Separate() && Carries(lList.ring[1..], Contents)
      requires key !in hTab.Contents && |key| < HashTable.KEY_MAX
      requires hTab.len >= 1 && hTab.num < maxSize && hTab.len <= MaxLen()
      modifies this`len, hTab.Repr
      ensures hTab.Valid() && hTab.Faithful() && lList.Valid() && Separate() && Carries(lList.ring[1..], Contents)
      ensures (forall o | o in hTab.Repr :: o in old(hTab.Repr) || fresh(o)) && lList.ring == old(lList.ring)
      ensures hTab.Contents == old(hTab.Contents)[key := nod] && hTab.num == old(hTab.num) + 1
      ensures 1 <= hTab.len <= MaxLen() && hTab.history == old(hTab.history) + [Rescaling.Add]
      ensures len == old(len) + 1 && Contents == old(Contents) && Nodes == old(Nodes)
    {
      hide HashTable.HashTab.Valid, Ring, Distinct, Rescaling.Possible, Rescaling.Run;
      hTab.Insert(key, nod);
      len := len + 1;
    }

    /** Room for one more: delete the last entry of a full cache. */
    method Evict()
      requires Valid() && hTab.len >= 1 && len >= maxSize
      modifies this`len, this`Contents, hTab.Repr, lList`ring, Nodes`next, Nodes`pre
      ensures Valid() && (forall o | o in hTab.Repr :: o in old(hTab.Repr) || fresh(o))
      ensures Contents == old(Contents)[..old(len) - 1] && len == old(len) - 1 && Nodes == old(Nodes)
      ensures hTab.history == old(hTab.history) + [Rescaling.Remove]
      ensures hTab.len >= 1 <==> old(hTab.num > 1 || hTab.len > 1)
    {
      hide HashTable.HashTab.Valid, HashTable.HashTab.Faithful, Ring, Find, Indexed, Distinct, Without, Has;
      ghost var i := len - 1;
      var lkn := lList.GetLast();
      assert lkn == lList.ring[i + 1];
      Drop(lkn, i);
    }

    /** `search` in the table: the node it leads to is that of the key's entry, at i. */
    method Lookup(key: Name) returns (t: Option<LinkNode<Entry<V>>>, ghost i: nat)
      requires Valid() && hTab.len >= 1
      ensures |Contents| == len == hTab.num && len <= maxSize && 1 <= maxSize && i == Find(Contents, key)
      ensures Good(Contents, maxSize)
      ensures if t == None then !Has(Contents, key)
              else Has(Contents, key) && lList.ring[i + 1] == t.value && t.value.data == Contents[i]
                   && key in hTab.Contents && hTab.Contents[key] == t.value
    {
      t := hTab.Search(key);
      hide HashTable.HashTab.Valid, HashTable.HashTab.Faithful, Ring, Find;
      ghost var nodes := lList.ring[1..];
      DistinctRest(lList.ring);
      IndexedFind(hTab.Contents, nodes, Contents, key);
      i := Find(Contents, key);
    }

    /** Move the entry at i to the front. */
    method Touch(lkn: LinkNode<Entry<V>>, ghost i: nat)
      requires Valid() && i < |Contents| && lList.ring[i + 1] == lkn
      modifies this`Contents, lList`ring, Nodes`next, Nodes`pre
      ensures Valid() && Contents == ToFront(old(Contents), i)
      ensures hTab.len == old(hTab.len) && hTab.Repr == old(hTab.Repr) && lkn.data == old(lkn.data) && len == old(len)
      ensures hTab.history == old(hTab.history)
    {
      hide HashTable.HashTab.Valid, HashTable.HashTab.Faithful, Ring, Find, Indexed, Without, ToFront;
      ghost var nodes, es := lList.ring[1..], Contents;
      MoveToFront(lkn, i + 1);
      CarriesToFront(nodes, es, i);
      MovedIndex(hTab.Contents, nodes, es, i);
      ToFrontSame(nodes, i);
      Contents := ToFront(es, i);
    }

    /** `CachePut` at time now. A full cache of one entry must not be about to lose the table's last bucket. */
    method CachePut(key: Name, v: V, ttl: int, now: int)
      requires Valid() && hTab.len >= 1 && |key| < HashTable.KEY_MAX
      requires Has(Contents, key) || len < maxSize || hTab.num > 1 || hTab.len > 1
      modifies this`len, this`Contents, this`Nodes, hTab.Repr, lList`ring, Nodes`next, Nodes`pre, Nodes`data
      ensures Valid() && hTab.len >= 1 && (forall o | o in hTab.Repr :: o in old(hTab.Repr) || fresh(o))
      ensures forall o | o in Nodes :: o in old(Nodes) || fresh(o)
      ensures Contents == Put(old(Contents), maxSize, key, v, ttl, now)
      ensures Contents != [] && Contents[0].key == key && Contents[0].value == v
      ensures Contents[0].ttl == ttl && Contents[0].saveTime == now
      ensures hTab.history
              == old(hTab.history) + CacheTable.TableOps(old(Contents), maxSize, CacheRuns.PutOp(key, v, ttl, now))
    {
      hide *;
      var t, i := Lookup(key);
      PutMeans(Contents, maxSize, key, v, ttl, now);
      ghost var after, more := PutCases(Contents, maxSize, key, v, ttl, now);
      assert hTab.history + [] == hTab.history;
      if t.Some? {
        Refresh(t.value, key, v, ttl, now);
      } else {
        PutNew(key, v, ttl, now);
      }
    }

    method PutNew(key: Name, v: V, ttl: int, now: int)
      requires Valid() && hTab.len >= 1 && |key| < HashTable.KEY_MAX && !Has(Contents, key)
      requires |Contents| == len <= maxSize && maxSize >= 1 && (len < maxSize || hTab.num > 1 || hTab.len > 1)
      modifies this`len, this`Contents, this`Nodes, hTab.Repr, lList`ring, Nodes`next, Nodes`pre
      ensures Valid() && hTab.len >= 1 && (forall o | o in hTab.Repr :: o in old(hTab.Repr) || fresh(o))
      ensures forall o | o in Nodes :: o in old(Nodes) || fresh(o)
      ensures Contents == [Entry(key, v, now, ttl)] + if old(len) >= maxSize then old(Contents)[..old(len) - 1] else old(Contents)
      ensures hTab.history == old(hTab.history) + NewOps(old(len) >= maxSize)
    {
      OneAndOne(hTab.history);
      hide *;
      if len >= maxSize {
        StillAbsent(Contents, key, len - 1);
        Evict();
      }
      ghost var _ := AddNew(key, v, ttl, now);
    }

    /** `CacheGet` at time now. Only the expiry of the last key of a one-bucket table leaves no bucket. */
    method CacheGet(key: Name, now: int) returns (r: Option<V>)
      requires Valid() && hTab.len >= 1
      modifies this`len, this`Contents, hTab.Repr, lList`ring, Nodes`next, Nodes`pre, Nodes`data
      ensures Valid() && (forall o | o in hTab.Repr :: o in old(hTab.Repr) || fresh(o))
      ensures Contents == AfterGet(old(Contents), key, now) && r == Answer(old(Contents), key, now)
      ensures forall e | e in old(Contents) && e.key == key ::
                && r == (if now - e.saveTime <= e.ttl then Some(e.value) else None)
                && ((exists x :: x in Contents && x.key == key) <==> now - e.saveTime <= e.ttl)
      ensures (forall e | e in old(Contents) :: e.key != key) ==> r == None && Contents == old(Contents)
      ensures hTab.len >= 1 <==> old(hTab.num > 1 || hTab.len > 1) || len == old(len)
      ensures hTab.history
              == old(hTab.history) + CacheTable.TableOps(old(Contents), maxSize, CacheRuns.GetOp(key, now))
    {
      var t, i := Lookup(key);
      GetCases(Contents, key, now);
      GetFetches(Contents, key, now);
      GetTable(Contents, maxSize, key, now);
      hide *;
      if t == None {
        return None;
      }
      var lkn := t.value;
      if Expired(lkn.data, now) {
        Drop(lkn, i);
        return None;
      }
      Touch(lkn, i);
      r := Some(lkn.data.value);
    }
  }

  /** A cached value is returned, and its entry stays, exactly while it is no older than its time to live; a key that is
      not cached changes nothing. */
  lemma GetFetches<V>(es: Entries<V>, key: Name, now: int)
    requires Unique(es)
    ensures var es', r := AfterGet(es, key, now), Answer(es, key, now);
            && (forall e | e in es && e.key == key ::
                  && r == (if now - e.saveTime <= e.ttl then Some(e.value) else None)
                  && ((exists x :: x in es' && x.key == key) <==> now - e.saveTime <= e.ttl))
            && ((forall e | e in es :: e.key != key) ==> r == None && es' == es)
  {
    GetMeans(es, key, now);
    var es' := AfterGet(es, key, now);
    assert Has(es', key) <==> exists x :: x in es' && x.key == key by {
      if exists x :: x in es' && x.key == key {
        var j :| 0 <= j < |es'| && es'[j].key == key;
      }
    }
    hide AfterGet, Answer, Find;
    if Has(es, key) {
      assert es[Find(es, key)] in es;
    }
  }

  /** What bringing in a new key does to the table. */
  function NewOps(full: bool): seq<Rescaling.Op> {
    (if full then [Rescaling.Remove] else []) + [Rescaling.Add]
  }

  lemma OneAndOne(h: seq<Rescaling.Op>)
    ensures h + NewOps(true) == h + [Rescaling.Remove] + [Rescaling.Add] && h + NewOps(false) == h + [Rescaling.Add]
  {
  }

  /** What a get does to the table. */
  lemma GetTable<V>(es: Entries<V>, maxSize: nat, k: Name, now: int)
    ensures CacheTable.TableOps(es, maxSize, CacheRuns.GetOp(k, now))
         == if Has(es, k) && Expired(es[Find(es, k)], now) then [Rescaling.Remove] else []
  {
  }

  lemma GetCases<V>(es: Entries<V>, k: Name, now: int)
    ensures var i := Find(es, k);
            if !Has(es, k) then AfterGet(es, k, now) == es && Answer(es, k, now) == None
            else if Expired(es[i], now) then AfterGet(es, k, now) == Without(es, k) && Answer(es, k, now) == None
            else AfterGet(es, k, now) == ToFront(es, i) && Answer(es, k, now) == Some(es[i].value)
  {
  }

  lemma PutCases<V>(es: Entries<V>, maxSize: nat, k: Name, v: V, ttl: int, now: int)
    returns (after: Entries<V>, more: seq<Rescaling.Op>)
    requires maxSize >= 1
    ensures after == Put(es, maxSize, k, v, ttl, now)
    ensures more == CacheTable.TableOps(es, maxSize, CacheRuns.PutOp(k, v, ttl, now))
    ensures var e := Entry(k, v, now, ttl);
            if Has(es, k) then after == [e] + Without(es, k) && more == []
            else after == [e] + (if |es| >= maxSize then es[..|es| - 1] else es) && more == NewOps(|es| >= maxSize)
  {
    after, more := Put(es, maxSize, k, v, ttl, now), CacheTable.TableOps(es, maxSize, CacheRuns.PutOp(k, v, ttl, now));
    hide Without;
  }

  lemma DistinctRest<T(0)>(nodes: seq<LinkNode<T>>)
    requires Distinct(nodes) && nodes != []
    ensures Distinct(nodes[1..])
  {
  }

  /** Table and list agree on keys, and every key is in the list once. */
  lemma IndexedFind<V(0)>(table: map<Name, LinkNode<Entry<V>>>, nodes: seq<LinkNode<Entry<V>>>, es: Entries<V>, k: Name)
    requires Indexed(table, nodes, es) && Distinct(nodes)
    ensures Unique(es) && (k in table <==> Has(es, k))
    ensures k in table ==> nodes[Find(es, k)] == table[k]
  {
  }

  lemma CarriesCut<T(0)>(nodes: seq<LinkNode<T>>, es: seq<T>, i: nat)
    requires i < |nodes| && Carries(nodes, es)
    ensures Carries(Cut(nodes, i), Cut(es, i))
  {
    var a, b := Cut(nodes, i), Cut(es, i);
    forall j | 0 <= j < |b| ensures a[j].data == b[j] {
      var k := if j < i then j else j + 1;
      assert a[j] == nodes[k] && b[j] == es[k];
    }
  }

  lemma CarriesMore<T(0)>(nodes: seq<LinkNode<T>>, es: seq<T>, n: LinkNode<T>)
    requires Carries(nodes, es)
    ensures Carries([n] + nodes, [n.data] + es)
  {
    var a, b := [n] + nodes, [n.data] + es;
    forall j | 0 <= j < |b| ensures a[j].data == b[j] {
      assert j > 0 ==> a[j] == nodes[j - 1] && b[j] == es[j - 1];
    }
  }

  lemma AddedIndex<V(0)>(table: map<Name, LinkNode<Entry<V>>>, nodes: seq<LinkNode<Entry<V>>>, es: Entries<V>,
                         n: LinkNode<Entry<V>>, e: Entry<V>)
    requires Indexed(table, nodes, es) && e.key !in table
    ensures Indexed(table[e.key := n], [n] + nodes, [e] + es)
  {
    var table', es' := table[e.key := n], [e] + es;
    forall k | k in table' ensures exists j :: 0 <= j < |es'| && es'[j].key == k {
      if k == e.key {
        assert es'[0].key == k;
      } else {
        var j :| 0 <= j < |es| && es[j].key == k;
        assert es'[j + 1].key == k;
      }
    }
  }

  lemma DroppedIndex<V(0)>(table: map<Name, LinkNode<Entry<V>>>, nodes: seq<LinkNode<Entry<V>>>, es: Entries<V>, i: nat)
    requires Indexed(table, nodes, es) && Distinct(nodes) && i < |es|
    ensures es[i].key in table
    ensures Indexed(table - {es[i].key}, Cut(nodes, i), Cut(es, i))
  {
    var rest, es' := Cut(nodes, i), Cut(es, i);
    assert forall j | 0 <= j < |rest| :: rest[j] == nodes[if j < i then j else j + 1];
    assert forall j | 0 <= j < |rest| :: es'[j] == es[if j < i then j else j + 1];
    hide Cut;
    forall k | k in table - {es[i].key} ensures exists j :: 0 <= j < |es'| && es'[j].key == k {
      var j :| 0 <= j < |es| && es[j].key == k;
      assert es'[if j < i then j else j - 1].key == k;
    }
  }

  lemma DropIsWithout<V(0)>(table: map<Name, LinkNode<Entry<V>>>, nodes: seq<LinkNode<Entry<V>>>, es: Entries<V>, i: nat)
    requires Indexed(table, nodes, es) && Distinct(nodes) && i < |es|
    ensures Without(es, es[i].key) == Cut(es, i)
  {
    IndexedFind(table, nodes, es, es[i].key);
    FindUnique(es, i);
  }

  /** Where the element at j after a move to the front of element i comes from. */
  function Source(i: nat, j: nat): nat {
    if j == 0 then i else if j <= i then j - 1 else j
  }

  lemma ToFrontAt<T>(s: seq<T>, i: nat)
    requires i < |s|
    ensures forall j | 0 <= j < |s| :: Source(i, j) < |s| && ToFront(s, i)[j] == s[Source(i, j)]
  {
  }

  lemma ToFrontSame<T>(s: seq<T>, i: nat)
    requires i < |s|
    ensures forall x | x in ToFront(s, i) :: x in s
  {
  }

  lemma CarriesToFront<T(0)>(nodes: seq<LinkNode<T>>, es: seq<T>, i: nat)
    requires i < |nodes| && Carries(nodes, es)
    ensures Carries(ToFront(nodes, i), ToFront(es, i))
  {
    ToFrontAt(nodes, i);
    ToFrontAt(es, i);
    hide ToFront;
  }

  /** Moving an entry and its node to the front is no change for the table. */
  lemma MovedIndex<V(0)>(table: map<Name, LinkNode<Entry<V>>>, nodes: seq<LinkNode<Entry<V>>>, es: Entries<V>, i: nat)
    requires Indexed(table, nodes, es) && i < |es|
    ensures Indexed(table, ToFront(nodes, i), ToFront(es, i))
  {
    ToFrontAt(nodes, i);
    ToFrontAt(es, i);
    hide ToFront;
    var es' := ToFront(es, i);
    forall k | k in table ensures exists j :: 0 <= j < |es'| && es'[j].key == k {
      var j :| 0 <= j < |es| && es[j].key == k;
      var j' := if j == i then 0 else if j < i then j + 1 else j;
      assert Source(i, j') == j;
      assert es'[j'].key == k;
    }
  }

  /** Nor is a new entry under the same key. */
  lemma ReplacedIndex<V(0)>(table: map<Name, LinkNode<Entry<V>>>, nodes: seq<LinkNode<Entry<V>>>, es: Entries<V>,
                            i: nat, e: Entry<V>)
    requires Indexed(table, nodes, es) && i < |es| && es[i].key == e.key
    ensures Indexed(table, nodes, es[i := e])
  {
    var es' := es[i := e];
    forall k | k in table ensures exists j :: 0 <= j < |es'| && es'[j].key == k {
      var j :| 0 <= j < |es| && es[j].key == k;
      assert es'[j].key == k;
    }
  }

  lemma ReplaceIsPut<V>(es: Entries<V>, i: nat, e: Entry<V>)
    requires i < |es| && i == Find(es, e.key)
    ensures ToFront(es[i := e], i) == [e] + Without(es, e.key)
  {
  }

  ghost function ToFront<T>(s: seq<T>, i: nat): (r: seq<T>)
    requires i < |s|
    ensures |r| == |s|
  {
    [s[i]] + (s[..i] + s[i + 1..])
  }

  // ---- Runs of a cache in memory ---------------------------------------------------------------------------------

  /** The cache and the history of its table are those of a run of puts and gets. */
  ghost predicate Made<V(0)>(c: Cache<V>, ops: seq<CacheRuns.Op<V>>)
    reads c, c.hTab
  {
    && c.maxSize >= 1
    && c.Contents == CacheRuns.Run(c.maxSize, ops) && c.hTab.history == CacheTable.TableRun(c.maxSize, ops)
  }

  /** They stay so: `CachePut` and `CacheGet` change contents and history in this way. */
  lemma MadeMore<V>(maxSize: nat, ops: seq<CacheRuns.Op<V>>, op: CacheRuns.Op<V>)
    requires maxSize >= 1
    ensures var es := CacheRuns.Run(maxSize, ops);
            && CacheRuns.Run(maxSize, ops + [op]) == CacheRuns.Step(es, maxSize, op)
            && CacheTable.TableRun(maxSize, ops + [op])
               == CacheTable.TableRun(maxSize, ops) + CacheTable.TableOps(es, maxSize, op)
  {
    assert (ops + [op])[..|ops|] == ops;
  }

  /** The table in memory has the buckets of its run, and what `CachePut` demands of it says exactly that the run goes on
      with a bucket. */
  lemma TableOfRun<V(0)>(c: Cache<V>, ops: seq<CacheRuns.Op<V>>, key: Name, v: V, ttl: int, now: int)
    requires c.Valid() && Made(c, ops) && CacheTable.TableLives(c.maxSize, ops)
    ensures c.hTab.len == CacheTable.Buckets(c.maxSize, ops) >= 1
    ensures Has(c.Contents, key) || c.len < c.maxSize || c.hTab.num > 1 || c.hTab.len > 1
       <==> CacheTable.TableLives(c.maxSize, ops + [CacheRuns.PutOp(key, v, ttl, now)])
  {
    var more := ops + [CacheRuns.PutOp(key, v, ttl, now)];
    assert more[..|ops|] == ops;
    CacheTable.TableCounts(c.maxSize, ops);
    CacheTable.LivesHasBucket(c.maxSize, ops);
    CacheTable.TableStep(c.maxSize, more);
    assert c.hTab.TheShape() == Rescaling.Run(c.hTab.history) && |c.Contents| == c.len == c.hTab.num;
    hide Has, CacheTable.TableLives, CacheRuns.Run, Rescaling.Run;
  }
}

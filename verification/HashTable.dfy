/** The chained hash table of cache/hash.c: buckets, chains and counters updated in place. */
module HashTable {
  import opened Bytes
  import opened Rescaling

  const KEY_MAX := 50
  const INIT_SIZE := INIT_LEN
  const UINT_MAX := 0xffff_ffff

  // ---- Keys and hashes --------------------------------------------------------------------------

  /** The key that `newNode` leaves behind: at most KEY_MAX octets are copied and no NUL is added, so a
      longer key runs on into whatever the allocator left there. */
  function StoredKey(name: Name, junk: Name): Name {
    if |name| < KEY_MAX then name else name[..KEY_MAX] + junk
  }

  /** A key is stored as given, whatever memory held before, exactly when it is shorter than 50 octets. */
  lemma KeyStored(name: Name)
    ensures |name| < 50 <==> forall junk: Name :: StoredKey(name, junk) == name
    ensures |name| >= 50 ==> forall junk: Name :: StoredKey(name, junk) == name[..50] + junk
  {
    if |name| >= KEY_MAX {
      var junk := name + name;
      assert |StoredKey(name, junk)| > |name|;
    }
  }

  /** `char` is signed. */
  function CharValue(c: Byte): int {
    if c < 0x80 then c else c as int - 0x100
  }

  function HashStep(res: U32, c: Byte): U32 {
    (res as int + CharValue(c) * 39) % 0x1_0000_0000
  }

  function HashOf(name: Name): U32 {
    if name == [] then 0 else HashStep(HashOf(name[..|name| - 1]), name[|name| - 1])
  }

  /** The hash in full: 39 times the sum of the octets, signed, on 32 bits; the bucket is its remainder. */
  lemma HashMeans(name: Name, c: Byte, len: nat)
    ensures HashOf([]) == 0
    ensures HashOf(name + [c]) == (HashOf(name) as int + 39 * (if c < 128 then c as int else c as int - 256)) % 0x1_0000_0000
    ensures len > 0 ==> Bucket(name, len) == HashOf(name) as int % len
  {
    assert (name + [c])[..|name + [c]| - 1] == name;
  }

  method Hash(name: Name) returns (res: U32)
    ensures res == HashOf(name)
  {
    res := 0;
    var i := 0;
    while i < |name|
      invariant 0 <= i <= |name| && res == HashOf(name[..i])
    {
      assert name[..i + 1][..i] == name[..i];
      res := HashStep(res, name[i]);
      i := i + 1;
    }
    assert name[..i] == name;
  }

  /** Bucket of a key in a table of len buckets. */
  function Bucket(name: Name, len: nat): (b: nat)
    requires len > 0
    ensures b < len
  {
    HashOf(name) % len
  }

  /** `num * 2` on 32 bits. */
  function Double(num: nat): (r: nat)
    ensures num < 0x8000_0000 ==> r == num * 2
    ensures num == UINT_MAX ==> r == UINT_MAX - 1
  {
    num * 2 % 0x1_0000_0000
  }

  /** `num--` on 32 bits. */
  function OneLess(num: nat): nat {
    if num == 0 then UINT_MAX else num - 1
  }

  /** The counters' arithmetic in full. */
  lemma CountersMean(num: nat)
    ensures Double(num) == 2 * num % 0x1_0000_0000
    ensures OneLess(num) == if num == 0 then 0xffff_ffff else num - 1
  {
  }

  // ---- Nodes and chains -----------------------------------------------------------------------------

  class Node<V> {
    const name: Name
    var data: V
    var next: Node?<V>

    constructor (name: Name, data: V)
      ensures this.name == name && this.data == data && this.next == null
    {
      this.name, this.data, this.next := name, data, null;
    }
  }

  /** The nodes of c are linked in this order, starting from `first`. */
  ghost predicate Linked<V>(first: Node?<V>, c: seq<Node<V>>)
    reads c`next
  {
    && first == (if c == [] then null else c[0])
    && forall j {:trigger c[j].next} | 0 <= j < |c| :: c[j].next == (if j + 1 < |c| then c[j + 1] else null)
  }

  /** h holds the first nodes of the chains. */
  ghost predicate AllLinked<V>(h: array<Node?<V>>, chains: seq<seq<Node<V>>>)
    reads h, (set i, j | 0 <= i < |chains| && 0 <= j < |chains[i]| :: chains[i][j])`next
  {
    h.Length == |chains| && forall b | 0 <= b < |chains| :: Linked(h[b], chains[b])
  }

  ghost predicate HasKey<V>(c: seq<Node<V>>, k: Name) {
    exists j :: 0 <= j < |c| && c[j].name == k
  }

  /** The chain without its node number j. */
  ghost function Without<V>(c: seq<Node<V>>, j: nat): seq<Node<V>>
    requires j <= |c|
  {
    if j < |c| then c[..j] + c[j + 1..] else c
  }

  ghost predicate DistinctKeys<V>(c: seq<Node<V>>) {
    forall j, k | 0 <= j < k < |c| :: c[j].name != c[k].name
  }

  /** Keys sit in their bucket and occur once; so every key occurs in one place of the table. */
  ghost predicate Placed<V>(chains: seq<seq<Node<V>>>) {
    && (forall i, j | 0 <= i < |chains| && 0 <= j < |chains[i]| :: Bucket(chains[i][j].name, |chains|) == i)
    && (forall i | 0 <= i < |chains| :: DistinctKeys(chains[i]))
  }

  /** ks are the keys of the table. */
  ghost predicate KeysAre<V>(chains: seq<seq<Node<V>>>, ks: set<Name>) {
    && (forall i, j | 0 <= i < |chains| && 0 <= j < |chains[i]| :: chains[i][j].name in ks)
    && (forall k | k in ks :: |chains| > 0 && HasKey(chains[Bucket(k, |chains|)], k))
  }

  ghost predicate NodesIn<V>(chains: seq<seq<Node<V>>>, all: set<object>) {
    forall i, j | 0 <= i < |chains| && 0 <= j < |chains[i]| :: chains[i][j] in all
  }

  ghost function KeySet<V>(c: seq<Node<V>>): set<Name> {
    set j | 0 <= j < |c| :: c[j].name
  }

  ghost function AllKeys<V>(chains: seq<seq<Node<V>>>): set<Name> {
    if chains == [] then {} else AllKeys(chains[..|chains| - 1]) + KeySet(chains[|chains| - 1])
  }

  ghost function AllNodes<V>(chains: seq<seq<Node<V>>>): set<Node<V>> {
    set i, j | 0 <= i < |chains| && 0 <= j < |chains[i]| :: chains[i][j]
  }

  /** Every node carries the value that m has under the node's key. */
  ghost predicate DataAgree<V>(chains: seq<seq<Node<V>>>, m: map<Name, V>)
    reads (set i, j | 0 <= i < |chains| && 0 <= j < |chains[i]| :: chains[i][j])`data
  {
    forall i, j | 0 <= i < |chains| && 0 <= j < |chains[i]| ::
      chains[i][j].name in m && m[chains[i][j].name] == chains[i][j].data
  }

  ghost function Nodes<V>(chains: seq<seq<Node<V>>>): nat {
    if chains == [] then 0 else Nodes(chains[..|chains| - 1]) + |chains[|chains| - 1]|
  }

  lemma {:induction false} NodesUpdate<V>(chains: seq<seq<Node<V>>>, i: nat, c: seq<Node<V>>)
    requires i < |chains|
    ensures Nodes(chains[i := c]) == Nodes(chains) - |chains[i]| + |c|
    decreases |chains|
  {
    var init := chains[..|chains| - 1];
    if i == |chains| - 1 {
      assert chains[i := c][..|chains| - 1] == init;
    } else {
      assert chains[i := c][..|chains| - 1] == init[i := c];
      NodesUpdate(init, i, c);
    }
  }

  /** A node whose key is not in its bucket is in no chain. */
  lemma NotInChains<V>(chains: seq<seq<Node<V>>>, t: Node<V>)
    requires |chains| > 0 && Placed(chains) && !HasKey(chains[Bucket(t.name, |chains|)], t.name)
    ensures forall i, j | 0 <= i < |chains| && 0 <= j < |chains[i]| :: chains[i][j] != t
  {
  }

  lemma PlacedInFront<V>(chains: seq<seq<Node<V>>>, t: Node<V>)
    requires |chains| > 0 && Placed(chains) && !HasKey(chains[Bucket(t.name, |chains|)], t.name)
    ensures var b := Bucket(t.name, |chains|);
            var chains' := chains[b := [t] + chains[b]];
            Placed(chains') && Nodes(chains') == Nodes(chains) + 1
  {
    var b := Bucket(t.name, |chains|);
    var chains': seq<seq<Node<V>>> := chains[b := [t] + chains[b]];
    NodesUpdate(chains, b, [t] + chains[b]);
    hide Bucket, Nodes;
    forall j, k | 0 <= j < k < |chains'[b]| ensures chains'[b][j].name != chains'[b][k].name {
      assert chains'[b][k] == chains[b][k - 1];
      if j > 0 {
        assert chains'[b][j] == chains[b][j - 1];
      }
    }
  }

  /** The linked nodes represent m: what the table's fields say about each other. */
  ghost predicate Represents<V>(h: array<Node?<V>>, chains: seq<seq<Node<V>>>, m: map<Name, V>)
    reads h, (set i, j | 0 <= i < |chains| && 0 <= j < |chains[i]| :: chains[i][j])
  {
    && AllLinked(h, chains) && Placed(chains)
    && KeysAre(chains, m.Keys) && DataAgree(chains, m)
    && Nodes(chains) == |m|
  }

  class HashTab<V> {
    var h: array<Node?<V>>
    var len: nat
    var num: nat
    ghost var chains: seq<seq<Node<V>>>
    ghost var Contents: map<Name, V>
    ghost var Repr: set<object>
    ghost var history: seq<Op>  // inserts and deletes so far
    ghost var work: nat         // buckets allocated, buckets scanned and nodes relinked so far

    /** The table is a well-formed representation of Contents. */
    ghost predicate Valid()
      reads this, Repr
      ensures Valid() ==> this in Repr
    {
      && this in Repr && h in Repr
      && len == |chains| && NodesIn(chains, Repr) && Represents(h, chains, Contents)
    }

    constructor ()
      ensures Valid() && fresh(Repr)
      ensures Contents == map[] && Faithful() && len == 1024 && num == 0 && history == []
    {
      h := new Node?<V>[INIT_SIZE](_ => null);
      len, num, work, history := INIT_SIZE, 0, 0, [];
      chains := seq(INIT_SIZE, _ => []);
      Contents := map[];
      new;
      Repr := {this, h};
      EmptyChains(INIT_SIZE, chains);
    }

    /** `num` counts the keys. */
    ghost predicate Counted()
      reads this
    {
      num == |Contents|
    }

    ghost function TheShape(): Shape
      reads this
    {
      Shape(num, len, work)
    }

    /** The counters are those of a run in which only keys that were there have been removed. */
    ghost predicate Faithful()
      reads this
    {
      Counted() && Possible(history) && TheShape() == Run(history)
    }

    /** Walk the chain of a key's bucket up to the node that has the key. */
    method Find(name: Name) returns (t: Node?<V>, ghost j: nat)
      requires Valid() && len >= 1
      ensures t == null <==> name !in Contents
      ensures t != null ==>
                && t in Repr && j < |chains[Bucket(name, len)]| && t == chains[Bucket(name, len)][j]
                && t.name == name && t.data == Contents[name]
    {
      var hs := Hash(name);
      var b := hs % len;
      t, j := h[b], 0;
      while t != null && t.name != name
        invariant j <= |chains[b]|
        invariant t == if j < |chains[b]| then chains[b][j] else null
        invariant forall k | 0 <= k < j :: chains[b][k].name != name
        decreases |chains[b]| - j
      {
        t := t.next;
        j := j + 1;
      }
    }

    method Search(name: Name) returns (r: Option<V>)
      requires Valid() && len >= 1
      ensures r == if name in Contents then Some(Contents[name]) else None
    {
      var t, _ := Find(name);
      r := if t == null then None else Some(t.data);
    }

    method Insert(name: Name, data: V)
      requires Valid() && len >= 1 && |name| < KEY_MAX
      modifies Repr
      ensures Valid() && (forall o | o in Repr :: o in old(Repr) || fresh(o))
      ensures Contents == old(Contents)[name := data]
      ensures num == old(num) + if name in old(Contents) then 0 else 1
      ensures history == old(history) + [if name in old(Contents) then Set else Add]
      ensures old(Faithful()) ==> Faithful()
      ensures if name !in old(Contents) && num >= old(len) * 2
              then len == old(len) * 2 && work == old(work) + 3 * old(len) + |Contents|
              else len == old(len) && work == old(work)
    {
      hide Placed, HasKey, Nodes, KeysAre, Bucket, NodesIn, AllLinked, DataAgree, Run, Possible;
      var t, j := Find(name);
      ghost var op := if t == null then Add else Set;
      RunMore(history, op);
      history := history + [op];
      if t != null {
        SetData(t, j, data);
        return;
      }
      AddNode(name, data);
      num := num + 1;
      if num >= len * 2 {
        Rescale(len * 2);
      }
    }

    /** The key is there: replace its value. */
    method SetData(t: Node<V>, ghost j: nat, data: V)
      requires Valid() && len >= 1
      requires j < |chains[Bucket(t.name, len)]| && t == chains[Bucket(t.name, len)][j]
      modifies this`Contents, t`data
      ensures Valid() && Contents == old(Contents)[t.name := data]
    {
      hide AllLinked, Placed, KeysAre, Nodes, Bucket, HasKey;
      ghost var m := Contents;
      t.data := data;
      SetRepresents(h, chains, Bucket(t.name, len), j, m);
      Contents := m[t.name := data];
    }

    /** The key is not there: put a new node in front of its bucket. */
    method AddNode(name: Name, data: V)
      requires Valid() && len >= 1 && name !in Contents && |name| < KEY_MAX
      modifies this`Contents, this`Repr, this`chains, h
      ensures Valid() && (forall o | o in Repr :: o in old(Repr) || fresh(o))
      ensures Contents == old(Contents)[name := data]
    {
      hide Represents, NodesIn, AllLinked, Placed, KeysAre, DataAgree, Nodes, Bucket, HasKey;
      ghost var n, to := PushNode(name, data);
      NodesInMore(chains, Repr, Repr + {n});
      FrontRepresents(h, chains, to, n, Contents, Repr + {n});
      Repr := Repr + {n};
      chains := to;
      Contents := Contents[name := data];
    }

    method PushNode(name: Name, data: V) returns (ghost n: Node<V>, ghost to: seq<seq<Node<V>>>)
      requires Valid() && len >= 1 && name !in Contents && |name| < KEY_MAX
      modifies h
      ensures fresh(n) && n.name == name && n.data == data
      ensures to == chains[Bucket(name, len) := [n] + chains[Bucket(name, len)]]
      ensures AllLinked(h, to) && Placed(to) && Nodes(to) == Nodes(chains) + 1
      ensures KeysAre(chains, Contents.Keys) && DataAgree(chains, Contents) && Nodes(chains) == |Contents|
    {
      hide NodesIn, AllLinked, Placed, KeysAre, DataAgree, Nodes, Bucket, HasKey;
      NotInBucket(chains, Contents.Keys, name);
      var junk: Name := *;
      KeyStored(name);
      var node := new Node(StoredKey(name, junk), data);
      n := node;
      to := Relink(node, h, chains);
    }

    /** `deleteNode`: unlink the node of the chain c that has the key, if there is one. */
    static method DeleteNode(head: Node?<V>, name: Name, ghost c: seq<Node<V>>) returns (first: Node?<V>, ghost j: nat)
      requires Linked(head, c) && DistinctKeys(c)
      modifies c`next
      ensures j <= |c| && Linked(first, Without(c, j))
      ensures (forall k | 0 <= k < j :: c[k].name != name) && (j < |c| ==> c[j].name == name)
    {
      var pre: Node?<V>, cur := null, head;
      j := 0;
      while cur != null && cur.name != name
        invariant j <= |c|
        invariant cur == if j < |c| then c[j] else null
        invariant pre == if j > 0 then c[j - 1] else null
        invariant forall k | 0 <= k < j :: c[k].name != name
        invariant Linked(head, c)
        decreases |c| - j
      {
        pre := cur;
        cur := cur.next;
        j := j + 1;
      }
      first := head;
      if cur == null {
        return;
      }
      if pre == null {
        first := cur.next;
        LinkedTail(cur, c, 0);
      } else {
        pre.next := cur.next;
      }
    }

    /** `delete`: the pair goes; `num` goes down whether or not it was there (from 0 to UINT_MAX), and the table
        halves when twice the new `num` is less than len, which must not leave keys without a bucket. */
    method Delete(name: Name)
      requires Valid() && 1 <= len <= 0x8000_0000 && num <= UINT_MAX
      requires len == 1 && Double(OneLess(num)) == 0 ==> Contents - {name} == map[]
      modifies Repr
      ensures Valid() && (forall o | o in Repr :: o in old(Repr) || fresh(o))
      ensures Contents == old(Contents) - {name}
      ensures num == if old(num) == 0 then 0xffff_ffff else old(num) - 1
      ensures old(Counted()) ==> (Counted() <==> name in old(Contents))
      ensures history == old(history) + [Remove]
      ensures old(Faithful()) && name in old(Contents) && num < 0x8000_0000 ==> Faithful()
      ensures if 2 * num % 0x1_0000_0000 < old(len)
              then len == old(len) / 2 && work == old(work) + old(len) + old(len) / 2 + |Contents|
              else len == old(len) && work == old(work)
    {
      CountersMean(num);
      CountersMean(OneLess(num));
      hide Represents, NodesIn, AllLinked, Placed, KeysAre, DataAgree, Nodes, Bucket, HasKey, Run, Possible, Double, Step;
      RunMore(history, Remove);
      NodesAreIn(chains, Repr);
      hide Valid, OneLess;
      ghost var was := TheShape();
      Unlink(name);
      Shrink();
      DeleteShape(was, TheShape(), |Contents|);
    }

    /** The end of `delete`. */
    method Shrink()
      requires Valid() && len >= 1 && (len == 1 && Double(num) == 0 ==> Contents == map[])
      modifies Repr
      ensures Valid() && (forall o | o in Repr :: o in old(Repr) || fresh(o))
      ensures Contents == old(Contents) && num == old(num) && history == old(history)
      ensures if Double(num) < old(len)
              then len == old(len) / 2 && work == old(work) + old(len) + old(len) / 2 + |Contents|
              else len == old(len) && work == old(work)
    {
      hide Valid, Double;
      if Double(num) < len {
        Rescale(len / 2);
      }
    }

    method Unlink(name: Name)
      requires Valid() && len >= 1
      modifies this`Contents, this`chains, this`num, this`history, h, AllNodes(chains)`next
      ensures Valid() && num == OneLess(old(num)) && history == old(history) + [Remove]
      ensures Contents == old(Contents) - {name}
      ensures |Contents| == |old(Contents)| - if name in old(Contents) then 1 else 0
    {
      hide Represents, Placed, KeysAre, DataAgree, Nodes, Bucket, HasKey, NodesIn, AllLinked;
      ghost var to := UnlinkNode(name);
      RemoveKey(Contents, name);
      chains := to;
      Contents := Contents - {name};
      num := OneLess(num);
      history := history + [Remove];
    }

    method UnlinkNode(name: Name) returns (ghost to: seq<seq<Node<V>>>)
      requires Valid() && len >= 1
      modifies h, AllNodes(chains)`next
      ensures |to| == |chains| && NodesIn(to, Repr) && Represents(h, to, Contents - {name})
    {
      var hs := Hash(name);
      var b := hs % len;
      assert b == Bucket(name, len);
      hide Represents, Placed, KeysAre, DataAgree, Nodes, Bucket, HasKey, NodesIn, AllLinked, Without, DistinctKeys;
      Unpack(h, chains, Contents);
      ChainAlone(chains, b);
      ghost var j := UnlinkAt(h, b, name, chains);
      to := chains[b := Without(chains[b], j)];
      UnlinkRepresents(h, chains, b, j, name, Contents, Repr);
    }

    static method UnlinkAt(h: array<Node?<V>>, b: nat, name: Name, ghost chains: seq<seq<Node<V>>>) returns (ghost j: nat)
      requires b < |chains| && AllLinked(h, chains) && Placed(chains)
      modifies h, chains[b]`next
      ensures j <= |chains[b]| && AllLinked(h, chains[b := Without(chains[b], j)])
      ensures (forall k | 0 <= k < j :: chains[b][k].name != name) && (j < |chains[b]| ==> chains[b][j].name == name)
    {
      hide Placed, Bucket, Without, DistinctKeys;
      ChainAlone(chains, b);
      var first: Node?<V>;
      first, j := DeleteNode(h[b], name, chains[b]);
      h[b] := first;
    }

    /** `rescale`: every node is relinked once, no lookup changes. */
    method Rescale(size: nat)
      requires Valid() && (size > 0 || Contents == map[])
      modifies Repr
      ensures Valid() && (forall o | o in Repr :: o in old(Repr) || fresh(o))
      ensures Contents == old(Contents) && num == old(num) && history == old(history) && len == size
      ensures work == old(work) + size + old(len) + |Contents|
    {
      hide Placed, HasKey, Nodes, KeysAre, Bucket, DistinctKeys, DataAgree, KeySet, NodesIn, AllNodes, AllKeys, AllLinked;
      var g := new Node?<V>[size](_ => null);
      ghost var to: seq<seq<Node<V>>> := seq(size, _ => []);
      EmptyTable(to);
      NothingLinked(g, to);
      NodesAreIn(chains, Repr);
      if Contents == map[] {
        NoKeysNoChains(chains);
      }
      ghost var scanned, relinked;
      to, scanned, relinked := MoveAll(h, g, chains, to);
      KeysAreUnique(chains, Contents.Keys);
      MovedData(chains, to, Contents);
      NodesInMore(to, AllNodes(chains), Repr + {g});
      work := work + size + scanned + relinked;
      Repr := Repr + {g};
      h, len, chains := g, size, to;
    }

    /** The outer loop of `rescale`, with the number of buckets it goes through and of nodes that are relinked. */
    static method MoveAll(h: array<Node?<V>>, g: array<Node?<V>>,
                          ghost chains: seq<seq<Node<V>>>, ghost empty: seq<seq<Node<V>>>)
      returns (ghost to: seq<seq<Node<V>>>, ghost scanned: nat, ghost relinked: nat)
      requires h != g && AllLinked(h, chains) && AllLinked(g, empty)
      requires |empty| > 0 || forall i | 0 <= i < |chains| :: chains[i] == []
      requires Placed(chains) && Placed(empty) && KeysAre(empty, {}) && Nodes(empty) == 0
      requires NodesIn(empty, AllNodes(chains))
      modifies AllNodes(chains)`next, g
      ensures |to| == |empty| && AllLinked(g, to)
      ensures Placed(to) && KeysAre(to, AllKeys(chains)) && NodesIn(to, AllNodes(chains))
      ensures Nodes(to) == Nodes(chains) && scanned == |chains| && relinked == Nodes(chains)
    {
      hide Placed, HasKey, Nodes, KeysAre, Bucket, DistinctKeys, KeySet, NodesIn;
      to, scanned, relinked := empty, 0, 0;
      assert chains[..0] == [];
      NoNodes<V>();
      var i := 0;
      while i < h.Length
        invariant 0 <= i <= h.Length && unchanged(h)
        invariant forall b | i <= b < |chains| :: Linked(h[b], chains[b])
        invariant |to| == |empty| && AllLinked(g, to)
        invariant Placed(to) && KeysAre(to, AllKeys(chains[..i])) && NodesIn(to, AllNodes(chains))
        invariant Nodes(to) == Nodes(chains[..i]) && scanned == i && relinked == Nodes(chains[..i])
      {
        ghost var c, moved := chains[i], 0;
        ChainApart(chains, i);
        to, moved := RelinkChain(h[i], g, c, to, AllKeys(chains[..i]), AllNodes(chains));
        scanned, relinked := scanned + 1, relinked + moved;
        UnfoldKeys(chains, i);
        i := i + 1;
      }
      assert chains[..i] == chains;
    }

    /** The inner loop of `rescale`: move all nodes of the chain c to their buckets in g, counting them. */
    static method RelinkChain(first: Node?<V>, g: array<Node?<V>>, ghost c: seq<Node<V>>,
                              ghost to: seq<seq<Node<V>>>, ghost ks: set<Name>, ghost all: set<object>)
      returns (ghost to': seq<seq<Node<V>>>, ghost moved: nat)
      requires AllLinked(g, to) && (c != [] ==> |to| > 0)
      requires Linked(first, c) && DistinctKeys(c) && KeySet(c) !! ks && forall n | n in c :: n in all
      requires Placed(to) && KeysAre(to, ks) && NodesIn(to, all)
      modifies c`next, g
      ensures |to'| == |to| && AllLinked(g, to')
      ensures Placed(to') && KeysAre(to', ks + KeySet(c)) && NodesIn(to', all)
      ensures Nodes(to') == Nodes(to) + |c| && moved == |c|
    {
      hide Placed, HasKey, Nodes, KeySet, KeysAre, Bucket, NodesIn, DistinctKeys;
      to', moved := to, 0;
      var t := first;
      ghost var j := 0;
      assert c[..0] == [] && c[0..] == c && ks + KeySet<V>([]) == ks by {
        NoKeys<V>();
      }
      while t != null
        invariant 0 <= j <= |c| && Linked(t, c[j..])
        invariant |to'| == |to| && AllLinked(g, to')
        invariant Placed(to') && KeysAre(to', ks + KeySet(c[..j])) && NodesIn(to', all)
        invariant Nodes(to') == Nodes(to) + j && moved == j
        decreases |c| - j
      {
        var next := t.next;
        ghost var was := to';
        assert t == c[j];
        KeyNotYet(to', c, j, ks);
        LinkedTail(t, c, j);
        DistinctNodes(c, j);
        to' := Relink(t, g, to');
        moved := moved + 1;
        InFront(was, to', t, ks + KeySet(c[..j]), all);
        KeySetStep(c, j);
        assert ks + KeySet(c[..j]) + {t.name} == ks + (KeySet(c[..j]) + {t.name});
        t := next;
        j := j + 1;
      }
      assert c[..j] == c;
    }

    /** Put the node t, which is in no chain of `to`, in front of its bucket in g. */
    static method Relink(t: Node<V>, g: array<Node?<V>>, ghost to: seq<seq<Node<V>>>) returns (ghost to': seq<seq<Node<V>>>)
      requires |to| > 0 && AllLinked(g, to) && Placed(to)
      requires !HasKey(to[Bucket(t.name, |to|)], t.name)
      modifies t`next, g
      ensures var b := Bucket(t.name, |to|); to' == to[b := [t] + to[b]]
      ensures AllLinked(g, to') && Placed(to') && Nodes(to') == Nodes(to) + 1
    {
      var hs := Hash(t.name);
      var b := hs % g.Length;
      NotInChains(to, t);
      PlacedInFront(to, t);
      hide Placed, HasKey, Nodes, Bucket;
      to' := to[b := [t] + to[b]];
      label before:
      t.next := g[b];
      g[b] := t;
      forall i | 0 <= i < |to| && i != b ensures Linked(g[i], to'[i]) {
        assert old@before(Linked(g[i], to[i]));
      }
      assert Linked(g[b], to'[b]) by {
        assert old@before(Linked(g[b], to[b]));
        forall j {:trigger to'[b][j].next} | 0 <= j < |to'[b]| ensures to'[b][j].next == (if j + 1 < |to'[b]| then to'[b][j + 1] else null) {
          if j > 0 {
            assert to'[b][j] == to[b][j - 1];
          }
        }
      }
    }
  }

  /** The table's own counters keep the bound of AmortisedRescaling, and its load stays under two keys a bucket. */
  lemma WorkIsAmortised<V>(t: HashTab<V>)
    requires t.Faithful() && Alive(t.history)
    ensures t.work <= 5 * (|t.history| + INIT_SIZE) && t.num < 2 * t.len && IsPow2(t.len)
  {
    AmortisedRescaling(t.history);
    hide Run;
  }

  /** The counters after a delete of a key that was counted. */
  lemma DeleteShape(was: Shape, now: Shape, keys: nat)
    ensures 0 < was.num <= 0x8000_0000 && now.num == OneLess(was.num) == keys
         && (if Double(now.num) < was.len
             then now.len == was.len / 2 && now.work == was.work + was.len + was.len / 2 + keys
             else now.len == was.len && now.work == was.work)
         ==> now == Step(was, Remove)
  {
  }

  lemma EmptyTable<V>(to: seq<seq<Node<V>>>)
    requires forall b | 0 <= b < |to| :: to[b] == []
    ensures Placed(to) && KeysAre(to, {}) && Nodes(to) == 0
    ensures forall all: set<object> :: NodesIn(to, all)
  {
    EmptyChains(|to|, to);
  }

  /** Equal keys, equal nodes. */
  lemma KeyOnce<V>(chains: seq<seq<Node<V>>>, b: nat, j: nat)
    requires Placed(chains) && b < |chains| && j < |chains[b]|
    ensures forall i, k | 0 <= i < |chains| && 0 <= k < |chains[i]| && chains[i][k].name == chains[b][j].name ::
              chains[i][k] == chains[b][j]
  {
  }

  lemma NotInBucket<V>(chains: seq<seq<Node<V>>>, ks: set<Name>, k: Name)
    requires KeysAre(chains, ks) && |chains| > 0 && k !in ks
    ensures !HasKey(chains[Bucket(k, |chains|)], k)
  {
  }

  lemma DataInFront<V>(was: seq<seq<Node<V>>>, chains: seq<seq<Node<V>>>, n: Node<V>, m: map<Name, V>)
    requires |was| > 0 && DataAgree(was, m) && n.name !in m
    requires var b := Bucket(n.name, |was|); chains == was[b := [n] + was[b]]
    ensures DataAgree(chains, m[n.name := n.data])
  {
    hide Bucket;
    var b := Bucket(n.name, |was|);
    forall i, j | 0 <= i < |chains| && 0 <= j < |chains[i]|
      ensures chains[i][j].name in m[n.name := n.data] && m[n.name := n.data][chains[i][j].name] == chains[i][j].data
    {
      if i == b && j > 0 {
        assert chains[i][j] == was[b][j - 1];
      }
    }
  }

  lemma FrontRepresents<V>(h: array<Node?<V>>, was: seq<seq<Node<V>>>, chains: seq<seq<Node<V>>>,
                           n: Node<V>, m: map<Name, V>, repr: set<object>)
    requires |was| > 0 && n.name !in m && n in repr && NodesIn(was, repr)
    requires KeysAre(was, m.Keys) && DataAgree(was, m) && Nodes(was) == |m|
    requires var b := Bucket(n.name, |was|); chains == was[b := [n] + was[b]]
    requires AllLinked(h, chains) && Placed(chains) && Nodes(chains) == Nodes(was) + 1
    ensures NodesIn(chains, repr) && Represents(h, chains, m[n.name := n.data])
  {
    hide NodesIn, AllLinked, Placed, KeysAre, DataAgree, Nodes, Bucket;
    InFront(was, chains, n, m.Keys, repr);
    DataInFront(was, chains, n, m);
    assert (m[n.name := n.data]).Keys == m.Keys + {n.name};
  }

  /** One node has a new value; all else is as m says. */
  lemma SetRepresents<V>(h: array<Node?<V>>, chains: seq<seq<Node<V>>>, b: nat, j: nat, m: map<Name, V>)
    requires AllLinked(h, chains) && Placed(chains) && KeysAre(chains, m.Keys) && Nodes(chains) == |m|
    requires b < |chains| && j < |chains[b]|
    requires forall i, k | 0 <= i < |chains| && 0 <= k < |chains[i]| && chains[i][k] != chains[b][j] ::
               chains[i][k].name in m && m[chains[i][k].name] == chains[i][k].data
    ensures Represents(h, chains, m[chains[b][j].name := chains[b][j].data])
  {
    var t := chains[b][j];
    KeyOnce(chains, b, j);
    assert t.name in m;
    assert (m[t.name := t.data]).Keys == m.Keys;
    hide Placed, Bucket, KeysAre, NodesIn, Nodes, HasKey, AllLinked;
  }

  /** Chain b shares no node with another chain. */
  lemma ChainAlone<V>(chains: seq<seq<Node<V>>>, b: nat)
    requires Placed(chains) && b < |chains|
    ensures DistinctKeys(chains[b]) && forall n | n in chains[b] :: n in AllNodes(chains)
    ensures forall i, j | 0 <= i < |chains| && i != b && 0 <= j < |chains[i]| :: chains[i][j] !in chains[b]
  {
    hide Bucket;
  }

  lemma RemoveKey<V>(m: map<Name, V>, k: Name)
    ensures (m - {k}).Keys == m.Keys - {k}
    ensures |m - {k}| == |m| - if k in m then 1 else 0
  {
    assert (m - {k}).Keys == m.Keys - {k};
    assert |m.Keys - {k}| == |m.Keys| - if k in m then 1 else 0;
  }

  lemma DistinctWithout<V>(c: seq<Node<V>>, j: nat)
    requires DistinctKeys(c) && j <= |c|
    ensures DistinctKeys(Without(c, j)) && forall n | n in Without(c, j) :: n in c
    ensures forall k | k != j && 0 <= k < |c| :: c[k] in Without(c, j)
    ensures j < |c| ==> !HasKey(Without(c, j), c[j].name)
  {
    var d := Without(c, j);
    if j < |c| {
      assert forall k | 0 <= k < |d| :: d[k] == if k < j then c[k] else c[k + 1];
      forall k | k != j && 0 <= k < |c| ensures c[k] in d {
        assert c[k] == d[if k < j then k else k - 1];
      }
    }
  }

  lemma UnlinkPlaced<V>(chains: seq<seq<Node<V>>>, b: nat, j: nat, k: Name, m: map<Name, V>, repr: set<object>)
    requires |chains| > 0 && b == Bucket(k, |chains|) && j <= |chains[b]|
    requires (forall i | 0 <= i < j :: chains[b][i].name != k) && (j < |chains[b]| ==> chains[b][j].name == k)
    requires Placed(chains) && KeysAre(chains, m.Keys) && DataAgree(chains, m) && Nodes(chains) == |m| && NodesIn(chains, repr)
    ensures var to := chains[b := Without(chains[b], j)];
            && Placed(to) && KeysAre(to, (m - {k}).Keys) && DataAgree(to, m - {k}) && NodesIn(to, repr)
            && Nodes(to) == |m - {k}|
  {
    hide Bucket, Nodes, KeysAre, Placed, DataAgree, NodesIn, DistinctKeys, HasKey, Without;
    RemoveKey(m, k);
    ChainAlone(chains, b);
    DistinctWithout(chains[b], j);
    FewerPlaced(chains, b, Without(chains[b], j), m, repr);
    UnlinkKeys(chains, b, j, k, m.Keys);
    UnlinkData(chains[b := Without(chains[b], j)], m, k);
    NodesUpdate(chains, b, Without(chains[b], j));
    KeyInBucket(chains, b, j, k, m.Keys);
    WithoutLength(chains[b], j);
  }

  /** With the node of k unlinked, or none if k has none, the rest represents the rest of m. */
  lemma UnlinkRepresents<V>(h: array<Node?<V>>, chains: seq<seq<Node<V>>>, b: nat, j: nat, k: Name, m: map<Name, V>,
                            repr: set<object>)
    requires |chains| > 0 && b == Bucket(k, |chains|) && j <= |chains[b]|
    requires (forall i | 0 <= i < j :: chains[b][i].name != k) && (j < |chains[b]| ==> chains[b][j].name == k)
    requires Placed(chains) && KeysAre(chains, m.Keys) && DataAgree(chains, m) && Nodes(chains) == |m| && NodesIn(chains, repr)
    requires AllLinked(h, chains[b := Without(chains[b], j)])
    ensures NodesIn(chains[b := Without(chains[b], j)], repr)
    ensures Represents(h, chains[b := Without(chains[b], j)], m - {k})
  {
    hide Represents, Placed, KeysAre, DataAgree, Nodes, Bucket, HasKey, NodesIn, AllLinked, Without, DistinctKeys;
    UnlinkPlaced(chains, b, j, k, m, repr);
    Pack(h, chains[b := Without(chains[b], j)], m - {k});
  }

  lemma WithoutLength<V>(c: seq<Node<V>>, j: nat)
    requires j <= |c|
    ensures |Without(c, j)| == |c| - if j < |c| then 1 else 0
  {
  }

  /** The key is in the table exactly when the search in its bucket stopped at a node. */
  lemma KeyInBucket<V>(chains: seq<seq<Node<V>>>, b: nat, j: nat, k: Name, ks: set<Name>)
    requires |chains| > 0 && b == Bucket(k, |chains|) && j <= |chains[b]|
    requires (forall i | 0 <= i < j :: chains[b][i].name != k) && (j < |chains[b]| ==> chains[b][j].name == k)
    requires KeysAre(chains, ks)
    ensures k in ks <==> j < |chains[b]|
  {
    hide Bucket;
  }

  /** Dropping nodes from a chain misplaces none of the others. */
  lemma FewerPlaced<V>(chains: seq<seq<Node<V>>>, b: nat, d: seq<Node<V>>, m: map<Name, V>, repr: set<object>)
    requires Placed(chains) && DataAgree(chains, m) && NodesIn(chains, repr) && b < |chains|
    requires DistinctKeys(d) && forall n | n in d :: n in chains[b]
    ensures Placed(chains[b := d]) && DataAgree(chains[b := d], m) && NodesIn(chains[b := d], repr)
  {
    hide Bucket;
    forall j | 0 <= j < |d|
      ensures Bucket(d[j].name, |chains|) == b && d[j] in repr && d[j].name in m && m[d[j].name] == d[j].data
    {
      assert d[j] in chains[b];
    }
  }

  lemma UnlinkData<V>(to: seq<seq<Node<V>>>, m: map<Name, V>, k: Name)
    requires DataAgree(to, m) && KeysAre(to, m.Keys - {k})
    ensures DataAgree(to, m - {k})
  {
  }

  lemma UnlinkKeys<V>(chains: seq<seq<Node<V>>>, b: nat, j: nat, k: Name, ks: set<Name>)
    requires |chains| > 0 && b == Bucket(k, |chains|) && j <= |chains[b]|
    requires (forall i | 0 <= i < j :: chains[b][i].name != k) && (j < |chains[b]| ==> chains[b][j].name == k)
    requires Placed(chains) && KeysAre(chains, ks)
    ensures KeysAre(chains[b := Without(chains[b], j)], ks - {k})
  {
    hide Bucket;
    var c := chains[b];
    var to := chains[b := Without(c, j)];
    DistinctWithout(c, j);
    forall x | x in ks - {k} ensures HasKey(to[Bucket(x, |to|)], x) {
      var i := Bucket(x, |chains|);
      var l :| 0 <= l < |chains[i]| && chains[i][l].name == x;
      if i == b {
        assert chains[i][l] in to[b];
      }
    }
    forall i, l | 0 <= i < |to| && 0 <= l < |to[i]| ensures to[i][l].name in ks - {k} {
      if i == b {
        assert to[b][l] in c;
      }
    }
  }

  lemma Unpack<V>(h: array<Node?<V>>, chains: seq<seq<Node<V>>>, m: map<Name, V>)
    requires Represents(h, chains, m)
    ensures AllLinked(h, chains) && Placed(chains) && KeysAre(chains, m.Keys)
    ensures DataAgree(chains, m) && Nodes(chains) == |m|
  {
  }

  lemma Pack<V>(h: array<Node?<V>>, chains: seq<seq<Node<V>>>, m: map<Name, V>)
    requires AllLinked(h, chains) && Placed(chains) && KeysAre(chains, m.Keys)
    requires DataAgree(chains, m) && Nodes(chains) == |m|
    ensures Represents(h, chains, m)
  {
  }

  lemma NothingLinked<V>(g: array<Node?<V>>, to: seq<seq<Node<V>>>)
    requires g.Length == |to| && forall b | 0 <= b < |to| :: g[b] == null && to[b] == []
    ensures AllLinked(g, to)
  {
  }

  lemma NoNodes<V>()
    ensures AllKeys<V>([]) == {} && Nodes<V>([]) == 0
  {
  }

  lemma HasSomeKey<V>(chains: seq<seq<Node<V>>>, ks: set<Name>, i: nat)
    requires KeysAre(chains, ks) && i < |chains| && chains[i] != []
    ensures ks != {}
  {
    assert chains[i][0].name in ks;
  }

  lemma NoKeysNoChains<V>(chains: seq<seq<Node<V>>>)
    requires KeysAre(chains, {})
    ensures forall i | 0 <= i < |chains| :: chains[i] == []
  {
    forall i | 0 <= i < |chains| ensures chains[i] == [] {
      if chains[i] != [] {
        HasSomeKey(chains, {}, i);
      }
    }
  }

  lemma NodesAreIn<V>(chains: seq<seq<Node<V>>>, all: set<object>)
    requires NodesIn(chains, all)
    ensures AllNodes(chains) <= all
  {
  }

  lemma NodesInMore<V>(chains: seq<seq<Node<V>>>, all: set<object>, more: set<object>)
    requires NodesIn(chains, all) && all <= more
    ensures NodesIn(chains, more)
  {
  }

  lemma UnfoldKeys<V>(chains: seq<seq<Node<V>>>, i: nat)
    requires i < |chains|
    ensures AllKeys(chains[..i + 1]) == AllKeys(chains[..i]) + KeySet(chains[i])
    ensures Nodes(chains[..i + 1]) == Nodes(chains[..i]) + |chains[i]|
  {
    assert chains[..i + 1][..i] == chains[..i];
  }

  lemma {:induction false} KeysBelow<V>(chains: seq<seq<Node<V>>>, i: nat)
    requires Placed(chains) && i <= |chains|
    ensures forall k | k in AllKeys(chains[..i]) :: |chains| > 0 && Bucket(k, |chains|) < i
    decreases i
  {
    hide Bucket;
    if i > 0 {
      KeysBelow(chains, i - 1);
      UnfoldKeys(chains, i - 1);
    }
  }

  /** Chain i shares neither keys with the chains before it nor nodes with the chains after it. */
  lemma ChainApart<V>(chains: seq<seq<Node<V>>>, i: nat)
    requires Placed(chains) && i < |chains|
    ensures KeySet(chains[i]) !! AllKeys(chains[..i])
    ensures forall b, j | i < b < |chains| && 0 <= j < |chains[b]| :: chains[b][j] !in chains[i]
    ensures DistinctKeys(chains[i])
    ensures forall n | n in chains[i] :: n in AllNodes(chains)
  {
    hide Bucket;
    KeysBelow(chains, i);
  }

  lemma {:induction false} AllKeysAre<V>(chains: seq<seq<Node<V>>>, i: nat, k: Name)
    requires i <= |chains|
    ensures k in AllKeys(chains[..i]) <==> exists b :: 0 <= b < i && HasKey(chains[b], k)
    decreases i
  {
    if i > 0 {
      AllKeysAre(chains, i - 1, k);
      UnfoldKeys(chains, i - 1);
      assert k in KeySet(chains[i - 1]) <==> HasKey(chains[i - 1], k);
    }
  }

  lemma KeysAreUnique<V>(chains: seq<seq<Node<V>>>, ks: set<Name>)
    requires KeysAre(chains, ks)
    ensures AllKeys(chains) == ks
  {
    hide AllKeys, Bucket;
    assert chains[..|chains|] == chains;
    forall k ensures k in AllKeys(chains) <==> k in ks {
      AllKeysAre(chains, |chains|, k);
    }
  }

  lemma MovedData<V>(chains: seq<seq<Node<V>>>, to: seq<seq<Node<V>>>, m: map<Name, V>)
    requires DataAgree(chains, m) && NodesIn(to, AllNodes(chains))
    ensures DataAgree(to, m)
  {
  }

  lemma KeySetStep<V>(c: seq<Node<V>>, j: nat)
    requires j < |c|
    ensures KeySet(c[..j + 1]) == KeySet(c[..j]) + {c[j].name}
  {
    var d, e := c[..j], c[..j + 1];
    forall k ensures k in KeySet(e) <==> k in KeySet(d) + {c[j].name} {
      if k in KeySet(d) {
        var i :| 0 <= i < |d| && d[i].name == k;
        assert e[i].name == k;
      }
      assert e[j].name in KeySet(e);
      if k in KeySet(e) {
        var i :| 0 <= i < |e| && e[i].name == k;
        assert i < j ==> d[i].name == k;
      }
    }
  }

  lemma KeyNotYet<V>(to: seq<seq<Node<V>>>, c: seq<Node<V>>, j: nat, ks: set<Name>)
    requires |to| > 0 && j < |c| && DistinctKeys(c) && KeySet(c) !! ks
    requires KeysAre(to, ks + KeySet(c[..j]))
    ensures !HasKey(to[Bucket(c[j].name, |to|)], c[j].name)
  {
    assert c[j].name in KeySet(c);
  }

  lemma NoKeys<V>()
    ensures KeySet<V>([]) == {}
  {
  }

  lemma LinkedTail<V>(t: Node<V>, c: seq<Node<V>>, j: nat)
    requires j < |c| && Linked(t, c[j..])
    ensures Linked(t.next, c[j + 1..])
  {
    var d, e := c[j..], c[j + 1..];
    assert t == d[0] && (e != [] ==> e[0] == d[1]);
    forall i {:trigger e[i].next} | 0 <= i < |e| ensures e[i].next == (if i + 1 < |e| then e[i + 1] else null) {
      assert e[i] == d[i + 1];
      assert d[i + 1].next == (if i + 2 < |d| then d[i + 2] else null);
    }
  }

  lemma DistinctNodes<V>(c: seq<Node<V>>, j: nat)
    requires j < |c| && DistinctKeys(c)
    ensures c[j] !in c[j + 1..]
  {
  }

  /** Adding a node in front of its bucket adds its key. */
  lemma InFront<V>(to: seq<seq<Node<V>>>, to': seq<seq<Node<V>>>, t: Node<V>, ks: set<Name>, all: set<object>)
    requires |to| > 0 && KeysAre(to, ks) && var b := Bucket(t.name, |to|); to' == to[b := [t] + to[b]]
    requires NodesIn(to, all) && t in all
    ensures KeysAre(to', ks + {t.name}) && NodesIn(to', all)
  {
    hide Bucket;
    var b := Bucket(t.name, |to|);
    forall i, j | 0 <= i < |to'| && 0 <= j < |to'[i]|
      ensures to'[i][j].name in ks + {t.name} && to'[i][j] in all
    {
      if i == b && j > 0 {
        assert to'[i][j] == to[b][j - 1];
      }
    }
    forall k | k in ks + {t.name} ensures HasKey(to'[Bucket(k, |to|)], k) {
      if k == t.name {
        assert to'[b][0].name == k;
      } else {
        var i := Bucket(k, |to|);
        var j :| 0 <= j < |to[i]| && to[i][j].name == k;
        assert i == b ==> to'[i][j + 1].name == k;
      }
    }
  }

  lemma {:induction false} EmptyChains<V>(n: nat, chains: seq<seq<Node<V>>>)
    requires |chains| == n && forall i | 0 <= i < n :: chains[i] == []
    ensures Nodes(chains) == 0
    decreases n
  {
    if n > 0 {
      EmptyChains(n - 1, chains[..n - 1]);
    }
  }
}

/** `CacheGet` finds its entry under the write lock and copies its value under a second, read lock. Between the two
    other calls may run: this module says what they can do to the value that is returned. Each locked section is one
    step; an entry keeps its identity from `malloc` to `free`. */
module TwoPhaseGet {
  import opened Bytes
  import opened CacheModel
  import opened Sequences

  /** A list node: its identity and what it holds. */
  datatype Node<V> = Node(id: nat, entry: Entry<V>)

  /** What the thread in the middle of a CacheGet remembers: the key asked for and the entry found. */
  datatype Pending = Pending(key: Name, id: nat)

  datatype State<V> = State(
    nodes: seq<Node<V>>,                // the cache, most recently used first
    nextId: nat,                        // identities from here on are unused
    latest: map<Name, V>,               // the latest value put for each key
    threads: seq<Option<Pending>>
  )

  /** Locked sections: a whole CachePut; the first half of a CacheGet by thread i; the second half. */
  datatype Action<V> = DoPut(k: Name, v: V, ttl: int, now: int) | Look(i: nat, k: Name, now: int) | Copy(i: nat)

  function Contents<V>(nodes: seq<Node<V>>): (es: Entries<V>)
    ensures |es| == |nodes| && forall i | 0 <= i < |es| :: es[i] == nodes[i].entry
  {
    seq(|nodes|, i requires 0 <= i < |nodes| => nodes[i].entry)
  }

  function At<V>(nodes: seq<Node<V>>, k: Name): (i: nat)
    ensures i <= |nodes|
  {
    Find(Contents(nodes), k)
  }

  /** `CachePut` on nodes: an entry that is there is updated in place, a new one gets a new identity. */
  function PutNodes<V>(nodes: seq<Node<V>>, maxSize: nat, k: Name, v: V, ttl: int, now: int, id: nat): seq<Node<V>>
    requires maxSize >= 1
  {
    var i := At(nodes, k);
    var e := Entry(k, v, now, ttl);
    if i < |nodes| then [Node(nodes[i].id, e)] + Cut(nodes, i)
    else [Node(id, e)] + if |nodes| >= maxSize then nodes[..|nodes| - 1] else nodes
  }

  /** The write-locked half of `CacheGet` on nodes. */
  function LookNodes<V>(nodes: seq<Node<V>>, k: Name, now: int): seq<Node<V>> {
    var i := At(nodes, k);
    if i == |nodes| then nodes
    else if Expired(nodes[i].entry, now) then Cut(nodes, i)
    else [nodes[i]] + Cut(nodes, i)
  }

  predicate Found<V>(nodes: seq<Node<V>>, k: Name, now: int) {
    At(nodes, k) < |nodes| && !Expired(nodes[At(nodes, k)].entry, now)
  }

  predicate Can<V>(s: State<V>, a: Action<V>) {
    match a
    case DoPut(_, _, _, _) => true
    case Look(i, _, _) => i < |s.threads| && s.threads[i] == None
    case Copy(i) => i < |s.threads| && s.threads[i].Some?
  }

  function Do<V>(s: State<V>, maxSize: nat, a: Action<V>): State<V>
    requires maxSize >= 1 && Can(s, a)
  {
    match a
    case DoPut(k, v, ttl, now) =>
      s.(nodes := PutNodes(s.nodes, maxSize, k, v, ttl, now, s.nextId), nextId := s.nextId + 1, latest := s.latest[k := v])
    case Look(i, k, now) =>
      s.(nodes := LookNodes(s.nodes, k, now),
         threads := s.threads[i := if Found(s.nodes, k, now) then Some(Pending(k, s.nodes[At(s.nodes, k)].id)) else None])
    case Copy(i) => s.(threads := s.threads[i := None])
  }

  lemma ContentsParts<V>(n: Node<V>, nodes: seq<Node<V>>, i: nat)
    requires i < |nodes|
    ensures Contents([n] + nodes) == [n.entry] + Contents(nodes)
    ensures Contents([n] + Cut(nodes, i)) == [n.entry] + Contents(Cut(nodes, i))
    ensures Contents(Cut(nodes, i)) == Cut(Contents(nodes), i)
    ensures Contents([n] + nodes[..|nodes| - 1]) == [n.entry] + Contents(nodes)[..|nodes| - 1]
  {
    var c, d := Contents(Cut(nodes, i)), Cut(Contents(nodes), i);
    forall j | 0 <= j < |c| ensures c[j] == d[j] {
      assert Cut(nodes, i)[j] == nodes[if j < i then j else j + 1];
    }
  }

  /** The nodes are a cache in the sense of CacheModel, and each locked section is an operation of that module. */
  lemma PutRefines<V>(nodes: seq<Node<V>>, maxSize: nat, k: Name, v: V, ttl: int, now: int, id: nat)
    requires maxSize >= 1
    ensures Contents(PutNodes(nodes, maxSize, k, v, ttl, now, id)) == Put(Contents(nodes), maxSize, k, v, ttl, now)
  {
    var i, e := At(nodes, k), Entry(k, v, now, ttl);
    if i < |nodes| {
      ContentsParts(Node(nodes[i].id, e), nodes, i);
      hide Find, Contents;
    } else if nodes != [] {
      ContentsParts(Node(id, e), nodes, 0);
      hide Find, Contents;
    }
  }

  lemma LookRefines<V>(nodes: seq<Node<V>>, k: Name, now: int)
    ensures Contents(LookNodes(nodes, k, now)) == AfterGet(Contents(nodes), k, now)
    ensures Found(nodes, k, now) <==> Answer(Contents(nodes), k, now).Some?
  {
    var i := At(nodes, k);
    if i < |nodes| {
      ContentsParts(nodes[i], nodes, i);
      hide Find, Contents;
    }
  }

  // ---- What every run keeps ----------------------------------------------------------------------------------

  ghost predicate Live<V>(nodes: seq<Node<V>>, id: nat) {
    exists j :: 0 <= j < |nodes| && nodes[j].id == id
  }

  ghost predicate Distinct<V>(nodes: seq<Node<V>>) {
    && (forall i, j | 0 <= i < j < |nodes| :: nodes[i].id != nodes[j].id)
    && (forall i, j | 0 <= i < j < |nodes| :: nodes[i].entry.key != nodes[j].entry.key)
  }

  /** An entry holds the latest value put for its key. */
  ghost predicate Current<V>(s: State<V>, n: Node<V>) {
    n.id < s.nextId && n.entry.key in s.latest && s.latest[n.entry.key] == n.entry.value
  }

  /** An entry that a thread has found is, if it is still there, the entry of the key asked for. */
  ghost predicate Tracks<V>(s: State<V>, p: Pending) {
    p.id < s.nextId && forall n | n in s.nodes && n.id == p.id :: n.entry.key == p.key
  }

  ghost predicate Ok<V>(s: State<V>) {
    && Distinct(s.nodes)
    && (forall n | n in s.nodes :: Current(s, n))
    && (forall i | 0 <= i < |s.threads| && s.threads[i].Some? :: Tracks(s, s.threads[i].value))
  }

  predicate Initial<V>(s: State<V>) {
    s.nodes == [] && forall i | 0 <= i < |s.threads| :: s.threads[i] == None
  }

  lemma CutDistinct<V>(nodes: seq<Node<V>>, i: nat)
    requires Distinct(nodes) && i < |nodes|
    ensures Distinct(Cut(nodes, i))
    ensures forall n | n in Cut(nodes, i) :: n in nodes && n.id != nodes[i].id && n.entry.key != nodes[i].entry.key
    ensures forall n | n in nodes && n != nodes[i] :: n in Cut(nodes, i)
  {
    var r := Cut(nodes, i);
    assert forall j | 0 <= j < |r| :: r[j] == nodes[if j < i then j else j + 1];
    forall n | n in nodes && n != nodes[i] ensures n in r {
      var j :| 0 <= j < |nodes| && nodes[j] == n;
      assert r[if j < i then j else j - 1] == n;
    }
  }

  lemma ConsDistinct<V>(n: Node<V>, r: seq<Node<V>>)
    requires Distinct(r) && forall m | m in r :: m.id != n.id && m.entry.key != n.entry.key
    ensures Distinct([n] + r)
  {
  }

  /** In front of some of the old nodes comes a node with the latest value of its key. */
  lemma OkFront<V>(s: State<V>, s': State<V>, n: Node<V>, r: seq<Node<V>>)
    requires Ok(s) && s'.nodes == [n] + r && Distinct(r) && s'.threads == s.threads && s.nextId <= s'.nextId
    requires forall m | m in r :: m in s.nodes && m.id != n.id && m.entry.key != n.entry.key
    requires Current(s', n) && (n.id < s.nextId ==> exists m :: m in s.nodes && m.id == n.id && m.entry.key == n.entry.key)
    requires s'.latest == s.latest[n.entry.key := n.entry.value]
    ensures Ok(s')
  {
    ConsDistinct(n, r);
    hide Distinct;
  }

  lemma OkPut<V>(s: State<V>, maxSize: nat, k: Name, v: V, ttl: int, now: int)
    requires maxSize >= 1 && Ok(s)
    ensures Ok(Do(s, maxSize, DoPut(k, v, ttl, now)))
  {
    hide Find, Distinct, Ok;
    if At(s.nodes, k) < |s.nodes| {
      OkUpdate(s, maxSize, k, v, ttl, now);
    } else {
      OkNew(s, maxSize, k, v, ttl, now);
    }
  }

  lemma OkUpdate<V>(s: State<V>, maxSize: nat, k: Name, v: V, ttl: int, now: int)
    requires maxSize >= 1 && Ok(s) && At(s.nodes, k) < |s.nodes|
    ensures Ok(Do(s, maxSize, DoPut(k, v, ttl, now)))
  {
    var i := At(s.nodes, k);
    var n := Node(s.nodes[i].id, Entry(k, v, now, ttl));
    CutDistinct(s.nodes, i);
    CurrentAt(s, i);
    assert s.nodes[i] in s.nodes && s.nodes[i].entry.key == k;
    hide Find, Distinct, Cut, Ok;
    OkFront(s, Do(s, maxSize, DoPut(k, v, ttl, now)), n, Cut(s.nodes, i));
  }

  lemma OkNew<V>(s: State<V>, maxSize: nat, k: Name, v: V, ttl: int, now: int)
    requires maxSize >= 1 && Ok(s) && At(s.nodes, k) == |s.nodes|
    ensures Ok(Do(s, maxSize, DoPut(k, v, ttl, now)))
  {
    var r := if |s.nodes| >= maxSize then s.nodes[..|s.nodes| - 1] else s.nodes;
    forall m | m in s.nodes ensures m.entry.key != k && m.id < s.nextId {
      var j :| 0 <= j < |s.nodes| && s.nodes[j] == m;
      assert Contents(s.nodes)[j].key != k;
      CurrentAt(s, j);
    }
    assert Distinct(r) && forall m | m in r :: m in s.nodes;
    hide Find, Distinct, Ok;
    OkFront(s, Do(s, maxSize, DoPut(k, v, ttl, now)), Node(s.nextId, Entry(k, v, now, ttl)), r);
  }

  lemma CurrentAt<V>(s: State<V>, j: nat)
    requires Ok(s) && j < |s.nodes|
    ensures Current(s, s.nodes[j])
  {
  }

  lemma OkLook<V>(s: State<V>, maxSize: nat, t: nat, k: Name, now: int)
    requires maxSize >= 1 && Ok(s) && Can(s, Look(t, k, now))
    ensures Ok(Do(s, maxSize, Look(t, k, now)))
  {
    var s' := Do(s, maxSize, Look(t, k, now));
    var i := At(s.nodes, k);
    if i < |s.nodes| {
      CutDistinct(s.nodes, i);
      CurrentAt(s, i);
      ConsDistinct(s.nodes[i], Cut(s.nodes, i));
      assert forall n | n in s'.nodes :: n in s.nodes;
      assert s.nodes[i].entry.key == k;
      assert forall n | n in s.nodes && n.id == s.nodes[i].id :: n == s.nodes[i];
      hide Find, Distinct, Cut;
    }
  }

  lemma OkStep<V>(s: State<V>, maxSize: nat, a: Action<V>)
    requires maxSize >= 1 && Ok(s) && Can(s, a)
    ensures Ok(Do(s, maxSize, a))
  {
    match a
    case DoPut(k, v, ttl, now) => OkPut(s, maxSize, k, v, ttl, now);
    case Look(i, k, now) => OkLook(s, maxSize, i, k, now);
    case Copy(i) => hide Distinct;
  }

  ghost predicate Runs<V>(s: State<V>, maxSize: nat, acts: seq<Action<V>>, s': State<V>)
    requires maxSize >= 1
    decreases |acts|
  {
    if acts == [] then s == s' else Can(s, acts[0]) && Runs(Do(s, maxSize, acts[0]), maxSize, acts[1..], s')
  }

  lemma {:induction false} OkRuns<V>(s: State<V>, maxSize: nat, acts: seq<Action<V>>, s': State<V>)
    requires maxSize >= 1 && Ok(s) && Runs(s, maxSize, acts, s')
    ensures Ok(s')
    decreases |acts|
  {
    hide Ok, Do;
    if acts != [] {
      OkStep(s, maxSize, acts[0]);
      OkRuns(Do(s, maxSize, acts[0]), maxSize, acts[1..], s');
    }
  }

  // ---- The second half --------------------------------------------------------------------------------------

  /** The steps that unlink, and free, the entry with this identity: a put of a key that is not there into a full
      cache whose last entry it is, and a get that finds it expired. */
  predicate Unlinks<V>(s: State<V>, maxSize: nat, a: Action<V>, id: nat) {
    match a
    case DoPut(k, _, _, _) =>
      At(s.nodes, k) == |s.nodes| && |s.nodes| >= maxSize && s.nodes != [] && s.nodes[|s.nodes| - 1].id == id
    case Look(_, k, now) =>
      var i := At(s.nodes, k);
      i < |s.nodes| && now - s.nodes[i].entry.saveTime > s.nodes[i].entry.ttl && s.nodes[i].id == id
    case Copy(_) => false
  }

  lemma LiveAt<V>(nodes: seq<Node<V>>, j: nat)
    requires j < |nodes|
    ensures Live(nodes, nodes[j].id)
  {
  }

  lemma CutLive<V>(nodes: seq<Node<V>>, i: nat, id: nat)
    requires Distinct(nodes) && i < |nodes|
    ensures Live(Cut(nodes, i), id) <==> Live(nodes, id) && nodes[i].id != id
  {
    var r := Cut(nodes, i);
    assert forall j | 0 <= j < |r| :: r[j] == nodes[if j < i then j else j + 1];
    if Live(nodes, id) && nodes[i].id != id {
      var j :| 0 <= j < |nodes| && nodes[j].id == id;
      assert r[if j < i then j else j - 1].id == id;
    }
  }

  lemma ConsLive<V>(n: Node<V>, r: seq<Node<V>>, id: nat)
    ensures Live([n] + r, id) <==> n.id == id || Live(r, id)
  {
    var c := [n] + r;
    if Live(r, id) {
      var j :| 0 <= j < |r| && r[j].id == id;
      assert c[j + 1].id == id;
    }
    if Live(c, id) {
      var j :| 0 <= j < |c| && c[j].id == id;
      assert j > 0 ==> r[j - 1].id == id;
    }
    assert c[0] == n;
  }

  lemma LastLive<V>(nodes: seq<Node<V>>, id: nat)
    requires Distinct(nodes) && nodes != []
    ensures Live(nodes[..|nodes| - 1], id) <==> Live(nodes, id) && nodes[|nodes| - 1].id != id
  {
    assert nodes[..|nodes| - 1] == Cut(nodes, |nodes| - 1);
    CutLive(nodes, |nodes| - 1, id);
  }

  /** An entry is there after a step exactly when it was there and the step does not unlink it. */
  lemma LiveStep<V>(s: State<V>, maxSize: nat, a: Action<V>, id: nat)
    requires maxSize >= 1 && Ok(s) && Can(s, a) && id < s.nextId
    ensures Live(Do(s, maxSize, a).nodes, id) <==> Live(s.nodes, id) && !Unlinks(s, maxSize, a, id)
  {
    hide Find, Live, Distinct, Cut;
    match a
    case DoPut(k, v, ttl, now) =>
      var i := At(s.nodes, k);
      var e := Entry(k, v, now, ttl);
      if i < |s.nodes| {
        LiveAt(s.nodes, i);
        CutLive(s.nodes, i, id);
        ConsLive(Node(s.nodes[i].id, e), Cut(s.nodes, i), id);
      } else if |s.nodes| >= maxSize {
        LastLive(s.nodes, id);
        ConsLive(Node(s.nextId, e), s.nodes[..|s.nodes| - 1], id);
      } else {
        ConsLive(Node(s.nextId, e), s.nodes, id);
      }
    case Look(_, k, now) =>
      var i := At(s.nodes, k);
      if i < |s.nodes| {
        LiveAt(s.nodes, i);
        CutLive(s.nodes, i, id);
        ConsLive(s.nodes[i], Cut(s.nodes, i), id);
      }
    case Copy(_) =>
  }

  /** No step of a run unlinks the entry. */
  ghost predicate Spared<V>(s: State<V>, maxSize: nat, acts: seq<Action<V>>, s': State<V>, id: nat)
    requires maxSize >= 1 && Runs(s, maxSize, acts, s')
    decreases |acts|
  {
    acts != [] ==>
      && !Unlinks(s, maxSize, acts[0], id)
      && Spared(Do(s, maxSize, acts[0]), maxSize, acts[1..], s', id)
  }

  lemma {:induction false} LiveRuns<V>(s: State<V>, maxSize: nat, acts: seq<Action<V>>, s': State<V>, id: nat)
    requires maxSize >= 1 && Ok(s) && Runs(s, maxSize, acts, s') && id < s.nextId
    ensures Live(s'.nodes, id) <==> Live(s.nodes, id) && Spared(s, maxSize, acts, s', id)
    decreases |acts|
  {
    if acts != [] {
      OkStep(s, maxSize, acts[0]);
      LiveStep(s, maxSize, acts[0], id);
      assert Do(s, maxSize, acts[0]).nextId >= s.nextId;
      hide Ok, Live, Do, Unlinks;
      LiveRuns(Do(s, maxSize, acts[0]), maxSize, acts[1..], s', id);
    }
  }

  /** A thread stays in the middle of its get until it copies. */
  lemma {:induction false} StillPending<V>(s: State<V>, maxSize: nat, acts: seq<Action<V>>, s': State<V>, i: nat)
    requires maxSize >= 1 && Runs(s, maxSize, acts, s') && i < |s.threads| && s.threads[i].Some?
    requires forall a | a in acts :: a != Copy(i)
    ensures i < |s'.threads| && s'.threads[i] == s.threads[i]
    decreases |acts|
  {
    hide Find, PutNodes, LookNodes;
    if acts != [] {
      assert acts[0] in acts && forall a | a in acts[1..] :: a in acts;
      StillPending(Do(s, maxSize, acts[0]), maxSize, acts[1..], s', i);
    }
  }

  /** The two-phase get. Thread t finds key k in a reachable state s; then others run. When t comes to copy, the
      entry it holds is still allocated exactly when none of the steps between has unlinked it, and then it is the
      cache's entry for k and holds the latest value put for k, a put in between included: the get takes effect
      at the copy. */
  lemma TwoPhase<V>(s0: State<V>, maxSize: nat, before: seq<Action<V>>, s: State<V>, t: nat, k: Name, now: int,
                    acts: seq<Action<V>>, s': State<V>)
    requires maxSize >= 1 && Initial(s0) && Runs(s0, maxSize, before, s)
    requires Can(s, Look(t, k, now)) && Found(s.nodes, k, now)
    requires Runs(Do(s, maxSize, Look(t, k, now)), maxSize, acts, s') && forall a | a in acts :: a != Copy(t)
    ensures var id := s.nodes[At(s.nodes, k)].id;
            && t < |s'.threads| && s'.threads[t] == Some(Pending(k, id))
            && (Live(s'.nodes, id) <==> Spared(Do(s, maxSize, Look(t, k, now)), maxSize, acts, s', id))
            && (Live(s'.nodes, id) ==>
                  && At(s'.nodes, k) < |s'.nodes| && s'.nodes[At(s'.nodes, k)].id == id
                  && k in s'.latest && s'.nodes[At(s'.nodes, k)].entry.value == s'.latest[k])
            && Can(s', Copy(t)) && Do(s', maxSize, Copy(t)) == s'.(threads := s'.threads[t := None])
  {
    var s1 := Do(s, maxSize, Look(t, k, now));
    var id := s.nodes[At(s.nodes, k)].id;
    OkRuns(s0, maxSize, before, s);
    OkStep(s, maxSize, Look(t, k, now));
    OkRuns(s1, maxSize, acts, s');
    assert s1.threads[t] == Some(Pending(k, id)) && s1.nodes[0].id == id && id < s1.nextId by {
      CurrentAt(s, At(s.nodes, k));
    }
    LiveAt(s1.nodes, 0);
    hide Do, Ok, Can, Found, Initial, Live;
    StillPending(s1, maxSize, acts, s', t);
    LiveRuns(s1, maxSize, acts, s', id);
    if Live(s'.nodes, id) {
      HeldEntry(s', t);
    }
  }

  lemma HeldEntry<V>(s: State<V>, t: nat)
    requires Ok(s) && t < |s.threads| && s.threads[t].Some? && Live(s.nodes, s.threads[t].value.id)
    ensures var p := s.threads[t].value;
            && At(s.nodes, p.key) < |s.nodes| && s.nodes[At(s.nodes, p.key)].id == p.id
            && p.key in s.latest && s.nodes[At(s.nodes, p.key)].entry.value == s.latest[p.key]
  {
    var p := s.threads[t].value;
    var j :| 0 <= j < |s.nodes| && s.nodes[j].id == p.id;
    CurrentAt(s, j);
    assert s.nodes[j].entry.key == p.key;
    assert Contents(s.nodes)[j].key == p.key;
    var i := At(s.nodes, p.key);
    assert s.nodes[i].entry.key == p.key;
  }

  // ---- It can be freed ---------------------------------------------------------------------------------------

  lemma {:induction false} RunsMore<V>(s: State<V>, maxSize: nat, acts: seq<Action<V>>, s1: State<V>, a: Action<V>)
    requires maxSize >= 1 && Runs(s, maxSize, acts, s1) && Can(s1, a)
    ensures Runs(s, maxSize, acts + [a], Do(s1, maxSize, a))
    decreases |acts|
  {
    hide Can, Do;
    if acts == [] {
      assert acts + [a] == [a] && [a][1..] == [];
      assert Runs(Do(s, maxSize, a), maxSize, [], Do(s1, maxSize, a));
    } else {
      RunsMore(Do(s, maxSize, acts[0]), maxSize, acts[1..], s1, a);
      assert (acts + [a])[1..] == acts[1..] + [a];
    }
  }

  /** In any cache and for any two keys: a thread finds the only entry of a cache of one, another key is put, and the
      thread holds an entry that has been freed. */
  lemma FreedWhileHeld<V>(v: V, k1: Name, k2: Name) returns (s0: State<V>, acts: seq<Action<V>>, s: State<V>)
    requires k1 != k2
    ensures Initial(s0) && Runs(s0, 1, acts, s) && Can(s, Copy(0))
    ensures |s.threads| == 1 && s.threads[0].Some? && !Live(s.nodes, s.threads[0].value.id)
  {
    s0 := State([], 0, map[], [None]);
    var e1, e2 := Entry(k1, v, 0, 0), Entry(k2, v, 0, 0);
    var s1 := Do(s0, 1, DoPut(k1, v, 0, 0));
    assert s1.nodes == [Node(0, e1)] && At(s1.nodes, k1) == 0 && At(s1.nodes, k2) == 1;
    var s2 := Do(s1, 1, Look(0, k1, 0));
    assert s2.nodes == [Node(0, e1)] && s2.threads == [Some(Pending(k1, 0))];
    var s3 := Do(s2, 1, DoPut(k2, v, 0, 0));
    assert s3.nodes == [Node(1, e2)];
    hide Do, Live, Find, Contents;
    assert Runs(s0, 1, [], s0);
    RunsMore(s0, 1, [], s0, DoPut(k1, v, 0, 0));
    RunsMore(s0, 1, [] + [DoPut(k1, v, 0, 0)], s1, Look(0, k1, 0));
    RunsMore(s0, 1, [] + [DoPut(k1, v, 0, 0)] + [Look(0, k1, 0)], s2, DoPut(k2, v, 0, 0));
    acts, s := [] + [DoPut(k1, v, 0, 0)] + [Look(0, k1, 0)] + [DoPut(k2, v, 0, 0)], s3;
    NotLive(s);
  }

  lemma NotLive<V>(s: State<V>)
    requires |s.nodes| == 1 && s.nodes[0].id == 1
    ensures !Live(s.nodes, 0)
  {
  }
}

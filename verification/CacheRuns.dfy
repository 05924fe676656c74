/** What the cache promises over whole runs of puts and gets from an empty cache. */
module CacheRuns {
  import opened Bytes
  import opened CacheModel

  datatype Op<V> = PutOp(key: Name, value: V, ttl: int, now: int) | GetOp(key: Name, now: int)

  function Step<V>(es: Entries<V>, maxSize: nat, op: Op<V>): Entries<V>
    requires maxSize >= 1
  {
    match op
    case PutOp(k, v, ttl, now) => Put(es, maxSize, k, v, ttl, now)
    case GetOp(k, now) => AfterGet(es, k, now)
  }

  function RunFrom<V>(es: Entries<V>, maxSize: nat, ops: seq<Op<V>>): Entries<V>
    requires maxSize >= 1
  {
    if ops == [] then es else Step(RunFrom(es, maxSize, ops[..|ops| - 1]), maxSize, ops[|ops| - 1])
  }

  function Run<V>(maxSize: nat, ops: seq<Op<V>>): Entries<V>
    requires maxSize >= 1
  {
    RunFrom([], maxSize, ops)
  }

  lemma {:induction false} RunFromGood<V>(es: Entries<V>, maxSize: nat, ops: seq<Op<V>>)
    requires maxSize >= 1 && Good(es, maxSize)
    ensures Good(RunFrom(es, maxSize, ops), maxSize)
    decreases |ops|
  {
    hide Good, Put, AfterGet;
    if ops != [] {
      var init, op := ops[..|ops| - 1], ops[|ops| - 1];
      RunFromGood(es, maxSize, init);
      match op {
        case PutOp(k, v, ttl, now) => PutGood(RunFrom(es, maxSize, init), maxSize, k, v, ttl, now);
        case GetOp(k, now) => GetGood(RunFrom(es, maxSize, init), maxSize, k, now);
      }
    }
  }

  // ---- Hits are correct -------------------------------------------------------------------------------

  /** The entry that the latest put of k in ops stored. */
  function LatestPut<V>(ops: seq<Op<V>>, k: Name): Option<Entry<V>> {
    if ops == [] then None
    else
      match ops[|ops| - 1]
      case PutOp(k', v, ttl, now) =>
        if k' == k then Some(Entry(k, v, now, ttl)) else LatestPut(ops[..|ops| - 1], k)
      case GetOp(_, _) => LatestPut(ops[..|ops| - 1], k)
  }

  lemma {:induction false} EntriesAreLatest<V>(maxSize: nat, ops: seq<Op<V>>)
    requires maxSize >= 1
    ensures forall e | e in Run(maxSize, ops) :: LatestPut(ops, e.key) == Some(e)
    decreases |ops|
  {
    if ops != [] {
      var init, op := ops[..|ops| - 1], ops[|ops| - 1];
      var es := Run(maxSize, init);
      EntriesAreLatest(maxSize, init);
      RunFromGood([], maxSize, init);
      WithoutFacts(es, op.key);
      hide Without, Find, Unique;
      forall e | e in Run(maxSize, ops) ensures LatestPut(ops, e.key) == Some(e) {
        if op.PutOp? && e.key != op.key {
          assert e in es;
        }
      }
    }
  }

  /** What the latest put is, without recursion. */
  lemma {:induction false} LatestPutMeans<V>(ops: seq<Op<V>>, k: Name)
    ensures LatestPut(ops, k) == None <==> forall i | 0 <= i < |ops| && ops[i].PutOp? :: ops[i].key != k
    ensures var p := LatestPut(ops, k);
            p.Some? ==> exists i :: 0 <= i < |ops| && ops[i] == PutOp(k, p.value.value, p.value.ttl, p.value.saveTime)
                                    && forall j | i < j < |ops| && ops[j].PutOp? :: ops[j].key != k
    decreases |ops|
  {
    if ops != [] {
      var init := ops[..|ops| - 1];
      LatestPutMeans(init, k);
      assert forall i | 0 <= i < |init| :: init[i] == ops[i];
      var last := ops[|ops| - 1];
      if last.PutOp? && last.key == k {
        assert ops[|ops| - 1] == PutOp(k, last.value, last.ttl, last.now);
      } else if LatestPut(init, k).Some? {
        var p := LatestPut(init, k).value;
        var i :| 0 <= i < |init| && init[i] == PutOp(k, p.value, p.ttl, p.saveTime)
                 && forall j | i < j < |init| && init[j].PutOp? :: init[j].key != k;
        assert ops[i] == PutOp(k, p.value, p.ttl, p.saveTime);
      }
    }
  }

  /** A get hits exactly when the key is still cached and no more time has passed since its latest put than that put
      allows, and then returns the value of that put. */
  lemma HitIsLatest<V>(maxSize: nat, ops: seq<Op<V>>, k: Name, now: int)
    requires maxSize >= 1
    ensures var es, p := Run(maxSize, ops), LatestPut(ops, k);
            && (Answer(es, k, now).Some? <==> Has(es, k) && p.Some? && now - p.value.saveTime <= p.value.ttl)
            && (Answer(es, k, now).Some? ==> Answer(es, k, now) == Some(p.value.value))
  {
    EntriesAreLatest(maxSize, ops);
  }

  // ---- A larger cache contains a smaller one -------------------------------------------------------------

  /** The entries whose keys are in ks, in order. */
  ghost function Restrict<V>(es: Entries<V>, ks: set<Name>): Entries<V> {
    if es == [] then []
    else (if es[0].key in ks then [es[0]] else []) + Restrict(es[1..], ks)
  }

  /** s is a recency-ordered part of l, with equal entries. */
  ghost predicate PartOf<V>(s: Entries<V>, l: Entries<V>) {
    exists ks :: s == Restrict(l, ks)
  }

  lemma {:induction false} RestrictIn<V>(es: Entries<V>, ks: set<Name>)
    ensures forall e :: e in Restrict(es, ks) <==> e in es && e.key in ks
    ensures |Restrict(es, ks)| <= |es|
    decreases |es|
  {
    if es != [] {
      RestrictIn(es[1..], ks);
      assert es == [es[0]] + es[1..];
    }
  }

  lemma {:induction false} RestrictSame<V>(es: Entries<V>, ks: set<Name>, ks': set<Name>)
    requires forall e | e in es :: e.key in ks <==> e.key in ks'
    ensures Restrict(es, ks) == Restrict(es, ks')
    decreases |es|
  {
    if es != [] {
      RestrictSame(es[1..], ks, ks');
    }
  }

  /** Dropping an entry from the whole drops it from the part. */
  lemma {:induction false} RestrictWithout<V>(l: Entries<V>, ks: set<Name>, k: Name)
    requires Unique(l)
    ensures Restrict(Without(l, k), ks - {k}) == Restrict(l, ks - {k})
    ensures Restrict(l, ks - {k}) == Without(Restrict(l, ks), k)
    decreases |l|
  {
    hide Without, Find;
    if l == [] {
      WithoutNothing<V>(k);
    } else {
      var e, r := l[0], l[1..];
      var p := Restrict(r, ks);
      RestrictWithout(r, ks, k);
      WithoutCons(l, k);
      WithoutCons([e] + p, k);
      assert ([e] + p)[1..] == p && [] + p == p;
      if e.key == k {
        assert forall d | d in r :: d.key != k;
        RestrictSame(r, ks, ks - {k});
      } else {
        var w := Without(r, k);
        assert ([e] + w)[1..] == w;
      }
    }
  }

  lemma WithoutNothing<V>(k: Name)
    ensures Without<V>([], k) == []
  {
  }

  /** Dropping the last entry of the whole drops it from the part, if it is there. */
  lemma {:induction false} RestrictLast<V>(l: Entries<V>, ks: set<Name>)
    requires l != []
    ensures var z := l[|l| - 1];
            Restrict(l, ks) == Restrict(l[..|l| - 1], ks) + if z.key in ks then [z] else []
    decreases |l|
  {
    if |l| > 1 {
      RestrictLast(l[1..], ks);
      assert l[1..][..|l| - 2] == l[..|l| - 1][1..];
    }
  }

  /** s is part of l, and l has no more spare room than s: so l only evicts when s is full, too. */
  ghost predicate Included<V>(s: Entries<V>, n: nat, l: Entries<V>, N: nat) {
    && Good(s, n) && Good(l, N) && PartOf(s, l)
    && |l| - |s| <= N - n
  }

  lemma SameEntry<V>(s: Entries<V>, l: Entries<V>, k: Name)
    requires PartOf(s, l) && Unique(l) && Unique(s) && Has(s, k)
    ensures Has(l, k) && s[Find(s, k)] == l[Find(l, k)]
  {
    var ks :| s == Restrict(l, ks);
    RestrictIn(l, ks);
    var e := s[Find(s, k)];
    assert e in l;
    var i :| 0 <= i < |l| && l[i] == e;
    FindUnique(l, i);
  }

  /** Prepending the same new entry to both. */
  lemma PrependPart<V>(e: Entry<V>, s: Entries<V>, l: Entries<V>)
    requires PartOf(s, l) && !Has(l, e.key)
    ensures PartOf([e] + s, [e] + l)
  {
    var ks :| s == Restrict(l, ks);
    assert ([e] + l)[1..] == l;
    RestrictSame(l, ks, ks + {e.key}) by {
      assert forall d | d in l :: d.key != e.key;
    }
    assert Restrict([e] + l, ks + {e.key}) == [e] + s;
  }

  /** Prepending an entry to the larger only. */
  lemma PrependWhole<V>(e: Entry<V>, s: Entries<V>, l: Entries<V>)
    requires PartOf(s, l) && !Has(l, e.key)
    ensures PartOf(s, [e] + l)
  {
    var ks :| s == Restrict(l, ks);
    assert ([e] + l)[1..] == l;
    RestrictSame(l, ks, ks - {e.key}) by {
      assert forall d | d in l :: d.key != e.key;
    }
    assert Restrict([e] + l, ks - {e.key}) == [] + s == s;
  }

  lemma WithoutPart<V>(s: Entries<V>, l: Entries<V>, k: Name)
    requires PartOf(s, l) && Unique(l)
    ensures PartOf(Without(s, k), Without(l, k))
  {
    var ks :| s == Restrict(l, ks);
    RestrictWithout(l, ks, k);
    assert Without(s, k) == Restrict(Without(l, k), ks - {k});
  }

  /** The smaller one evicts its last entry; the larger one evicts its own last entry, or nothing. */
  lemma EvictPart<V>(s: Entries<V>, l: Entries<V>)
    requires PartOf(s, l) && Unique(l) && Unique(s) && s != []
    ensures PartOf(s[..|s| - 1], l) && PartOf(s[..|s| - 1], l[..|l| - 1])
  {
    hide Without, Find;
    var ks :| s == Restrict(l, ks);
    RestrictIn(l, ks);
    var z := s[|s| - 1];
    var cut := s[..|s| - 1];
    RestrictWithout(l, ks, z.key);
    LastWithout(s);
    assert cut == Restrict(l, ks - {z.key});
    var y := l[|l| - 1];
    RestrictLast(l, ks);
    RestrictLast(l, ks - {z.key});
    var k' := ks - {z.key};
    if y.key in ks {
      assert s == Restrict(l[..|l| - 1], ks) + [y];
      assert z == y;
    }
    assert y.key !in k';
    assert Restrict(l[..|l| - 1], k') + [] == Restrict(l[..|l| - 1], k');
    assert cut == Restrict(l[..|l| - 1], k');
  }

  lemma LastWithout<V>(s: Entries<V>)
    requires Unique(s) && s != []
    ensures Without(s, s[|s| - 1].key) == s[..|s| - 1]
  {
    FindUnique(s, |s| - 1);
  }

  lemma PutIncluded<V>(s: Entries<V>, n: nat, l: Entries<V>, N: nat, k: Name, v: V, ttl: int, now: int)
    requires 1 <= n <= N && Included(s, n, l, N)
    ensures Included(Put(s, n, k, v, ttl, now), n, Put(l, N, k, v, ttl, now), N)
  {
    PutGood(s, n, k, v, ttl, now);
    PutGood(l, N, k, v, ttl, now);
    WithoutFacts(s, k);
    WithoutFacts(l, k);
    var e := Entry(k, v, now, ttl);
    if Has(s, k) {
      SameEntry(s, l, k);
    } else {
      assert Without(s, k) == s;
    }
    hide Without, Find, Restrict, Unique;
    if Has(l, k) {
      WithoutPart(s, l, k);
      var s', l' := Without(s, k), Without(l, k);
      if !Has(s, k) && |s| >= n {
        EvictPart(s', l');
        PrependPart(e, s'[..|s'| - 1], l');
      } else {
        PrependPart(e, s', l');
      }
    } else {
      var s' := if |s| >= n then s[..|s| - 1] else s;
      var l' := if |l| >= N then l[..|l| - 1] else l;
      if |s| >= n {
        EvictPart(s, l);
      }
      assert PartOf(s', l');
      StillAbsent(l, k, |l'|);
      PrependPart(e, s', l');
    }
  }

  lemma GetIncluded<V>(s: Entries<V>, n: nat, l: Entries<V>, N: nat, k: Name, now: int)
    requires 1 <= n <= N && Included(s, n, l, N)
    ensures Included(AfterGet(s, k, now), n, AfterGet(l, k, now), N)
    ensures Answer(s, k, now).Some? ==> Answer(l, k, now) == Answer(s, k, now)
  {
    GetGood(s, n, k, now);
    GetGood(l, N, k, now);
    WithoutFacts(s, k);
    WithoutFacts(l, k);
    if Has(s, k) {
      SameEntry(s, l, k);
    } else {
      assert Without(s, k) == s;
    }
    WithoutPart(s, l, k);
    hide Without, Restrict, Unique, PartOf;
    if Has(l, k) {
      var e := l[Find(l, k)];
      if !Expired(e, now) {
        if Has(s, k) {
          PrependPart(e, Without(s, k), Without(l, k));
        } else {
          PrependWhole(e, s, Without(l, k));
        }
      }
    }
  }

  lemma {:induction false} RunsIncluded<V>(n: nat, N: nat, ops: seq<Op<V>>)
    requires 1 <= n <= N
    ensures Included(Run(n, ops), n, Run(N, ops), N)
    decreases |ops|
  {
    hide Included, Put, AfterGet;
    if ops == [] {
      NothingIncluded<V>(n, N);
    } else {
      var init, op := ops[..|ops| - 1], ops[|ops| - 1];
      RunsIncluded(n, N, init);
      match op {
        case PutOp(k, v, ttl, now) => PutIncluded(Run(n, init), n, Run(N, init), N, k, v, ttl, now);
        case GetOp(k, now) => GetIncluded(Run(n, init), n, Run(N, init), N, k, now);
      }
    }
  }

  lemma NothingIncluded<V>(n: nat, N: nat)
    requires n <= N
    ensures Included<V>([], n, [], N)
  {
    assert Restrict<V>([], {}) == [];
  }

  /** LRU inclusion: fed with the same puts and gets at the same times, a smaller cache holds a
      recency-ordered part of what a larger one holds, and every hit of the smaller is a hit of the
      larger with the same value. */
  lemma Inclusion<V>(n: nat, N: nat, ops: seq<Op<V>>, k: Name, now: int)
    requires 1 <= n <= N
    ensures PartOf(Run(n, ops), Run(N, ops))
    ensures Answer(Run(n, ops), k, now).Some? ==> Answer(Run(N, ops), k, now) == Answer(Run(n, ops), k, now)
  {
    RunsIncluded(n, N, ops);
    GetIncluded(Run(n, ops), n, Run(N, ops), N, k, now);
  }

  // ---- What stays in the cache -----------------------------------------------------------------------

  /** The key that op touches in state es: put, or hit. */
  ghost function TouchedBy<V>(es: Entries<V>, op: Op<V>): set<Name> {
    if op.PutOp? || Answer(es, op.key, op.now).Some? then {op.key} else {}
  }

  /** The keys touched when ops run from state es. */
  ghost function Touched<V>(es: Entries<V>, maxSize: nat, ops: seq<Op<V>>): set<Name>
    requires maxSize >= 1
  {
    if ops == [] then {}
    else
      var init := ops[..|ops| - 1];
      Touched(es, maxSize, init) + TouchedBy(RunFrom(es, maxSize, init), ops[|ops| - 1])
  }

  /** No get in ops finds an expired entry. */
  ghost predicate NoExpiry<V>(es: Entries<V>, maxSize: nat, ops: seq<Op<V>>)
    requires maxSize >= 1
  {
    ops == [] ||
    var init, op := ops[..|ops| - 1], ops[|ops| - 1];
    var now := RunFrom(es, maxSize, init);
    && NoExpiry(es, maxSize, init)
    && (op.GetOp? && Has(now, op.key) ==>
          op.now - now[Find(now, op.key)].saveTime <= now[Find(now, op.key)].ttl)
  }

  /** e is in the cache, and the keys of the entries in front of it are among d ... */
  ghost predicate Behind<V>(es: Entries<V>, e: Entry<V>, d: set<Name>) {
    Has(es, e.key) && es[Find(es, e.key)] == e && Keys(es[..Find(es, e.key)]) <= d
  }

  /** ... or are exactly d. */
  ghost predicate RightBehind<V>(es: Entries<V>, e: Entry<V>, d: set<Name>) {
    Has(es, e.key) && es[Find(es, e.key)] == e && Keys(es[..Find(es, e.key)]) == d
  }

  lemma {:induction false} KeyCount<V>(es: Entries<V>)
    requires Unique(es)
    ensures |Keys(es)| == |es|
    decreases |es|
  {
    if es != [] {
      var init, z := es[..|es| - 1], es[|es| - 1];
      KeyCount(init);
      assert es == init + [z];
      assert Keys(es) == Keys(init) + {z.key};
      assert z.key !in Keys(init);
    }
  }

  lemma KeysWithout<V>(x: Entries<V>, k: Name)
    requires Unique(x)
    ensures Keys(Without(x, k)) == Keys(x) - {k}
  {
    hide Without, Find, Unique;
    WithoutFacts(x, k);
  }

  lemma PrefixUnique<V>(es: Entries<V>, i: nat)
    requires Unique(es) && i <= |es|
    ensures Unique(es[..i])
  {
  }

  lemma CutBefore<V>(es: Entries<V>, i: nat, j: nat)
    requires j < i < |es|
    ensures var w := es[..j] + es[j + 1..];
            w[i - 1] == es[i] && w[..i - 1] == es[..i][..j] + es[..i][j + 1..]
  {
  }

  lemma CutAfter<V>(es: Entries<V>, i: nat, j: nat)
    requires i < j < |es|
    ensures var w := es[..j] + es[j + 1..];
            w[i] == es[i] && w[..i] == es[..i]
  {
  }

  /** Where e is after the entry for another key has been taken out. */
  lemma BehindWithout<V>(es: Entries<V>, e: Entry<V>, k: Name)
    requires Unique(es) && Has(es, e.key) && es[Find(es, e.key)] == e && k != e.key
    ensures var w := Without(es, k);
            && Has(w, e.key) && w[Find(w, e.key)] == e
            && Keys(w[..Find(w, e.key)]) == Keys(es[..Find(es, e.key)]) - {k}
  {
    hide Keys, FindFrom, Unique;
    var i, j := Find(es, e.key), Find(es, k);
    var w := Without(es, k);
    WithoutFacts(es, k);
    PrefixUnique(es, i);
    KeysWithout(es[..i], k);
    if j < i {
      FindUnique(es[..i], j);
      CutBefore(es, i, j);
      FindUnique(w, i - 1);
    } else {
      NotBefore(es, i, k);
      if j < |es| {
        CutAfter(es, i, j);
        FindUnique(w, i);
      }
    }
  }

  lemma NotBefore<V>(es: Entries<V>, i: nat, k: Name)
    requires i <= Find(es, k)
    ensures k !in Keys(es[..i])
  {
    assert forall x | 0 <= x < i :: es[..i][x].key != k;
  }

  lemma BehindFront<V>(es: Entries<V>, e: Entry<V>, f: Entry<V>)
    requires Has(es, e.key) && es[Find(es, e.key)] == e && f.key != e.key
    ensures var w := [f] + es;
            && Has(w, e.key) && w[Find(w, e.key)] == e
            && Keys(w[..Find(w, e.key)]) == Keys(es[..Find(es, e.key)]) + {f.key}
  {
    var i := Find(es, e.key);
    FindShift(f, es, e.key, 0);
    var w := [f] + es;
    assert Find(w, e.key) == i + 1;
    assert w[..i + 1] == [f] + es[..i];
    KeysConcat([f], es[..i]);
    assert [f][0] == f;
    assert Keys([f]) == {f.key};
  }

  lemma KeysConcat<V>(a: Entries<V>, b: Entries<V>)
    ensures Keys(a + b) == Keys(a) + Keys(b)
  {
  }

  lemma BehindEvict<V>(es: Entries<V>, e: Entry<V>)
    requires Unique(es) && Has(es, e.key) && es[Find(es, e.key)] == e && Find(es, e.key) < |es| - 1
    ensures var w := es[..|es| - 1];
            && Has(w, e.key) && w[Find(w, e.key)] == e
            && w[..Find(w, e.key)] == es[..Find(es, e.key)]
  {
    var i := Find(es, e.key);
    var w := es[..|es| - 1];
    assert w[i] == e;
    FindUnique(w, i);
    assert w[..i] == es[..i];
  }

  /** One operation on another key: how the entries in front of e change, if e stays. */
  lemma StepBehind<V>(es: Entries<V>, maxSize: nat, op: Op<V>, e: Entry<V>)
    requires maxSize >= 1 && Good(es, maxSize) && op.key != e.key
    requires Has(es, e.key) && es[Find(es, e.key)] == e
    ensures var i := Find(es, e.key);
            var front := Keys(es[..i]);
            var now := Step(es, maxSize, op);
            if op.PutOp? && !Has(es, op.key) && |es| == maxSize && i == maxSize - 1 then
              |front| == maxSize - 1 && op.key !in front && !Has(now, e.key)
            else
              && Has(now, e.key) && now[Find(now, e.key)] == e
              && var front' := Keys(now[..Find(now, e.key)]);
                 if op.GetOp? && !Has(es, op.key) then front' == front
                 else if op.GetOp? && Expired(es[Find(es, op.key)], op.now) then front' == front - {op.key}
                 else front' == front + {op.key}
  {
    hide Keys, FindFrom, Unique, Without;
    var i, j := Find(es, e.key), Find(es, op.key);
    if j < |es| {
      BehindWithout(es, e, op.key);
      var f := if op.PutOp? then Entry(op.key, op.value, op.now, op.ttl) else es[j];
      BehindFront(Without(es, op.key), e, f);
      MinusPlus(Keys(es[..i]), op.key);
    } else if op.PutOp? {
      var f := Entry(op.key, op.value, op.now, op.ttl);
      if |es| < maxSize {
        BehindFront(es, e, f);
      } else if i < |es| - 1 {
        BehindEvict(es, e);
        BehindFront(es[..|es| - 1], e, f);
      } else {
        PrefixUnique(es, i);
        KeyCount(es[..i]);
        NotBefore(es, i, op.key);
        Gone(es, i, e.key, f);
      }
    }
  }

  lemma MinusPlus(s: set<Name>, k: Name)
    ensures s - {k} + {k} == s + {k}
  {
  }

  lemma Gone<V>(es: Entries<V>, i: nat, k: Name, f: Entry<V>)
    requires i == |es| - 1 && Find(es, k) == i && f.key != k
    ensures !Has([f] + es[..i], k)
  {
    var w := [f] + es[..i];
    assert forall x | 0 <= x < |w| :: w[x] == if x == 0 then f else es[x - 1];
  }

  /** While fewer than maxSize keys have been touched since, e is there, behind some of them. */
  lemma {:induction false} StaysBehind<V>(es: Entries<V>, maxSize: nat, ops: seq<Op<V>>, e: Entry<V>)
    requires maxSize >= 1 && Good(es, maxSize) && es != [] && es[0] == e
    requires forall i | 0 <= i < |ops| :: ops[i].key != e.key
    requires |Touched(es, maxSize, ops)| < maxSize
    ensures Behind(RunFrom(es, maxSize, ops), e, Touched(es, maxSize, ops))
    decreases |ops|
  {
    hide Keys, FindFrom, Unique, Without, Put, AfterGet;
    if ops == [] {
      AtFront(es);
    } else {
      var init, op := ops[..|ops| - 1], ops[|ops| - 1];
      var now, d := RunFrom(es, maxSize, init), Touched(es, maxSize, init);
      Smaller(d, Touched(es, maxSize, ops));
      StaysBehind(es, maxSize, init, e);
      RunFromGood(es, maxSize, init);
      StepBehind(now, maxSize, op, e);
      var front := Keys(now[..Find(now, e.key)]);
      if op.PutOp? && !Has(now, op.key) && |now| == maxSize && Find(now, e.key) == maxSize - 1 {
        Smaller(front + {op.key}, Touched(es, maxSize, ops));
      }
    }
  }

  lemma Smaller(a: set<Name>, b: set<Name>)
    requires a <= b
    ensures |a| <= |b|
  {
    assert b == a + (b - a);
  }

  lemma AtFront<V>(es: Entries<V>)
    requires es != []
    ensures Has(es, es[0].key) && es[Find(es, es[0].key)] == es[0] && Keys(es[..Find(es, es[0].key)]) == {}
  {
    assert es[..0] == [];
  }

  /** Retention: after a put or hit of k left its entry e in front, any operations on other keys leave a
      later get of k a hit with e's value, as long as e has not expired and fewer than maxSize other
      keys were put or hit in between. */
  lemma Retention<V>(es: Entries<V>, maxSize: nat, ops: seq<Op<V>>, now: int)
    requires maxSize >= 1 && Good(es, maxSize) && es != []
    requires forall i | 0 <= i < |ops| :: ops[i].key != es[0].key
    requires |Touched(es, maxSize, ops)| < maxSize && now - es[0].saveTime <= es[0].ttl
    ensures Answer(RunFrom(es, maxSize, ops), es[0].key, now) == Some(es[0].value)
  {
    StaysBehind(es, maxSize, ops, es[0]);
  }

  lemma {:induction false} ExactlyBehind<V>(es: Entries<V>, maxSize: nat, ops: seq<Op<V>>, e: Entry<V>)
    requires maxSize >= 1 && Good(es, maxSize) && es != [] && es[0] == e
    requires forall i | 0 <= i < |ops| :: ops[i].key != e.key
    requires NoExpiry(es, maxSize, ops)
    ensures var d := Touched(es, maxSize, ops);
            if |d| < maxSize then RightBehind(RunFrom(es, maxSize, ops), e, d)
            else !Has(RunFrom(es, maxSize, ops), e.key)
    decreases |ops|
  {
    hide Keys, FindFrom, Unique, Without, Put, AfterGet;
    if ops == [] {
      AtFront(es);
    } else {
      var init, op := ops[..|ops| - 1], ops[|ops| - 1];
      var now, d := RunFrom(es, maxSize, init), Touched(es, maxSize, init);
      var d' := Touched(es, maxSize, ops);
      Smaller(d, d');
      ExactlyBehind(es, maxSize, init, e);
      RunFromGood(es, maxSize, init);
      if |d| < maxSize {
        StepBehind(now, maxSize, op, e);
        FrontIsShort(now, maxSize, e, d, op.key);
      } else {
        StaysGone(now, maxSize, op, e.key);
      }
    }
  }

  lemma KeysOfPrefix<V>(es: Entries<V>, i: nat)
    requires i <= |es|
    ensures forall j | 0 <= j < i :: es[j].key in Keys(es[..i])
  {
    assert forall j | 0 <= j < i :: es[..i][j] == es[j];
  }

  /** With as many entries in front as keys touched, e is last in a full cache exactly when the next
      new key is the one too many. */
  lemma FrontIsShort<V>(es: Entries<V>, maxSize: nat, e: Entry<V>, d: set<Name>, k: Name)
    requires Good(es, maxSize) && RightBehind(es, e, d)
    ensures |d| == Find(es, e.key)
    ensures k != e.key && !Has(es, k) ==> |d + {k}| == |d| + 1
    ensures k != e.key && Has(es, k) && |d + {k}| >= maxSize ==> |d| >= maxSize
  {
    var i := Find(es, e.key);
    PrefixUnique(es, i);
    KeyCount(es[..i]);
    if !Has(es, k) {
      NotBefore(es, i, k);
    } else if k != e.key && k !in d {
      var j := Find(es, k);
      KeysOfPrefix(es, i);
      assert |es| >= i + 2;
    }
  }

  lemma StaysGone<V>(es: Entries<V>, maxSize: nat, op: Op<V>, k: Name)
    requires maxSize >= 1 && Good(es, maxSize) && !Has(es, k) && op.key != k
    ensures !Has(Step(es, maxSize, op), k)
  {
    WithoutFacts(es, op.key);
    assert forall e | e in es :: e.key != k;
    var now := Step(es, maxSize, op);
    hide Without, Find, Unique;
    assert forall e | e in now :: e.key != k;
  }

  /** Stack distance: when no get in between meets an expired entry, the entry that was in front is
      still cached exactly when fewer than maxSize other keys have been put or hit since. */
  lemma StackDistance<V>(es: Entries<V>, maxSize: nat, ops: seq<Op<V>>)
    requires maxSize >= 1 && Good(es, maxSize) && es != []
    requires forall i | 0 <= i < |ops| :: ops[i].key != es[0].key
    requires NoExpiry(es, maxSize, ops)
    ensures Has(RunFrom(es, maxSize, ops), es[0].key) <==> |Touched(es, maxSize, ops)| < maxSize
  {
    ExactlyBehind(es, maxSize, ops, es[0]);
  }
}

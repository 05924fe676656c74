/** The cache of cache/cache.c as a list of entries, most recently used first. What it promises over whole runs is in
    CacheRuns, and the heap structure that refines it in Caches. */
module CacheModel {
  import opened Bytes

  datatype Entry<V> = Entry(key: Name, value: V, saveTime: int, ttl: int)

  type Entries<V> = seq<Entry<V>>

  // ---- Operations -----------------------------------------------------------------------------------

  /** Index of the first entry for k at or after i, or |es|. */
  function FindFrom<V>(es: Entries<V>, k: Name, i: nat): (r: nat)
    requires i <= |es|
    ensures i <= r <= |es| && (r < |es| ==> es[r].key == k)
    ensures forall j | i <= j < r :: es[j].key != k
    decreases |es| - i
  {
    if i == |es| || es[i].key == k then i else FindFrom(es, k, i + 1)
  }

  function Find<V>(es: Entries<V>, k: Name): (r: nat)
    ensures r <= |es| && (r < |es| ==> es[r].key == k)
    ensures forall j | 0 <= j < r :: es[j].key != k
  {
    FindFrom(es, k, 0)
  }

  predicate Has<V>(es: Entries<V>, k: Name) {
    Find(es, k) < |es|
  }

  function Without<V>(es: Entries<V>, k: Name): Entries<V> {
    var i := Find(es, k);
    if i < |es| then es[..i] + es[i + 1..] else es
  }

  function Expired<V>(e: Entry<V>, now: int): bool {
    now - e.saveTime > e.ttl
  }

  /** `CachePut` at time now. */
  function Put<V>(es: Entries<V>, maxSize: nat, k: Name, v: V, ttl: int, now: int): Entries<V>
    requires maxSize >= 1
  {
    [Entry(k, v, now, ttl)] +
    if Has(es, k) then Without(es, k)
    else if |es| >= maxSize then es[..|es| - 1]
    else es
  }

  /** `CacheGet` at time now: what is left in the cache ... */
  function AfterGet<V>(es: Entries<V>, k: Name, now: int): Entries<V> {
    if !Has(es, k) then es
    else if Expired(es[Find(es, k)], now) then Without(es, k)
    else [es[Find(es, k)]] + Without(es, k)
  }

  /** ... and what is returned. */
  function Answer<V>(es: Entries<V>, k: Name, now: int): Option<V> {
    if Has(es, k) && !Expired(es[Find(es, k)], now) then Some(es[Find(es, k)].value) else None
  }

  // ---- Invariants -----------------------------------------------------------------------------------

  ghost function Keys<V>(es: Entries<V>): set<Name> {
    set e | e in es :: e.key
  }

  ghost predicate Unique<V>(es: Entries<V>) {
    forall i, j | 0 <= i < j < |es| :: es[i].key != es[j].key
  }

  ghost predicate Good<V>(es: Entries<V>, maxSize: nat) {
    Unique(es) && |es| <= maxSize
  }

  lemma FindUnique<V>(es: Entries<V>, i: nat)
    requires Unique(es) && i < |es|
    ensures Find(es, es[i].key) == i
  {
  }

  lemma {:induction false} FindShift<V>(e: Entry<V>, r: Entries<V>, k: Name, i: nat)
    requires i <= |r|
    ensures FindFrom([e] + r, k, i + 1) == FindFrom(r, k, i) + 1
    decreases |r| - i
  {
    if i < |r| && r[i].key != k {
      FindShift(e, r, k, i + 1);
    }
  }

  lemma WithoutCons<V>(es: Entries<V>, k: Name)
    requires es != []
    ensures Without(es, k) == if es[0].key == k then es[1..] else [es[0]] + Without(es[1..], k)
  {
    FindCons(es, k);
    hide Find;
    var i := Find(es[1..], k);
    if es[0].key != k && i < |es[1..]| {
      CutCons(es, i);
    }
  }

  lemma FindCons<V>(es: Entries<V>, k: Name)
    requires es != []
    ensures Find(es, k) == if es[0].key == k then 0 else Find(es[1..], k) + 1
  {
    assert es == [es[0]] + es[1..];
    FindShift(es[0], es[1..], k, 0);
  }

  lemma CutCons<V>(es: Entries<V>, i: nat)
    requires i + 1 < |es|
    ensures es[..i + 1] + es[i + 2..] == [es[0]] + (es[1..][..i] + es[1..][i + 1..])
  {
  }

  lemma WithoutFacts<V>(es: Entries<V>, k: Name)
    requires Unique(es)
    ensures Unique(Without(es, k)) && !Has(Without(es, k), k)
    ensures |Without(es, k)| == |es| - if Has(es, k) then 1 else 0
    ensures forall e | e in Without(es, k) :: e in es && e.key != k
    ensures forall e | e in es && e.key != k :: e in Without(es, k)
  {
    var i := Find(es, k);
    var w := Without(es, k);
    if i < |es| {
      assert forall j | 0 <= j < |w| :: w[j] == es[if j < i then j else j + 1];
      forall e | e in es && e.key != k ensures e in w {
        var j :| 0 <= j < |es| && es[j] == e;
        assert e == w[if j < i then j else j - 1];
      }
    }
  }

  lemma StillAbsent<V>(es: Entries<V>, k: Name, n: nat)
    requires n <= |es| && !Has(es, k)
    ensures !Has(es[..n], k)
  {
    assert forall j | 0 <= j < |es| :: es[j].key != k;
    assert forall j | 0 <= j < n :: es[..n][j].key != k;
  }

  lemma PutGood<V>(es: Entries<V>, maxSize: nat, k: Name, v: V, ttl: int, now: int)
    requires Good(es, maxSize) && maxSize >= 1
    ensures Good(Put(es, maxSize, k, v, ttl, now), maxSize)
  {
    WithoutFacts(es, k);
  }

  /** What a put leaves: the entry in front, with the time of the put, and of the others those that were there, less one
      if the cache was full. */
  lemma PutMeans<V>(es: Entries<V>, maxSize: nat, k: Name, v: V, ttl: int, now: int)
    requires Good(es, maxSize) && maxSize >= 1
    ensures var r := Put(es, maxSize, k, v, ttl, now);
            && r != [] && r[0].key == k && r[0].value == v && r[0].saveTime == now && r[0].ttl == ttl
            && (forall e | e in r[1..] :: e in es && e.key != k)
            && |r| == (if Has(es, k) then |es| else if |es| < maxSize then |es| + 1 else maxSize)
  {
    WithoutFacts(es, k);
    if !Has(es, k) {
      StillAbsent(es, k, |es|);
      assert forall e | e in es :: e.key != k;
    }
  }

  /** What a get returns and leaves, by the clock: the value, and the entry in front, as long as the entry is no older than
      its time to live; then nothing, and no entry for the key. */
  lemma GetMeans<V>(es: Entries<V>, k: Name, now: int)
    requires Unique(es)
    ensures !Has(es, k) ==> Answer(es, k, now) == None && AfterGet(es, k, now) == es
    ensures forall e | e in es && e.key == k ::
              && Has(es, k)
              && Answer(es, k, now) == (if now - e.saveTime <= e.ttl then Some(e.value) else None)
              && (Has(AfterGet(es, k, now), k) <==> now - e.saveTime <= e.ttl)
              && (now - e.saveTime <= e.ttl ==> AfterGet(es, k, now)[0] == e)
    ensures forall e | e in AfterGet(es, k, now) :: e in es
    ensures forall e | e in es && e.key != k :: e in AfterGet(es, k, now)
  {
    WithoutFacts(es, k);
    forall e | e in es && e.key == k ensures Has(es, k) && es[Find(es, k)] == e {
      var i :| 0 <= i < |es| && es[i] == e;
      FindUnique(es, i);
    }
  }

  lemma GetGood<V>(es: Entries<V>, maxSize: nat, k: Name, now: int)
    requires Good(es, maxSize)
    ensures Good(AfterGet(es, k, now), maxSize)
  {
    WithoutFacts(es, k);
  }
}

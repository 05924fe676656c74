/** The cache's hash table over runs of puts and gets: how long it has a bucket. */
module CacheTable {
  import opened Bytes
  import opened CacheModel
  import opened CacheRuns
  import Rescaling

  /** The operation takes an entry out: the last one of a full cache, or an expired one. */
  predicate TakesOut<V>(es: Entries<V>, maxSize: nat, op: Op<V>) {
    match op
    case PutOp(k, _, _, _) => !Has(es, k) && |es| >= maxSize
    case GetOp(k, now) => Has(es, k) && now - es[Find(es, k)].saveTime > es[Find(es, k)].ttl
  }

  /** The operation brings in an entry for a new key. */
  predicate BringsIn<V>(es: Entries<V>, op: Op<V>) {
    op.PutOp? && !Has(es, op.key)
  }

  /** What the operation does to the table. */
  function TableOps<V>(es: Entries<V>, maxSize: nat, op: Op<V>): seq<Rescaling.Op> {
    (if TakesOut(es, maxSize, op) then [Rescaling.Remove] else []) + if BringsIn(es, op) then [Rescaling.Add] else []
  }

  function TableRun<V>(maxSize: nat, ops: seq<Op<V>>): seq<Rescaling.Op>
    requires maxSize >= 1
  {
    if ops == [] then []
    else
      var init := ops[..|ops| - 1];
      TableRun(maxSize, init) + TableOps(Run(maxSize, init), maxSize, ops[|ops| - 1])
  }

  lemma StepSize<V>(es: Entries<V>, maxSize: nat, op: Op<V>)
    requires maxSize >= 1 && Good(es, maxSize)
    ensures TakesOut(es, maxSize, op) ==> es != []
    ensures |Step(es, maxSize, op)|
            == |es| - (if TakesOut(es, maxSize, op) then 1 else 0) + (if BringsIn(es, op) then 1 else 0)
  {
    WithoutFacts(es, op.key);
  }

  lemma OneMore(t: seq<Rescaling.Op>, op: Rescaling.Op)
    requires Rescaling.Possible(t) && (op == Rescaling.Remove ==> Rescaling.Run(t).num > 0)
    ensures Rescaling.Possible(t + [op]) && Rescaling.Run(t + [op]) == Rescaling.Step(Rescaling.Run(t), op)
    ensures Rescaling.Alive(t + [op]) <==> Rescaling.Alive(t) && Rescaling.Run(t + [op]).len >= 1
  {
    Rescaling.RunMore(t, op);
    assert (t + [op])[..|t|] == t;
  }

  lemma AliveHasBucket(t: seq<Rescaling.Op>)
    requires Rescaling.Possible(t) && Rescaling.Alive(t)
    ensures Rescaling.Run(t).len >= 1
  {
  }

  /** A possible run of the table, and what one operation of the cache adds to it. */
  lemma TableMore(t: seq<Rescaling.Op>, out: bool, more: bool)
    requires Rescaling.Possible(t) && (out ==> Rescaling.Run(t).num > 0)
    ensures var t' := t + ((if out then [Rescaling.Remove] else []) + if more then [Rescaling.Add] else []);
            var s := Rescaling.Run(t);
            && Rescaling.Possible(t')
            && Rescaling.Run(t').num == s.num - (if out then 1 else 0) + (if more then 1 else 0)
            && (Rescaling.Alive(t') <==> Rescaling.Alive(t) && (out && s.num == 1 ==> s.len > 1))
            && (Rescaling.Run(t').num <= 1 && s.num <= 1 && s.len >= 1 ==>
                  Rescaling.Run(t').len == if out then s.len / 2 else s.len)
  {
    var t1 := if out then t + [Rescaling.Remove] else t;
    var t' := if more then t1 + [Rescaling.Add] else t1;
    assert t' == t + ((if out then [Rescaling.Remove] else []) + if more then [Rescaling.Add] else []);
    if out {
      OneMore(t, Rescaling.Remove);
    }
    if more {
      OneMore(t1, Rescaling.Add);
    }
    if Rescaling.Alive(t) {
      AliveHasBucket(t);
    }
    hide Rescaling.Possible, Rescaling.Run, Rescaling.Alive;
  }

  /** The table counts the entries of the cache. */
  lemma {:induction false} TableCounts<V>(maxSize: nat, ops: seq<Op<V>>)
    requires maxSize >= 1
    ensures Rescaling.Possible(TableRun(maxSize, ops))
    ensures Rescaling.Run(TableRun(maxSize, ops)).num == |Run(maxSize, ops)|
    decreases |ops|
  {
    if ops != [] {
      var init := ops[..|ops| - 1];
      TableCounts(maxSize, init);
      RunFromGood([], maxSize, init);
      StepSize(Run(maxSize, init), maxSize, ops[|ops| - 1]);
      hide Step, Run, TakesOut, BringsIn, Rescaling.Possible, Rescaling.Run;
      TableMore(TableRun(maxSize, init), TakesOut(Run(maxSize, init), maxSize, ops[|ops| - 1]),
                BringsIn(Run(maxSize, init), ops[|ops| - 1]));
    }
  }

  /** Every prefix of the run leaves the table a bucket. */
  ghost predicate TableLives<V>(maxSize: nat, ops: seq<Op<V>>)
    requires maxSize >= 1
  {
    TableCounts(maxSize, ops);
    Rescaling.Alive(TableRun(maxSize, ops))
  }

  /** Buckets after the run. */
  ghost function Buckets<V>(maxSize: nat, ops: seq<Op<V>>): nat
    requires maxSize >= 1
  {
    TableCounts(maxSize, ops);
    Rescaling.Run(TableRun(maxSize, ops)).len
  }

  /** Somewhere in the run the only entry is taken out while the table has one bucket. */
  ghost predicate LosesOnly<V>(maxSize: nat, ops: seq<Op<V>>)
    requires maxSize >= 1
  {
    ops != [] &&
    var init, op := ops[..|ops| - 1], ops[|ops| - 1];
    || LosesOnly(maxSize, init)
    || (TakesOut(Run(maxSize, init), maxSize, op) && |Run(maxSize, init)| == 1 && Buckets(maxSize, init) == 1)
  }

  lemma TableStep<V>(maxSize: nat, ops: seq<Op<V>>)
    requires maxSize >= 1 && ops != []
    ensures var init := ops[..|ops| - 1];
            var es, l := Run(maxSize, init), Buckets(maxSize, init);
            var out := TakesOut(es, maxSize, ops[|ops| - 1]);
            && (TableLives(maxSize, ops) <==> TableLives(maxSize, init) && (out && |es| == 1 ==> l > 1))
            && (maxSize == 1 && l >= 1 ==> Buckets(maxSize, ops) == if out then l / 2 else l)
  {
    var init, op := ops[..|ops| - 1], ops[|ops| - 1];
    var es := Run(maxSize, init);
    TableCounts(maxSize, init);
    TableCounts(maxSize, ops);
    RunFromGood([], maxSize, init);
    StepSize(es, maxSize, op);
    RunFromGood([], maxSize, ops);
    hide Run, TakesOut, BringsIn, Rescaling.Possible, Rescaling.Run, Rescaling.Alive;
    TableMore(TableRun(maxSize, init), TakesOut(es, maxSize, op), BringsIn(es, op));
  }

  lemma {:induction false} LivesHasBucket<V>(maxSize: nat, ops: seq<Op<V>>)
    requires maxSize >= 1 && TableLives(maxSize, ops)
    ensures Buckets(maxSize, ops) >= 1
  {
  }

  /** Over any run of puts and gets the table keeps a bucket exactly when the only entry is never taken out of a
      one-bucket table. */
  lemma {:induction false} LivesExactly<V>(maxSize: nat, ops: seq<Op<V>>)
    requires maxSize >= 1
    ensures TableLives(maxSize, ops) <==> !LosesOnly(maxSize, ops)
    decreases |ops|
  {
    if ops != [] {
      var init := ops[..|ops| - 1];
      LivesExactly(maxSize, init);
      TableStep(maxSize, ops);
      hide Run, TakesOut, TableLives, Buckets;
      if TableLives(maxSize, init) {
        LivesHasBucket(maxSize, init);
      }
    }
  }

  /** A cache for two entries or more, in which no get meets an expired entry, always keeps a bucket. */
  lemma {:induction false} LivesWithoutExpiry<V>(maxSize: nat, ops: seq<Op<V>>)
    requires maxSize >= 2 && NoExpiry([], maxSize, ops)
    ensures TableLives(maxSize, ops)
    decreases |ops|
  {
    if ops != [] {
      LivesWithoutExpiry(maxSize, ops[..|ops| - 1]);
      TableStep(maxSize, ops);
    }
  }

  /** How many entries are taken out during the run. */
  ghost function TakenOut<V>(maxSize: nat, ops: seq<Op<V>>): nat
    requires maxSize >= 1
  {
    if ops == [] then 0
    else
      var init := ops[..|ops| - 1];
      TakenOut(maxSize, init) + if TakesOut(Run(maxSize, init), maxSize, ops[|ops| - 1]) then 1 else 0
  }

  /** A cache for one entry keeps a bucket exactly until the eleventh entry is taken out. */
  lemma {:induction false} LivesForTen<V>(ops: seq<Op<V>>)
    ensures TableLives(1, ops) <==> TakenOut(1, ops) <= 10
    ensures TableLives(1, ops) ==> Buckets(1, ops) * Rescaling.Pow2(TakenOut(1, ops)) == Rescaling.INIT_LEN
    decreases |ops|
  {
    if ops != [] {
      var init := ops[..|ops| - 1];
      var es, op := Run(1, init), ops[|ops| - 1];
      LivesForTen(init);
      TableStep(1, ops);
      RunFromGood([], 1, init);
      StepSize(es, 1, op);
      hide Run, TakesOut, TableLives, Buckets, Rescaling.Pow2;
      if TableLives(1, init) {
        HalfOfTen(Buckets(1, init), TakenOut(1, init));
      }
    }
  }

  lemma HalfOfTen(l: nat, n: nat)
    requires n <= 10 && l * Rescaling.Pow2(n) == 1024
    ensures l >= 1 && (l == 1 <==> n == 10)
    ensures n < 10 ==> (l / 2) * Rescaling.Pow2(n + 1) == 1024
  {
    if n < 10 {
      Rescaling.EvenUnderTen(l, n);
    } else {
      assert Rescaling.Pow2(10) == 1024 by {
        assert Rescaling.Pow2(5) == 32;
      }
    }
  }

  /** A value put and found expired, n times. */
  function Fleeting<V>(k: Name, v: V, n: nat): seq<Op<V>> {
    if n == 0 then [] else Fleeting(k, v, n - 1) + [PutOp(k, v, 0, 0)] + [GetOp(k, 1)]
  }

  lemma OneFleeting<V>(maxSize: nat, ops: seq<Op<V>>, k: Name, v: V)
    requires maxSize >= 1 && Run(maxSize, ops) == []
    ensures var put := ops + [PutOp(k, v, 0, 0)];
            var get := put + [GetOp(k, 1)];
            && Run(maxSize, get) == []
            && TableRun(maxSize, get) == TableRun(maxSize, ops) + [Rescaling.Add, Rescaling.Remove]
  {
    var put, e := ops + [PutOp(k, v, 0, 0)], Entry(k, v, 0, 0);
    var get := put + [GetOp(k, 1)];
    assert put[..|put| - 1] == ops && get[..|get| - 1] == put;
    assert Run(maxSize, put) == [e];
    assert Find([e], k) == 0 && Without([e], k) == [] && Find<V>([], k) == 0;
    assert TableOps([], maxSize, PutOp(k, v, 0, 0)) == [Rescaling.Add];
    assert TableOps([e], maxSize, GetOp(k, 1)) == [Rescaling.Remove];
    hide Run, TableOps;
    assert TableRun(maxSize, put) == TableRun(maxSize, ops) + [Rescaling.Add];
    assert TableRun(maxSize, get) == TableRun(maxSize, put) + [Rescaling.Remove];
  }

  lemma {:induction false} FleetingChurns<V>(maxSize: nat, k: Name, v: V, n: nat)
    requires maxSize >= 1
    ensures Run(maxSize, Fleeting(k, v, n)) == [] && TableRun(maxSize, Fleeting(k, v, n)) == Rescaling.Churn(n)
    decreases n
  {
    if n > 0 {
      FleetingChurns(maxSize, k, v, n - 1);
      OneFleeting(maxSize, Fleeting(k, v, n - 1), k, v);
      hide Run, TableRun;
    }
  }

  /** Expiry takes the last bucket away whatever the cache's size: eleven values, each found expired. */
  lemma ExpiryKills<V>(maxSize: nat, k: Name, v: V)
    requires maxSize >= 1
    ensures !TableLives(maxSize, Fleeting(k, v, 11))
  {
    FleetingChurns(maxSize, k, v, 11);
    Rescaling.ChurnKills();
  }
}

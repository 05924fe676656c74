/** How many keys and buckets a hash table has over a run, and what keeping them in proportion costs. */
module Rescaling {

  const INIT_LEN := 1024

  /** Keys, buckets, and the work of all rescaling so far: buckets allocated, buckets scanned, nodes relinked. */
  datatype Shape = Shape(num: nat, len: nat, work: nat)

  /** A new key, a new value for an old key, or the removal of a key that is there. */
  datatype Op = Add | Set | Remove

  /** Cost of `rescale` from len to size buckets with num nodes. */
  function Cost(num: nat, len: nat, size: nat): nat {
    size + len + num
  }

  /** What `insert` and `delete` do to the shape. */
  function Step(s: Shape, op: Op): Shape
    requires op == Remove ==> s.num > 0
  {
    match op
    case Set => s
    case Add =>
      if s.num + 1 >= s.len * 2 then Shape(s.num + 1, s.len * 2, s.work + Cost(s.num + 1, s.len, s.len * 2))
      else s.(num := s.num + 1)
    case Remove =>
      if (s.num - 1) * 2 < s.len then Shape(s.num - 1, s.len / 2, s.work + Cost(s.num - 1, s.len, s.len / 2))
      else s.(num := s.num - 1)
  }

  const Start := Shape(0, INIT_LEN, 0)

  /** Removals only of keys that are there. */
  predicate Possible(ops: seq<Op>)
    decreases |ops|, 0
  {
    ops == [] ||
    (Possible(ops[..|ops| - 1]) && (ops[|ops| - 1] == Remove ==> Run(ops[..|ops| - 1]).num > 0))
  }

  function Run(ops: seq<Op>): Shape
    requires Possible(ops)
    decreases |ops|, 1
  {
    if ops == [] then Start else Step(Run(ops[..|ops| - 1]), ops[|ops| - 1])
  }

  lemma RunMore(ops: seq<Op>, op: Op)
    ensures Possible(ops) && (op == Remove ==> Run(ops).num > 0) ==>
              Possible(ops + [op]) && Run(ops + [op]) == Step(Run(ops), op)
  {
    assert (ops + [op])[..|ops|] == ops;
  }

  // ---- When the table dies ---------------------------------------------------------------------------

  /** Every prefix of the run leaves at least one bucket, so that `hash % len` is defined. */
  predicate Alive(ops: seq<Op>)
    requires Possible(ops)
  {
    Run(ops).len >= 1 && (ops == [] || Alive(ops[..|ops| - 1]))
  }

  /** Somewhere in the run the last key is removed from a table of one bucket. */
  predicate RemovesLastOfOne(ops: seq<Op>)
    requires Possible(ops)
  {
    ops != [] &&
    var init := ops[..|ops| - 1];
    RemovesLastOfOne(init) || (ops[|ops| - 1] == Remove && Run(init).num == 1 && Run(init).len == 1)
  }

  /** `delete` halves one bucket to none exactly when it removes the last key of a one-bucket table;
      up to then the table stays alive, after that the next lookup divides by zero. */
  lemma {:induction false} AliveExactly(ops: seq<Op>)
    requires Possible(ops)
    ensures Alive(ops) <==> !RemovesLastOfOne(ops)
    decreases |ops|
  {
    if ops != [] {
      AliveExactly(ops[..|ops| - 1]);
    }
  }

  function Churn(n: nat): seq<Op> {
    if n == 0 then [] else Churn(n - 1) + [Add, Remove]
  }

  function Pow2(n: nat): nat {
    if n == 0 then 1 else 2 * Pow2(n - 1)
  }

  lemma {:induction false} ChurnHalves(n: nat)
    requires n <= 10
    ensures Possible(Churn(n)) && Run(Churn(n)).num == 0 && Run(Churn(n)).len * Pow2(n) == INIT_LEN
    decreases n
  {
    if n > 0 {
      ChurnHalves(n - 1);
      ChurnStep(Churn(n - 1));
      var l := Run(Churn(n - 1)).len;
      assert l * Pow2(n - 1) == 1024 && n - 1 < 10;
      EvenUnderTen(l, n - 1);
    }
  }

  lemma EvenUnderTen(l: nat, n: nat)
    requires n < 10 && l * Pow2(n) == 1024
    ensures l % 2 == 0 && l > 0 && (l / 2) * Pow2(n + 1) == 1024
  {
    assert Pow2(0) == 1;
    assert Pow2(1) == 2;
    assert Pow2(2) == 4;
    assert Pow2(3) == 8;
    assert Pow2(4) == 16;
    assert Pow2(5) == 32;
    assert Pow2(6) == 64;
    assert Pow2(7) == 128;
    assert Pow2(8) == 256;
    assert Pow2(9) == 512;
    assert Pow2(10) == 1024;
  }

  lemma ChurnStep(ops: seq<Op>)
    requires Possible(ops) && Run(ops).num == 0
    ensures var t := ops + [Add, Remove];
            && Possible(t) && Run(t).num == 0
            && (Run(ops).len > 0 ==> Run(t).len == Run(ops).len / 2)
  {
    var t, u := ops + [Add, Remove], ops + [Add];
    assert u[..|u| - 1] == ops && u[|u| - 1] == Add;
    assert Run(u) == Step(Run(ops), Add);
    assert t[..|t| - 1] == u && t[|t| - 1] == Remove;
  }

  /** Eleven times a key goes in and out of an empty table, and the table is dead. */
  lemma ChurnKills()
    ensures Possible(Churn(11)) && !Alive(Churn(11))
  {
    ChurnHalves(10);
    assert Pow2(10) == 1024 by {
      assert Pow2(5) == 32;
    }
    assert Run(Churn(10)).len == 1;
    ChurnStep(Churn(10));
  }

  // ---- What rescaling costs ----------------------------------------------------------------------------

  predicate IsPow2(n: nat) {
    n == 1 || (n > 1 && n % 2 == 0 && IsPow2(n / 2))
  }

  function Distance(a: int, b: int): nat {
    if a >= b then a - b else b - a
  }

  /** Paid work plus saved-up credit is at most five units per operation, beyond the initial table's. */
  ghost predicate InCredit(s: Shape, m: nat) {
    && IsPow2(s.len) && s.num < 2 * s.len
    && s.work + 5 * Distance(s.num, s.len) <= 5 * (m + INIT_LEN)
  }

  lemma StepInCredit(s: Shape, op: Op, m: nat)
    requires InCredit(s, m) && (op == Remove ==> s.num > 0) && Step(s, op).len >= 1
    ensures InCredit(Step(s, op), m + 1)
  {
  }

  /** Amortised rescaling: over any run that keeps its table alive, the work of rescaling is at most
      5 * (operations + 1024), the number of buckets is a power of two, and chains hold fewer than
      two keys on average. */
  lemma {:induction false} AmortisedRescaling(ops: seq<Op>)
    requires Possible(ops) && Alive(ops)
    ensures InCredit(Run(ops), |ops|)
    ensures Run(ops).work <= 5 * (|ops| + INIT_LEN)
    decreases |ops|
  {
    if ops != [] {
      var init := ops[..|ops| - 1];
      AmortisedRescaling(init);
      StepInCredit(Run(init), ops[|ops| - 1], |init|);
    } else {
      StartIsPow2();
    }
  }

  lemma StartIsPow2()
    ensures IsPow2(INIT_LEN)
  {
    assert IsPow2(1);
    assert IsPow2(4);
    assert IsPow2(16);
    assert IsPow2(64);
    assert IsPow2(256);
  }
}

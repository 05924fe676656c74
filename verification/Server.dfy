/** The server's cached answers (server.c): the records of one type that a reply carries are gathered in an item,
    the item is cached under "name:type", and a later hit is turned back into records. */
module Server {
  import opened Bytes
  import opened Messages
  import opened MessageObject
  import opened CacheModel
  import CacheRuns
  import Caches
  import HashTable
  import LinkLists
  import Flags

  const A := 1
  const AAAA := 28
  const IN := 1
  const NAME_ERR: bv16 := 3
  const STR_LEN := 128
  const MAX_NUM := 10

  // ---- Keys ------------------------------------------------------------------------------------------------

  const COLON: Byte := 58

  /** `typename`. */
  function TypeName(t: int): Option<Name> {
    if t == A then Some([65])
    else if t == NS then Some([78, 83])
    else if t == CNAME then Some([67, 78, 65, 77, 69])
    else if t == AAAA then Some([65, 65, 65, 65])
    else None
  }

  /** `calcKey`: "name:TYPE", or None for a type without a name. */
  function Key(name: Name, t: int): Option<Name> {
    match TypeName(t)
    case None => None
    case Some(tn) => Some(name + [COLON] + tn)
  }

  /** The keys in full: the name, a colon, and "A", "NS", "CNAME" or "AAAA"; other types have none. */
  lemma KeyText(name: Name, t: int)
    ensures Key(name, 1) == Some(name + [58] + [65])
    ensures Key(name, 2) == Some(name + [58] + [78, 83])
    ensures Key(name, 5) == Some(name + [58] + [67, 78, 65, 77, 69])
    ensures Key(name, 28) == Some(name + [58] + [65, 65, 65, 65])
    ensures t != 1 && t != 2 && t != 5 && t != 28 ==> Key(name, t) == None
  {
  }

  /** Different name/type pairs have different keys, whatever the names contain. */
  lemma KeyInjective(n1: Name, t1: int, n2: Name, t2: int)
    requires Key(n1, t1).Some? && Key(n1, t1) == Key(n2, t2)
    ensures n1 == n2 && t1 == t2
  {
    var k, a, b := Key(n1, t1).value, TypeName(t1).value, TypeName(t2).value;
    assert k[|n1|] == COLON && k[|n1| + 1..] == a;
    assert k == n2 + [COLON] + b;
    assert k[|n2|] == COLON && k[|n2| + 1..] == b;
    assert k[..|n1|] == n1 && k[..|n2|] == n2;
  }

  // ---- Items -----------------------------------------------------------------------------------------------

  /** An IPv4 address as it lies in memory. */
  type Quad = q: seq<Byte> | |q| == 4 witness [0, 0, 0, 0]

  const NO_ADDRESS: Quad := [0, 0, 0, 0]

  /** The memory of an `item`: what the cache copies. */
  datatype ItemValue = ItemValue(name: Name, itype: Byte, num: nat, ipv4: seq<Quad>, strVal: seq<Name>, ddl: int)

  /** `bzero`. */
  function Zeroed(): ItemValue {
    ItemValue([], 0, 0, seq(MAX_NUM, _ => NO_ADDRESS), seq(MAX_NUM, _ => []), 0)
  }

  /** `strncpy(dst, s, STR_LEN)` to zeroed memory of STR_LEN + 1 octets. */
  function Truncated(s: Name): Name {
    if |s| <= STR_LEN then s else s[..STR_LEN]
  }

  /** A record that `addRR2Item` can read: an A record has an address, the others a name. */
  predicate Readable(rr: RR) {
    && |rr.name| < STR_LEN && (rr.rtype == A || rr.rtype == NS || rr.rtype == CNAME)
    && (if rr.rtype == A then rr.payload.Raw? && |rr.payload.data| >= 4 else rr.payload.Text?)
  }

  predicate Sized(v: ItemValue) {
    |v.ipv4| == MAX_NUM && |v.strVal| == MAX_NUM && v.num <= MAX_NUM
  }

  /** `addRR2Item` at time now. */
  function WithRR(v: ItemValue, rr: RR, now: int): (r: ItemValue)
    requires Sized(v) && v.num < MAX_NUM && Readable(rr)
    ensures Sized(r)
  {
    var w := v.(name := rr.name, itype := rr.rtype, num := v.num + 1, ddl := rr.ttl as int + now);
    if rr.rtype == A then w.(ipv4 := v.ipv4[v.num := rr.payload.data[..4]])
    else w.(strVal := v.strVal[v.num := Truncated(rr.payload.name)])
  }

  /** The item that gathers these records at time now. */
  function Gathered(rrs: seq<RR>, now: int): (v: ItemValue)
    requires |rrs| <= MAX_NUM && forall i | 0 <= i < |rrs| :: Readable(rrs[i])
    ensures Sized(v) && v.num == |rrs|
  {
    if rrs == [] then Zeroed() else WithRR(Gathered(rrs[..|rrs| - 1], now), rrs[|rrs| - 1], now)
  }

  /** What one record adds to an item at time now. */
  lemma WithRRMeans(v: ItemValue, rr: RR, now: int)
    requires Sized(v) && v.num < 10 && |rr.name| < 128 && (rr.rtype == 1 || rr.rtype == 2 || rr.rtype == 5)
    requires if rr.rtype == 1 then rr.payload.Raw? && |rr.payload.data| >= 4 else rr.payload.Text?
    ensures var r := WithRR(v, rr, now);
            && r.name == rr.name && r.itype == rr.rtype && r.num == v.num + 1 && r.ddl == rr.ttl as int + now
            && (rr.rtype == 1 ==> r.ipv4 == v.ipv4[v.num := rr.payload.data[..4]] && r.strVal == v.strVal)
            && (rr.rtype != 1 ==>
                  && r.ipv4 == v.ipv4
                  && var name := rr.payload.name;
                     r.strVal == v.strVal[v.num := if |name| <= 128 then name else name[..128]])
  {
  }

  class Item {
    var name: Name
    var itype: Byte
    var num: nat
    const ipv4: array<Quad>
    const strVal: array<Name>
    var ddl: int

    function Value(): ItemValue
      reads this, ipv4, strVal
    {
      ItemValue(name, itype, num, ipv4[..], strVal[..], ddl)
    }

    constructor ()
      ensures Value() == Zeroed() && fresh(ipv4) && fresh(strVal)
      ensures name == [] && itype == 0 && num == 0 && ddl == 0
      ensures ipv4.Length == strVal.Length == 10
      ensures forall i | 0 <= i < 10 :: ipv4[i] == [0, 0, 0, 0] && strVal[i] == []
    {
      name, itype, num, ddl := [], 0, 0, 0;
      ipv4 := new Quad[MAX_NUM](_ => NO_ADDRESS);
      strVal := new Name[MAX_NUM](_ => []);
    }

    /** `addRR2Item`. */
    method AddRR2Item(rr: RR, now: int)
      requires Sized(Value()) && num < MAX_NUM && Readable(rr)
      modifies this, ipv4, strVal
      ensures Value() == WithRR(old(Value()), rr, now)
    {
      itype := rr.rtype;
      name := rr.name;
      ddl := rr.ttl as int + now;
      if itype == A {
        ipv4[num] := rr.payload.data[..4];
      } else {
        strVal[num] := Truncated(rr.payload.name);
      }
      num := num + 1;
    }
  }

  // ---- Answers ---------------------------------------------------------------------------------------------

  /** `uint32_t` of a time difference. */
  function Wrap32(x: int): (r: U32)
    ensures 0 <= x < 0x1_0000_0000 ==> r == x
  {
    x % 0x1_0000_0000
  }

  /** The record that `Item2Msg` makes of entry i. */
  function AnswerRR(v: ItemValue, name: Name, now: int, i: nat): RR
    requires Sized(v) && i < v.num
  {
    if v.itype == A then RR(name, v.itype, IN, Wrap32(v.ddl - now), 4, Raw(v.ipv4[i]))
    else RR(name, v.itype, IN, Wrap32(v.ddl - now), 0, Text(v.strVal[i]))
  }

  /** That record in full: class IN (1), and the seconds until the deadline on 32 bits. */
  lemma AnswerRRMeans(v: ItemValue, name: Name, now: int, i: nat)
    requires Sized(v) && i < v.num
    ensures var rr := AnswerRR(v, name, now, i);
            && rr.name == name && rr.rtype == v.itype && rr.rclass == 1
            && rr.ttl == (v.ddl - now) % 0x1_0000_0000
            && rr.payload == (if v.itype == 1 then Raw(v.ipv4[i]) else Text(v.strVal[i]))
            && rr.dataLength == if v.itype == 1 then 4 else 0
  {
  }

  function AnswerRRs(v: ItemValue, name: Name, now: int, n: nat): (r: seq<RR>)
    requires Sized(v) && n <= v.num
    ensures |r| == n && forall i | 0 <= i < n :: r[i] == AnswerRR(v, name, now, i)
  {
    if n == 0 then [] else AnswerRRs(v, name, now, n - 1) + [AnswerRR(v, name, now, n - 1)]
  }

  /** A section takes MAX_SIZE records; the rest is dropped. */
  function Capped(rrs: seq<RR>): seq<RR> {
    if |rrs| <= MAX_SIZE then rrs else rrs[..MAX_SIZE]
  }

  /** `Item2Msg`. */
  method Item2Msg(msg: Message, it: ItemValue, name: Name, now: int)
    requires Sized(it) && |msg.records[0]| <= MAX_SIZE
    modifies msg`flag, msg`records
    ensures it.itype == 1 && it.ipv4[0] == [0, 0, 0, 0] ==>
              && msg.records == old(msg.records)
              && msg.Wire() == old(msg.Wire()).(low := old(msg.Wire()).low | 3)
              && (Flags.RCODE(old(msg.Wire())) == 0 ==> Flags.RCODE(msg.Wire()) == 3)
    ensures !(it.itype == 1 && it.ipv4[0] == [0, 0, 0, 0]) ==>
              && msg.flag == old(msg.flag)
              && msg.records[1] == old(msg.records[1]) && msg.records[2] == old(msg.records[2])
              && var all := old(msg.records[0]) + AnswerRRs(it, name, now, it.num);
                 msg.records[0] == if |all| <= 32 then all else all[..32]
  {
    hide Flags.AddsRCODE, AnswerRR, Flags.RCODE;
    if it.itype == A && it.ipv4[0] == NO_ADDRESS {
      NameError(msg.Wire());
      msg.SetRCODE(NAME_ERR);
      return;
    }
    ghost var was := msg.records;
    assert was[0] + AnswerRRs(it, name, now, 0) == was[0];
    for i := 0 to it.num
      invariant |msg.records[0]| <= MAX_SIZE && msg.flag == old(msg.flag)
      invariant msg.records == was[0 := Capped(was[0] + AnswerRRs(it, name, now, i))]
    {
      CappedMore(was[0] + AnswerRRs(it, name, now, i), AnswerRR(it, name, now, i));
      assert was[0] + AnswerRRs(it, name, now, i + 1)
          == was[0] + AnswerRRs(it, name, now, i) + [AnswerRR(it, name, now, i)];
      var _ := msg.AddRR(AnswerRR(it, name, now, i), 0);
    }
  }

  /** Adding NAME_ERR to a response code of zero. */
  lemma NameError(w: Flags.Wire)
    ensures forall v | Flags.AddsRCODE(w, v, NAME_ERR) ::
              v == w.(low := w.low | 3) && (Flags.RCODE(w) == 0 ==> Flags.RCODE(v) == 3)
  {
  }

  lemma CappedMore(rrs: seq<RR>, rr: RR)
    ensures Capped(rrs + [rr]) == if |Capped(rrs)| < MAX_SIZE then Capped(rrs) + [rr] else Capped(rrs)
  {
  }

  // ---- The cache -------------------------------------------------------------------------------------------

  type ItemCache = Caches.Cache<ItemValue>

  /** A key that the hash table stores whole. */
  predicate ShortKey(name: Name, t: int) {
    Key(name, t).Some? && |Key(name, t).value| < HashTable.KEY_MAX
  }

  /** `putItem` at time now; an item of type 0 is not put. */
  method PutItem(cache: ItemCache, name: Name, t: int, it: ItemValue, now: int)
    requires cache.Valid() && cache.hTab.len >= 1
    requires it.itype != 0 ==>
               && ShortKey(name, t)
               && (Has(cache.Contents, Key(name, t).value) || cache.len < cache.maxSize || cache.hTab.num > 1 || cache.hTab.len > 1)
    modifies cache`len, cache`Contents, cache`Nodes, cache.hTab.Repr, cache.lList`ring
    modifies cache.Nodes`next, cache.Nodes`pre, cache.Nodes`data
    ensures cache.Valid() && cache.hTab.len >= 1
    ensures forall o | o in cache.hTab.Repr :: o in old(cache.hTab.Repr) || fresh(o)
    ensures forall o | o in cache.Nodes :: o in old(cache.Nodes) || fresh(o)
    ensures it.itype == 0 ==> cache.Contents == old(cache.Contents)
    ensures it.itype != 0 ==>
              cache.Contents == Put(old(cache.Contents), cache.maxSize, Key(name, t).value, it, it.ddl - now, now)
  {
    hide Caches.Cache.Valid, Put, Key, Has;
    if it.itype != 0 {
      cache.CachePut(Key(name, t).value, it, it.ddl - now, now);
    }
  }

  /** `getItem` at time now. */
  method GetItem(cache: ItemCache, name: Name, t: int, now: int) returns (it: Option<ItemValue>)
    requires Key(name, t).Some? && cache.Valid() && cache.hTab.len >= 1
    modifies cache`len, cache`Contents, cache.hTab.Repr, cache.lList`ring
    modifies cache.Nodes`next, cache.Nodes`pre, cache.Nodes`data
    ensures cache.Valid() && it == Answer(old(cache.Contents), Key(name, t).value, now)
    ensures cache.Contents == AfterGet(old(cache.Contents), Key(name, t).value, now)
  {
    hide *;
    it := cache.CacheGet(Key(name, t).value, now);
  }

  /** The records of type t, in order. */
  function OfType(rrs: seq<RR>, t: int): (r: seq<RR>)
    ensures |r| <= |rrs| && forall i | 0 <= i < |r| :: r[i] in rrs && r[i].rtype == t
  {
    if rrs == [] then []
    else
      var init, rr := OfType(rrs[..|rrs| - 1], t), rrs[|rrs| - 1];
      if rr.rtype == t then init + [rr] else init
  }

  /** What the reply's answers must be like to be gathered. */
  ghost predicate Gatherable(rrs: seq<RR>) {
    && (forall rr | rr in rrs :: (rr.rtype == A || rr.rtype == NS || rr.rtype == CNAME) ==> Readable(rr))
    && |OfType(rrs, A)| <= MAX_NUM && |OfType(rrs, NS)| <= MAX_NUM && |OfType(rrs, CNAME)| <= MAX_NUM
  }

  /** What `it` has gathered from the first i answers. */
  ghost predicate Gathers(it: Item, rrs: seq<RR>, i: nat, t: int, now: int)
    requires i <= |rrs| && t in {A, NS as int, CNAME as int} && Gatherable(rrs)
    reads it, it.ipv4, it.strVal
  {
    var part := OfType(rrs[..i], t);
    && |part| <= MAX_NUM && (forall j | 0 <= j < |part| :: Readable(part[j]))
    && it.Value() == Gathered(part, now)
  }

  lemma OfTypeNext(rrs: seq<RR>, i: nat, t: int)
    requires i < |rrs|
    ensures OfType(rrs[..i + 1], t) == if rrs[i].rtype == t then OfType(rrs[..i], t) + [rrs[i]] else OfType(rrs[..i], t)
  {
    assert rrs[..i + 1][..i] == rrs[..i];
  }

  lemma {:induction false} OfTypeBound(rrs: seq<RR>, i: nat, t: int)
    requires i <= |rrs|
    ensures |OfType(rrs[..i], t)| <= |OfType(rrs, t)|
    decreases |rrs| - i
  {
    if i == |rrs| {
      assert rrs[..i] == rrs;
    } else {
      OfTypeNext(rrs, i, t);
      hide OfType;
      OfTypeBound(rrs, i + 1, t);
    }
  }

  lemma OfTypeGrows(rrs: seq<RR>, i: nat, t: int)
    requires i < |rrs|
    ensures OfType(rrs[..i + 1], t) == if rrs[i].rtype == t then OfType(rrs[..i], t) + [rrs[i]] else OfType(rrs[..i], t)
    ensures |OfType(rrs[..i + 1], t)| <= |OfType(rrs, t)|
  {
    OfTypeNext(rrs, i, t);
    OfTypeBound(rrs, i + 1, t);
  }

  /** `addRR2Item` for one answer of the item's type. */
  method GatherOne(it: Item, ghost rrs: seq<RR>, ghost i: nat, rr: RR, ghost t: int, now: int)
    requires i < |rrs| && t in {A, NS as int, CNAME as int} && Gatherable(rrs) && rr == rrs[i] && rr.rtype == t
    requires Gathers(it, rrs, i, t, now)
    modifies it, it.ipv4, it.strVal
    ensures Gathers(it, rrs, i + 1, t, now)
  {
    OfTypeGrows(rrs, i, t);
    ghost var part := OfType(rrs[..i], t);
    assert Readable(rr);
    it.AddRR2Item(rr, now);
    assert (part + [rr])[..|part|] == part;
  }

  /** The answers of a reply, sorted by type into the three items. */
  method GatherAnswers(rrs: seq<RR>, now: int) returns (ait: Item, nit: Item, cit: Item)
    requires Gatherable(rrs)
    ensures Gathers(ait, rrs, |rrs|, A, now) && Gathers(nit, rrs, |rrs|, NS, now) && Gathers(cit, rrs, |rrs|, CNAME, now)
    ensures ait.itype == (if exists rr | rr in rrs :: rr.rtype == 1 then 1 else 0)
    ensures nit.itype == (if exists rr | rr in rrs :: rr.rtype == 2 then 2 else 0)
    ensures cit.itype == (if exists rr | rr in rrs :: rr.rtype == 5 then 5 else 0)
  {
    ait := new Item();
    nit := new Item();
    cit := new Item();
    hide OfType, Gathered, Readable;
    NoneGathered(rrs, now);
    for i := 0 to |rrs|
      invariant fresh({ait, nit, cit}) && Apart(ait, nit) && Apart(ait, cit) && Apart(nit, cit)
      invariant fresh({ait.ipv4, nit.ipv4, cit.ipv4}) && fresh({ait.strVal, nit.strVal, cit.strVal})
      invariant Gathers(ait, rrs, i, A, now) && Gathers(nit, rrs, i, NS, now) && Gathers(cit, rrs, i, CNAME, now)
    {
      hide Gathers, Gatherable;
      GatherNext(rrs[i], ait, nit, cit, rrs, i, now);
    }
    GatheredType(ait, rrs, A, now);
    GatheredType(nit, rrs, NS, now);
    GatheredType(cit, rrs, CNAME, now);
  }

  /** The item has a type exactly if the answers have a record of it. */
  lemma GatheredType(it: Item, rrs: seq<RR>, t: int, now: int)
    requires t in {A, NS as int, CNAME as int} && Gatherable(rrs) && Gathers(it, rrs, |rrs|, t, now)
    ensures it.itype == if exists rr | rr in rrs :: rr.rtype == t then t else 0
    ensures IsPart(it.Value(), rrs, t, now)
  {
    assert rrs[..|rrs|] == rrs;
    OfTypeNone(rrs, t);
    hide OfType, Readable;
  }

  lemma {:induction false} OfTypeNone(rrs: seq<RR>, t: int)
    ensures OfType(rrs, t) == [] <==> forall rr | rr in rrs :: rr.rtype != t
    decreases |rrs|
  {
    if rrs != [] {
      OfTypeNone(rrs[..|rrs| - 1], t);
      assert rrs == rrs[..|rrs| - 1] + [rrs[|rrs| - 1]];
    }
  }

  method GatherNext(rr: RR, ait: Item, nit: Item, cit: Item, ghost rrs: seq<RR>, ghost i: nat, now: int)
    requires Gatherable(rrs) && i < |rrs| && rr == rrs[i] && Apart(ait, nit) && Apart(ait, cit) && Apart(nit, cit)
    requires Gathers(ait, rrs, i, A, now) && Gathers(nit, rrs, i, NS, now) && Gathers(cit, rrs, i, CNAME, now)
    modifies ait, nit, cit, ait.ipv4, nit.ipv4, cit.ipv4, ait.strVal, nit.strVal, cit.strVal
    ensures Gathers(ait, rrs, i + 1, A, now) && Gathers(nit, rrs, i + 1, NS, now) && Gathers(cit, rrs, i + 1, CNAME, now)
  {
    hide OfType, Gathered, Readable, Gatherable, Gathers;
    if rr.rtype == A {
      NotGathered(nit, rrs, i, NS, now);
      NotGathered(cit, rrs, i, CNAME, now);
      GatherOne(ait, rrs, i, rr, A, now);
    } else if rr.rtype == NS {
      NotGathered(ait, rrs, i, A, now);
      NotGathered(cit, rrs, i, CNAME, now);
      GatherOne(nit, rrs, i, rr, NS, now);
    } else {
      NotGathered(ait, rrs, i, A, now);
      NotGathered(nit, rrs, i, NS, now);
      if rr.rtype == CNAME {
        GatherOne(cit, rrs, i, rr, CNAME, now);
      } else {
        NotGathered(cit, rrs, i, CNAME, now);
      }
    }
  }

  /** An answer of another type leaves an item as it is. */
  lemma NotGathered(it: Item, rrs: seq<RR>, i: nat, t: int, now: int)
    requires i < |rrs| && t in {A, NS as int, CNAME as int} && Gatherable(rrs) && rrs[i].rtype != t
    requires Gathers(it, rrs, i, t, now)
    ensures Gathers(it, rrs, i + 1, t, now)
  {
    OfTypeGrows(rrs, i, t);
    hide OfType, Gathered, Readable;
  }

  /** Two items share no memory. */
  predicate Apart(a: Item, b: Item) {
    a != b && a.ipv4 != b.ipv4 && a.strVal != b.strVal
  }

  lemma NoneGathered(rrs: seq<RR>, now: int)
    ensures OfType(rrs[..0], A) == [] && OfType(rrs[..0], NS) == [] && OfType(rrs[..0], CNAME) == []
    ensures Gathered([], now) == Zeroed()
  {
  }

  // ---- A reply is cached -------------------------------------------------------------------------------------

  /** What caching the answers of type t makes of the cache's entries: nothing if there are none, and otherwise one entry
      under the last one's name, for as long as that one allows. */
  ghost function AfterReply(es: Entries<ItemValue>, maxSize: nat, rrs: seq<RR>, t: int, now: int): Entries<ItemValue>
    requires maxSize >= 1 && t in {1, 2, 5} && Gatherable(rrs)
  {
    var part := OfType(rrs, t);
    if part == [] then es
    else
      var last := part[|part| - 1];
      Put(es, maxSize, Key(last.name, t).value, Gathered(part, now), last.ttl, now)
  }

  /** The end of `handler`: the answers of a reply are gathered and put into the cache; a type that the reply lacks leaves
      the cache as it was. */
  method CacheReply(cache: ItemCache, rrs: seq<RR>, now: int)
    requires Gatherable(rrs) && cache.Valid() && cache.hTab.len >= 1 && cache.maxSize >= 2
    requires forall t, rr | t in {1, 2, 5} && rr in rrs && rr.rtype == t :: ShortKey(rr.name, t)
    modifies cache`len, cache`Contents, cache`Nodes, cache.hTab.Repr, cache.lList`ring
    modifies cache.Nodes`next, cache.Nodes`pre, cache.Nodes`data
    ensures cache.Valid() && cache.hTab.len >= 1
    ensures var afterA := AfterReply(old(cache.Contents), cache.maxSize, rrs, 1, now);
            var afterNS := AfterReply(afterA, cache.maxSize, rrs, 2, now);
            cache.Contents == AfterReply(afterNS, cache.maxSize, rrs, 5, now)
    ensures (forall rr | rr in rrs :: rr.rtype != 1 && rr.rtype != 2 && rr.rtype != 5) ==>
              cache.Contents == old(cache.Contents)
  {
    hide *;
    var av, nv, cv := GatherValues(rrs, now);
    NothingToCache(cache.maxSize, rrs, now);
    PutPart(cache, rrs, av, 1, now);
    PutPart(cache, rrs, nv, 2, now);
    PutPart(cache, rrs, cv, 5, now);
  }

  method GatherValues(rrs: seq<RR>, now: int) returns (av: ItemValue, nv: ItemValue, cv: ItemValue)
    requires Gatherable(rrs)
    ensures IsPart(av, rrs, 1, now) && IsPart(nv, rrs, 2, now) && IsPart(cv, rrs, 5, now)
  {
    var ait, nit, cit := GatherAnswers(rrs, now);
    hide Gathers, IsPart, Gatherable;
    GatheredType(ait, rrs, A, now);
    GatheredType(nit, rrs, NS, now);
    GatheredType(cit, rrs, CNAME, now);
    av, nv, cv := ait.Value(), nit.Value(), cit.Value();
  }

  lemma NothingToCache(maxSize: nat, rrs: seq<RR>, now: int)
    requires maxSize >= 1 && Gatherable(rrs)
    ensures (forall rr | rr in rrs :: rr.rtype != 1 && rr.rtype != 2 && rr.rtype != 5) ==>
              forall es, t | t in {1, 2, 5} :: AfterReply(es, maxSize, rrs, t, now) == es
  {
    OfTypeNone(rrs, 1);
    OfTypeNone(rrs, 2);
    OfTypeNone(rrs, 5);
    hide OfType, Gatherable;
  }

  /** `putItem` for what has been gathered of one type. */
  method PutPart(cache: ItemCache, ghost rrs: seq<RR>, v: ItemValue, ghost t: int, now: int)
    requires t in {1, 2, 5} && Gatherable(rrs) && IsPart(v, rrs, t, now)
    requires cache.Valid() && cache.hTab.len >= 1 && cache.maxSize >= 2
    requires forall rr | rr in rrs && rr.rtype == t :: ShortKey(rr.name, t)
    modifies cache`len, cache`Contents, cache`Nodes, cache.hTab.Repr, cache.lList`ring
    modifies cache.Nodes`next, cache.Nodes`pre, cache.Nodes`data
    ensures cache.Valid() && cache.hTab.len >= 1
    ensures forall o | o in cache.hTab.Repr :: o in old(cache.hTab.Repr) || fresh(o)
    ensures forall o | o in cache.Nodes :: o in old(cache.Nodes) || fresh(o)
    ensures cache.Contents == AfterReply(old(cache.Contents), cache.maxSize, rrs, t, now)
  {
    PartPut(cache.Contents, cache.maxSize, rrs, v, t, now);
    assert cache.len < cache.maxSize || cache.hTab.num > 1;
    hide *;
    PutItem(cache, v.name, v.itype, v, now);
  }

  /** The item holds what the reply has of type t. */
  ghost predicate IsPart(v: ItemValue, rrs: seq<RR>, t: int, now: int) {
    var part := OfType(rrs, t);
    && |part| <= MAX_NUM && (forall j | 0 <= j < |part| :: Readable(part[j])) && v == Gathered(part, now)
  }

  lemma PartPut(es: Entries<ItemValue>, maxSize: nat, rrs: seq<RR>, v: ItemValue, t: int, now: int)
    requires maxSize >= 1 && t in {1, 2, 5} && Gatherable(rrs) && IsPart(v, rrs, t, now)
    requires forall rr | rr in rrs && rr.rtype == t :: ShortKey(rr.name, t)
    ensures v.itype == 0 ==> AfterReply(es, maxSize, rrs, t, now) == es
    ensures v.itype != 0 ==>
              && v.itype == t && ShortKey(v.name, t)
              && AfterReply(es, maxSize, rrs, t, now) == Put(es, maxSize, Key(v.name, t).value, v, v.ddl - now, now)
  {
    var part := OfType(rrs, t);
    hide OfType, Put, Key;
    if part != [] {
      assert part[|part| - 1] in rrs && part[|part| - 1].rtype == t;
    }
  }

  // ---- What is served ----------------------------------------------------------------------------------------

  /** Records that may be cached together: one owner, one type, whole addresses, names that fit. */
  ghost predicate OneSet(rrs: seq<RR>, owner: Name, t: int) {
    && 1 <= |rrs| <= MAX_NUM && |owner| < STR_LEN && t in {A, NS as int, CNAME as int}
    && forall i | 0 <= i < |rrs| ::
         && rrs[i].name == owner && rrs[i].rtype == t
         && (if t == A then rrs[i].payload.Raw? && |rrs[i].payload.data| == 4
             else rrs[i].payload.Text? && |rrs[i].payload.name| <= STR_LEN)
  }

  lemma {:induction false} GatheredAt(rrs: seq<RR>, owner: Name, t: int, now: int)
    requires OneSet(rrs, owner, t)
    ensures forall i | 0 <= i < |rrs| :: Readable(rrs[i])
    ensures var v := Gathered(rrs, now);
            && v.name == owner && v.itype == t && v.num == |rrs| && v.ddl == rrs[|rrs| - 1].ttl as int + now
            && forall i | 0 <= i < |rrs| ::
                 if t == A then v.ipv4[i] == rrs[i].payload.data else v.strVal[i] == rrs[i].payload.name
    decreases |rrs|
  {
    var init := rrs[..|rrs| - 1];
    if init != [] {
      GatheredAt(init, owner, t, now);
    }
  }

  /** What the records become when they are served at time now: same owner, type, class IN, data and order, and
      for all of them the rest of the last record's time to live. */
  ghost predicate Serves(answers: seq<RR>, rrs: seq<RR>, rest: int) {
    && |answers| == |rrs|
    && forall i | 0 <= i < |rrs| ::
         && answers[i].name == rrs[i].name && answers[i].rtype == rrs[i].rtype && answers[i].rclass == 1
         && answers[i].payload == rrs[i].payload && answers[i].ttl == rest
         && (rrs[i].payload.Raw? ==> answers[i].dataLength == |rrs[i].payload.data|)
  }

  /** Every put was made by `putItem`: the entry's time to live is what is left of the item's. */
  ghost predicate PutByServer(ops: seq<CacheRuns.Op<ItemValue>>) {
    forall op | op in ops && op.PutOp? :: op.ttl == op.value.ddl - op.now
  }

  lemma {:induction false} LatestByServer(ops: seq<CacheRuns.Op<ItemValue>>, k: Name)
    requires PutByServer(ops) && CacheRuns.LatestPut(ops, k).Some?
    ensures var e := CacheRuns.LatestPut(ops, k).value; e.ttl == e.value.ddl - e.saveTime
    decreases |ops|
  {
    var op := ops[|ops| - 1];
    assert op in ops;
    if op.GetOp? || op.key != k {
      LatestByServer(ops[..|ops| - 1], k);
    }
  }

  /** Cached answers reproduce the cached set. After any run of the cache in which the item last put under the key
      of owner and type t gathered the records rrs at time then, a hit at time now yields their copies, in order,
      with the last record's time to live less the time elapsed, which is neither negative nor more than it was;
      unless the first address is zero, and then the item is blocked. */
  lemma CachedAnswers(maxSize: nat, ops: seq<CacheRuns.Op<ItemValue>>, owner: Name, t: int, rrs: seq<RR>,
                      then_: int, now: int)
    requires maxSize >= 1 && PutByServer(ops) && OneSet(rrs, owner, t) && then_ <= now
    requires Answer(CacheRuns.Run(maxSize, ops), Key(owner, t).value, now).Some?
    requires (forall i | 0 <= i < |rrs| :: Readable(rrs[i])) && CacheRuns.LatestPut(ops, Key(owner, t).value).Some?
    requires CacheRuns.LatestPut(ops, Key(owner, t).value).value.value == Gathered(rrs, then_)
    ensures var it := Answer(CacheRuns.Run(maxSize, ops), Key(owner, t).value, now).value;
            var rest := rrs[|rrs| - 1].ttl as int - (now - then_);
            && Sized(it) && 0 <= rest <= rrs[|rrs| - 1].ttl
            && (it.itype == 1 && it.ipv4[0] == [0, 0, 0, 0] <==> t == 1 && rrs[0].payload.data == [0, 0, 0, 0])
            && Serves(AnswerRRs(it, it.name, now, it.num), rrs, rest)
  {
    var k := Key(owner, t).value;
    CacheRuns.HitIsLatest(maxSize, ops, k, now);
    LatestByServer(ops, k);
    GatheredAt(rrs, owner, t, then_);
    hide Gathered, CacheRuns.Run, CacheRuns.LatestPut, Key, Readable;
  }
}

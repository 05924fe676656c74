/** Exactly which names survive compression through the table as it is, and a name that does not. */
module ClashingKeys {
  import opened Bytes
  import opened HashTable
  import opened NameCodec
  import opened StoredKeys

  // ---- If all names decode ---------------------------------------------------------------------------------------

  /** A slot is made only for a name that was looked for in vain. */
  ghost predicate OnMiss(w: World, slots: seq<Slot>) {
    forall j | 0 <= j < |slots| :: Lookup(w, j, slots[..j], slots[j].name) == None
  }

  lemma {:induction false} StoredOnMiss(w: World, o: Store, s: Name)
    requires OnMiss(w, o.slots)
    ensures OnMiss(w, StoreName(w, o, s).slots)
    decreases |s|
  {
    StoreCases(w, o, s);
    hide StoreName, Seen, Lookup;
    if Lookup(w, |o.slots|, o.slots, s) == None {
      var o' := LabelStored(o, s);
      assert forall j | 0 <= j <= |o.slots| :: o'.slots[..j] == o.slots[..j];
      assert o.slots[..|o.slots|] == o.slots;
      if FirstLabel(s) < |s| {
        StoredOnMiss(w, o', AfterDot(s));
      }
    }
  }

  /** In b all names written so far decode: the table holds their label suffixes, and its offsets decode to them. */
  ghost predicate Told(w: World, b: seq<Byte>, o: Store, hops: nat, done: seq<Name>) {
    && |o.bytes| <= 0x4000 && NewDecode(b, o.slots, 0, 0, |o.bytes|, hops)
    && OnMiss(w, o.slots) && Names(o.slots) == SuffixesOf(done)
  }

  /** What is hit is the offset of a slot. */
  lemma {:induction false} SeenIsSlot(w: World, o: Store, s: Name)
    ensures forall u | u in Seen(w, o, s) ::
              exists i :: 0 <= i < |StoreName(w, o, s).slots| && StoreName(w, o, s).slots[i].off == Seen(w, o, s)[u]
    decreases |s|
  {
    StoreCases(w, o, s);
    if Lookup(w, |o.slots|, o.slots, s).Some? {
      var i := LookupFinds(w, |o.slots|, o.slots, s);
      hide StoreName, Seen, Lookup;
    } else if FirstLabel(s) < |s| {
      SeenIsSlot(w, LabelStored(o, s), AfterDot(s));
    }
  }

  /** An offset does not decode to two names. */
  lemma DecodingIsGenuine(b: seq<Byte>, slots: seq<Slot>, seen: Table, high: nat, hops: nat)
    requires NewDecode(b, slots, 0, 0, high, hops) && HitDecodes(b, seen, hops) && high <= 0x4000
    requires forall u | u in seen :: exists i :: 0 <= i < |slots| && slots[i].off == seen[u]
    ensures Genuine(slots, seen)
  {
    hide DecName, IsLabel;
    forall u | u in seen ensures exists i :: 0 <= i < |slots| && slots[i].name == u && slots[i].off == seen[u] {
      var i :| 0 <= i < |slots| && slots[i].off == seen[u];
      DecNameMoreHops(b, seen[u], hops - 1, hops);
      assert slots[i].name == u;
    }
  }

  /** A name that decodes where it was written keeps it so. */
  lemma NameTold(w: World, o: Store, s: Name, b: seq<Byte>, hops: nat, done: seq<Name>)
    requires GoodName(s) && Told(w, b, o, hops, done)
    requires var r := StoreName(w, o, s).bytes;
             && |r| <= 0x4000 && r <= b && DecName(b, |o.bytes|, hops) == Some(s)
    ensures Told(w, b, StoreName(w, o, s), hops, done + [s])
  {
    NamePeels(w, o, s, b, hops);
    StoreMore(w, o, s);
    SeenIsSlot(w, o, s);
    StoredOnMiss(w, o, s);
    SuffixesClosed(done);
    OneName(done, s);
    hide StoreName, Seen, DecName, OnMiss, GoodName, Names, LabelSuffixes, HitDecodes, NewDecode, SuffixesOf;
    var r := StoreName(w, o, s);
    SlotsTold(b, o.slots, r.slots, |o.bytes|, |r.bytes|, hops);
    DecodingIsGenuine(b, r.slots, Seen(w, o, s), |r.bytes|, hops);
    NameRecords(w, o, s);
  }

  lemma NamePeels(w: World, o: Store, s: Name, b: seq<Byte>, hops: nat)
    requires GoodName(s)
    requires var r := StoreName(w, o, s).bytes;
             && |r| <= 0x4000 && r <= b && DecName(b, |o.bytes|, hops) == Some(s)
    ensures var r := StoreName(w, o, s);
            && |o.slots| <= |r.slots| && r.slots[..|o.slots|] == o.slots
            && NewDecode(b, r.slots, |o.slots|, |o.bytes|, |r.bytes|, hops)
            && HitDecodes(b, Seen(w, o, s), hops)
  {
    var later := b[|StoreName(w, o, s).bytes|..];
    assert b == StoreName(w, o, s).bytes + later && 0 !in s;
    hide *;
    StoredEnd(w, o, s, b);
    StorePeels(w, o, s, later, hops);
  }

  lemma SlotsTold(b: seq<Byte>, was: seq<Slot>, slots: seq<Slot>, low: nat, high: nat, hops: nat)
    requires |was| <= |slots| && slots[..|was|] == was && low <= high <= |b|
    requires NewDecode(b, was, 0, 0, low, hops) && NewDecode(b, slots, |was|, low, high, hops)
    ensures NewDecode(b, slots, 0, 0, high, hops)
  {
    hide DecName, IsLabel;
    assert forall i | 0 <= i < |was| :: slots[i] == slots[..|was|][i];
  }

  // ---- A memory in which clashing names are mixed up -------------------------------------------------------------

  /** Behind the key of t stands the end of u, and nothing behind the others. */
  function Mixing(t: Name, u: Name): Junk
    requires |u| >= KEY_MAX
  {
    (n: nat, slot: Slot) => if slot.name == t then u[KEY_MAX..] else []
  }

  lemma MixingIsReal(t: Name, u: Name, h: Name -> nat, l: nat)
    requires KEY_MAX <= |u| <= KEY_MAX + l && 0 !in u
    ensures Real(Steady(Mixing(t, u), h), h, l)
  {
  }

  /** There the lookup of a name longer than u stops at no slot of its own, and that of u at every slot of t that is
      not in another bucket. */
  lemma MixedKeys(t: Name, u: Name, h: Name -> nat, n: nat, slot: Slot)
    requires Clash(t, u) && h(t) == h(u)
    ensures slot.name == t ==> Stops(Steady(Mixing(t, u), h), n, slot, u)
    ensures |slot.name| > |u| ==> !Stops(Steady(Mixing(t, u), h), n, slot, slot.name)
  {
    assert u[..KEY_MAX] + u[KEY_MAX..] == u;
  }

  lemma FoundEarlier(w: World, slots: seq<Slot>, i: nat, j: nat)
    requires OnMiss(w, slots) && i < j < |slots|
    ensures !Stops(w, j, slots[i], slots[j].name)
  {
    LookupMisses(w, j, slots[..j], slots[j].name);
    assert slots[..j][i] == slots[i];
  }

  /** In b every slot decodes to its name, and what is hit to the name it is hit for. */
  ghost predicate SlotsAndHit(b: seq<Byte>, slots: seq<Slot>, seen: Table, hops: nat) {
    (exists high: nat :: high <= 0x4000 && NewDecode(b, slots, 0, 0, high, hops)) && HitDecodes(b, seen, hops)
  }

  lemma HitIsOwn(b: seq<Byte>, slots: seq<Slot>, seen: Table, i: nat, x: Name, hops: nat)
    requires SlotsAndHit(b, slots, seen, hops) && i < |slots| && x in seen && seen[x] == slots[i].off
    ensures slots[i].name == x
  {
    hide DecName, IsLabel;
    var high: nat :| high <= 0x4000 && NewDecode(b, slots, 0, 0, high, hops);
    DecNameMoreHops(b, seen[x], hops - 1, hops);
  }

  /** There a name does not decode, if u is a label suffix of it and t has a slot by the time u is looked for. */
  lemma {:induction false} MixedUp(t: Name, u: Name, h: Name -> nat, o: Store, x: Name, b: seq<Byte>, hops: nat)
    requires Clash(t, u) && h(t) == h(u) && u in LabelSuffixes(x)
    requires t in Names(o.slots) || (t in LabelSuffixes(x) && |u| < |t|)
    requires OnMiss(Steady(Mixing(t, u), h), o.slots)
    ensures var w := Steady(Mixing(t, u), h); !SlotsAndHit(b, StoreName(w, o, x).slots, Seen(w, o, x), hops)
    decreases |x|
  {
    var w := Steady(Mixing(t, u), h);
    StoreCases(w, o, x);
    var hit := Lookup(w, |o.slots|, o.slots, x);
    SuffixBound(x, u);
    hide StoreName, Seen, Lookup, Mixing, Steady, Clash, SlotsAndHit, OnMiss;
    if x == u {
      SuffixBound(x, t);
      MixedAtU(t, u, h, o, b, hops);
    } else if hit.Some? {
      var i := LookupFinds(w, |o.slots|, o.slots, x);
      MixedKeys(t, u, h, |o.slots|, o.slots[i]);
      if SlotsAndHit(b, o.slots, Seen(w, o, x), hops) {
        HitIsOwn(b, o.slots, Seen(w, o, x), i, x, hops);
      }
    } else {
      assert OnMiss(w, LabelStored(o, x).slots) by {
        OneOnMiss(w, o, x);
      }
      NamesMore(o.slots, Slot(x, Offset(|o.bytes|)));
      MixedUp(t, u, h, LabelStored(o, x), AfterDot(x), b, hops);
    }
  }

  lemma SuffixBound(s: Name, t: Name)
    ensures t in LabelSuffixes(s) ==> |t| < |s| || t == s
  {
    if t in LabelSuffixes(s) && t != s {
      SuffixOfSuffix(AfterDot(s), t);
    }
  }

  lemma OneOnMiss(w: World, o: Store, x: Name)
    requires OnMiss(w, o.slots) && Lookup(w, |o.slots|, o.slots, x) == None
    ensures OnMiss(w, LabelStored(o, x).slots)
  {
    hide Lookup;
    var o' := LabelStored(o, x);
    assert forall j | 0 <= j <= |o.slots| :: o'.slots[..j] == o.slots[..j];
    assert o.slots[..|o.slots|] == o.slots;
  }

  /** The lookup of u stops at a slot of t, or at one of u that was made although t had a slot. */
  lemma MixedAtU(t: Name, u: Name, h: Name -> nat, o: Store, b: seq<Byte>, hops: nat)
    requires Clash(t, u) && h(t) == h(u) && t in Names(o.slots)
    requires OnMiss(Steady(Mixing(t, u), h), o.slots)
    ensures var w := Steady(Mixing(t, u), h); !SlotsAndHit(b, StoreName(w, o, u).slots, Seen(w, o, u), hops)
  {
    var w := Steady(Mixing(t, u), h);
    StoreCases(w, o, u);
    var i := MixedSlot(t, u, h, o.slots);
    hide *;
    var k := LookupFinds(w, |o.slots|, o.slots, u);
    MixedOrder(t, u, h, o.slots, i, k);
    if SlotsAndHit(b, o.slots, Seen(w, o, u), hops) {
      HitIsOwn(b, o.slots, Seen(w, o, u), k, u, hops);
    }
  }

  lemma MixedSlot(t: Name, u: Name, h: Name -> nat, slots: seq<Slot>) returns (i: nat)
    requires Clash(t, u) && h(t) == h(u) && t in Names(slots)
    ensures i < |slots| && slots[i].name == t && Stops(Steady(Mixing(t, u), h), |slots|, slots[i], u)
    ensures Lookup(Steady(Mixing(t, u), h), |slots|, slots, u).Some?
    ensures Steady(Mixing(t, u), h).first(|slots|, slots, u) == |slots|
  {
    i :| 0 <= i < |slots| && slots[i].name == t;
    MixedKeys(t, u, h, |slots|, slots[i]);
    LookupMisses(Steady(Mixing(t, u), h), |slots|, slots, u);
    hide Lookup, Stops, Clash, Mixing;
  }

  /** The newest slot at which the lookup of u stops is not one of u. */
  lemma MixedOrder(t: Name, u: Name, h: Name -> nat, slots: seq<Slot>, i: nat, k: nat)
    requires Clash(t, u) && h(t) == h(u) && i < |slots| && k < |slots| && slots[i].name == t
    requires OnMiss(Steady(Mixing(t, u), h), slots) && Stops(Steady(Mixing(t, u), h), |slots|, slots[i], u)
    requires forall j | k < j < |slots| :: !Stops(Steady(Mixing(t, u), h), |slots|, slots[j], u)
    ensures slots[k].name != u
  {
    assert t != u;
    hide OnMiss, Stops, Clash, Mixing, Steady;
    if slots[k].name == u {
      assert i < k;
      FoundEarlier(Steady(Mixing(t, u), h), slots, i, k);
      MixedKeys(t, u, h, k, slots[i]);
    }
  }

  /** So where all names decode, u does not follow t. */
  lemma NotMixed(t: Name, u: Name, h: Name -> nat, o: Store, s: Name, b: seq<Byte>, hops: nat, done: seq<Name>)
    requires Clash(t, u) && h(t) == h(u) && GoodName(s) && !Follows(done, t, u)
    requires var w := Steady(Mixing(t, u), h);
             && Told(w, b, o, hops, done) && |StoreName(w, o, s).bytes| <= 0x4000 && StoreName(w, o, s).bytes <= b
             && DecName(b, |o.bytes|, hops) == Some(s)
    ensures !Follows(done + [s], t, u)
  {
    var w := Steady(Mixing(t, u), h);
    assert Names(o.slots) == SuffixesOf(done) && OnMiss(w, o.slots);
    hide *;
    AllDecode(w, o, s, b, hops, done);
    OneName(done, s);
    if Follows(done + [s], t, u) {
      MixedUp(t, u, h, o, s, b, hops);
    }
  }

  lemma AllDecode(w: World, o: Store, s: Name, b: seq<Byte>, hops: nat, done: seq<Name>)
    requires GoodName(s) && Told(w, b, o, hops, done) && |StoreName(w, o, s).bytes| <= 0x4000
    requires StoreName(w, o, s).bytes <= b && DecName(b, |o.bytes|, hops) == Some(s)
    ensures SlotsAndHit(b, StoreName(w, o, s).slots, Seen(w, o, s), hops)
  {
    NameTold(w, o, s, b, hops, done);
    NamePeels(w, o, s, b, hops);
    assert NewDecode(b, StoreName(w, o, s).slots, 0, 0, |StoreName(w, o, s).bytes|, hops);
    assert |b| >= |StoreName(w, o, s).bytes|;
    hide DecName, IsLabel, StoreName, Seen, OnMiss, Names, HitDecodes;
  }

  // ---- The first name of a message -------------------------------------------------------------------------------

  /** In the world w, the name s is read back, up to its last octet, when it is the first of a message. */
  ghost predicate Survives(w: World, pre: seq<Byte>, s: Name, later: seq<Byte>) {
    ReadsBack(StoreName(w, Store(pre, []), s).bytes, later, |pre|, s)
  }

  /** The first name of a message survives compression, whatever memory holds behind the keys, exactly when it is good and
      none of its label suffixes of 50 to 50 + l octets agrees in its first 50 with a longer one and lies in the same
      bucket. */
  lemma FirstNameExactly(h: Name -> nat, l: nat, pre: seq<Byte>, s: Name, later: seq<Byte>)
    requires 0 !in s && |pre| + |s| + 2 <= 0x4000 && Labels(s) <= RESCALED
    ensures (forall w | Real(w, h, l) :: Survives(w, pre, s, later)) <==> GoodName(s) && ApartIn(h, l, [s])
  {
    hide Survives, GoodName, ApartIn, Real, LabelSuffixes, Labels, Steady;
    if GoodName(s) && ApartIn(h, l, [s]) {
      forall w | Real(w, h, l) ensures Survives(w, pre, s, later) {
        OneName([], s);
        assert [] + [s] == [s];
        ApartSame(w, h, l, [s]);
        SurvivesAlways(w, pre, s, later);
      }
    }
    if forall w | Real(w, h, l) :: Survives(w, pre, s, later) {
      EmptyIsReal(h, l);
      assert Survives(Steady(NoJunk(), h), pre, s, later);
      OnlyGoodSurvive(Steady(NoJunk(), h), pre, s, later);
      if !ApartIn(h, l, [s]) {
        var t, u := Meeting(h, l, [s]);
        FollowerString([s], t, u);
        MixingIsReal(t, u, h, l);
        assert Survives(Steady(Mixing(t, u), h), pre, s, later);
        ClashIsFatal(h, pre, s, later, t, u);
      }
    }
  }

  /** A zero behind every key. */
  function NoJunk(): Junk {
    (n: nat, slot: Slot) => []
  }

  lemma EmptyIsReal(h: Name -> nat, l: nat)
    ensures Real(Steady(NoJunk(), h), h, l)
  {
  }

  lemma Meeting(h: Name -> nat, l: nat, names: seq<Name>) returns (t: Name, u: Name)
    requires !ApartIn(h, l, names)
    ensures Follows(names, t, u) && Clash(t, u) && |u| <= KEY_MAX + l && h(t) == h(u)
  {
    t, u :| Follows(names, t, u) && Clash(t, u) && |u| <= KEY_MAX + l && h(t) == h(u);
  }

  lemma {:induction false} SuffixString(s: Name, t: Name)
    requires 0 !in s && t in LabelSuffixes(s)
    ensures 0 !in t
    decreases |s|
  {
    if t != s {
      SuffixString(AfterDot(s), t);
    }
  }

  lemma {:induction false} FollowerString(names: seq<Name>, t: Name, u: Name)
    requires (forall i | 0 <= i < |names| :: 0 !in names[i]) && Follows(names, t, u)
    ensures 0 !in u
    decreases |names|
  {
    var init := names[..|names| - 1];
    if Follows(init, t, u) {
      FollowerString(init, t, u);
    } else {
      SuffixString(names[|names| - 1], u);
    }
  }

  lemma SurvivesAlways(w: World, pre: seq<Byte>, s: Name, later: seq<Byte>)
    requires GoodName(s) && Apart(w, [s]) && |pre| + |s| + 2 <= 0x4000
    ensures Survives(w, pre, s, later)
  {
    var b := StoreName(w, Store(pre, []), s).bytes;
    StoreMore(w, Store(pre, []), s);
    assert [] + [s] == [s];
    NameSound(w, Store(pre, []), [], s);
    hide StoreName, DecName, NameEnd, GoodName, Apart;
    DecNameStable(b, later, |pre|, |pre|);
  }

  lemma ClashIsFatal(h: Name -> nat, pre: seq<Byte>, s: Name, later: seq<Byte>, t: Name, u: Name)
    requires GoodName(s) && |pre| + |s| + 2 <= 0x4000
    requires Clash(t, u) && h(t) == h(u) && Follows([s], t, u)
    ensures !Survives(Steady(Mixing(t, u), h), pre, s, later)
  {
    var w, o := Steady(Mixing(t, u), h), Store(pre, []);
    StoreMore(w, o, s);
    var r := StoreName(w, o, s);
    var b := r.bytes + later;
    assert [] + [s] == [s] && !Follows([], t, u);
    forall hops | DecName(b, |pre|, hops) == Some(s) ensures false {
      assert Told(w, b, o, hops, []);
      hide Told, StoreName, DecName, GoodName, LabelSuffixes, Clash, Steady, Mixing, Follows;
      NotMixed(t, u, h, o, s, b, hops, []);
    }
  }

  /** While the first name is written, all slots are longer than what is looked for. */
  lemma {:induction false} HitAmongLonger(w: World, o: Store, s: Name)
    requires forall i | 0 <= i < |o.slots| :: |o.slots[i].name| > |s|
    ensures forall u, i | u in Seen(w, o, s) && 0 <= i < |StoreName(w, o, s).slots| ::
              |StoreName(w, o, s).slots[i].name| > |u|
    decreases |s|
  {
    StoreCases(w, o, s);
    hide StoreName, Seen, Lookup;
    if Lookup(w, |o.slots|, o.slots, s) == None && FirstLabel(s) < |s| {
      HitAmongLonger(w, LabelStored(o, s), AfterDot(s));
    }
  }

  /** In no world does any other first name survive than a good one. */
  lemma OnlyGoodSurvive(w: World, pre: seq<Byte>, s: Name, later: seq<Byte>)
    requires 0 !in s && |pre| + |s| + 2 <= 0x4000 && Survives(w, pre, s, later)
    ensures GoodName(s)
  {
    var o := Store(pre, []);
    var r, seen := StoreName(w, o, s), Seen(w, o, s);
    StoreMore(w, o, s);
    var hops :| DecName(r.bytes + later, |pre|, hops) == Some(s);
    StorePeels(w, o, s, later, hops);
    SeenIsSlot(w, o, s);
    HitAmongLonger(w, o, s);
    hide StoreName, Seen, DecName, HitDecodes, GoodLabels;
    assert NewDecode(r.bytes + later, r.slots, 0, 0, |r.bytes|, hops);
    DecodingIsGenuine(r.bytes + later, r.slots, seen, |r.bytes|, hops);
    NothingSeen(r.slots, seen);
  }

  lemma NothingSeen(slots: seq<Slot>, seen: Table)
    requires Genuine(slots, seen) && forall u, i | u in seen && 0 <= i < |slots| :: |slots[i].name| > |u|
    ensures seen == map[]
  {
  }

  // ---- The same name again ---------------------------------------------------------------------------------------

  /** What the same name costs when it is written once more. */
  function CostAgain(w: World, pre: seq<Byte>, s: Name): int {
    var o := StoreName(w, Store(pre, []), s);
    |StoreName(w, o, s).bytes| - |o.bytes|
  }

  /** Written twice, a name costs two octets the second time, whatever memory holds behind the keys, exactly when it is
      shorter than 50 octets, or has 50 and a zero is sure to follow. */
  lemma SeenAgain(h: Name -> nat, l: nat, pre: seq<Byte>, s: Name)
    requires s != [] && Labels(s) < RESCALED
    ensures (forall w | Real(w, h, l) :: CostAgain(w, pre, s) == 2) <==> |s| < KEY_MAX || (|s| == KEY_MAX && l == 0)
  {
    hide Real, Labels, Steady;
    if |s| < KEY_MAX || (|s| == KEY_MAX && l == 0) {
      forall w | Real(w, h, l) ensures CostAgain(w, pre, s) == 2 {
        CheapAgain(w, h, l, pre, s);
      }
    } else {
      SpunIsReal(if |s| == KEY_MAX then [1] else [], h, l);
      CostlyAgain(h, pre, s, if |s| == KEY_MAX then [1] else []);
    }
  }

  lemma CheapAgain(w: World, h: Name -> nat, l: nat, pre: seq<Byte>, s: Name)
    requires Real(w, h, l) && s != [] && Labels(s) < RESCALED && (|s| < KEY_MAX || (|s| == KEY_MAX && l == 0))
    ensures CostAgain(w, pre, s) == 2
  {
    var o := StoreName(w, Store(pre, []), s);
    NameHasSlot(w, Store(pre, []), s);
    FewSlots(w, Store(pre, []), s);
    HitCostsTwo(w, o, s);
    hide StoreName, Lookup, Labels;
    OwnIsFound(w, h, l, o.slots, s);
  }

  lemma OwnIsFound(w: World, h: Name -> nat, l: nat, slots: seq<Slot>, s: Name)
    requires Real(w, h, l) && |slots| < RESCALED && s in Names(slots) && (|s| < KEY_MAX || (|s| == KEY_MAX && l == 0))
    ensures Lookup(w, |slots|, slots, s).Some?
  {
    LookupMisses(w, |slots|, slots, s);
    var i :| 0 <= i < |slots| && slots[i].name == s;
    hide Lookup;
    assert s[..|s|] == s;
    assert StoredKey(s, w.junk(|slots|, slots[i])) == s;
  }

  /** Behind every key stands `end`. */
  function Spun(end: Name): Junk {
    (n: nat, slot: Slot) => end
  }

  lemma SpunIsReal(end: Name, h: Name -> nat, l: nat)
    requires |end| <= l && 0 !in end
    ensures Real(Steady(Spun(end), h), h, l)
  {
  }

  lemma CostlyAgain(h: Name -> nat, pre: seq<Byte>, s: Name, end: Name)
    requires |s| >= KEY_MAX && |s| != KEY_MAX + |end|
    ensures CostAgain(Steady(Spun(end), h), pre, s) != 2
  {
    var w := Steady(Spun(end), h);
    var o := StoreName(w, Store(pre, []), s);
    LookupMisses(w, |o.slots|, o.slots, s);
    forall i | 0 <= i < |o.slots| ensures !Stops(w, |o.slots|, o.slots[i], s) {
    }
    HitCostsTwo(w, o, s);
    hide StoreName, Lookup, Stops;
  }

  // ---- A name that points at itself ------------------------------------------------------------------------------

  /** The code's own hash function, with the number of buckets that a new table has. */
  function OwnHash(): (Name -> nat) {
    (s: Name) => Bucket(s, INIT_SIZE)
  }

  /** A sum on 32 bits. */
  function Plus(x: U32, y: U32): U32 {
    (x as int + y as int) % 0x1_0000_0000
  }

  lemma {:induction false} HashConcat(a: Name, b: Name)
    ensures HashOf(a + b) == Plus(HashOf(a), HashOf(b))
    decreases |b|
  {
    hide HashStep, Plus;
    if b == [] {
      assert a + b == a;
      PlusZero(HashOf(a));
    } else {
      var c, init := b[|b| - 1], b[..|b| - 1];
      assert (a + b)[..|a + b| - 1] == a + init && (a + b)[|a + b| - 1] == c;
      HashConcat(a, init);
      StepAdds(HashOf(a), HashOf(init), c);
    }
  }

  lemma PlusZero(x: U32)
    ensures Plus(x, 0) == x
  {
  }

  lemma StepAdds(x: U32, y: U32, c: Byte)
    ensures HashStep(Plus(x, y), c) == Plus(x, HashStep(y, c))
  {
    var v: int := CharValue(c) * 39;
    WrapOnce(x as int + y as int, v);
    WrapOnce(y as int + v, x);
    hide CharValue;
  }

  lemma WrapOnce(a: int, b: int)
    ensures (a % 0x1_0000_0000 + b) % 0x1_0000_0000 == (a + b) % 0x1_0000_0000
  {
  }

  /** "aaaaaaaaai.": its octets sum up to 1024, so its hash is a multiple of the number of buckets. */
  const BLOCK: Name := [97, 97, 97, 97, 97, 97, 97, 97, 97, 105, DOT]

  /** Some of these, and "aaaaaa". */
  function Blocks(n: nat): (r: Name)
    ensures |r| == 11 * n + 6
  {
    if n == 0 then [97, 97, 97, 97, 97, 97] else BLOCK + Blocks(n - 1)
  }

  lemma HashMore(s: Name, c: Byte, h: int)
    requires HashOf(s) == h && 0 <= h && h + 39 * c as int < 0x1_0000_0000 && c < 0x80
    ensures HashOf(s + [c]) == h + 39 * c as int
  {
    assert (s + [c])[..|s + [c]| - 1] == s;
  }

  lemma BlockHash()
    ensures HashOf(BLOCK) == 39 * 1024
  {
    var a: Name := [97, 97, 97];
    HashMore([], 97, 0);
    HashMore([97], 97, 3783);
    HashMore([97, 97], 97, 7566);
    assert [] + [97] == [97] && [97] + [97] == [97, 97] && [97, 97] + [97] == a;
    HashConcat(a, a);
    HashConcat(a + a, a);
    assert Plus(11349, 11349) == 22698 && Plus(22698, 11349) == 34047;
    HashMore(a + a + a, 105, 34047);
    HashMore(a + a + a + [105], DOT, 38142);
    assert BLOCK == a + a + a + [105] + [DOT];
  }

  /** One block more or less, and a name is looked for in the same bucket. */
  lemma SameBucket(n: nat)
    requires n > 0
    ensures Bucket(Blocks(n), INIT_SIZE) == Bucket(Blocks(n - 1), INIT_SIZE)
  {
    BlockHash();
    HashConcat(BLOCK, Blocks(n - 1));
    var h: int := HashOf(Blocks(n - 1));
    SameRest(h);
  }

  lemma SameRest(h: int)
    requires 0 <= h < 0x1_0000_0000
    ensures (39 * 1024 + h) % 0x1_0000_0000 % 1024 == h % 1024
  {
    if 39 * 1024 + h >= 0x1_0000_0000 {
      assert (39 * 1024 + h) % 0x1_0000_0000 == 39 * 1024 + h - 0x1_0000_0000;
    }
  }

  lemma BlocksGood(n: nat)
    ensures GoodName(Blocks(n)) && (n > 0 ==> FirstLabel(Blocks(n)) == 10 && AfterDot(Blocks(n)) == Blocks(n - 1))
    decreases n
  {
    var b := Blocks(n);
    if n == 0 {
      assert FirstLabel(b) == 6;
    } else {
      BlocksGood(n - 1);
      assert forall i | 0 <= i < 11 :: b[i] == BLOCK[i];
      FirstDot(b, 0, 10);
      assert FirstLabel(b) == 10;
      assert b[11..] == Blocks(n - 1);
    }
  }

  /** The name of 61 octets "aaaaaaaaai." (five times) "aaaaaa", with labels of ten octets and less. */
  function SelfName(): Name {
    Blocks(5)
  }

  /** Its first 50 octets are the name after its first dot, which lies in the same bucket. */
  lemma SelfKey()
    ensures GoodName(SelfName()) && |SelfName()| == 61
    ensures FirstLabel(SelfName()) == 10 && SelfName()[..10] == BLOCK[..10]
    ensures StoredKey(SelfName(), []) == AfterDot(SelfName())
    ensures OwnHash()(SelfName()) == OwnHash()(AfterDot(SelfName()))
  {
    BlocksGood(5);
    OwnKey();
    SameBucket(5);
    hide Bucket, GoodName, StoredKey, FirstLabel;
  }

  /** With the code's own hash function and a zero behind the key, `encodeName` finds that name under its own key: after
      the first label it writes a pointer to the name itself, and `decodeName` has no end. */
  lemma PointsAtItself(pre: seq<Byte>, later: seq<Byte>, hops: nat)
    requires |pre| + 13 <= 0x4000
    ensures GoodName(SelfName()) && |SelfName()| == 61
    ensures Real(Steady(NoJunk(), OwnHash()), OwnHash(), 0)
    ensures var r := StoreName(Steady(NoJunk(), OwnHash()), Store(pre, []), SelfName()).bytes;
            r == pre + ([10] + BLOCK[..10]) + Put16(PointerTo(|pre|)) && DecName(r + later, |pre|, hops) == None
  {
    EmptyIsReal(OwnHash(), 0);
    SelfKey();
    SelfSeen(pre);
    hide *;
    NeverEnds(pre, later, hops);
  }

  lemma SelfSeen(pre: seq<Byte>)
    requires |pre| < 0x4000
    ensures StoreName(Steady(NoJunk(), OwnHash()), Store(pre, []), SelfName()).bytes
            == pre + ([10] + BLOCK[..10]) + Put16(PointerTo(|pre|))
  {
    hide SelfName, OwnHash, GoodName, Bucket;
    var w, o, s := Steady(NoJunk(), OwnHash()), Store(pre, []), SelfName();
    SelfKey();
    var o' := LabelStored(o, s);
    assert o'.slots == [Slot(s, |pre|)];
    assert Stops(w, 1, Slot(s, |pre|), AfterDot(s));
    HitOnly(w, Slot(s, |pre|), AfterDot(s));
    StoreCases(w, o, s);
    StoreCases(w, o', AfterDot(s));
    hide StoreName, Seen, Lookup, Stops, StoredKey, FirstLabel;
  }

  lemma HitOnly(w: World, slot: Slot, s: Name)
    requires Stops(w, 1, slot, s)
    ensures Lookup(w, 1, [slot], s) == Some(slot.off)
  {
  }

  /** What is stored of the name is the name after its first dot. */
  lemma OwnKey()
    ensures StoredKey(Blocks(5), []) == Blocks(4)
  {
    var a, b, c, d, e := BLOCK + Blocks(0), BLOCK + Blocks(1), BLOCK + Blocks(2), BLOCK + Blocks(3), BLOCK + Blocks(4);
    assert a == Blocks(1) && b == Blocks(2) && c == Blocks(3) && d == Blocks(4) && e == Blocks(5);
    assert BLOCK[..6] == Blocks(0);
    assert a[..17] == a && b[..17] == a;
    assert c[..28] == BLOCK + b[..17] == b;
    assert d[..39] == BLOCK + c[..28] == c;
    assert e[..50] == BLOCK + d[..39] == d;
  }

  /** A label and then a pointer to it. */
  lemma {:induction false} NeverEnds(pre: seq<Byte>, later: seq<Byte>, hops: nat)
    requires |pre| + 13 <= 0x4000
    ensures DecName(pre + ([10] + BLOCK[..10]) + Put16(PointerTo(|pre|)) + later, |pre|, hops) == None
    decreases hops
  {
    LoopOctets(pre, later);
    hide DecName, PointerTo, Put16, Target;
    LoopStep(pre + ([10] + BLOCK[..10]) + Put16(PointerTo(|pre|)) + later, |pre|, hops);
    if hops > 0 {
      NeverEnds(pre, later, hops - 1);
    }
  }

  lemma LoopOctets(pre: seq<Byte>, later: seq<Byte>)
    requires |pre| + 13 <= 0x4000
    ensures var b := pre + ([10] + BLOCK[..10]) + Put16(PointerTo(|pre|)) + later;
            |pre| + 12 < |b| && b[|pre|] == 10 && b[|pre| + 11] >= 0xc0 && Target(b, |pre| + 11) == |pre|
  {
    var p := Put16(PointerTo(|pre|));
    var b := pre + ([10] + BLOCK[..10]) + p + later;
    assert b[|pre| + 11] == p[0] && b[|pre| + 12] == p[1];
  }

  lemma LoopStep(b: seq<Byte>, pos: nat, hops: nat)
    requires pos + 12 < |b| && b[pos] == 10 && b[pos + 11] >= 0xc0 && Target(b, pos + 11) == pos
    ensures hops == 0 || DecName(b, pos, hops - 1) == None ==> DecName(b, pos, hops) == None
  {
    hide Target;
  }
}

/** Compression with the table as it is: the hash table keeps at most 50 octets of a key and whatever memory holds
    behind them, so names of 50 octets or more need not be found again, and may be found under another name. */
module StoredKeys {
  import opened Bytes
  import opened HashTable
  import opened NameCodec
  import Rescaling

  /** A node of the table: the key that was given and the offset. */
  datatype Slot = Slot(name: Name, off: U16)

  /** What an `encode` run has produced so far; slots in the order of insertion. */
  datatype Store = Store(bytes: seq<Byte>, slots: seq<Slot>)

  /** What memory holds behind the 50 octets of a node's key, when there are n nodes. */
  type Junk = (nat, Slot) -> Name

  /** What the code does not determine, or leaves to the hash function: the memory behind the keys; whether a node lies in
      the bucket in which a name is looked for when there are n nodes; and which slot is met first there, if it is not
      the newest. */
  datatype World = World(junk: Junk, sees: (nat, Name, Slot) -> bool, first: (nat, seq<Slot>, Name) -> nat)

  /** Equal keys have equal hashes. */
  ghost predicate Fair(w: World) {
    forall n, slot: Slot | |slot.name| < KEY_MAX :: w.sees(n, slot.name, slot)
  }

  /** Memory holds C strings of at most l octets behind the keys. */
  ghost predicate Bounded(w: World, l: nat) {
    forall n, slot :: 0 !in w.junk(n, slot) && |w.junk(n, slot)| <= l
  }

  /** The number of nodes at which a new table is rescaled for the first time. */
  const RESCALED := 2 * INIT_SIZE

  /** n new keys. */
  function NewKeys(n: nat): seq<Rescaling.Op> {
    if n == 0 then [] else NewKeys(n - 1) + [Rescaling.Add]
  }

  /** A new table keeps its 1024 buckets until it has 2048 keys. */
  lemma {:induction false} RescaledAt(n: nat)
    requires n <= 2048
    ensures Rescaling.Possible(NewKeys(n)) && Rescaling.Run(NewKeys(n)).num == n
    ensures Rescaling.Run(NewKeys(n)).len == 1024 <==> n < RESCALED
    decreases n
  {
    if n > 0 {
      RescaledAt(n - 1);
      Rescaling.RunMore(NewKeys(n - 1), Rescaling.Add);
    }
  }

  /** Up to then every node lies in the bucket that h gives for its name, in front of the older ones. */
  ghost predicate Real(w: World, h: Name -> nat, l: nat) {
    && Fair(w) && Bounded(w, l)
    && (forall n: nat, s, slot: Slot | n < RESCALED :: w.sees(n, s, slot) <==> h(s) == h(slot.name))
    && (forall n: nat, slots, s | n < RESCALED :: w.first(n, slots, s) >= |slots|)
  }

  /** A table that is never rescaled. */
  function Steady(junk: Junk, h: Name -> nat): World {
    World(junk, (n: nat, s: Name, slot: Slot) => h(s) == h(slot.name), (n: nat, slots: seq<Slot>, s: Name) => |slots|)
  }

  /** `strcmp` in the bucket of s stops at the slot. */
  predicate Stops(w: World, n: nat, slot: Slot, s: Name) {
    StoredKey(slot.name, w.junk(n, slot)) == s && w.sees(n, s, slot)
  }

  /** `search` for s ... */
  function Lookup(w: World, n: nat, slots: seq<Slot>, s: Name): Option<U16> {
    var i := w.first(n, slots, s);
    if i < |slots| && Stops(w, n, slots[i], s) then Some(slots[i].off) else Newest(w, n, slots, s)
  }

  /** ... when it meets newer nodes first. */
  function Newest(w: World, n: nat, slots: seq<Slot>, s: Name): Option<U16> {
    if slots == [] then None
    else
      var last := slots[|slots| - 1];
      if Stops(w, n, last, s) then Some(last.off) else Newest(w, n, slots[..|slots| - 1], s)
  }

  /** After one label has been copied and its suffix inserted. */
  function LabelStored(o: Store, s: Name): Store {
    var d := FirstLabel(s);
    Store(o.bytes + ([LengthOctet(d)] + s[..d]), o.slots + [Slot(s, Offset(|o.bytes|))])
  }

  /** `encodeName` with compression. */
  function StoreName(w: World, o: Store, s: Name): Store
    decreases |s|
  {
    match Lookup(w, |o.slots|, o.slots, s)
    case Some(off) => Store(o.bytes + Put16(PointerTo(off)), o.slots)
    case None =>
      var o' := LabelStored(o, s);
      if FirstLabel(s) == |s| then Store(o'.bytes + [0], o'.slots) else StoreName(w, o', AfterDot(s))
  }

  /** The suffix at which the table is hit, and the offset it gives. */
  function Seen(w: World, o: Store, s: Name): (r: Table)
    ensures forall u | u in r :: |u| <= |s|
    decreases |s|
  {
    match Lookup(w, |o.slots|, o.slots, s)
    case Some(off) => map[s := off]
    case None => if FirstLabel(s) == |s| then map[] else Seen(w, LabelStored(o, s), AfterDot(s))
  }

  /** The case split of `encodeName`. */
  lemma StoreCases(w: World, o: Store, s: Name)
    ensures var hit, o' := Lookup(w, |o.slots|, o.slots, s), LabelStored(o, s);
            if hit.Some? then
              && StoreName(w, o, s) == Store(o.bytes + Put16(PointerTo(hit.value)), o.slots)
              && Seen(w, o, s) == map[s := hit.value]
            else if FirstLabel(s) == |s| then
              StoreName(w, o, s) == Store(o'.bytes + [0], o'.slots) && Seen(w, o, s) == map[]
            else
              StoreName(w, o, s) == StoreName(w, o', AfterDot(s)) && Seen(w, o, s) == Seen(w, o', AfterDot(s))
  {
    hide Lookup, LabelStored;
  }

  /** The octets are those of a perfect table that holds nothing but the suffix that is hit. */
  lemma {:induction false} StoreOctets(w: World, o: Store, s: Name)
    ensures StoreName(w, o, s).bytes == o.bytes + NameOctets(true, Seen(w, o, s), s)
    decreases |s|
  {
    StoreCases(w, o, s);
    var o' := LabelStored(o, s);
    var tab := Seen(w, o, s);
    OctetsSplit(tab, s, o.bytes);
    hide StoreName, Seen, Lookup, LengthOctet, Put16, NameOctets, FirstLabel;
    if Lookup(w, |o.slots|, o.slots, s) == None {
      assert s !in tab;
      if FirstLabel(s) < |s| {
        StoreOctets(w, o', AfterDot(s));
      }
    }
  }

  /** The octets of a name of which a perfect table knows nothing, or all, behind others. */
  lemma OctetsSplit(tab: Table, s: Name, pre: seq<Byte>)
    ensures s in tab ==> pre + NameOctets(true, tab, s) == pre + Put16(PointerTo(tab[s]))
    ensures s !in tab && FirstLabel(s) == |s| ==>
              pre + NameOctets(true, tab, s) == pre + ([LengthOctet(|s|)] + s[..|s|]) + [0]
    ensures s !in tab && FirstLabel(s) < |s| ==>
              (var d := FirstLabel(s);
               pre + NameOctets(true, tab, s) == pre + ([LengthOctet(d)] + s[..d]) + NameOctets(true, tab, AfterDot(s)))
  {
    var d := FirstLabel(s);
    assert s[..|s|] == s;
    if s !in tab {
      Assoc(pre, [LengthOctet(d)] + s[..d], if d == |s| then [0] else NameOctets(true, tab, AfterDot(s)));
    }
    hide LengthOctet, FirstLabel, Put16, PointerTo;
  }

  lemma Assoc(a: seq<Byte>, b: seq<Byte>, c: seq<Byte>)
    ensures a + (b + c) == a + b + c
  {
  }

  // ---- Lookups -----------------------------------------------------------------------------------------------

  ghost function Names(slots: seq<Slot>): set<Name> {
    set i | 0 <= i < |slots| :: slots[i].name
  }

  lemma NamesMore(slots: seq<Slot>, slot: Slot)
    ensures Names(slots + [slot]) == Names(slots) + {slot.name}
  {
    var more := slots + [slot];
    assert more[|slots|] == slot;
    assert forall i | 0 <= i < |slots| :: more[i] == slots[i];
    assert forall i | 0 <= i < |slots| :: more[i].name in Names(more);
    assert more[|slots|].name in Names(more);
  }

  lemma {:induction false} NewestFinds(w: World, n: nat, slots: seq<Slot>, s: Name) returns (i: nat)
    requires Newest(w, n, slots, s).Some?
    ensures i < |slots| && Stops(w, n, slots[i], s) && Newest(w, n, slots, s) == Some(slots[i].off)
    ensures forall j | i < j < |slots| :: !Stops(w, n, slots[j], s)
    decreases |slots|
  {
    hide Stops;
    if Stops(w, n, slots[|slots| - 1], s) {
      i := |slots| - 1;
    } else {
      i := NewestFinds(w, n, slots[..|slots| - 1], s);
      assert forall j | i < j < |slots| - 1 :: slots[j] == slots[..|slots| - 1][j];
    }
  }

  lemma LookupFinds(w: World, n: nat, slots: seq<Slot>, s: Name) returns (i: nat)
    requires Lookup(w, n, slots, s).Some?
    ensures i < |slots| && Stops(w, n, slots[i], s) && Lookup(w, n, slots, s) == Some(slots[i].off)
    ensures w.first(n, slots, s) >= |slots| ==> forall j | i < j < |slots| :: !Stops(w, n, slots[j], s)
  {
    i := w.first(n, slots, s);
    if !(i < |slots| && Stops(w, n, slots[i], s)) {
      hide Newest, Stops;
      i := NewestFinds(w, n, slots, s);
    }
  }

  lemma {:induction false} NewestMisses(w: World, n: nat, slots: seq<Slot>, s: Name)
    ensures Newest(w, n, slots, s) == None <==> forall i | 0 <= i < |slots| :: !Stops(w, n, slots[i], s)
    decreases |slots|
  {
    if slots != [] {
      var init := slots[..|slots| - 1];
      NewestMisses(w, n, init, s);
      hide Stops;
      assert forall i | 0 <= i < |init| :: init[i] == slots[i];
    }
  }

  lemma LookupMisses(w: World, n: nat, slots: seq<Slot>, s: Name)
    ensures Lookup(w, n, slots, s) == None <==> forall i | 0 <= i < |slots| :: !Stops(w, n, slots[i], s)
  {
    NewestMisses(w, n, slots, s);
    hide Newest, Stops;
  }

  /** Every hit is at a slot of the suffix's own. */
  ghost predicate Genuine(slots: seq<Slot>, seen: Table) {
    forall u | u in seen :: exists i :: 0 <= i < |slots| && slots[i].name == u && slots[i].off == seen[u]
  }

  // ---- Names in the order in which they are written ------------------------------------------------------------

  /** All their label suffixes. */
  ghost function SuffixesOf(names: seq<Name>): set<Name> {
    if names == [] then {} else SuffixesOf(names[..|names| - 1]) + LabelSuffixes(names[|names| - 1])
  }

  function Labels(s: Name): nat
    decreases |s|
  {
    1 + if FirstLabel(s) < |s| then Labels(AfterDot(s)) else 0
  }

  function LabelsOf(names: seq<Name>): nat {
    if names == [] then 0 else LabelsOf(names[..|names| - 1]) + Labels(names[|names| - 1])
  }

  /** The label suffix u is written, or pointed to, somewhere after the label suffix t. */
  ghost predicate Follows(names: seq<Name>, t: Name, u: Name) {
    names != [] &&
    var init, s := names[..|names| - 1], names[|names| - 1];
    || Follows(init, t, u)
    || (u in LabelSuffixes(s) && (t in SuffixesOf(init) || (t in LabelSuffixes(s) && |u| < |t|)))
  }

  /** The same without recursion: in a later name, or later in the same name. */
  lemma {:induction false} FollowsMeans(names: seq<Name>, t: Name, u: Name)
    ensures Follows(names, t, u) <==> exists i, j :: 0 <= i <= j < |names| && t in LabelSuffixes(names[i])
                                                     && u in LabelSuffixes(names[j]) && (i < j || |u| < |t|)
    decreases |names|
  {
    hide LabelSuffixes;
    if names != [] {
      var init, s := names[..|names| - 1], names[|names| - 1];
      FollowsMeans(init, t, u);
      SuffixesMean(init, t);
      assert forall i | 0 <= i < |init| :: init[i] == names[i];
    }
  }

  lemma {:induction false} SuffixesMean(names: seq<Name>, t: Name)
    ensures t in SuffixesOf(names) <==> exists i :: 0 <= i < |names| && t in LabelSuffixes(names[i])
    decreases |names|
  {
    hide LabelSuffixes;
    if names != [] {
      var init := names[..|names| - 1];
      SuffixesMean(init, t);
      assert forall i | 0 <= i < |init| :: init[i] == names[i];
    }
  }

  /** One name more. */
  lemma OneName(done: seq<Name>, s: Name)
    ensures SuffixesOf(done + [s]) == SuffixesOf(done) + LabelSuffixes(s)
    ensures LabelsOf(done + [s]) == LabelsOf(done) + Labels(s)
    ensures forall t, u :: Follows(done + [s], t, u) <==>
              || Follows(done, t, u)
              || (u in LabelSuffixes(s) && (t in SuffixesOf(done) || (t in LabelSuffixes(s) && |u| < |t|)))
  {
    var more := done + [s];
    assert more[..|more| - 1] == done;
    hide LabelSuffixes, Labels;
  }

  /** What is true of the first names. */
  lemma {:induction false} FirstNames(done: seq<Name>, all: seq<Name>)
    requires done <= all
    ensures LabelsOf(done) <= LabelsOf(all) && SuffixesOf(done) <= SuffixesOf(all)
    ensures forall t, u :: Follows(done, t, u) ==> Follows(all, t, u)
    decreases |all|
  {
    hide LabelSuffixes, Labels;
    if |done| < |all| {
      FirstNames(done, all[..|all| - 1]);
    } else {
      assert done == all;
    }
  }

  // ---- Clashes -----------------------------------------------------------------------------------------------

  /** Two different names that the table may take for each other. */
  predicate Clash(t: Name, u: Name) {
    t != u && |t| >= KEY_MAX && |u| >= KEY_MAX && t[..KEY_MAX] == u[..KEY_MAX]
  }

  /** While the names are written, the key of one is never found under a clashing one that follows it. */
  ghost predicate Apart(w: World, names: seq<Name>) {
    forall t, u, n: nat, off: U16 | Follows(names, t, u) && Clash(t, u) && n < LabelsOf(names) ::
      !Stops(w, n, Slot(t, off), u)
  }

  /** A name of at most 50 + l octets that follows one that it clashes with lies in another bucket. */
  ghost predicate ApartIn(h: Name -> nat, l: nat, names: seq<Name>) {
    forall t, u | Follows(names, t, u) && Clash(t, u) && |u| <= KEY_MAX + l :: h(t) != h(u)
  }

  lemma ApartSame(w: World, h: Name -> nat, l: nat, names: seq<Name>)
    requires Real(w, h, l) && ApartIn(h, l, names) && LabelsOf(names) <= RESCALED
    ensures Apart(w, names)
  {
    hide Follows, LabelsOf;
    forall t, u, n: nat, off: U16 | Follows(names, t, u) && Clash(t, u) && n < LabelsOf(names)
      ensures !Stops(w, n, Slot(t, off), u)
    {
      assert |StoredKey(t, w.junk(n, Slot(t, off)))| <= KEY_MAX + l;
    }
  }

  lemma ApartFirst(w: World, done: seq<Name>, all: seq<Name>)
    requires Apart(w, all) && done <= all
    ensures Apart(w, done)
  {
    FirstNames(done, all);
    hide Follows, LabelsOf, Stops, Clash;
  }

  /** A slot at which the lookup of a name stops is the name's own, or the two clash. */
  lemma KeyTells(w: World, n: nat, slot: Slot, s: Name)
    requires Stops(w, n, slot, s)
    ensures slot.name == s || (Clash(slot.name, s) && Stops(w, n, Slot(slot.name, slot.off), s))
  {
    var key := StoredKey(slot.name, w.junk(n, slot));
    assert |slot.name| >= KEY_MAX ==> key[..KEY_MAX] == slot.name[..KEY_MAX];
    assert slot == Slot(slot.name, slot.off);
  }

  /** The slots are those of the names written so far, and of label suffixes of s longer than x. */
  ghost predicate SlotsOf(slots: seq<Slot>, done: seq<Name>, s: Name, x: Name, first: nat) {
    && first <= |slots| && Names(slots[..first]) <= SuffixesOf(done)
    && forall i | first <= i < |slots| :: slots[i].name in LabelSuffixes(s) && |slots[i].name| > |x|
  }

  /** Names that do not clash are never taken for each other; `first` slots were there before the call. */
  lemma {:induction false} HitsAreGenuine(w: World, o: Store, done: seq<Name>, s: Name, x: Name, first: nat)
    requires Apart(w, done + [s]) && SlotsOf(o.slots, done, s, x, first) && x in LabelSuffixes(s)
    requires |o.slots| + Labels(x) <= LabelsOf(done + [s])
    ensures Genuine(o.slots[..first], Seen(w, o, x))
    decreases |x|
  {
    StoreCases(w, o, x);
    var hit := Lookup(w, |o.slots|, o.slots, x);
    hide StoreName, Seen, Lookup, Apart, Stops, LabelsOf, Names;
    if hit.Some? {
      var i := LookupFinds(w, |o.slots|, o.slots, x);
      OwnSlot(w, o.slots, done, s, x, first, i);
      assert i < first && o.slots[..first][i] == o.slots[i];
    } else if FirstLabel(x) < |x| {
      NextSlot(o, done, s, x, first);
      hide SlotsOf, LabelSuffixes;
      HitsAreGenuine(w, LabelStored(o, x), done, s, AfterDot(x), first);
    }
  }

  lemma NextSlot(o: Store, done: seq<Name>, s: Name, x: Name, first: nat)
    requires SlotsOf(o.slots, done, s, x, first) && x in LabelSuffixes(s) && FirstLabel(x) < |x|
    ensures var r := LabelStored(o, x).slots;
            && SlotsOf(r, done, s, AfterDot(x), first) && r[..first] == o.slots[..first] && |r| == |o.slots| + 1
    ensures AfterDot(x) in LabelSuffixes(s)
  {
    SuffixOfSuffix(s, x);
    assert AfterDot(x) in LabelSuffixes(x) by {
      SuffixItself(AfterDot(x));
    }
    hide LabelSuffixes;
    assert LabelStored(o, x).slots[..first] == o.slots[..first];
  }

  lemma SuffixItself(s: Name)
    ensures s in LabelSuffixes(s)
  {
  }

  lemma OwnSlot(w: World, slots: seq<Slot>, done: seq<Name>, s: Name, x: Name, first: nat, i: nat)
    requires Apart(w, done + [s]) && SlotsOf(slots, done, s, x, first) && x in LabelSuffixes(s) && i < |slots|
    requires |slots| < LabelsOf(done + [s]) && Stops(w, |slots|, slots[i], x)
    ensures slots[i].name == x && i < first
  {
    OneName(done, s);
    KeyTells(w, |slots|, slots[i], x);
    hide Stops, LabelsOf, LabelSuffixes, SuffixesOf, Clash;
    var t := slots[i].name;
    if i < first {
      assert slots[..first][i] == slots[i] && t in Names(slots[..first]);
    }
    assert t != x ==> Follows(done + [s], t, x);
  }

  // ---- Where reading goes on -----------------------------------------------------------------------------------

  lemma PrefixTrans(a: seq<Byte>, b: seq<Byte>, c: seq<Byte>)
    requires a <= b <= c
    ensures a <= c
  {
    assert c[..|a|] == c[..|b|][..|a|];
  }

  lemma NameGrows(w: World, o: Store, s: Name)
    ensures o.bytes <= StoreName(w, o, s).bytes && |o.bytes| < |StoreName(w, o, s).bytes|
  {
    StoreMore(w, o, s);
  }

  lemma NameEndStep(b: seq<Byte>, pos: nat)
    requires pos < |b| && b[pos] != 0
    ensures NameEnd(b, pos) == if b[pos] >= 0xc0 then pos + 2 else NameEnd(b, pos + 1 + b[pos])
  {
  }

  /** Octets that were written are there. */
  lemma There(a: seq<Byte>, c: seq<Byte>, b: seq<Byte>)
    requires a + c <= b
    ensures |a| + |c| <= |b| && b[|a|..|a| + |c|] == c && (c != [] ==> b[|a|] == c[0])
  {
    assert b[..|a| + |c|] == a + c;
  }

  lemma LabelRead(o: Store, s: Name, b: seq<Byte>)
    requires GoodName(s) && LabelStored(o, s).bytes <= b
    ensures NameEnd(b, |o.bytes|) == NameEnd(b, |LabelStored(o, s).bytes|)
  {
    var d := FirstLabel(s);
    There(o.bytes, [LengthOctet(d)] + s[..d], b);
    hide NameEnd;
    NameEndStep(b, |o.bytes|);
  }

  lemma HitRead(o: Store, off: U16, b: seq<Byte>)
    requires o.bytes + Put16(PointerTo(off)) <= b
    ensures NameEnd(b, |o.bytes|) == |o.bytes| + 2
  {
    There(o.bytes, Put16(PointerTo(off)), b);
    NameEndStep(b, |o.bytes|);
  }

  /** Reading a name stops where writing it stopped, whatever it reads. */
  lemma {:induction false} StoredEnd(w: World, o: Store, s: Name, b: seq<Byte>)
    requires GoodName(s) && StoreName(w, o, s).bytes <= b
    ensures NameEnd(b, |o.bytes|) == |StoreName(w, o, s).bytes|
    decreases |s|
  {
    StoreCases(w, o, s);
    var r, o', hit := StoreName(w, o, s).bytes, LabelStored(o, s), Lookup(w, |o.slots|, o.slots, s);
    if hit.Some? {
      HitRead(o, hit.value, b);
    } else if FirstLabel(s) < |s| {
      assert GoodName(AfterDot(s));
      hide *;
      NameGrows(w, o', AfterDot(s));
      PrefixTrans(o'.bytes, r, b);
      LabelRead(o, s, b);
      StoredEnd(w, o', AfterDot(s), b);
    } else {
      hide StoreName, Seen, Lookup, GoodName, LabelStored, FirstLabel;
      There(o'.bytes, [0], b);
      assert o'.bytes <= r;
      PrefixTrans(o'.bytes, r, b);
      LabelRead(o, s, b);
    }
  }

  // ---- Soundness ---------------------------------------------------------------------------------------------

  /** Every slot's offset decodes to the name that was given. */
  ghost predicate SlotsSound(o: Store) {
    forall i | 0 <= i < |o.slots| :: EntrySound(o.bytes, o.slots[i].name, o.slots[i].off)
  }

  /** In b the suffixes that were inserted from the slot first on decode from their offsets. */
  ghost predicate NewDecode(b: seq<Byte>, slots: seq<Slot>, first: nat, low: nat, high: nat, hops: nat) {
    forall i | first <= i < |slots| ::
      var off := slots[i].off;
      low <= off < high <= |b| && IsLabel(b[off]) && DecName(b, off, hops) == Some(slots[i].name)
  }

  /** In b the offset that was hit decodes to the suffix it was hit for. */
  ghost predicate HitDecodes(b: seq<Byte>, seen: Table, hops: nat) {
    forall u | u in seen && seen[u] < 0x4000 :: hops > 0 && DecName(b, seen[u], hops - 1) == Some(u)
  }

  /** If the name decodes from where it was written, and is read to where writing stopped, so does every suffix inserted
      on the way, and the offset that was hit decodes to the suffix it was hit for. If none was hit, the labels are
      good. */
  lemma {:induction false} StorePeels(w: World, o: Store, s: Name, later: seq<Byte>, hops: nat)
    requires 0 !in s && |StoreName(w, o, s).bytes| <= 0x4000
    requires DecName(StoreName(w, o, s).bytes + later, |o.bytes|, hops) == Some(s)
    requires NameEnd(StoreName(w, o, s).bytes + later, |o.bytes|) == |StoreName(w, o, s).bytes|
    ensures var r := StoreName(w, o, s);
            && |o.slots| <= |r.slots| && r.slots[..|o.slots|] == o.slots
            && NewDecode(r.bytes + later, r.slots, |o.slots|, |o.bytes|, |r.bytes|, hops)
            && HitDecodes(r.bytes + later, Seen(w, o, s), hops)
            && (Seen(w, o, s) == map[] ==> GoodLabels(s))
    decreases |s|
  {
    var r, o' := StoreName(w, o, s), LabelStored(o, s);
    var b := r.bytes + later;
    StoreCases(w, o, s);
    StoreMore(w, o, s);
    hide StoreName, Seen, Lookup, DecName, NameEnd;
    if Lookup(w, |o.slots|, o.slots, s).Some? {
      PointerHit(b, o.bytes, Lookup(w, |o.slots|, o.slots, s).value, later, hops);
    } else {
      assert o'.bytes <= r.bytes && |o'.bytes| < |r.bytes| by {
        if FirstLabel(s) < |s| {
          StoreMore(w, o', AfterDot(s));
        }
      }
      LabelPeels(o, s, b, |r.bytes|, hops);
      if FirstLabel(s) < |s| {
        StorePeels(w, o', AfterDot(s), later, hops);
        assert r.slots[|o.slots|] == o'.slots[|o.slots|] == Slot(s, Offset(|o.bytes|));
        assert r.slots[..|o.slots|] == r.slots[..|o'.slots|][..|o.slots|] == o.slots;
      }
    }
  }

  /** A name that decodes where its first label was copied, and is read beyond that, has a good first label. */
  lemma LabelPeels(o: Store, s: Name, b: seq<Byte>, end: nat, hops: nat)
    requires 0 !in s && LabelStored(o, s).bytes <= b && DecName(b, |o.bytes|, hops) == Some(s)
    requires NameEnd(b, |o.bytes|) == end > |LabelStored(o, s).bytes|
    ensures 1 <= FirstLabel(s) <= MAX_LABEL && b[|o.bytes|] == FirstLabel(s)
    ensures FirstLabel(s) < |s| ==>
              && 0 !in AfterDot(s) && DecName(b, |LabelStored(o, s).bytes|, hops) == Some(AfterDot(s))
              && NameEnd(b, |LabelStored(o, s).bytes|) == end
  {
    var d := FirstLabel(s);
    var n := LengthOctet(d);
    There(o.bytes, [n] + s[..d], b);
    DecNameFirstOctet(b, |o.bytes|, hops);
    DecNameLabel(b, |o.bytes|, hops);
    hide DecName, NameEnd;
    assert b[|o.bytes|] == n && 1 <= n < 0xc0;
    if n < |s| {
      FirstDot(s, 0, n);
    }
  }

  lemma PointerHit(b: seq<Byte>, pre: seq<Byte>, off: U16, later: seq<Byte>, hops: nat)
    requires b == pre + Put16(PointerTo(off)) + later && DecName(b, |pre|, hops).Some?
    ensures off < 0x4000 ==> hops > 0 && DecName(b, off, hops - 1) == DecName(b, |pre|, hops)
  {
    var ptr := Put16(PointerTo(off));
    assert b[|pre|] == ptr[0] && b[|pre| + 1] == ptr[1];
    DecNameFirstOctet(b, |pre|, hops);
    hide DecName;
    assert off < 0x4000 ==> Target(b, |pre|) == off;
  }

  lemma StoreMore(w: World, o: Store, s: Name)
    ensures var r := StoreName(w, o, s).bytes;
            |o.bytes| + 2 <= |r| <= |o.bytes| + |s| + 2 && r[..|o.bytes|] == o.bytes
  {
    StoreOctets(w, o, s);
  }

  /** A table that knows the suffix that is hit is sound. */
  lemma SeenSound(o: Store, seen: Table)
    requires SlotsSound(o) && Genuine(o.slots, seen)
    ensures TableSound(Out(o.bytes, seen))
  {
  }

  /** One compressed name, whatever the memory and the hashes: if no name is found under another while the names so far
      and this one are written, it decodes where it was written, reading stops where writing stopped, nothing written
      before changes, and old and new slots are sound. */
  lemma NameSound(w: World, o: Store, done: seq<Name>, s: Name)
    requires GoodName(s) && SlotsSound(o) && Names(o.slots) == SuffixesOf(done) && |o.slots| <= LabelsOf(done)
    requires Apart(w, done + [s]) && |StoreName(w, o, s).bytes| <= 0x4000
    ensures var r := StoreName(w, o, s);
            && |o.bytes| <= |r.bytes| && r.bytes[..|o.bytes|] == o.bytes
            && DecName(r.bytes, |o.bytes|, |o.bytes|) == Some(s) && NameEnd(r.bytes, |o.bytes|) == |r.bytes|
            && PointsBack(r.bytes, |o.bytes|, |o.bytes|)
            && SlotsSound(r)
  {
    var r, p := StoreName(w, o, s), Out(o.bytes, Seen(w, o, s));
    StartsGenuine(w, o, done, s);
    SeenSound(o, Seen(w, o, s));
    StoreOctets(w, o, s);
    EmitNameOctets(true, p, s);
    assert SoundUpTo(p, s, |o.bytes|);
    hide StoreName, Seen, NameOctets, EmitName, DecName, NameEnd, PointsBack, TableSound, Names, Apart, GoodName;
    EmitNameSound(true, p, s, |o.bytes|);
    assert r.bytes + [] == r.bytes;
    NewSlotsSound(w, o, s);
  }

  lemma StartsGenuine(w: World, o: Store, done: seq<Name>, s: Name)
    requires Names(o.slots) == SuffixesOf(done) && |o.slots| <= LabelsOf(done) && Apart(w, done + [s])
    ensures Genuine(o.slots, Seen(w, o, s))
  {
    OneName(done, s);
    SuffixItself(s);
    assert o.slots[..|o.slots|] == o.slots;
    hide StoreName, Seen, Apart, LabelSuffixes, SuffixesOf, LabelsOf, Labels;
    HitsAreGenuine(w, o, done, s, s, |o.slots|);
  }

  lemma NewSlotsSound(w: World, o: Store, s: Name)
    requires GoodName(s) && SlotsSound(o) && |StoreName(w, o, s).bytes| <= 0x4000
    requires DecName(StoreName(w, o, s).bytes, |o.bytes|, |o.bytes|) == Some(s)
    requires NameEnd(StoreName(w, o, s).bytes, |o.bytes|) == |StoreName(w, o, s).bytes|
    ensures SlotsSound(StoreName(w, o, s))
  {
    var r := StoreName(w, o, s);
    StoreMore(w, o, s);
    assert r.bytes + [] == r.bytes;
    StorePeels(w, o, s, [], |o.bytes|);
    OldSlotsSound(o, r.bytes[|o.bytes|..]);
    assert r.bytes == o.bytes + r.bytes[|o.bytes|..];
    hide *;
    DecodingIsSound(r.bytes, r.slots, |o.slots|, |o.bytes|);
    AllSlotsSound(r, o.slots);
  }

  lemma DecodingIsSound(b: seq<Byte>, slots: seq<Slot>, first: nat, low: nat)
    requires NewDecode(b, slots, first, low, |b|, low) && |b| <= 0x4000
    ensures forall i | first <= i < |slots| :: EntrySound(b, slots[i].name, slots[i].off)
  {
    hide DecName, IsLabel;
    forall i | first <= i < |slots| ensures EntrySound(b, slots[i].name, slots[i].off) {
      DecNameMoreHops(b, slots[i].off, low, slots[i].off);
    }
  }

  lemma AllSlotsSound(r: Store, was: seq<Slot>)
    requires |was| <= |r.slots| && r.slots[..|was|] == was && SlotsSound(Store(r.bytes, was))
    requires forall i | |was| <= i < |r.slots| :: EntrySound(r.bytes, r.slots[i].name, r.slots[i].off)
    ensures SlotsSound(r)
  {
    hide EntrySound;
    assert forall i | 0 <= i < |was| :: r.slots[i] == r.slots[..|was|][i];
  }

  lemma OldSlotsSound(o: Store, later: seq<Byte>)
    requires SlotsSound(o)
    ensures SlotsSound(Store(o.bytes + later, o.slots))
  {
    hide EntrySound;
    forall i | 0 <= i < |o.slots| ensures EntrySound(o.bytes + later, o.slots[i].name, o.slots[i].off) {
      EntryStable(o.bytes, later, o.slots[i].name, o.slots[i].off);
    }
  }

  // ---- What is recorded ----------------------------------------------------------------------------------------

  lemma {:induction false} SlotsGrow(w: World, o: Store, s: Name)
    ensures var r := StoreName(w, o, s); |o.slots| <= |r.slots| && r.slots[..|o.slots|] == o.slots
    decreases |s|
  {
    StoreCases(w, o, s);
    var o' := LabelStored(o, s);
    if Lookup(w, |o.slots|, o.slots, s) == None && FirstLabel(s) < |s| {
      SlotsGrow(w, o', AfterDot(s));
      hide StoreName, Seen, Lookup;
      var r := StoreName(w, o, s);
      assert r.slots[..|o.slots|] == r.slots[..|o'.slots|][..|o.slots|] == o'.slots[..|o.slots|] == o.slots;
    }
  }

  /** Names that are not longer than s have all their suffixes in ks. */
  ghost predicate ClosedUpTo(ks: set<Name>, s: Name) {
    forall t | t in ks && |t| <= |s| :: LabelSuffixes(t) <= ks
  }

  ghost predicate Closed(ks: set<Name>) {
    forall t | t in ks :: LabelSuffixes(t) <= ks
  }

  /** If its hits are genuine, a call adds slots for the suffixes of its name that had none. */
  lemma {:induction false} NameRecords(w: World, o: Store, s: Name)
    requires Genuine(StoreName(w, o, s).slots, Seen(w, o, s)) && ClosedUpTo(Names(o.slots), s)
    ensures Names(StoreName(w, o, s).slots) == Names(o.slots) + LabelSuffixes(s)
    decreases |s|
  {
    StoreCases(w, o, s);
    var r, o' := StoreName(w, o, s), LabelStored(o, s);
    hide StoreName, Seen, Lookup;
    if Lookup(w, |o.slots|, o.slots, s).Some? {
      assert s in Seen(w, o, s) && s in Names(o.slots);
    } else {
      NamesMore(o.slots, Slot(s, Offset(|o.bytes|)));
      if FirstLabel(s) < |s| {
        NameRecords(w, o', AfterDot(s));
      }
    }
  }

  lemma {:induction false} SuffixesClosed(names: seq<Name>)
    ensures Closed(SuffixesOf(names))
    decreases |names|
  {
    if names != [] {
      SuffixesClosed(names[..|names| - 1]);
      var s := names[|names| - 1];
      forall t | t in LabelSuffixes(s) ensures LabelSuffixes(t) <= LabelSuffixes(s) {
        SuffixOfSuffix(s, t);
      }
    }
  }

  lemma GenuineMore(was: seq<Slot>, slots: seq<Slot>, seen: Table)
    requires |was| <= |slots| && slots[..|was|] == was && Genuine(was, seen)
    ensures Genuine(slots, seen)
  {
    forall u | u in seen ensures exists i :: 0 <= i < |slots| && slots[i].name == u && slots[i].off == seen[u] {
      var i :| 0 <= i < |was| && was[i].name == u && was[i].off == seen[u];
      assert slots[i] == slots[..|was|][i];
    }
  }

  /** Where no name is found under another, the table has slots for exactly the label suffixes of the names written so
      far. */
  lemma NamesComplete(w: World, o: Store, done: seq<Name>, s: Name)
    requires Names(o.slots) == SuffixesOf(done) && |o.slots| <= LabelsOf(done) && Apart(w, done + [s])
    ensures Names(StoreName(w, o, s).slots) == SuffixesOf(done + [s])
    ensures |StoreName(w, o, s).slots| <= LabelsOf(done + [s])
  {
    StartsGenuine(w, o, done, s);
    SlotsGrow(w, o, s);
    FewSlots(w, o, s);
    OneName(done, s);
    SuffixesClosed(done);
    hide StoreName, Seen, Apart, LabelSuffixes, Labels;
    GenuineMore(o.slots, StoreName(w, o, s).slots, Seen(w, o, s));
    NameRecords(w, o, s);
  }

  lemma {:induction false} FewSlots(w: World, o: Store, s: Name)
    ensures |StoreName(w, o, s).slots| <= |o.slots| + Labels(s)
    decreases |s|
  {
    StoreCases(w, o, s);
    hide StoreName, Seen, Lookup;
    if Lookup(w, |o.slots|, o.slots, s) == None && FirstLabel(s) < |s| {
      FewSlots(w, LabelStored(o, s), AfterDot(s));
    }
  }

  // ---- What compression is worth ------------------------------------------------------------------------------

  /** A short name is found at its slot. */
  lemma ShortIsFound(w: World, n: nat, slots: seq<Slot>, s: Name)
    requires Fair(w) && |s| < KEY_MAX && s in Names(slots)
    ensures Lookup(w, n, slots, s).Some?
  {
    var i :| 0 <= i < |slots| && slots[i].name == s;
    LookupMisses(w, n, slots, s);
    assert Stops(w, n, slots[i], s);
  }

  /** A call leaves a slot for the whole name, unless it was hit. */
  lemma NameHasSlot(w: World, o: Store, s: Name)
    requires Lookup(w, |o.slots|, o.slots, s) == None
    ensures s in Names(StoreName(w, o, s).slots)
  {
    StoreCases(w, o, s);
    var o' := LabelStored(o, s);
    var r := StoreName(w, o, s);
    if FirstLabel(s) < |s| {
      SlotsGrow(w, o', AfterDot(s));
    }
    hide StoreName, Seen, Lookup;
    assert r.slots[|o.slots|] == r.slots[..|o'.slots|][|o.slots|] == o'.slots[|o.slots|];
  }

  /** A call costs two octets when the whole name is hit, and more otherwise. */
  lemma HitCostsTwo(w: World, o: Store, s: Name)
    requires s != []
    ensures Lookup(w, |o.slots|, o.slots, s).Some? <==> |StoreName(w, o, s).bytes| == |o.bytes| + 2
  {
    StoreCases(w, o, s);
    if FirstLabel(s) < |s| {
      StoreMore(w, LabelStored(o, s), AfterDot(s));
    }
    hide StoreName, Seen, Lookup;
  }

  /** A name of fewer than 50 octets costs two exactly when the table has a slot for it. */
  lemma ShortCostsTwo(w: World, o: Store, s: Name)
    requires Fair(w) && 0 < |s| < KEY_MAX
    ensures |StoreName(w, o, s).bytes| == |o.bytes| + 2 <==> s in Names(o.slots)
  {
    HitCostsTwo(w, o, s);
    hide StoreName;
    if s in Names(o.slots) {
      ShortIsFound(w, |o.slots|, o.slots, s);
    } else if Lookup(w, |o.slots|, o.slots, s).Some? {
      var i := LookupFinds(w, |o.slots|, o.slots, s);
      KeyTells(w, |o.slots|, o.slots[i], s);
    }
  }

  // ---- Short names ---------------------------------------------------------------------------------------------

  /** All names in the store are short, and p is the same run with a perfect table. */
  ghost predicate Agrees(o: Store, p: Out) {
    && o.bytes == p.bytes && Names(o.slots) == p.tab.Keys
    && forall i | 0 <= i < |o.slots| ::
         var slot := o.slots[i]; |slot.name| < KEY_MAX && slot.name in p.tab && p.tab[slot.name] == slot.off
  }

  lemma AgreesLookup(w: World, o: Store, p: Out, s: Name)
    requires Fair(w) && Agrees(o, p) && |s| < KEY_MAX
    ensures Lookup(w, |o.slots|, o.slots, s) == if s in p.tab then Some(p.tab[s]) else None
  {
    if s in p.tab {
      ShortIsFound(w, |o.slots|, o.slots, s);
      var i := LookupFinds(w, |o.slots|, o.slots, s);
    } else {
      LookupMisses(w, |o.slots|, o.slots, s);
    }
  }

  lemma AgreesMore(o: Store, p: Out, s: Name)
    requires Agrees(o, p) && |s| < KEY_MAX && s !in p.tab
    ensures Agrees(LabelStored(o, s), AfterLabel(true, p, s))
  {
    NamesMore(o.slots, Slot(s, Offset(|o.bytes|)));
  }

  /** With names of fewer than 50 octets the table is perfect: whatever memory holds, the run is that of NameCodec. */
  lemma {:induction false} ShortIsPerfect(w: World, o: Store, p: Out, s: Name)
    requires Fair(w) && Agrees(o, p) && |s| < KEY_MAX
    ensures Agrees(StoreName(w, o, s), EmitName(true, p, s))
    decreases |s|
  {
    StoreCases(w, o, s);
    EmitNameCases(true, p, s);
    AgreesLookup(w, o, p, s);
    if s !in p.tab {
      AgreesMore(o, p, s);
      hide StoreName, EmitName, LabelStored, AfterLabel, Lookup, Seen, Fair;
      if FirstLabel(s) < |s| {
        ShortIsPerfect(w, LabelStored(o, s), AfterLabel(true, p, s), AfterDot(s));
      }
    }
  }

  /** The newest offset of every name. */
  function TabOf(slots: seq<Slot>): Table {
    if slots == [] then map[] else TabOf(slots[..|slots| - 1])[slots[|slots| - 1].name := slots[|slots| - 1].off]
  }

  lemma {:induction false} TabOfSlots(slots: seq<Slot>)
    ensures TabOf(slots).Keys == Names(slots)
    ensures forall u | u in TabOf(slots) ::
              exists i :: 0 <= i < |slots| && slots[i].name == u && slots[i].off == TabOf(slots)[u]
    decreases |slots|
  {
    if slots != [] {
      var init, last := slots[..|slots| - 1], slots[|slots| - 1];
      TabOfSlots(init);
      NamesMore(init, last);
      assert init + [last] == slots;
      forall u | u in TabOf(slots)
        ensures exists i :: 0 <= i < |slots| && slots[i].name == u && slots[i].off == TabOf(slots)[u]
      {
        if u == last.name {
          assert slots[|slots| - 1].name == u;
        } else {
          var i :| 0 <= i < |init| && init[i].name == u && init[i].off == TabOf(init)[u];
          assert slots[i] == init[i];
        }
      }
    }
  }

  /** A short name is written in no more octets than a perfect table would take. */
  lemma {:induction false} ShortIsNoLonger(w: World, o: Store, s: Name, tab: Table)
    requires Fair(w) && |s| < KEY_MAX && forall u | u in tab && |u| <= |s| :: u in Names(o.slots)
    ensures |StoreName(w, o, s).bytes| <= |o.bytes| + |NameOctets(true, tab, s)|
    decreases |s|
  {
    StoreCases(w, o, s);
    hide StoreName, Seen, Lookup;
    if Lookup(w, |o.slots|, o.slots, s) == None {
      if s in tab {
        ShortIsFound(w, |o.slots|, o.slots, s);
      }
      if FirstLabel(s) < |s| {
        NamesMore(o.slots, Slot(s, Offset(|o.bytes|)));
        ShortIsNoLonger(w, LabelStored(o, s), AfterDot(s), tab);
      }
    }
  }

  /** Greedy is optimal for names of fewer than 50 octets: whatever octets `other` decode to s after the same run, with
      at most a pointer to the newest offset of a name, they are no fewer than the encoder's. */
  lemma ShortestName(w: World, o: Store, s: Name, other: seq<Byte>, hops: nat)
    requires Fair(w) && GoodName(s) && |s| < KEY_MAX && SlotsSound(o)
    requires var b := o.bytes + other;
             && DecName(b, |o.bytes|, hops) == Some(s) && NameEnd(b, |o.bytes|) == |b|
             && UsesRegistered(b, |o.bytes|, TabOf(o.slots))
    ensures |StoreName(w, o, s).bytes| <= |o.bytes + other|
  {
    var p := Out(o.bytes, TabOf(o.slots));
    TabOfSlots(o.slots);
    assert TableSound(p);
    ShortIsNoLonger(w, o, s, p.tab);
    hide StoreName, DecName, NameEnd, UsesRegistered, TableSound, GoodName, EmitName;
    EmitNameOctets(true, p, s);
    EmitNameShortest(p, s, other, hops);
  }
}

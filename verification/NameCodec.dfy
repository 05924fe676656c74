/** Domain names on the wire: labels, compression pointers, and the table of registered suffixes. */
module NameCodec {
  import opened Bytes

  // ---- Names as strings -------------------------------------------------------------------

  /** Index of the first '.' at or after i, or |s| when there is none. */
  function DotFrom(s: Name, i: nat): (d: nat)
    requires i <= |s|
    ensures i <= d <= |s|
    ensures d < |s| ==> s[d] == DOT
    decreases |s| - i
  {
    if i == |s| || s[i] == DOT then i else DotFrom(s, i + 1)
  }

  /** Length of the first label. */
  function FirstLabel(s: Name): (d: nat)
    ensures d <= |s|
    ensures d < |s| ==> s[d] == DOT
  {
    DotFrom(s, 0)
  }

  lemma {:induction false} FirstDot(s: Name, i: nat, n: nat)
    requires i <= n < |s| && s[n] == DOT
    ensures DotFrom(s, i) <= n
    decreases n - i
  {
    if s[i] != DOT {
      FirstDot(s, i + 1, n);
    }
  }

  /** What follows the first label and its dot. */
  function AfterDot(s: Name): (r: Name)
    requires FirstLabel(s) < |s|
    ensures |r| < |s|
  {
    s[FirstLabel(s) + 1..]
  }

  /** Longest label whose length octet the decoder does not take for a pointer. */
  const MAX_LABEL := 0xbf

  /** No label is empty or too long for its length octet. */
  ghost predicate GoodLabels(s: Name)
    decreases |s|
  {
    var d := FirstLabel(s);
    && 1 <= d <= MAX_LABEL
    && (d < |s| ==> GoodLabels(AfterDot(s)))
  }

  /** A name that survives the wire format: a C string made of good labels. */
  ghost predicate GoodName(s: Name) {
    0 !in s && GoodLabels(s)
  }

  /** The name and everything that starts after one of its dots. */
  ghost function LabelSuffixes(s: Name): set<Name>
    decreases |s|
  {
    {s} + if FirstLabel(s) < |s| then LabelSuffixes(AfterDot(s)) else {}
  }

  // ---- Encoder ----------------------------------------------------------------------------

  /** The compression table: label suffix -> offset of the octets that spell it. */
  type Table = map<Name, U16>

  /** What an encode run has produced so far: all octets from the origin, and the table. */
  datatype Out = Out(bytes: seq<Byte>, tab: Table)

  /** `0xc000 | offset` as `getPos` computes it on 16-bit words; see PointerBits. */
  function PointerTo(o: U16): (w: U16) {
    0xc000 + o % 0x4000
  }

  /** `(uint16_t)(num - origin)`. */
  function Offset(n: nat): (o: U16)
    ensures n < 0x1_0000 ==> o == n
  {
    n % 0x1_0000
  }

  /** `*num = cnt`: the label length, truncated to an octet. */
  function LengthOctet(n: nat): (c: Byte)
    ensures n < 0x100 ==> c == n
    ensures c <= n
  {
    n % 0x100
  }

  /** `encodeName`; z is the COMPRESS switch. */
  function EmitName(z: bool, o: Out, s: Name): Out
    decreases |s|
  {
    if z && s in o.tab then
      Out(o.bytes + Put16(PointerTo(o.tab[s])), o.tab)
    else
      var d := FirstLabel(s);
      var tab := if z then o.tab[s := Offset(|o.bytes|)] else o.tab;
      if d == |s| then
        Out(o.bytes + ([LengthOctet(d)] + s + [0]), tab)
      else
        EmitName(z, Out(o.bytes + ([LengthOctet(d)] + s[..d]), tab), AfterDot(s))
  }

  // ---- Decoder ----------------------------------------------------------------------------

  /** Target of the pointer stored at p: the low 14 bits of two octets. */
  function Target(buf: seq<Byte>, p: nat): nat
    requires p + 1 < |buf|
  {
    LowSix(buf[p]) * 0x100 + buf[p + 1] as int
  }

  /** `*num & 0x3f` as a number. */
  function LowSix(c: Byte): int {
    c as int % 0x40
  }

  /** On the bits of the octet, that is what the mask leaves. */
  lemma LowSixBits(c: Byte, h: bv8)
    requires h as int == c
    ensures (h & 0x3f) as int == LowSix(c)
  {
    MaskSix(h);
  }

  lemma MaskSix(h: bv8)
    ensures (h & 0x3f) as int == h as int % 0x40
  {
  }

  lemma HighTwoBits(h: bv8)
    ensures (0xc0 | h) as int == 0xc0 + h as int % 0x40
  {
  }

  /** On the octets, a pointer is `0xc000 | offset`. */
  lemma PointerBits(o: U16, h: bv8)
    requires h as int == o / 0x100
    ensures Put16(PointerTo(o)) == [(0xc0 | h) as int, o % 0x100]
  {
    HighTwoBits(h);
  }

  /** The string `decodeName` writes when started at pos and following at most `hops` pointers;
      None when it would leave the buffer or follow more pointers than that. */
  function DecName(buf: seq<Byte>, pos: nat, hops: nat): Option<Name>
    decreases hops, |buf| - pos
  {
    if pos >= |buf| then None
    else if buf[pos] == 0 then Some([])
    else if buf[pos] >= 0xc0 then
      if pos + 1 >= |buf| || hops == 0 then None else DecName(buf, Target(buf, pos), hops - 1)
    else
      var next := pos + 1 + buf[pos];
      if next >= |buf| then None
      else if buf[next] == 0 then Some(buf[pos + 1..next])
      else
        match DecName(buf, next, hops)
        case None => None
        case Some(rest) => Some(buf[pos + 1..next] + [DOT] + rest)
  }

  /** Where `decodeName` tells its caller to go on reading. */
  function NameEnd(buf: seq<Byte>, pos: nat): nat
    decreases |buf| - pos
  {
    if pos >= |buf| then pos
    else if buf[pos] == 0 then pos + 1
    else if buf[pos] >= 0xc0 then pos + 2
    else NameEnd(buf, pos + 1 + buf[pos])
  }

  /** More pointers allowed change nothing once the name decodes. */
  lemma {:induction false} DecNameMoreHops(buf: seq<Byte>, pos: nat, hops: nat, more: nat)
    requires DecName(buf, pos, hops).Some? && hops <= more
    ensures DecName(buf, pos, more) == DecName(buf, pos, hops)
    decreases hops, |buf| - pos
  {
    if buf[pos] == 0 {
    } else if buf[pos] >= 0xc0 {
      DecNameMoreHops(buf, Target(buf, pos), hops - 1, more - 1);
    } else if buf[pos + 1 + buf[pos]] != 0 {
      DecNameMoreHops(buf, pos + 1 + buf[pos], hops, more);
    }
  }

  /** How the decoder takes a name apart: by its first octet, ... */
  lemma DecNameFirstOctet(buf: seq<Byte>, pos: nat, hops: nat)
    requires DecName(buf, pos, hops).Some?
    ensures pos < |buf|
    ensures buf[pos] == 0 ==> DecName(buf, pos, hops) == Some([]) && NameEnd(buf, pos) == pos + 1
    ensures buf[pos] >= 0xc0 ==>
              && pos + 1 < |buf| && hops > 0 && NameEnd(buf, pos) == pos + 2
              && DecName(buf, pos, hops) == DecName(buf, Target(buf, pos), hops - 1)
  {
  }

  /** ... and then, if that is a label's, by what follows the label. */
  lemma DecNameLabel(buf: seq<Byte>, pos: nat, hops: nat)
    requires DecName(buf, pos, hops).Some? && 1 <= buf[pos] < 0xc0
    ensures var n := buf[pos];
            var s := DecName(buf, pos, hops).value;
            && pos + 1 + n < |buf| && n <= |s| && s[..n] == buf[pos + 1..pos + 1 + n]
            && NameEnd(buf, pos) == NameEnd(buf, pos + 1 + n)
            && (if buf[pos + 1 + n] == 0 then n == |s|
                else n < |s| && s[n] == DOT && DecName(buf, pos + 1 + n, hops) == Some(s[n + 1..]))
  {
    var n := buf[pos];
    if buf[pos + 1 + n] != 0 {
      var rest := DecName(buf, pos + 1 + n, hops).value;
      assert (buf[pos + 1..pos + 1 + n] + [DOT] + rest)[n + 1..] == rest;
    }
  }

  /** Octets written later do not disturb a name that already decodes. */
  lemma {:induction false} DecNameStable(buf: seq<Byte>, later: seq<Byte>, pos: nat, hops: nat)
    requires DecName(buf, pos, hops).Some?
    ensures DecName(buf + later, pos, hops) == DecName(buf, pos, hops)
    ensures NameEnd(buf + later, pos) == NameEnd(buf, pos) <= |buf|
    decreases hops, |buf| - pos
  {
    if buf[pos] == 0 {
    } else if buf[pos] >= 0xc0 {
      DecNameStable(buf, later, Target(buf, pos), hops - 1);
    } else {
      var next := pos + 1 + buf[pos];
      assert (buf + later)[pos + 1..next] == buf[pos + 1..next];
      if buf[next] != 0 {
        DecNameStable(buf, later, next, hops);
      }
    }
  }

  // ---- Soundness --------------------------------------------------------------------------

  /** At o, which fits a pointer, stands a label-length octet from which s is decoded without
      following more pointers than there are offsets below o. */
  ghost predicate EntrySound(buf: seq<Byte>, s: Name, o: nat) {
    o < |buf| && o < 0x4000 && IsLabel(buf[o]) && DecName(buf, o, o) == Some(s)
  }

  /** The length octet of a label: not the end of a name, not a pointer. */
  predicate IsLabel(c: Byte) {
    1 <= c <= MAX_LABEL
  }

  /** The pointer that ends the name at pos, if one does, leads to a label below start. */
  ghost predicate PointsBack(b: seq<Byte>, pos: nat, start: nat)
    decreases |b| - pos
  {
    && pos < |b|
    && (b[pos] >= 0xc0 ==> pos + 1 < |b| && Target(b, pos) < start <= |b| && IsLabel(b[Target(b, pos)]))
    && (IsLabel(b[pos]) ==> PointsBack(b, pos + 1 + b[pos], start))
  }

  ghost predicate TableSound(o: Out) {
    forall s | s in o.tab :: EntrySound(o.bytes, s, o.tab[s])
  }

  lemma EntryStable(buf: seq<Byte>, later: seq<Byte>, s: Name, o: nat)
    requires EntrySound(buf, s, o)
    ensures EntrySound(buf + later, s, o)
  {
    DecNameStable(buf, later, o, o);
  }

  /** The out-state after one label has been copied and its suffix registered. */
  function AfterLabel(z: bool, o: Out, s: Name): Out {
    var d := FirstLabel(s);
    Out(o.bytes + ([LengthOctet(d)] + s[..d]), if z then o.tab[s := Offset(|o.bytes|)] else o.tab)
  }

  /** Entries that may be looked up while s is emitted are sound; longer ones may still be pending,
      registered before the octets they stand for are complete. */
  ghost predicate SoundUpTo(o: Out, s: Name, start: nat) {
    forall t | t in o.tab :: |t| > |s| || (EntrySound(o.bytes, t, o.tab[t]) && o.tab[t] < start)
  }

  /** Entries of `o` are kept; entries added to it are sound in the new octets. */
  ghost predicate AddsSound(o: Out, r: Out) {
    && (forall t | t in o.tab :: t in r.tab && r.tab[t] == o.tab[t])
    && (forall t | t in r.tab && t !in o.tab :: EntrySound(r.bytes, t, r.tab[t]) && r.tab[t] >= |o.bytes|)
  }

  lemma PointerDecodes(o: Out, s: Name, start: nat)
    requires s in o.tab && EntrySound(o.bytes, s, o.tab[s]) && o.tab[s] < start
    ensures var b := o.bytes + Put16(PointerTo(o.tab[s]));
            && DecName(b, |o.bytes|, start) == Some(s) && NameEnd(b, |o.bytes|) == |b|
            && (start <= |b| ==> PointsBack(b, |o.bytes|, start))
  {
    var p := Put16(PointerTo(o.tab[s]));
    var b := o.bytes + p;
    assert b[|o.bytes|] == p[0] && b[|o.bytes| + 1] == p[1];
    assert Target(b, |o.bytes|) == o.tab[s];
    DecNameStable(o.bytes, p, o.tab[s], o.tab[s]);
    DecNameMoreHops(b, o.tab[s], o.tab[s], start - 1);
  }

  lemma LabelDecodes(buf: seq<Byte>, pos: nat, s: Name, hops: nat)
    requires GoodName(s)
    requires var d := FirstLabel(s);
             && pos + 1 + d < |buf| && buf[pos] == d && buf[pos + 1..pos + 1 + d] == s[..d]
             && (if d == |s| then buf[pos + 1 + d] == 0
                 else DecName(buf, pos + 1 + d, hops) == Some(AfterDot(s)))
    ensures DecName(buf, pos, hops) == Some(s)
    ensures NameEnd(buf, pos) == NameEnd(buf, pos + 1 + FirstLabel(s))
  {
    var d := FirstLabel(s);
    if d < |s| {
      assert s == s[..d] + [DOT] + AfterDot(s);
      assert GoodLabels(AfterDot(s));
      assert AfterDot(s) != [];
    } else {
      assert s[..d] == s;
    }
  }

  /** The case split of `encodeName`: how the result follows from the rest of the name. */
  lemma EmitNameCases(z: bool, o: Out, s: Name)
    ensures z && s in o.tab ==>
              EmitName(z, o, s) == Out(o.bytes + Put16(PointerTo(o.tab[s])), o.tab)
    ensures !(z && s in o.tab) && FirstLabel(s) == |s| ==>
              EmitName(z, o, s) == Out(AfterLabel(z, o, s).bytes + [0], AfterLabel(z, o, s).tab)
    ensures !(z && s in o.tab) && FirstLabel(s) < |s| ==>
              EmitName(z, o, s) == EmitName(z, AfterLabel(z, o, s), AfterDot(s))
  {
    var d := FirstLabel(s);
    if d == |s| {
      assert s[..d] == s;
      assert o.bytes + ([LengthOctet(d)] + s + [0]) == o.bytes + ([LengthOctet(d)] + s) + [0];
    }
  }

  lemma SoundUpToRest(o: Out, s: Name, start: nat)
    requires FirstLabel(s) < |s| && s !in o.tab && SoundUpTo(o, s, start)
    ensures SoundUpTo(AfterLabel(true, o, s), AfterDot(s), start)
  {
    var o' := AfterLabel(true, o, s);
    var d := FirstLabel(s);
    forall t | t in o'.tab && |t| <= |AfterDot(s)|
      ensures EntrySound(o'.bytes, t, o'.tab[t]) && o'.tab[t] < start
    {
      EntryStable(o.bytes, [LengthOctet(d)] + s[..d], t, o.tab[t]);
    }
  }

  /** The octets of one label are where they were put, whatever follows them. */
  lemma LabelInPlace(z: bool, o: Out, s: Name, b: seq<Byte>)
    requires var o' := AfterLabel(z, o, s); |o'.bytes| <= |b| && b[..|o'.bytes|] == o'.bytes
    ensures var d := FirstLabel(s);
            && |AfterLabel(z, o, s).bytes| == |o.bytes| + 1 + d
            && b[|o.bytes|] == LengthOctet(d) && b[|o.bytes| + 1..|o.bytes| + 1 + d] == s[..d]
  {
    var o' := AfterLabel(z, o, s);
    var d := FirstLabel(s);
    assert b[|o.bytes|] == o'.bytes[|o.bytes|];
    assert b[|o.bytes| + 1..|o'.bytes|] == o'.bytes[|o.bytes| + 1..] == s[..d];
  }

  /** What one `encodeName` call promises about its result r. */
  ghost predicate Emitted(o: Out, r: Out, s: Name, start: nat) {
    && |o.bytes| <= |r.bytes|
    && r.bytes[..|o.bytes|] == o.bytes
    && DecName(r.bytes, |o.bytes|, start) == Some(s)
    && NameEnd(r.bytes, |o.bytes|) == |r.bytes|
    && PointsBack(r.bytes, |o.bytes|, start)
    && AddsSound(o, r)
  }

  lemma LabelThenRest(z: bool, o: Out, s: Name, b: seq<Byte>, start: nat)
    requires GoodName(s)
    requires var o' := AfterLabel(z, o, s); |o'.bytes| < |b| && b[..|o'.bytes|] == o'.bytes
    requires var o' := AfterLabel(z, o, s);
             if FirstLabel(s) == |s| then b[|o'.bytes|] == 0
             else DecName(b, |o'.bytes|, start) == Some(AfterDot(s)) && PointsBack(b, |o'.bytes|, start)
    ensures b[..|o.bytes|] == o.bytes && IsLabel(b[|o.bytes|])
    ensures DecName(b, |o.bytes|, start) == Some(s) && PointsBack(b, |o.bytes|, start)
    ensures NameEnd(b, |o.bytes|) == NameEnd(b, |AfterLabel(z, o, s).bytes|)
  {
    var o' := AfterLabel(z, o, s);
    assert b[..|o.bytes|] == o'.bytes[..|o.bytes|];
    LabelInPlace(z, o, s, b);
    LabelDecodes(b, |o.bytes|, s, start);
  }

  /** Once the octets after the first label are right, the whole name and the entry that was
      registered ahead of them are right. */
  lemma LabelCompletes(z: bool, o: Out, s: Name, r: Out, start: nat)
    requires GoodName(s) && start <= |o.bytes| && !(z && s in o.tab)
    requires z ==> |r.bytes| <= 0x4000
    requires var o' := AfterLabel(z, o, s);
             if FirstLabel(s) == |s| then r == Out(o'.bytes + [0], o'.tab)
             else Emitted(o', r, AfterDot(s), start)
    ensures Emitted(o, r, s, start)
  {
    var o' := AfterLabel(z, o, s);
    assert o'.bytes == r.bytes[..|o'.bytes|];
    if FirstLabel(s) < |s| {
      assert |o'.bytes| < |r.bytes| by {
        var _ := DecName(r.bytes, |o'.bytes|, start);
      }
    }
    LabelThenRest(z, o, s, r.bytes, start);
    DecNameMoreHops(r.bytes, |o.bytes|, start, |o.bytes|);
    assert AddsSound(o, r) by {
      if z {
        assert |o.bytes| < 0x4000;
        assert EntrySound(r.bytes, s, |o.bytes|);
        assert s in r.tab && r.tab[s] == |o.bytes|;
      } else {
        assert o'.tab == o.tab;
      }
    }
  }

  /** One `encodeName` call from a sound table: the name decodes where it was written, reading stops
      where writing stopped, every pointer on the way leads below `start` (so the decoder's recursion
      terminates), old entries are kept and every suffix registered on the way is sound, even
      though each was registered before its octets were complete. */
  lemma {:induction false} EmitNameSound(z: bool, o: Out, s: Name, start: nat)
    requires GoodName(s) && start <= |o.bytes|
    requires z ==> SoundUpTo(o, s, start) && |EmitName(z, o, s).bytes| <= 0x4000
    ensures Emitted(o, EmitName(z, o, s), s, start)
    decreases |s|
  {
    EmitNameCases(z, o, s);
    if z && s in o.tab {
      PointerDecodes(o, s, start);
    } else {
      if FirstLabel(s) < |s| {
        if z {
          SoundUpToRest(o, s, start);
        }
        EmitNameSound(z, AfterLabel(z, o, s), AfterDot(s), start);
      }
      LabelCompletes(z, o, s, EmitName(z, o, s), start);
    }
  }

  lemma EmittedKeepsTableSound(o: Out, r: Out)
    requires TableSound(o) && AddsSound(o, r)
    requires |o.bytes| <= |r.bytes| && r.bytes[..|o.bytes|] == o.bytes
    ensures TableSound(r)
  {
    forall t | t in r.tab ensures EntrySound(r.bytes, t, r.tab[t]) {
      if t in o.tab {
        assert r.bytes == o.bytes + r.bytes[|o.bytes|..];
        EntryStable(o.bytes, r.bytes[|o.bytes|..], t, o.tab[t]);
      }
    }
  }

  // ---- Pointers hold 14 bits --------------------------------------------------------------

  /** A pointer leads back to the registered offset exactly when the offset fits 14 bits. */
  lemma PointerFits(o: Out, s: Name)
    requires s in o.tab
    ensures var b := o.bytes + Put16(PointerTo(o.tab[s]));
            b[|o.bytes|] >= 0xc0 && (Target(b, |o.bytes|) == o.tab[s] <==> o.tab[s] < 0x4000)
  {
    var p := Put16(PointerTo(o.tab[s]));
    var b := o.bytes + p;
    assert b[|o.bytes|] == p[0] && b[|o.bytes| + 1] == p[1];
    assert Target(b, |o.bytes|) == o.tab[s] % 0x4000;
  }

  // ---- What is written, without the run -----------------------------------------------------

  /** The octets of s when the keys of tab can be pointed at. */
  function NameOctets(z: bool, tab: Table, s: Name): (r: seq<Byte>)
    ensures 2 <= |r| <= |s| + 2
    decreases |s|
  {
    var d := FirstLabel(s);
    if z && s in tab then Put16(PointerTo(tab[s]))
    else if d == |s| then [LengthOctet(d)] + s + [0]
    else [LengthOctet(d)] + s[..d] + NameOctets(z, tab, AfterDot(s))
  }

  lemma {:induction false} OctetsIgnoreLonger(z: bool, tab: Table, s: Name, o: U16, t: Name)
    requires |t| < |s|
    ensures NameOctets(z, tab[s := o], t) == NameOctets(z, tab, t)
    decreases |t|
  {
    if FirstLabel(t) < |t| {
      OctetsIgnoreLonger(z, tab, s, o, AfterDot(t));
    }
  }

  /** A call appends exactly the octets that the table at its start calls for: entries registered by
      the call itself never shorten it, and nothing already written changes. */
  lemma {:induction false} EmitNameOctets(z: bool, o: Out, s: Name)
    ensures EmitName(z, o, s).bytes == o.bytes + NameOctets(z, o.tab, s)
    decreases |s|
  {
    if !(z && s in o.tab) && FirstLabel(s) < |s| {
      var o' := AfterLabel(z, o, s);
      var d := FirstLabel(s);
      EmitNameOctets(z, o', AfterDot(s));
      if z {
        OctetsIgnoreLonger(z, o.tab, s, Offset(|o.bytes|), AfterDot(s));
      }
      var tail := NameOctets(z, o.tab, AfterDot(s));
      assert o.bytes + ([LengthOctet(d)] + s[..d]) + tail == o.bytes + ([LengthOctet(d)] + s[..d] + tail);
    }
  }

  lemma {:induction false} PlainSize(tab: Table, s: Name)
    ensures |NameOctets(false, tab, s)| == |s| + 2
    decreases |s|
  {
    if FirstLabel(s) < |s| {
      PlainSize(tab, AfterDot(s));
    }
  }

  /** The table depends on the octets before the name only through their number. */
  lemma {:induction false} EmitNameTable(z: bool, o: Out, o2: Out, s: Name)
    requires |o.bytes| == |o2.bytes| && o.tab == o2.tab
    ensures EmitName(z, o2, s).tab == EmitName(z, o, s).tab
    decreases |s|
  {
    if !(z && s in o.tab) && FirstLabel(s) < |s| {
      EmitNameTable(z, AfterLabel(z, o, s), AfterLabel(z, o2, s), AfterDot(s));
    }
  }

  lemma {:induction false} SuffixOfSuffix(s: Name, t: Name)
    requires t in LabelSuffixes(s)
    ensures LabelSuffixes(t) <= LabelSuffixes(s) && |t| <= |s|
    decreases |s|
  {
    if t != s {
      SuffixOfSuffix(AfterDot(s), t);
    }
  }

  // ---- Exactly which names survive --------------------------------------------------------

  /** With an empty table, COMPRESS or not, a name never meets a pointer. */
  lemma {:induction false} FirstNamePlain(z: bool, s: Name)
    ensures NameOctets(z, map[], s) == NameOctets(false, map[], s)
    ensures |NameOctets(z, map[], s)| == |s| + 2
    decreases |s|
  {
    if FirstLabel(s) < |s| {
      FirstNamePlain(z, AfterDot(s));
    }
  }

  /** Octets `pre` followed by s spelled out plainly. */
  function Spelled(pre: seq<Byte>, s: Name): seq<Byte> {
    pre + NameOctets(false, map[], s)
  }

  /** Octets `pre` followed by the first label of s. */
  function WithLabel(pre: seq<Byte>, s: Name): (w: seq<Byte>)
    ensures |w| == |pre| + 1 + FirstLabel(s)
  {
    pre + ([LengthOctet(FirstLabel(s))] + s[..FirstLabel(s)])
  }

  lemma SpelledByLabels(pre: seq<Byte>, s: Name)
    ensures |Spelled(pre, s)| == |pre| + |s| + 2
    ensures FirstLabel(s) == |s| ==> Spelled(pre, s) == WithLabel(pre, s) + [0]
    ensures FirstLabel(s) < |s| ==> Spelled(pre, s) == Spelled(WithLabel(pre, s), AfterDot(s))
  {
    FirstNamePlain(false, s);
    var d := FirstLabel(s);
    if d == |s| {
      assert s[..d] == s;
      assert pre + ([LengthOctet(d)] + s + [0]) == pre + ([LengthOctet(d)] + s) + [0];
    } else {
      var tail := NameOctets(false, map[], AfterDot(s));
      assert pre + ([LengthOctet(d)] + s[..d] + tail) == pre + ([LengthOctet(d)] + s[..d]) + tail;
    }
  }

  /** The octet that the decoder takes for a label length, and the one it finds after that label. */
  lemma SpelledAt(pre: seq<Byte>, s: Name)
    ensures var b, d := Spelled(pre, s), FirstLabel(s);
            var n := LengthOctet(d);
            b[|pre|] == n && (n < d ==> b[|pre| + 1 + n] == s[n])
  {
    SpelledByLabels(pre, s);
    hide NameOctets, DotFrom;
    var b, n := Spelled(pre, s), LengthOctet(FirstLabel(s));
    var w := WithLabel(pre, s);
    assert b[|pre|] == w[|pre|];
    if n < FirstLabel(s) {
      assert b[|pre| + 1 + n] == w[|pre| + 1 + n];
    }
  }

  /** The plain octets of s after `pre` decode to s and are read to their end. */
  ghost predicate Survives(pre: seq<Byte>, s: Name, later: seq<Byte>, hops: nat) {
    var b := Spelled(pre, s) + later;
    DecName(b, |pre|, hops) == Some(s) && NameEnd(b, |pre|) == |pre| + |s| + 2
  }

  lemma SurvivesStep(pre: seq<Byte>, s: Name, later: seq<Byte>, hops: nat)
    requires 0 !in s && Survives(pre, s, later, hops)
    ensures 1 <= FirstLabel(s) <= MAX_LABEL
    ensures FirstLabel(s) < |s| ==> 0 !in AfterDot(s) && Survives(WithLabel(pre, s), AfterDot(s), later, hops)
  {
    hide DecName, NameEnd, NameOctets, DotFrom, Spelled, WithLabel;
    SpelledByLabels(pre, s);
    SpelledAt(pre, s);
    var b := Spelled(pre, s) + later;
    DecNameFirstOctet(b, |pre|, hops);
    DecNameLabel(b, |pre|, hops);
    if b[|pre|] < |s| {
      FirstDot(s, 0, b[|pre|]);
    }
  }

  lemma {:induction false} OnlyGoodNamesSurvive(pre: seq<Byte>, s: Name, later: seq<Byte>, hops: nat)
    requires 0 !in s && Survives(pre, s, later, hops)
    ensures GoodLabels(s)
    decreases |s|
  {
    hide DecName, NameEnd, NameOctets, DotFrom, Spelled, WithLabel;
    SurvivesStep(pre, s, later, hops);
    if FirstLabel(s) < |s| {
      OnlyGoodNamesSurvive(WithLabel(pre, s), AfterDot(s), later, hops);
    }
  }

  /** The string s is read back from pos, up to the last octet of w, also when more octets follow w. */
  ghost predicate ReadsBack(w: seq<Byte>, later: seq<Byte>, pos: nat, s: Name) {
    NameEnd(w + later, pos) == |w| && exists hops :: DecName(w + later, pos, hops) == Some(s)
  }

  /** Without compression a name is read back, up to its last octet, exactly when it is good: not empty, no empty label,
      no label over 191 octets. */
  lemma PlainNameRoundTrip(pre: seq<Byte>, s: Name, later: seq<Byte>)
    requires 0 !in s
    ensures GoodName(s) <==> ReadsBack(EmitName(false, Out(pre, map[]), s).bytes, later, |pre|, s)
  {
    hide DecName, NameEnd, EmitName;
    var o := Out(pre, map[]);
    EmitNameOctets(false, o, s);
    FirstNamePlain(false, s);
    var w := EmitName(false, o, s).bytes;
    assert w == Spelled(pre, s);
    if GoodName(s) {
      EmitNameSound(false, o, s, |pre|);
      DecNameStable(w, later, |pre|, |pre|);
    }
    if ReadsBack(w, later, |pre|, s) {
      var hops :| DecName(w + later, |pre|, hops) == Some(s);
      assert Survives(pre, s, later, hops);
      OnlyGoodNamesSurvive(pre, s, later, hops);
    }
  }

  // ---- No shorter encoding exists -------------------------------------------------------------

  lemma {:induction false} GoodAfterAnyDot(s: Name, n: nat)
    requires GoodLabels(s) && n < |s| && s[n] == DOT
    ensures GoodLabels(s[n + 1..])
    decreases |s|
  {
    var d := FirstLabel(s);
    FirstDot(s, 0, n);
    if n > d {
      assert AfterDot(s)[n - d - 1] == s[n];
      GoodAfterAnyDot(AfterDot(s), n - d - 1);
      assert AfterDot(s)[n - d..] == s[n + 1..];
    }
  }

  /** Spelling out a prefix that ends in a dot, then the rest, never beats the encoder. */
  lemma {:induction false} SpellingNeverWins(tab: Table, s: Name, n: nat)
    requires n < |s| && s[n] == DOT
    ensures |NameOctets(true, tab, s)| <= n + 1 + |NameOctets(true, tab, s[n + 1..])|
    decreases |s|
  {
    var d := FirstLabel(s);
    FirstDot(s, 0, n);
    if s !in tab && n > d {
      assert AfterDot(s)[n - d - 1] == s[n];
      SpellingNeverWins(tab, AfterDot(s), n - d - 1);
      assert AfterDot(s)[n - d..] == s[n + 1..];
    }
  }

  /** The pointer that ends the encoding at pos, if there is one, leads to a registered offset. */
  ghost predicate UsesRegistered(b: seq<Byte>, pos: nat, tab: Table)
    decreases |b| - pos
  {
    if pos + 1 >= |b| || b[pos] == 0 then true
    else if b[pos] >= 0xc0 then exists t :: t in tab && tab[t] == Target(b, pos)
    else UsesRegistered(b, pos + 1 + b[pos], tab)
  }

  lemma {:induction false} Shortest(b: seq<Byte>, pos: nat, s: Name, hops: nat, tab: Table)
    requires GoodLabels(s) && DecName(b, pos, hops) == Some(s) && UsesRegistered(b, pos, tab)
    requires forall t | t in tab :: EntrySound(b, t, tab[t])
    ensures pos + |NameOctets(true, tab, s)| <= NameEnd(b, pos)
    decreases |s|, |b| - pos
  {
    var n := b[pos];
    if n >= 0xc0 {
      RegisteredTarget(b, pos, s, hops, tab);
    } else {
      DecNameLabel(b, pos, hops);
      hide DecName, NameEnd, NameOctets;
      if n < |s| {
        GoodAfterAnyDot(s, n);
        Shortest(b, pos + 1 + n, s[n + 1..], hops, tab);
        SpellingNeverWins(tab, s, n);
      }
    }
  }

  lemma RegisteredTarget(b: seq<Byte>, pos: nat, s: Name, hops: nat, tab: Table)
    requires DecName(b, pos, hops) == Some(s) && UsesRegistered(b, pos, tab) && b[pos] >= 0xc0
    requires forall t | t in tab :: EntrySound(b, t, tab[t])
    ensures s in tab && NameEnd(b, pos) == pos + 2
  {
    DecNameFirstOctet(b, pos, hops);
    var t :| t in tab && tab[t] == Target(b, pos);
    hide DecName, NameEnd, Target;
    DecNameMoreHops(b, tab[t], hops - 1, hops + tab[t]);
    DecNameMoreHops(b, tab[t], tab[t], hops + tab[t]);
  }

  /** Greedy is optimal: whatever octets `other` decode to s after the same run, using at most one
      pointer to a registered offset, they are no fewer than the encoder's. */
  lemma EmitNameShortest(o: Out, s: Name, other: seq<Byte>, hops: nat)
    requires GoodName(s) && TableSound(o)
    requires var b := o.bytes + other;
             && DecName(b, |o.bytes|, hops) == Some(s) && NameEnd(b, |o.bytes|) == |b|
             && UsesRegistered(b, |o.bytes|, o.tab)
    ensures |EmitName(true, o, s).bytes| <= |o.bytes + other|
  {
    forall t | t in o.tab ensures EntrySound(o.bytes + other, t, o.tab[t]) {
      EntryStable(o.bytes, other, t, o.tab[t]);
    }
    Shortest(o.bytes + other, |o.bytes|, s, hops, o.tab);
    EmitNameOctets(true, o, s);
  }
}

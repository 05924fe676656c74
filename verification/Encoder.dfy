/** The encoder of message/message.c as it runs: pointers through a buffer that is written in place, label
    lengths and RDLENGTH patched in afterwards, and a hash table of the suffixes met so far. */
module Encoder {
  import opened Bytes
  import HashTable
  import opened NameCodec
  import opened Messages
  import opened MessageObject
  import Flags

  type SuffixTable = HashTable.HashTab<U16>

  /** The table can be searched and inserted into, and the buffer is none of its objects. */
  ghost predicate Ready(ht: SuffixTable, buff: array<Byte>)
    reads ht, ht.Repr
  {
    ht.Valid() && ht.len >= 1 && buff !in ht.Repr
  }

  /** What has been written below p, and the table. */
  ghost function Written(buff: array<Byte>, p: nat, ht: SuffixTable): Out
    requires p <= buff.Length
    reads buff, ht
  {
    Out(buff[..p], ht.Contents)
  }

  /** `getPos`: the pointer for a name that is in the table, or 0. */
  method GetPos(name: Name, ht: SuffixTable, ghost buff: array<Byte>) returns (w: U16)
    requires Ready(ht, buff)
    ensures w == if name in ht.Contents then PointerTo(ht.Contents[name]) else 0
  {
    var p := ht.Search(name);
    w := if p.Some? then PointerTo(p.value) else 0;
  }

  /** `*p = c`. */
  method Store8(buff: array<Byte>, p: nat, c: Byte, ghost ht: SuffixTable)
    requires Ready(ht, buff) && p < buff.Length
    modifies buff
    ensures buff[..] == old(buff[..])[p := c]
    ensures Ready(ht, buff) && ht.Repr == old(ht.Repr) && ht.Contents == old(ht.Contents)
  {
    hide HashTable.HashTab.Valid;
    buff[p] := c;
  }

  /** `*p = htons(x)`. */
  method Store16(buff: array<Byte>, p: nat, x: U16, ghost ht: SuffixTable)
    requires Ready(ht, buff) && p + 2 <= buff.Length
    modifies buff
    ensures buff[..] == old(buff[..p]) + Put16(x) + old(buff[p + 2..])
    ensures Ready(ht, buff) && ht.Repr == old(ht.Repr) && ht.Contents == old(ht.Contents)
  {
    hide HashTable.HashTab.Valid;
    buff[p] := x / 0x100;
    buff[p + 1] := x % 0x100;
  }

  /** At the end of a label: register what starts with it, and patch its length in. */
  method CloseLabel(z: bool, rest: Name, buff: array<Byte>, num: nat, cnt: Byte, ht: SuffixTable)
    requires Ready(ht, buff) && (z ==> |rest| < HashTable.KEY_MAX)
    requires num + 1 + FirstLabel(rest) <= buff.Length && cnt == LengthOctet(FirstLabel(rest))
    requires buff[num + 1..num + 1 + FirstLabel(rest)] == rest[..FirstLabel(rest)]
    modifies buff, ht.Repr
    ensures Ready(ht, buff) && forall o | o in ht.Repr :: o in old(ht.Repr) || fresh(o)
    ensures Written(buff, num + 1 + FirstLabel(rest), ht) == AfterLabel(z, old(Written(buff, num, ht)), rest)
    ensures buff[num + 1 + FirstLabel(rest)..] == old(buff[num + 1 + FirstLabel(rest)..])
  {
    hide HashTable.HashTab.Valid, DotFrom, HashTable.HashTab.Faithful;
    ghost var was, d := buff[..], FirstLabel(rest);
    if z {
      ht.Insert(rest, Offset(num));
    }
    buff[num] := cnt;
    assert buff[..num + 1 + d] == was[..num] + ([cnt] + was[num + 1..num + 1 + d]);
    assert buff[num + 1 + d..] == was[num + 1 + d..];
  }

  /** The state of the loop of `encodeName`: the label that starts at `from` has been copied up to i. */
  ghost predicate Copying(z: bool, o: Out, name: Name, b: seq<Byte>, tab: Table, from: nat, i: nat, num: nat, p: nat)
  {
    && from <= i <= |name| && |o.bytes| <= num && p == num + 1 + (i - from) && p + (|name| - i) < |b|
    && b[num + 1..p] == name[from..i]
    && DotFrom(name[from..], 0) == DotFrom(name[from..], i - from)
    && EmitName(z, o, name) == EmitName(z, Out(b[..num], tab), name[from..])
    && (z ==> name[from..] !in tab)
  }

  /** At the first octet of a label whose suffix is not in the table. */
  lemma CopyStart(z: bool, o: Out, name: Name, b: seq<Byte>, tab: Table, from: nat, num: nat)
    requires from <= |name| && |o.bytes| <= num && num + 1 + (|name| - from) < |b|
    requires EmitName(z, o, name) == EmitName(z, Out(b[..num], tab), name[from..])
    requires z ==> name[from..] !in tab
    ensures Copying(z, o, name, b, tab, from, from, num, num + 1)
  {
    hide EmitName;
  }

  /** Where the suffix is in the table, a pointer ends the name. */
  lemma PointerEnds(o: Out, name: Name, b: seq<Byte>, tab: Table, from: nat, num: nat)
    requires from <= |name| && num + 2 <= |b| && name[from..] in tab
    requires EmitName(true, o, name) == EmitName(true, Out(b[..num], tab), name[from..])
    ensures EmitName(true, o, name) == Out(b[..num] + Put16(PointerTo(tab[name[from..]])), tab)
  {
    EmitNameCases(true, Out(b[..num], tab), name[from..]);
  }

  lemma NextLength(n: nat)
    ensures LengthOctet(LengthOctet(n) as int + 1) == LengthOctet(n + 1)
  {
  }

  /** Copying one octet. */
  lemma CopyOne(z: bool, o: Out, name: Name, b: seq<Byte>, tab: Table, from: nat, i: nat, num: nat, p: nat)
    requires Copying(z, o, name, b, tab, from, i, num, p) && i < |name| && name[i] != DOT
    ensures Copying(z, o, name, b[p := name[i]], tab, from, i + 1, num, p + 1)
  {
    hide EmitName;
    var b' := b[p := name[i]];
    assert b'[..num] == b[..num];
    assert b'[num + 1..p + 1] == b[num + 1..p] + [name[i]];
    assert name[from..][i - from] == name[i];
  }

  function Ended(z: bool, o: Out, name: Name, i: nat): Out
    requires i <= |name|
  {
    if i < |name| then EmitName(z, o, name[i + 1..]) else Out(o.bytes + [0], o.tab)
  }

  /** Where a dot or the end is met, the label is complete. */
  lemma LabelEnds(z: bool, o: Out, name: Name, b: seq<Byte>, tab: Table, from: nat, i: nat, num: nat, p: nat)
    requires Copying(z, o, name, b, tab, from, i, num, p) && (i < |name| ==> name[i] == DOT)
    ensures FirstLabel(name[from..]) == i - from && p == num + 1 + FirstLabel(name[from..])
    ensures b[num + 1..p] == name[from..][..i - from]
    ensures i < |name| ==> AfterDot(name[from..]) == name[i + 1..]
    ensures EmitName(z, o, name) == Ended(z, AfterLabel(z, Out(b[..num], tab), name[from..]), name, i)
  {
    hide EmitName;
    var rest := name[from..];
    assert i < |name| ==> rest[i - from] == DOT;
    EmitNameCases(z, Out(b[..num], tab), rest);
  }

  /** At a dot: close the label; then either a pointer ends the name, or the next label begins. */
  method AtDot(z: bool, ghost o: Out, name: Name, buff: array<Byte>, last: nat, i: nat, num: nat, p: nat, cnt: Byte,
               ht: SuffixTable) returns (pos: U16)
    requires Ready(ht, buff) && (z ==> |name| < HashTable.KEY_MAX)
    requires Copying(z, o, name, buff[..], ht.Contents, last, i, num, p) && last <= i < |name| && name[i] == DOT
    requires p == num + 1 + (i - last) && p + 2 <= buff.Length && cnt == LengthOctet(i - last)
    modifies buff, ht.Repr
    ensures Ready(ht, buff) && forall o | o in ht.Repr :: o in old(ht.Repr) || fresh(o)
    ensures pos == 0 ==>
              && Copying(z, o, name, buff[..], ht.Contents, i + 1, i + 1, p, p + 1)
              && buff[p + 1..] == old(buff[p + 1..])
    ensures pos != 0 ==> Written(buff, p + 2, ht) == EmitName(z, o, name) && buff[p + 2..] == old(buff[p + 2..])
  {
    hide HashTable.HashTab.Valid, HashTable.HashTab.Faithful, EmitName, DotFrom, AfterLabel, Ready;
    ghost var was := buff[..];
    LabelEnds(z, o, name, buff[..], ht.Contents, last, i, num, p);
    hide Copying;
    CloseLabel(z, name[last..], buff, num, cnt, ht);
    assert buff[p + 1..] == buff[p..][1..] == was[p..][1..] == was[p + 1..];
    pos := 0;
    if z {
      pos := GetPos(name[i + 1..], ht, buff);
      if pos != 0 {
        PointerEnds(o, name, buff[..], ht.Contents, i + 1, p);
        Store16(buff, p, pos, ht);
        assert buff[p + 2..] == was[p + 1..][1..];
        return;
      }
    }
    CopyStart(z, o, name, buff[..], ht.Contents, i + 1, p);
  }

  /** `encodeName`: the name is written at start, as the table allows, and n octets are used up. */
  method EncodeName(z: bool, name: Name, buff: array<Byte>, start: nat, ht: SuffixTable) returns (n: nat)
    requires Ready(ht, buff) && (z ==> |name| < HashTable.KEY_MAX) && start + |name| + 2 <= buff.Length
    modifies buff, ht.Repr
    ensures Ready(ht, buff) && forall o | o in ht.Repr :: o in old(ht.Repr) || fresh(o)
    ensures start + n <= buff.Length && n <= |name| + 2
    ensures Written(buff, start + n, ht) == EmitName(z, old(Written(buff, start, ht)), name)
    ensures buff[start + n..] == old(buff[start + n..])
  {
    hide HashTable.HashTab.Valid, HashTable.HashTab.Faithful, EmitName, DotFrom, Copying, AfterLabel, Ready;
    ghost var o, was := Written(buff, start, ht), buff[..];
    var num: nat, p: nat, i: nat, cnt: Byte := start, start + 1, 0, 0;
    var last: nat := 0;
    assert name[0..] == name;
    if z {
      var pos := GetPos(name, ht, buff);
      if pos != 0 {
        PointerEnds(o, name, buff[..], ht.Contents, 0, num);
        Store16(buff, start, pos, ht);
        return 2;
      }
    }
    CopyStart(z, o, name, buff[..], ht.Contents, 0, num);
    while i < |name|
      invariant Ready(ht, buff) && forall o | o in ht.Repr :: o in old(ht.Repr) || fresh(o)
      invariant Copying(z, o, name, buff[..], ht.Contents, last, i, num, p)
      invariant last <= i <= |name| && num == start + last && p == start + 1 + i < buff.Length
      invariant cnt == LengthOctet(i - last)
      invariant buff[p..] == was[p..]
    {
      if name[i] == DOT {
        var pos := AtDot(z, o, name, buff, last, i, num, p, cnt, ht);
        assert was[p + 1..] == was[p..][1..] && was[p + 2..] == was[p..][2..];
        if pos != 0 {
          return p - start + 2;
        }
        num, p, cnt, i := p, p + 1, 0, i + 1;
        last := i;
      } else {
        CopyOne(z, o, name, buff[..], ht.Contents, last, i, num, p);
        NextLength(i - last);
        Store8(buff, p, name[i], ht);
        p, i, cnt := p + 1, i + 1, LengthOctet(cnt as int + 1);
      }
    }
    AtEnd(z, o, name, buff, last, num, p, cnt, ht);
    n := p + 1 - start;
    assert was[p + 1..] == was[p..][1..];
  }

  /** At the end of the name: close the last label and write the final zero. */
  method AtEnd(z: bool, ghost o: Out, name: Name, buff: array<Byte>, last: nat, num: nat, p: nat, cnt: Byte, ht: SuffixTable)
    requires Ready(ht, buff) && (z ==> |name| < HashTable.KEY_MAX) && last <= |name|
    requires Copying(z, o, name, buff[..], ht.Contents, last, |name|, num, p)
    requires p == num + 1 + (|name| - last) < buff.Length && cnt == LengthOctet(|name| - last)
    modifies buff, ht.Repr
    ensures Ready(ht, buff) && forall o | o in ht.Repr :: o in old(ht.Repr) || fresh(o)
    ensures Written(buff, p + 1, ht) == EmitName(z, o, name) && buff[p + 1..] == old(buff[p..])[1..]
  {
    hide HashTable.HashTab.Valid, HashTable.HashTab.Faithful, EmitName, DotFrom, AfterLabel, Ready;
    LabelEnds(z, o, name, buff[..], ht.Contents, last, |name|, num, p);
    hide Copying;
    CloseLabel(z, name[last..], buff, num, cnt, ht);
    label closed:
    Store8(buff, p, 0, ht);
    assert buff[..p + 1] == old@closed(buff[..p]) + [0] && buff[p + 1..] == old@closed(buff[p..])[1..];
  }

  // ---- Questions and records ------------------------------------------------------------------------------

  /** `*t++ = htons(a); *t++ = htons(b)` at p. */
  method StorePair(buff: array<Byte>, p: nat, a: U16, b: U16, ghost ht: SuffixTable)
    requires Ready(ht, buff) && p + 4 <= buff.Length
    modifies buff
    ensures Ready(ht, buff) && ht.Repr == old(ht.Repr)
    ensures Written(buff, p + 4, ht) == Append(old(Written(buff, p, ht)), Put16(a) + Put16(b))
  {
    hide Ready, Put16;
    Store16(buff, p, a, ht);
    assert buff[..p + 2] == old(buff[..p]) + Put16(a);
    Store16(buff, p + 2, b, ht);
    assert buff[..p + 4] == old(buff[..p]) + Put16(a) + Put16(b);
  }

  /** `encodeQues`. */
  method EncodeQuestion(z: bool, q: Question, buff: array<Byte>, start: nat, ht: SuffixTable) returns (n: nat)
    requires Ready(ht, buff) && (z ==> |q.name| < HashTable.KEY_MAX) && start + |q.name| + 6 <= buff.Length
    modifies buff, ht.Repr
    ensures Ready(ht, buff) && forall o | o in ht.Repr :: o in old(ht.Repr) || fresh(o)
    ensures n <= |q.name| + 6 && Written(buff, start + n, ht) == EmitQuestion(z, old(Written(buff, start, ht)), q)
  {
    hide Ready, EmitName, Put16;
    n := EncodeName(z, q.name, buff, start, ht);
    StorePair(buff, start + n, q.qtype, q.qclass, ht);
    n := n + 4;
  }

  /** `*(uint32_t *)t = htonl(x)` at p. */
  method Store32(buff: array<Byte>, p: nat, x: U32, ghost ht: SuffixTable)
    requires Ready(ht, buff) && p + 4 <= buff.Length
    modifies buff
    ensures Ready(ht, buff) && ht.Repr == old(ht.Repr)
    ensures Written(buff, p + 4, ht) == Append(old(Written(buff, p, ht)), Put32(x))
  {
    hide HashTable.HashTab.Valid;
    var w := Put32(x);
    hide Put32;
    buff[p], buff[p + 1], buff[p + 2], buff[p + 3] := w[0], w[1], w[2], w[3];
  }

  /** `memcpy(t, data, |data|)`. */
  method StoreAll(buff: array<Byte>, p: nat, data: seq<Byte>, ghost ht: SuffixTable)
    requires Ready(ht, buff) && p + |data| <= buff.Length
    modifies buff
    ensures Ready(ht, buff) && ht.Repr == old(ht.Repr)
    ensures Written(buff, p + |data|, ht) == Append(old(Written(buff, p, ht)), data)
  {
    hide HashTable.HashTab.Valid;
    var i := 0;
    while i < |data|
      invariant 0 <= i <= |data| && Ready(ht, buff) && ht.Repr == old(ht.Repr) && ht.Contents == old(ht.Contents)
      invariant buff[..p + i] == old(buff[..p]) + data[..i]
    {
      Store8(buff, p + i, data[i], ht);
      i := i + 1;
      assert buff[..p + i] == old(buff[..p]) + data[..i];
    }
    assert data[..i] == data;
  }

  /** TYPE, CLASS and TTL. */
  method StoreFixed(buff: array<Byte>, p: nat, rr: RR, ghost ht: SuffixTable)
    requires Ready(ht, buff) && p + 8 <= buff.Length
    modifies buff
    ensures Ready(ht, buff) && ht.Repr == old(ht.Repr)
    ensures Written(buff, p + 8, ht)
         == Append(old(Written(buff, p, ht)), Put16(rr.rtype) + Put16(rr.rclass) + Put32(rr.ttl))
  {
    hide Ready, Put16, Put32;
    StorePair(buff, p, rr.rtype, rr.rclass, ht);
    Store32(buff, p + 4, rr.ttl, ht);
  }

  /** Octets that a record needs at most. */
  function RRRoom(rr: RR): nat {
    |rr.name| + 12 + match rr.payload case Raw(data) => |data| case Text(t) => |t| + 2
  }

  /** Keys that the hash table stores whole. */
  predicate ShortNames(rr: RR) {
    |rr.name| < HashTable.KEY_MAX && (rr.payload.Text? ==> |rr.payload.name| < HashTable.KEY_MAX)
  }

  /** The octets before a name do not matter for what is written of it, only their number does. */
  lemma PatchedBefore(z: bool, a: Out, b: Out, s: Name)
    requires |a.bytes| == |b.bytes| && a.tab == b.tab
    ensures EmitName(z, a, s).bytes == a.bytes + NameOctets(z, a.tab, s)
    ensures EmitName(z, b, s) == Out(b.bytes + NameOctets(z, a.tab, s), EmitName(z, a, s).tab)
  {
    EmitNameOctets(z, a, s);
    EmitNameOctets(z, b, s);
    EmitNameTable(z, a, b, s);
  }

  /** RDATA that is a name: written two octets ahead of RDLENGTH, which is then patched in. */
  method EncodeText(z: bool, t: Name, buff: array<Byte>, p: nat, ht: SuffixTable) returns (n: nat)
    requires Ready(ht, buff) && (z ==> |t| < HashTable.KEY_MAX) && p + |t| + 4 <= buff.Length && |t| + 2 < 0x1_0000
    modifies buff, ht.Repr
    ensures Ready(ht, buff) && forall o | o in ht.Repr :: o in old(ht.Repr) || fresh(o)
    ensures n == |NameOctets(z, old(ht.Contents), t)|
    ensures Written(buff, p + 2 + n, ht) == EmitName(z, Append(old(Written(buff, p, ht)), Put16(n)), t)
  {
    hide Ready, EmitName, NameOctets, Put16;
    ghost var o, gap := Written(buff, p, ht), Written(buff, p + 2, ht);
    n := EncodeName(z, t, buff, p + 2, ht);
    PatchedBefore(z, gap, gap, t);
    assert buff[..p] == o.bytes && buff[p + 2..p + 2 + n] == NameOctets(z, gap.tab, t) by {
      assert buff[..p + 2 + n][..p + 2] == gap.bytes;
    }
    PatchedBefore(z, gap, Append(o, Put16(n)), t);
    label written:
    Store16(buff, p, n, ht);
    assert buff[..p + 2 + n] == o.bytes + Put16(n) + NameOctets(z, gap.tab, t);
  }

  /** `encodeRR`: the record is written, and what it says of its length is made true. */
  method EncodeRR(z: bool, rr: RR, buff: array<Byte>, start: nat, ht: SuffixTable) returns (n: nat, sent: RR)
    requires Ready(ht, buff) && EncodableRR(rr) && (z ==> ShortNames(rr)) && start + RRRoom(rr) <= buff.Length
    modifies buff, ht.Repr
    ensures Ready(ht, buff) && forall o | o in ht.Repr :: o in old(ht.Repr) || fresh(o)
    ensures n <= RRRoom(rr) && sent == SentRR(z, old(Written(buff, start, ht)), rr)
    ensures Written(buff, start + n, ht) == EmitRR(z, old(Written(buff, start, ht)), rr)
  {
    hide Ready, EmitName, NameOctets, FixedPart, Put16, Put32;
    n := EncodeName(z, rr.name, buff, start, ht);
    ghost var o1 := Written(buff, start + n, ht);
    StoreFixed(buff, start + n, rr, ht);
    var t := start + n + 8;
    sent := rr;
    match rr.payload {
      case Raw(data) =>
        StoreRaw(rr.dataLength, data, buff, t, ht);
      case Text(text) =>
        var k := EncodeText(z, text, buff, t, ht);
        sent := rr.(dataLength := k);
    }
    n := n + 10 + sent.dataLength;
    AppendFixed(o1, rr, sent.dataLength);
  }

  lemma AppendFixed(o: Out, rr: RR, n: U16)
    ensures Append(Append(o, Put16(rr.rtype) + Put16(rr.rclass) + Put32(rr.ttl)), Put16(n)) == Append(o, FixedPart(rr, n))
  {
    AppendTwice(o, Put16(rr.rtype) + Put16(rr.rclass) + Put32(rr.ttl), Put16(n));
    hide Put16, Put32;
  }

  lemma AppendTwice(o: Out, a: seq<Byte>, b: seq<Byte>)
    ensures Append(Append(o, a), b) == Append(o, a + b)
  {
    assert o.bytes + a + b == o.bytes + (a + b);
  }

  /** RDLENGTH and RDATA that is not a name. */
  method StoreRaw(length: U16, data: seq<Byte>, buff: array<Byte>, p: nat, ghost ht: SuffixTable)
    requires Ready(ht, buff) && length == |data| && p + 2 + |data| <= buff.Length
    modifies buff
    ensures Ready(ht, buff) && ht.Repr == old(ht.Repr)
    ensures Written(buff, p + 2 + |data|, ht) == Append(Append(old(Written(buff, p, ht)), Put16(length)), data)
  {
    hide Ready, Put16;
    Store16(buff, p, length, ht);
    assert buff[..p + 2] == old(buff[..p]) + Put16(length);
    StoreAll(buff, p + 2, data, ht);
  }

  // ---- Messages --------------------------------------------------------------------------------------------

  /** `encodeHeader`. */
  method EncodeHeader(msg: Message, buff: array<Byte>, ghost ht: SuffixTable) returns (n: nat)
    requires Ready(ht, buff) && buff.Length >= HEADER_SIZE
    requires |msg.ques| < 0x1_0000 && forall i | 0 <= i < 3 :: |msg.records[i]| < 0x1_0000
    modifies buff
    ensures n == HEADER_SIZE && Ready(ht, buff) && ht.Repr == old(ht.Repr)
    ensures Written(buff, n, ht) == Out(Header(msg.Value()), old(ht.Contents))
  {
    hide Ready, Put16, Flags.ToOctets;
    ghost var m := msg.Value();
    Store16(buff, 0, msg.id, ht);
    assert buff[..2] == Put16(m.id);
    StoreAll(buff, 2, Flags.ToOctets(msg.flag), ht);
    StorePair(buff, 4, |msg.ques|, |msg.records[0]|, ht);
    StorePair(buff, 8, |msg.records[1]|, |msg.records[2]|, ht);
    n := 12;
    assert buff[..12] == Put16(m.id) + Flags.ToOctets(m.flag) + (Put16(|m.ques|) + Put16(|m.sections[0]|))
                       + (Put16(|m.sections[1]|) + Put16(|m.sections[2]|));
    assert buff[..12] == Header(m);
  }

  function QuestionsRoom(qs: seq<Question>): nat {
    if qs == [] then 0 else QuestionsRoom(qs[..|qs| - 1]) + |qs[|qs| - 1].name| + 6
  }

  function RRsRoom(rrs: seq<RR>): nat {
    if rrs == [] then 0 else RRsRoom(rrs[..|rrs| - 1]) + RRRoom(rrs[|rrs| - 1])
  }

  /** Octets that a message needs at most. */
  function Room(m: Msg): nat {
    HEADER_SIZE + QuestionsRoom(m.ques) + RRsRoom(m.sections[0]) + RRsRoom(m.sections[1]) + RRsRoom(m.sections[2])
  }

  lemma {:induction false} QuestionsRoomExact(o: Out, qs: seq<Question>)
    ensures |EmitQuestions(false, o, qs).bytes| == |o.bytes| + QuestionsRoom(qs)
    decreases |qs|
  {
    hide EmitName;
    if qs != [] {
      var init := EmitQuestions(false, o, qs[..|qs| - 1]);
      QuestionsRoomExact(o, qs[..|qs| - 1]);
      EmitNameOctets(false, init, qs[|qs| - 1].name);
      PlainSize(init.tab, qs[|qs| - 1].name);
    }
  }

  lemma RRRoomExact(o: Out, rr: RR)
    requires EncodableRR(rr)
    ensures |EmitRR(false, o, rr).bytes| == |o.bytes| + RRRoom(rr)
  {
    hide EmitName, EmitRR, SentRR, NameOctets;
    EmitRRCases(false, o, rr);
    EmitNameOctets(false, o, rr.name);
    PlainSize(o.tab, rr.name);
    if rr.payload.Text? {
      EmitNameOctets(false, BeforeData(false, o, rr), rr.payload.name);
      PlainSize(BeforeData(false, o, rr).tab, rr.payload.name);
    }
  }

  lemma {:induction false} RRsRoomExact(o: Out, rrs: seq<RR>)
    requires forall i | 0 <= i < |rrs| :: EncodableRR(rrs[i])
    ensures |EmitRRs(false, o, rrs).bytes| == |o.bytes| + RRsRoom(rrs)
    decreases |rrs|
  {
    hide EmitRR, EncodableRR, RRRoom;
    if rrs != [] {
      RRsRoomExact(o, rrs[..|rrs| - 1]);
      RRRoomExact(EmitRRs(false, o, rrs[..|rrs| - 1]), rrs[|rrs| - 1]);
    }
  }

  /** The room that `encode` asks for is exactly the length of the uncompressed message. */
  lemma RoomIsExact(m: Msg)
    requires Encodable(m)
    ensures Room(m) == |Messages.Encode(false, m)|
  {
    QuestionsRoomExact(Out(Header(m), map[]), m.ques);
    RRsRoomExact(EmitUpTo(false, m, 0), m.sections[0]);
    RRsRoomExact(EmitUpTo(false, m, 1), m.sections[1]);
    RRsRoomExact(EmitUpTo(false, m, 2), m.sections[2]);
    hide EmitRRs, EmitQuestions, RRsRoom, QuestionsRoom, EncodableRR, Header;
  }

  ghost predicate AllShort(m: Msg) {
    && (forall i | 0 <= i < |m.ques| :: |m.ques[i].name| < HashTable.KEY_MAX)
    && (forall i, j | 0 <= i < 3 && 0 <= j < |m.sections[i]| :: ShortNames(m.sections[i][j]))
  }

  lemma {:induction false} QuestionsRoomGrows(qs: seq<Question>, i: nat)
    requires i < |qs|
    ensures QuestionsRoom(qs[..i + 1]) == QuestionsRoom(qs[..i]) + |qs[i].name| + 6 <= QuestionsRoom(qs)
    decreases |qs|
  {
    if i == |qs| - 1 {
      assert qs[..i + 1] == qs;
    } else {
      var init := qs[..|qs| - 1];
      QuestionsRoomGrows(init, i);
      assert init[..i + 1] == qs[..i + 1] && init[..i] == qs[..i];
    }
  }

  lemma {:induction false} RRsRoomGrows(rrs: seq<RR>, i: nat)
    requires i < |rrs|
    ensures RRsRoom(rrs[..i + 1]) == RRsRoom(rrs[..i]) + RRRoom(rrs[i]) <= RRsRoom(rrs)
    decreases |rrs|
  {
    hide RRRoom;
    if i == |rrs| - 1 {
      assert rrs[..i + 1] == rrs;
    } else {
      var init := rrs[..|rrs| - 1];
      RRsRoomGrows(init, i);
      assert init[..i + 1] == rrs[..i + 1] && init[..i] == rrs[..i];
    }
  }

  lemma EmitNext(z: bool, o: Out, qs: seq<Question>, i: nat)
    requires i < |qs|
    ensures EmitQuestions(z, o, qs[..i + 1]) == EmitQuestion(z, EmitQuestions(z, o, qs[..i]), qs[i])
  {
    assert qs[..i + 1][..i] == qs[..i];
  }

  lemma EmitNextRR(z: bool, o: Out, rrs: seq<RR>, i: nat)
    requires i < |rrs| && forall k | 0 <= k < |rrs| :: EncodableRR(rrs[k])
    ensures EmitRRs(z, o, rrs[..i + 1]) == EmitRR(z, EmitRRs(z, o, rrs[..i]), rrs[i])
    ensures SentRRs(z, o, rrs[..i + 1]) == SentRRs(z, o, rrs[..i]) + [SentRR(z, EmitRRs(z, o, rrs[..i]), rrs[i])]
  {
    hide EncodableRR, EmitRR, SentRR;
    assert rrs[..i + 1][..i] == rrs[..i];
  }

  method EncodeQuestions(z: bool, qs: seq<Question>, buff: array<Byte>, start: nat, ht: SuffixTable) returns (p: nat)
    requires Ready(ht, buff) && start + QuestionsRoom(qs) <= buff.Length
    requires z ==> forall i | 0 <= i < |qs| :: |qs[i].name| < HashTable.KEY_MAX
    modifies buff, ht.Repr
    ensures Ready(ht, buff) && forall o | o in ht.Repr :: o in old(ht.Repr) || fresh(o)
    ensures p <= start + QuestionsRoom(qs) && Written(buff, p, ht) == EmitQuestions(z, old(Written(buff, start, ht)), qs)
  {
    hide Ready, EmitQuestion, EmitQuestions, QuestionsRoom;
    ghost var o := Written(buff, start, ht);
    p := start;
    QuestionsNone(z, o, qs);
    for i := 0 to |qs|
      invariant Ready(ht, buff) && forall o | o in ht.Repr :: o in old(ht.Repr) || fresh(o)
      invariant p <= start + QuestionsRoom(qs[..i]) <= buff.Length
      invariant Written(buff, p, ht) == EmitQuestions(z, o, qs[..i])
    {
      QuestionsRoomGrows(qs, i);
      EmitNext(z, o, qs, i);
      var n := EncodeQuestion(z, qs[i], buff, p, ht);
      p := p + n;
    }
    assert qs[..|qs|] == qs;
  }

  lemma QuestionsNone(z: bool, o: Out, qs: seq<Question>)
    ensures EmitQuestions(z, o, qs[..0]) == o && QuestionsRoom(qs[..0]) == 0
  {
  }

  lemma RRsNone(z: bool, o: Out, rrs: seq<RR>)
    ensures EmitRRs(z, o, rrs[..0]) == o && RRsRoom(rrs[..0]) == 0 && SentRRs(z, o, rrs[..0]) == []
  {
  }

  lemma SentOneMore(done: seq<RR>, was: seq<RR>, j: nat, sent: RR)
    requires j == |done| < |was|
    ensures (done + was[j..])[j := sent] == done + [sent] + was[j + 1..]
  {
  }

  /** One section; its records are left with the `data_length` they went out with. */
  /** One record more, updated in the message. */
  method EncodeNext(z: bool, msg: Message, k: nat, j: nat, buff: array<Byte>, p: nat, ht: SuffixTable,
                    ghost o: Out, ghost was: seq<RR>) returns (n: nat)
    requires k < 3 && j < |was| && Ready(ht, buff) && msg !in ht.Repr && p + RRRoom(was[j]) <= buff.Length
    requires (forall i | 0 <= i < |was| :: EncodableRR(was[i])) && (z ==> ShortNames(was[j]))
    requires Written(buff, p, ht) == EmitRRs(z, o, was[..j])
    requires msg.records[k] == SentRRs(z, o, was[..j]) + was[j..]
    modifies buff, ht.Repr, msg`records
    ensures Ready(ht, buff) && forall o | o in ht.Repr :: o in old(ht.Repr) || fresh(o)
    ensures n <= RRRoom(was[j]) && p + n <= buff.Length && Written(buff, p + n, ht) == EmitRRs(z, o, was[..j + 1])
    ensures msg.records == old(msg.records)[k := msg.records[k]]
    ensures msg.records[k] == SentRRs(z, o, was[..j + 1]) + was[j + 1..]
  {
    hide *;
    EmitNextRR(z, o, was, j);
    assert msg.records[k][j] == was[j];
    var sent;
    n, sent := EncodeRR(z, msg.records[k][j], buff, p, ht);
    SentOneMore(SentRRs(z, o, was[..j]), was, j, sent);
    msg.records := msg.records[k := msg.records[k][j := sent]];
  }

  method EncodeSection(z: bool, msg: Message, k: nat, buff: array<Byte>, start: nat, ht: SuffixTable) returns (p: nat)
    requires k < 3 && Ready(ht, buff) && msg !in ht.Repr && start + RRsRoom(msg.records[k]) <= buff.Length
    requires forall j | 0 <= j < |msg.records[k]| ::
               EncodableRR(msg.records[k][j]) && (z ==> ShortNames(msg.records[k][j]))
    modifies buff, ht.Repr, msg`records
    ensures Ready(ht, buff) && forall o | o in ht.Repr :: o in old(ht.Repr) || fresh(o)
    ensures p <= start + RRsRoom(old(msg.records[k]))
    ensures Written(buff, p, ht) == EmitRRs(z, old(Written(buff, start, ht)), old(msg.records[k]))
    ensures msg.records == old(msg.records)[k := SentRRs(z, old(Written(buff, start, ht)), old(msg.records[k]))]
  {
    hide *;
    ghost var o, was, all := Written(buff, start, ht), msg.records[k], msg.records;
    p := start;
    RRsNone(z, o, was);
    assert SentRRs(z, o, was[..0]) + was[0..] == was && all[k := was] == all;
    var j := 0;
    while j < |msg.records[k]|
      invariant |msg.records[k]| == |was| && j <= |was|
      invariant Ready(ht, buff) && forall o | o in ht.Repr :: o in old(ht.Repr) || fresh(o)
      invariant p <= start + RRsRoom(was[..j]) <= buff.Length
      invariant Written(buff, p, ht) == EmitRRs(z, o, was[..j])
      invariant msg.records == all[k := msg.records[k]] && msg.records[k] == SentRRs(z, o, was[..j]) + was[j..]
    {
      RRsRoomGrows(was, j);
      var n := EncodeNext(z, msg, k, j, buff, p, ht, o, was);
      p, j := p + n, j + 1;
    }
    assert was[..j] == was && SentRRs(z, o, was) + was[j..] == SentRRs(z, o, was);
  }

  /** Room for the header, the questions and the first i sections. */
  function RoomUpTo(m: Msg, i: nat): nat
    requires i <= 3
  {
    if i == 0 then HEADER_SIZE + QuestionsRoom(m.ques) else RoomUpTo(m, i - 1) + RRsRoom(m.sections[i - 1])
  }

  lemma RoomUpToGrows(m: Msg, i: nat)
    requires i < 3
    ensures RoomUpTo(m, i + 1) == RoomUpTo(m, i) + RRsRoom(m.sections[i]) <= Room(m)
  {
    hide QuestionsRoom, RRsRoom;
    RoomUpToAll(m);
  }

  lemma RoomUpToAll(m: Msg)
    ensures RoomUpTo(m, 0) <= RoomUpTo(m, 1) <= RoomUpTo(m, 2) <= RoomUpTo(m, 3) == Room(m)
  {
    hide QuestionsRoom, RRsRoom;
    assert RoomUpTo(m, 1) == RoomUpTo(m, 0) + RRsRoom(m.sections[0]);
    assert RoomUpTo(m, 2) == RoomUpTo(m, 1) + RRsRoom(m.sections[1]);
    assert RoomUpTo(m, 3) == RoomUpTo(m, 2) + RRsRoom(m.sections[2]);
  }

  /** The records as they are when the first i sections have been encoded. */
  ghost predicate SentUpTo(z: bool, m: Msg, i: nat, records: Sections)
    requires Encodable(m) && i <= 3
  {
    && (forall k | 0 <= k < i :: records[k] == SentRRs(z, EmitUpTo(z, m, k), m.sections[k]))
    && (forall k | i <= k < 3 :: records[k] == m.sections[k])
  }

  /** `encode` in an empty table: header and questions. */
  method EncodeFront(z: bool, msg: Message, buff: array<Byte>, ht: SuffixTable) returns (p: nat)
    requires Ready(ht, buff) && ht.Contents == map[] && msg !in ht.Repr
    requires Encodable(msg.Value()) && (z ==> AllShort(msg.Value())) && Room(msg.Value()) <= buff.Length
    modifies buff, ht.Repr
    ensures Ready(ht, buff) && forall o | o in ht.Repr :: o in old(ht.Repr) || fresh(o)
    ensures p <= RoomUpTo(old(msg.Value()), 0) && p <= buff.Length && Written(buff, p, ht) == EmitUpTo(z, old(msg.Value()), 0)
  {
    hide Ready, EmitQuestions, QuestionsRoom, RRsRoom, Header, ShortNames, EncodableRR;
    ghost var m := msg.Value();
    var n := EncodeHeader(msg, buff, ht);
    p := EncodeQuestions(z, msg.ques, buff, n, ht);
  }

  /** `encode`: the octets of the message, and how many; the message is left as it went out. */
  method Encode(z: bool, msg: Message, buff: array<Byte>) returns (n: nat)
    requires Encodable(msg.Value()) && (z ==> AllShort(msg.Value())) && Room(msg.Value()) <= buff.Length
    modifies buff, msg`records
    ensures n <= buff.Length && buff[..n] == Messages.Encode(z, old(msg.Value()))
    ensures msg.Value() == Sent(z, old(msg.Value()))
  {
    hide Ready, EmitUpTo, HashTable.HashTab.Valid, Room, AllShort;
    var ht := new HashTable.HashTab<U16>();
    ReadyNow(ht, buff);
    var p := EncodeFront(z, msg, buff, ht);
    n := EncodeBack(z, msg, msg.Value(), buff, p, ht);
  }

  /** The three sections. */
  method EncodeBack(z: bool, msg: Message, ghost m: Msg, buff: array<Byte>, start: nat, ht: SuffixTable) returns (p: nat)
    requires m == msg.Value() && Encodable(m) && (z ==> AllShort(m)) && Room(m) <= buff.Length
    requires Ready(ht, buff) && msg !in ht.Repr
    requires start <= RoomUpTo(m, 0) && start <= buff.Length && Written(buff, start, ht) == EmitUpTo(z, m, 0)
    modifies buff, ht.Repr, msg`records
    ensures p <= buff.Length && buff[..p] == Messages.Encode(z, m) && msg.Value() == Sent(z, m)
  {
    hide Ready, EmitUpTo, QuestionsRoom, RRsRoom, RoomUpTo, SentRRs, ShortNames, EncodableRR, HashTable.HashTab.Valid;
    p := start;
    RoomUpToAll(m);
    for i := 0 to 3
      invariant Ready(ht, buff) && msg !in ht.Repr && forall o | o in ht.Repr :: o in old(ht.Repr) || fresh(o)
      invariant p <= RoomUpTo(m, i) && p <= buff.Length
      invariant Written(buff, p, ht) == EmitUpTo(z, m, i)
      invariant msg.Value() == m.(sections := msg.records) && SentUpTo(z, m, i, msg.records)
    {
      RoomUpToGrows(m, i);
      UpToNext(z, m, i);
      p := EncodeSection(z, msg, i, buff, p, ht);
    }
  }

  lemma ReadyNow(ht: SuffixTable, buff: array<Byte>)
    requires ht.Valid() && ht.len >= 1 && buff !in ht.Repr
    ensures Ready(ht, buff)
  {
  }

  lemma UpToNext(z: bool, m: Msg, i: nat)
    requires Encodable(m) && i < 3
    ensures EmitUpTo(z, m, i + 1) == EmitRRs(z, EmitUpTo(z, m, i), m.sections[i])
  {
  }
}

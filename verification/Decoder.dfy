/** The decoder of message/message.c as it runs: pointers through the buffer, a name written octet by octet, and
    recursion at compression pointers. */
module Decoder {
  import opened Bytes
  import opened NameCodec
  import opened Messages
  import opened MessageObject
  import Flags

  /** The state of the loop of `decodeName` while the name s is read from pos into nm at `at`: the octet that num
      points at belongs to the part of s from `done` on, and the octets before p have been copied; at the final
      zero, a dot too many has been written. */
  ghost predicate Reading(b: seq<Byte>, hops: nat, pos: nat, s: Name, nm: seq<Byte>, at: nat,
                          num: nat, p: nat, done: nat, w: nat) {
    && num < p && num < |b| && at + |s| < |nm|
    && if b[num] == 0 then
         p == num + 1 && w == at + |s| + 1 && nm[at..w - 1] == s && NameEnd(b, pos) == p
       else
         && DecName(b, num, hops).Some? && NameEnd(b, num) == NameEnd(b, pos)
         && done <= |s| && s[done..] == DecName(b, num, hops).value
         && p - num - 1 <= (if b[num] < 0xc0 then b[num] else 0)
         && done + (p - num - 1) <= |s| && w == at + done + (p - num - 1) && nm[at..w] == s[..w - at]
  }

  /** A label is complete: a dot, and on to the next. */
  lemma NextLabel(b: seq<Byte>, hops: nat, pos: nat, s: Name, nm: seq<Byte>, at: nat, num: nat, p: nat, done: nat, w: nat)
    requires Reading(b, hops, pos, s, nm, at, num, p, done, w) && b[num] != 0 && p - num > b[num]
    ensures w < |nm| && done + b[num] <= |s| && at <= w
    ensures Reading(b, hops, pos, s, nm[w := DOT], at, p, p + 1, done + b[num] + 1, w + 1)
  {
    var n := b[num];
    var rem := s[done..];
    DecNameLabel(b, num, hops);
    hide DecName;
    var nm' := nm[w := DOT];
    assert rem[..n] == s[done..done + n];
    assert nm'[at..w] == nm[at..w] == s[..done + n];
    if b[p] == 0 {
      EndsHere(b, p);
      assert s[..done + n] == s;
    } else {
      assert s[done + n + 1..] == rem[n + 1..] && s[done + n] == rem[n];
      assert nm'[at..w + 1] == nm[at..w] + [DOT] == s[..done + n + 1];
    }
  }

  lemma EndsHere(b: seq<Byte>, p: nat)
    requires p < |b| && b[p] == 0
    ensures NameEnd(b, p) == p + 1
  {
  }

  /** One octet of a label. */
  lemma NextOctet(b: seq<Byte>, hops: nat, pos: nat, s: Name, nm: seq<Byte>, at: nat, num: nat, p: nat, done: nat, w: nat)
    requires Reading(b, hops, pos, s, nm, at, num, p, done, w) && b[num] != 0 && p - num <= b[num] < 0xc0
    ensures p < |b| && w < |nm| && at <= w
    ensures Reading(b, hops, pos, s, nm[w := b[p]], at, num, p + 1, done, w + 1)
  {
    var n, k := b[num], p - num - 1;
    var rem := s[done..];
    DecNameLabel(b, num, hops);
    hide DecName, NameEnd;
    assert rem[..n][k] == b[num + 1..num + 1 + n][k] == b[p];
    assert s[done + k] == rem[k];
    var nm' := nm[w := b[p]];
    assert nm'[at..w + 1] == nm[at..w] + [b[p]] == s[..w - at] + [s[done + k]] == s[..w + 1 - at];
  }

  /** A pointer ends the name: the rest of s is what stands at its target. */
  lemma PointerNext(b: seq<Byte>, hops: nat, pos: nat, s: Name, nm: seq<Byte>, at: nat, num: nat, p: nat, done: nat, w: nat)
    requires Reading(b, hops, pos, s, nm, at, num, p, done, w) && b[num] >= 0xc0
    ensures num + 1 < |b| && hops > 0 && NameEnd(b, pos) == num + 2
    ensures DecName(b, Target(b, num), hops - 1).Some? && at <= w
    ensures w + |DecName(b, Target(b, num), hops - 1).value| == at + |s|
    ensures nm[at..w] + DecName(b, Target(b, num), hops - 1).value == s
  {
    DecNameFirstOctet(b, num, hops);
    hide DecName, NameEnd;
    assert s == s[..done] + s[done..];
  }

  /** `(uint8_t)n`. */
  function Octet(n: nat): (c: Byte)
    ensures n < 0x100 ==> c == n
  {
    n % 0x100
  }

  /** What the loop's position is good for. */
  lemma ReadingBounds(b: seq<Byte>, hops: nat, pos: nat, s: Name, nm: seq<Byte>, at: nat, num: nat, p: nat, done: nat, w: nat)
    requires Reading(b, hops, pos, s, nm, at, num, p, done, w)
    ensures num < |b| && (b[num] != 0 ==> p - num < 0x100)
    ensures b[num] == 0 ==> at < w <= |nm| && w == at + |s| + 1 && nm[at..w - 1] == s && NameEnd(b, pos) == p
  {
  }

  /** `decodeName`: the name is stored at `at` with its NUL, and `next` is where to go on reading. */
  method DecodeName(buf: array<Byte>, pos: nat, name: array<Byte>, at: nat, ghost hops: nat) returns (next: nat)
    requires buf != name && DecName(buf[..], pos, hops).Some?
    requires at + |DecName(buf[..], pos, hops).value| < name.Length
    modifies name
    ensures next == NameEnd(buf[..], pos)
    ensures var s := DecName(buf[..], pos, hops).value;
            name[..at + |s| + 1] == old(name[..at]) + s + [0]
    decreases hops, 2
  {
    ghost var b := buf[..];
    DecNameFirstOctet(b, pos, hops);
    hide DecName, NameEnd;
    if buf[pos] == 0 {
      name[at] := 0;
      return pos + 1;
    }
    next := DecodeLabels(buf, pos, name, at, hops);
  }

  lemma BelowStays(nm: seq<Byte>, at: nat, w: nat, c: Byte)
    requires at <= w < |nm|
    ensures nm[w := c][..at] == nm[..at]
  {
  }

  lemma EndsWithZero(nm: seq<Byte>, at: nat, w: nat, s: Name)
    requires at < w <= |nm| && nm[at..w - 1] == s
    ensures nm[w - 1 := 0][..w] == nm[..at] + s + [0]
  {
    assert nm[..w - 1] == nm[..at] + nm[at..w - 1];
  }

  /** The loop of `decodeName`. */
  method DecodeLabels(buf: array<Byte>, pos: nat, name: array<Byte>, at: nat, ghost hops: nat) returns (next: nat)
    requires buf != name && DecName(buf[..], pos, hops).Some? && pos < buf.Length && buf[pos] != 0
    requires at + |DecName(buf[..], pos, hops).value| < name.Length
    modifies name
    ensures next == NameEnd(buf[..], pos)
    ensures var s := DecName(buf[..], pos, hops).value;
            name[..at + |s| + 1] == old(name[..at]) + s + [0]
    decreases hops, 1
  {
    ghost var b, s, pre := buf[..], DecName(buf[..], pos, hops).value, name[..at];
    hide *;
    var num: nat, p: nat, w: nat := pos, pos + 1, at;
    ghost var done: nat := 0;
    StartReading(b, hops, pos, s, name[..], at);
    while buf[num] != 0
      invariant num < p && num < buf.Length && at <= w <= name.Length && name[..at] == pre
      invariant Reading(b, hops, pos, s, name[..], at, num, p, done, w)
      decreases |b| - num, |b| - p
    {
      ReadingBounds(b, hops, pos, s, name[..], at, num, p, done, w);
      if Octet(p - num) > buf[num] {
        NextLabel(b, hops, pos, s, name[..], at, num, p, done, w);
        done := done + b[num] + 1;
        num, p := p, p + 1;
        BelowStays(name[..], at, w, DOT);
        name[w] := DOT;
        w := w + 1;
        ReadingBounds(b, hops, pos, s, name[..], at, num, p, done, w);
        continue;
      }
      if buf[num] >= 0xc0 {
        next := DecodePointer(buf, pos, name, at, num, p, done, w, s, hops);
        return;
      }
      NextOctet(b, hops, pos, s, name[..], at, num, p, done, w);
      BelowStays(name[..], at, w, buf[p]);
      name[w] := buf[p];
      w, p := w + 1, p + 1;
    }
    ReadingBounds(b, hops, pos, s, name[..], at, num, p, done, w);
    EndsWithZero(name[..], at, w, s);
    name[w - 1] := 0;
    next := p;
  }

  /** A pointer: the rest of the name is decoded from its target. */
  method DecodePointer(buf: array<Byte>, ghost pos: nat, name: array<Byte>, ghost at: nat, num: nat, ghost p: nat,
                       ghost done: nat, w: nat, ghost s: Name, ghost hops: nat) returns (next: nat)
    requires buf != name && num < buf.Length && buf[num] >= 0xc0 && w <= name.Length
    requires Reading(buf[..], hops, pos, s, name[..], at, num, p, done, w)
    modifies name
    ensures next == NameEnd(buf[..], pos) && at + |s| < name.Length
    ensures name[..at + |s| + 1] == old(name[..at]) + s + [0]
    decreases hops, 0
  {
    PointerNext(buf[..], hops, pos, s, name[..], at, num, p, done, w);
    assert at + |s| < name.Length;
    hide DecName, NameEnd, Reading;
    hide LowSix;
    var target: nat := LowSix(buf[num]) * 0x100 + buf[num + 1] as int;
    ghost var front := name[..w];
    assert front == name[..at] + name[at..w];
    var _ := DecodeName(buf, target, name, w, hops - 1);
    next := num + 2;
  }

  lemma StartReading(b: seq<Byte>, hops: nat, pos: nat, s: Name, nm: seq<Byte>, at: nat)
    requires DecName(b, pos, hops) == Some(s) && b[pos] != 0 && at + |s| < |nm|
    ensures Reading(b, hops, pos, s, nm, at, pos, pos + 1, 0, at)
  {
    assert s[0..] == s;
  }

  // ---- Questions and records --------------------------------------------------------------------------------

  /** The C string that starts a piece of memory. */
  function CString(b: seq<Byte>): Name {
    if b == [] || b[0] == 0 then [] else [b[0]] + CString(b[1..])
  }

  lemma {:induction false} CStringEnds(s: Name, junk: seq<Byte>)
    requires 0 !in s
    ensures CString(s + [0] + junk) == s
  {
    var b := s + [0] + junk;
    if s != [] {
      assert b[1..] == s[1..] + [0] + junk;
      CStringEnds(s[1..], junk);
    }
  }

  /** A name that a `char[256]` holds. */
  predicate Legible(s: Name) {
    0 !in s && |s| < 256
  }

  predicate LegibleRR(rr: RR) {
    Legible(rr.name) && (rr.payload.Text? ==> Legible(rr.payload.name))
  }

  /** A name in a field of its own. */
  method ReadName(buf: array<Byte>, pos: nat, ghost hops: nat) returns (s: Name, next: nat)
    requires DecName(buf[..], pos, hops).Some? && Legible(DecName(buf[..], pos, hops).value)
    ensures Some(s) == DecName(buf[..], pos, hops) && next == NameEnd(buf[..], pos)
  {
    hide DecName, NameEnd;
    ghost var t := DecName(buf[..], pos, hops).value;
    var name := new Byte[256];
    next := DecodeName(buf, pos, name, 0, hops);
    s := CString(name[..]);
    assert name[..] == t + [0] + name[|t| + 1..];
    CStringEnds(t, name[|t| + 1..]);
  }

  /** `ntohs(*p)`. */
  method Load16(buf: array<Byte>, p: nat) returns (x: U16)
    requires p + 2 <= buf.Length
    ensures x == Get16(buf[..], p)
  {
    x := buf[p] as int * 0x100 + buf[p + 1] as int;
  }

  /** `ntohl(*p)`. */
  method Load32(buf: array<Byte>, p: nat) returns (x: U32)
    requires p + 4 <= buf.Length
    ensures x == Get32(buf[..], p)
  {
    x := buf[p] as int * 0x100_0000 + buf[p + 1] as int * 0x1_0000 + buf[p + 2] as int * 0x100 + buf[p + 3] as int;
  }

  method DecodeQuestion(buf: array<Byte>, pos: nat, ghost hops: nat) returns (q: Question, next: nat)
    requires DecQuestion(buf[..], pos, hops).Ok? && Legible(DecQuestion(buf[..], pos, hops).value.name)
    ensures DecQuestion(buf[..], pos, hops) == Ok(q, next)
  {
    hide DecName, NameEnd, Get16, Legible;
    var name, p := ReadName(buf, pos, hops);
    var qtype := Load16(buf, p);
    var qclass := Load16(buf, p + 2);
    q, next := Question(name, qtype, qclass), p + 4;
  }

  method DecodeRR(buf: array<Byte>, pos: nat, ghost hops: nat) returns (rr: RR, next: nat)
    requires DecRR(buf[..], pos, hops).Ok? && LegibleRR(DecRR(buf[..], pos, hops).value)
    ensures DecRR(buf[..], pos, hops) == Ok(rr, next)
    ensures rr.payload.Text? <==> rr.rtype == 2 || rr.rtype == 5
  {
    hide DecName, NameEnd, Get16, Get32, Legible;
    var name, p := ReadName(buf, pos, hops);
    var rtype := Load16(buf, p);
    var rclass := Load16(buf, p + 2);
    var ttl := Load32(buf, p + 4);
    var dataLength := Load16(buf, p + 8);
    p := p + 10;
    if rtype == CNAME || rtype == NS {
      var text, _ := ReadName(buf, p, hops);
      rr := RR(name, rtype, rclass, ttl, dataLength, Text(text));
    } else {
      rr := RR(name, rtype, rclass, ttl, dataLength, Raw(buf[p..p + dataLength]));
    }
    next := p + dataLength;
  }

  // ---- Messages ------------------------------------------------------------------------------------------------

  lemma {:induction false} QuestionsBefore(b: seq<Byte>, pos: nat, i: nat, n: nat, hops: nat)
    requires i < n && DecQuestions(b, pos, n, hops).Ok?
    ensures DecQuestions(b, pos, i, hops).Ok? && |DecQuestions(b, pos, n, hops).value| == n
    ensures var d := DecQuestion(b, DecQuestions(b, pos, i, hops).next, hops);
            d.Ok? && d.value == DecQuestions(b, pos, n, hops).value[i]
    decreases n
  {
    hide DecQuestion;
    QuestionsCount(b, pos, n, hops);
    QuestionsCount(b, pos, n - 1, hops);
    if i < n - 1 {
      QuestionsBefore(b, pos, i, n - 1, hops);
    }
  }

  lemma {:induction false} QuestionsCount(b: seq<Byte>, pos: nat, n: nat, hops: nat)
    requires DecQuestions(b, pos, n, hops).Ok?
    ensures |DecQuestions(b, pos, n, hops).value| == n
    decreases n
  {
    hide DecQuestion;
    if n > 0 {
      QuestionsCount(b, pos, n - 1, hops);
    }
  }

  lemma {:induction false} RRsCount(b: seq<Byte>, pos: nat, n: nat, hops: nat)
    requires DecRRs(b, pos, n, hops).Ok?
    ensures |DecRRs(b, pos, n, hops).value| == n
    decreases n
  {
    hide DecRR;
    if n > 0 {
      RRsCount(b, pos, n - 1, hops);
    }
  }

  lemma {:induction false} RRsBefore(b: seq<Byte>, pos: nat, i: nat, n: nat, hops: nat)
    requires i < n && DecRRs(b, pos, n, hops).Ok?
    ensures DecRRs(b, pos, i, hops).Ok? && |DecRRs(b, pos, n, hops).value| == n
    ensures var d := DecRR(b, DecRRs(b, pos, i, hops).next, hops);
            d.Ok? && d.value == DecRRs(b, pos, n, hops).value[i]
    decreases n
  {
    hide DecRR;
    RRsCount(b, pos, n, hops);
    RRsCount(b, pos, n - 1, hops);
    if i < n - 1 {
      RRsBefore(b, pos, i, n - 1, hops);
    }
  }

  method DecodeQuestions(msg: Message, buf: array<Byte>, pos: nat, n: nat, ghost hops: nat) returns (p: nat)
    requires msg.ques == [] && DecQuestions(buf[..], pos, n, hops).Ok?
    requires forall q | q in DecQuestions(buf[..], pos, n, hops).value :: Legible(q.name)
    modifies msg`ques
    ensures DecQuestions(buf[..], pos, n, hops) == Ok(msg.ques, p)
  {
    hide DecQuestion, Legible;
    p := pos;
    for i := 0 to n
      invariant DecQuestions(buf[..], pos, i, hops) == Ok(msg.ques, p)
    {
      QuestionsBefore(buf[..], pos, i, n, hops);
      var q, next := DecodeQuestion(buf, p, hops);
      msg.ques := msg.ques + [q];
      p := next;
    }
  }

  method DecodeSection(msg: Message, k: nat, buf: array<Byte>, pos: nat, n: nat, ghost hops: nat) returns (p: nat)
    requires k < 3 && msg.records[k] == [] && DecRRs(buf[..], pos, n, hops).Ok?
    requires forall rr | rr in DecRRs(buf[..], pos, n, hops).value :: LegibleRR(rr)
    modifies msg`records
    ensures msg.records == old(msg.records)[k := msg.records[k]]
    ensures DecRRs(buf[..], pos, n, hops) == Ok(msg.records[k], p)
  {
    hide DecRR, LegibleRR;
    p := pos;
    for i := 0 to n
      invariant DecRRs(buf[..], pos, i, hops) == Ok(msg.records[k], p)
      invariant msg.records == old(msg.records)[k := msg.records[k]]
    {
      RRsBefore(buf[..], pos, i, n, hops);
      var rr, next := DecodeRR(buf, p, hops);
      msg.records := msg.records[k := msg.records[k] + [rr]];
      p := next;
    }
  }

  /** Names fit their fields, and counts the message's arrays. */
  ghost predicate LegibleMsg(m: Msg) {
    && |m.ques| <= 32 && (forall i | 0 <= i < 3 :: |m.sections[i]| <= 32)
    && (forall q | q in m.ques :: Legible(q.name))
    && (forall i, rr | 0 <= i < 3 && rr in m.sections[i] :: LegibleRR(rr))
  }

  /** The parts of a message that decodes. */
  lemma DecodeParts(b: seq<Byte>, hops: nat) returns (m: Msg, p0: nat, p1: nat, p2: nat, p3: nat)
    requires Messages.Decode(b, hops).Ok? && LegibleMsg(Messages.Decode(b, hops).value)
    ensures |b| >= HEADER_SIZE && Messages.Decode(b, hops) == Ok(m, p3)
    ensures m.id == Get16(b, 0) && m.flag == Flags.FromOctets(b[2], b[3])
    ensures DecQuestions(b, HEADER_SIZE, Get16(b, 4), hops) == Ok(m.ques, p0)
    ensures DecRRs(b, p0, Get16(b, 6), hops) == Ok(m.sections[0], p1)
    ensures DecRRs(b, p1, Get16(b, 8), hops) == Ok(m.sections[1], p2)
    ensures DecRRs(b, p2, Get16(b, 10), hops) == Ok(m.sections[2], p3)
    ensures (forall q | q in m.ques :: Legible(q.name)) && (forall rr | rr in m.sections[0] :: LegibleRR(rr))
    ensures (forall rr | rr in m.sections[1] :: LegibleRR(rr)) && (forall rr | rr in m.sections[2] :: LegibleRR(rr))
  {
    hide DecQuestions, DecRRs, Get16, Legible, LegibleRR, Flags.FromOctets;
    m := Messages.Decode(b, hops).value;
    p3 := Messages.Decode(b, hops).next;
    p0 := DecQuestions(b, HEADER_SIZE, Get16(b, 4), hops).next;
    p1 := DecRRs(b, p0, Get16(b, 6), hops).next;
    p2 := DecRRs(b, p1, Get16(b, 8), hops).next;
  }

  /** `decode`. */
  method Decode(buf: array<Byte>, ghost hops: nat) returns (msg: Message, ghost end: nat)
    requires Messages.Decode(buf[..], hops).Ok? && LegibleMsg(Messages.Decode(buf[..], hops).value)
    ensures fresh(msg) && Messages.Decode(buf[..], hops) == Ok(msg.Value(), end)
  {
    hide Messages.Decode, DecQuestions, DecRRs, Get16, Legible, LegibleRR, Flags.FromOctets;
    ghost var m, p0, p1, p2, p3 := DecodeParts(buf[..], hops);
    hide LegibleMsg;
    msg := new Message();
    msg.id := Load16(buf, 0);
    msg.flag := Flags.FromOctets(buf[2], buf[3]);
    var n := Load16(buf, 4);
    var n0 := Load16(buf, 6);
    var n1 := Load16(buf, 8);
    var n2 := Load16(buf, 10);
    var p := DecodeQuestions(msg, buf, 12, n, hops);
    p := DecodeSection(msg, 0, buf, p, n0, hops);
    p := DecodeSection(msg, 1, buf, p, n1, hops);
    p := DecodeSection(msg, 2, buf, p, n2, hops);
    assert msg.records == m.sections;
    end := p;
  }
}

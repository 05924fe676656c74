/** The encoder's octets against sections 4.1.1, 4.1.2, 4.1.3, 3.1 and 4.1.4 of RFC 1035, with the fields read off
    by definitions of their own. */
module WireFormat {
  import opened Bytes
  import opened NameCodec
  import opened Messages
  import Flags

  /** The number whose octets, most significant first, are b. */
  function BigEndian(b: seq<Byte>): nat {
    if b == [] then 0 else BigEndian(b[..|b| - 1]) * 0x100 + b[|b| - 1] as int
  }

  /** The field of n octets at p. */
  function Field(b: seq<Byte>, p: nat, n: nat): nat
    requires p + n <= |b|
  {
    BigEndian(b[p..p + n])
  }

  lemma Two(b: seq<Byte>)
    requires |b| == 2
    ensures BigEndian(b) == b[0] as int * 0x100 + b[1] as int
  {
    assert b[..1] == [b[0]];
    assert BigEndian([b[0]]) == b[0] as int;
  }

  lemma Four(b: seq<Byte>)
    requires |b| == 4
    ensures BigEndian(b) == b[0] as int * 0x100_0000 + b[1] as int * 0x1_0000 + b[2] as int * 0x100 + b[3] as int
  {
    Two(b[..2]);
    assert b[..3][..2] == b[..2];
    assert BigEndian(b[..3]) == BigEndian(b[..2]) * 0x100 + b[2] as int;
  }

  lemma Field16(b: seq<Byte>, p: nat)
    requires p + 2 <= |b|
    ensures Field(b, p, 2) == Get16(b, p)
  {
    Two(b[p..p + 2]);
  }

  lemma Field32(b: seq<Byte>, p: nat)
    requires p + 4 <= |b|
    ensures Field(b, p, 4) == Get32(b, p)
  {
    var w := b[p..p + 4];
    Four(w);
    assert w[0] == b[p] && w[1] == b[p + 1] && w[2] == b[p + 2] && w[3] == b[p + 3];
  }

  lemma Put16Field(b: seq<Byte>, p: nat, x: U16)
    requires p + 2 <= |b| && b[p..p + 2] == Put16(x)
    ensures Field(b, p, 2) == x
  {
    Field16(b, p);
    GetPut16(b, p, x);
  }

  /** Section 4.1.1: ID, the two flag octets, QDCOUNT, ANCOUNT, NSCOUNT, ARCOUNT, each where the RFC puts it. */
  lemma HeaderLayout(z: bool, m: Msg)
    requires Encodable(m)
    ensures var b := Encode(z, m);
            && |b| >= 12
            && Field(b, 0, 2) == m.id
            && b[2] == Flags.ToWire(m.flag).high as int && b[3] == Flags.ToWire(m.flag).low as int
            && Field(b, 4, 2) == |m.ques| && Field(b, 6, 2) == |m.sections[0]|
            && Field(b, 8, 2) == |m.sections[1]| && Field(b, 10, 2) == |m.sections[2]|
  {
    var b, h := Encode(z, m), Header(m);
    StartsWithHeader(z, m, 3);
    assert Flags.ToOctets(m.flag) == [Flags.ToWire(m.flag).high as int, Flags.ToWire(m.flag).low as int];
    hide Encode, EmitUpTo, EncodableRR, Put16, Field, Flags.ToWire, Flags.ToOctets;
    assert forall i | 0 <= i < 12 :: b[i] == h[i];
    assert b[0..2] == h[0..2] == Put16(m.id) && b[4..6] == h[4..6] == Put16(|m.ques|);
    assert b[6..8] == h[6..8] == Put16(|m.sections[0]|) && b[8..10] == h[8..10] == Put16(|m.sections[1]|);
    assert b[10..12] == h[10..12] == Put16(|m.sections[2]|);
    assert h[2..4] == Flags.ToOctets(m.flag) && b[2] == h[2..4][0] && b[3] == h[2..4][1];
    Put16Field(b, 0, m.id);
    Put16Field(b, 4, |m.ques|);
    Put16Field(b, 6, |m.sections[0]|);
    Put16Field(b, 8, |m.sections[1]|);
    Put16Field(b, 10, |m.sections[2]|);
  }

  lemma {:induction false} QuestionsContinue(z: bool, o: Out, qs: seq<Question>)
    ensures Continues(o, EmitQuestions(z, o, qs))
    decreases |qs|
  {
    hide EmitQuestion;
    if qs != [] {
      var init := EmitQuestions(z, o, qs[..|qs| - 1]);
      QuestionsContinue(z, o, qs[..|qs| - 1]);
      EmitQuestionExtends(z, init, qs[|qs| - 1]);
      ContinuesTrans(o, init, EmitQuestions(z, o, qs));
    }
  }

  lemma {:induction false} StartsWithHeader(z: bool, m: Msg, n: nat)
    requires Encodable(m) && n <= 3
    ensures Continues(Out(Header(m), map[]), EmitUpTo(z, m, n))
    decreases n
  {
    hide Header, EmitQuestions, EmitRRs, EncodableRR;
    var o := Out(Header(m), map[]);
    if n == 0 {
      QuestionsContinue(z, o, m.ques);
    } else {
      StartsWithHeader(z, m, n - 1);
      EmitRRsExtends(z, EmitUpTo(z, m, n - 1), m.sections[n - 1]);
      ContinuesTrans(o, EmitUpTo(z, m, n - 1), EmitUpTo(z, m, n));
    }
  }

  /** Section 4.1.3: after NAME come TYPE, CLASS, TTL and RDLENGTH, and RDLENGTH is the number of octets of RDATA,
      which end the record. */
  lemma RecordLayout(z: bool, o: Out, rr: RR)
    requires EncodableRR(rr)
    ensures var b, p := EmitRR(z, o, rr).bytes, |EmitName(z, o, rr.name).bytes|;
            && p + 10 <= |b|
            && Field(b, p, 2) == rr.rtype && Field(b, p + 2, 2) == rr.rclass && Field(b, p + 4, 4) == rr.ttl
            && Field(b, p + 8, 2) == |b| - (p + 10)
            && (rr.payload.Raw? ==> b[p + 10..] == rr.payload.data)
  {
    var o1 := EmitName(z, o, rr.name);
    var p := |o1.bytes|;
    var n := WithLength(z, o1.tab, rr).dataLength;
    var o2 := Append(o1, FixedPart(rr, n));
    var b := EmitRR(z, o, rr).bytes;
    if rr.payload.Text? {
      EmitNameOctets(z, o2, rr.payload.name);
    }
    hide EmitName, NameOctets, FixedPart, Field, Get16, Get32;
    assert b[..|o2.bytes|] == o2.bytes;
    assert b[p..p + 10] == o2.bytes[p..] == FixedPart(rr, n);
    FixedPartReads(b, p, rr, n);
    Field16(b, p);
    Field16(b, p + 2);
    Field32(b, p + 4);
    Field16(b, p + 8);
  }

  /** Section 4.1.2: QTYPE and QCLASS end the question. */
  lemma QuestionLayout(z: bool, o: Out, q: Question)
    ensures var b, p := EmitQuestion(z, o, q).bytes, |EmitName(z, o, q.name).bytes|;
            && |b| == p + 4 && Field(b, p, 2) == q.qtype && Field(b, p + 2, 2) == q.qclass
  {
    hide EmitName, Put16, Field;
    var b, p := EmitQuestion(z, o, q).bytes, |EmitName(z, o, q.name).bytes|;
    assert b[p..p + 2] == Put16(q.qtype) && b[p + 2..p + 4] == Put16(q.qclass);
    Put16Field(b, p, q.qtype);
    Put16Field(b, p + 2, q.qclass);
  }

  // ---- Names -----------------------------------------------------------------------------------------------

  /** The labels between the dots of s. */
  function Labels(s: Name): seq<Name>
    decreases |s|
  {
    if DOT !in s then [s] else [s[..FirstDotOf(s)]] + Labels(s[FirstDotOf(s) + 1..])
  }

  /** Index of the first dot. */
  function FirstDotOf(s: Name): (i: nat)
    requires DOT in s
    ensures i < |s| && s[i] == DOT && DOT !in s[..i]
  {
    if s[0] == DOT then 0 else FirstDotOf(s[1..]) + 1
  }

  /** Section 3.1: each label as a length octet and that many octets, and the zero octet of the root. */
  function WireLabels(ls: seq<Name>): seq<int> {
    if ls == [] then [0] else [|ls[0]|] + ls[0] + WireLabels(ls[1..])
  }

  lemma DotsAgree(s: Name)
    ensures DOT in s ==> FirstLabel(s) == FirstDotOf(s)
    ensures DOT !in s ==> FirstLabel(s) == |s|
  {
    if DOT in s {
      var n := FirstDotOf(s);
      FirstDot(s, 0, n);
      assert forall i | 0 <= i < n :: s[..n][i] != DOT;
    }
  }

  /** Without compression a good name is the sequence of its labels, as section 3.1 writes it. */
  lemma {:induction false} PlainNameLayout(tab: Table, s: Name)
    requires GoodName(s)
    ensures NameOctets(false, tab, s) == WireLabels(Labels(s))
    decreases |s|
  {
    DotsAgree(s);
    if DOT in s {
      assert GoodName(AfterDot(s));
      PlainNameLayout(tab, AfterDot(s));
      assert Labels(s)[1..] == Labels(AfterDot(s));
    } else {
      assert Labels(s)[1..] == [];
      assert s[..|s|] == s;
    }
  }

  /** Section 4.1.4: a pointer's first two bits are ones, and the other 14 are the offset if that fits. */
  lemma PointerLayout(o: U16)
    ensures PointerTo(o) as int / 0x4000 == 3 && (PointerTo(o) as int % 0x4000 == o <==> o < 0x4000)
  {
  }
}

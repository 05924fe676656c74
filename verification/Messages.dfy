/** Whole messages: sections 4.1.1 to 4.1.4 of RFC 1035 as `encode` writes and `decode` reads them. */
module Messages {
  import opened Bytes
  import opened NameCodec
  import Flags

  const NS: U16 := 2
  const CNAME: U16 := 5
  const HEADER_SIZE := 12

  datatype Question = Question(name: Name, qtype: U16, qclass: U16)

  /** `string_data` or `data`, told apart by `data_type`. */
  datatype Payload = Text(name: Name) | Raw(data: seq<Byte>)

  datatype RR = RR(name: Name, rtype: U16, rclass: U16, ttl: U32, dataLength: U16, payload: Payload)

  /** Answer, authority, additional. */
  type Sections = s: seq<seq<RR>> | |s| == 3 witness [[], [], []]

  datatype Msg = Msg(id: U16, flag: bv16, ques: seq<Question>, sections: Sections)

  /** The types whose RDATA `decode` takes for a name. */
  predicate IsTextType(t: U16) {
    t == CNAME || t == NS
  }

  /** Counts that fit the header and payloads that agree with their `data_length`. */
  ghost predicate Encodable(m: Msg) {
    && |m.ques| < 0x1_0000
    && (forall i | 0 <= i < 3 :: |m.sections[i]| < 0x1_0000)
    && (forall i, j | 0 <= i < 3 && 0 <= j < |m.sections[i]| :: EncodableRR(m.sections[i][j]))
  }

  /** `memcpy` reads data_length octets of data; an encoded name's length fits 16 bits. */
  predicate EncodableRR(rr: RR) {
    match rr.payload
    case Raw(data) => |data| == rr.dataLength
    case Text(t) => |t| + 2 < 0x1_0000
  }

  /** A record that decodes to itself: good names, and a payload of the kind that its type calls for. */
  ghost predicate GoodRR(rr: RR) {
    && EncodableRR(rr)
    && GoodName(rr.name)
    && (rr.payload.Text? <==> rr.rtype == 2 || rr.rtype == 5)
    && (rr.payload.Text? ==> GoodName(rr.payload.name))
  }

  ghost predicate GoodMsg(m: Msg) {
    && Encodable(m)
    && (forall i | 0 <= i < |m.ques| :: GoodName(m.ques[i].name))
    && (forall i, j | 0 <= i < 3 && 0 <= j < |m.sections[i]| :: GoodRR(m.sections[i][j]))
  }

  // ---- Encoder ------------------------------------------------------------------------------

  function Header(m: Msg): (r: seq<Byte>)
    requires |m.ques| < 0x1_0000 && forall i | 0 <= i < 3 :: |m.sections[i]| < 0x1_0000
    ensures |r| == HEADER_SIZE
  {
    Put16(m.id) + Flags.ToOctets(m.flag) + Put16(|m.ques|) +
    Put16(|m.sections[0]|) + Put16(|m.sections[1]|) + Put16(|m.sections[2]|)
  }

  function Append(o: Out, octets: seq<Byte>): Out {
    o.(bytes := o.bytes + octets)
  }

  function EmitQuestion(z: bool, o: Out, q: Question): Out {
    Append(EmitName(z, o, q.name), Put16(q.qtype) + Put16(q.qclass))
  }

  /** TYPE, CLASS, TTL and RDLENGTH. */
  function FixedPart(rr: RR, rdlength: U16): (r: seq<Byte>)
    ensures |r| == 10
  {
    Put16(rr.rtype) + Put16(rr.rclass) + Put32(rr.ttl) + Put16(rdlength)
  }

  /** The record with the `data_length` that `encodeRR` leaves in it; o is the state before its RDATA. */
  function WithLength(z: bool, tab: Table, rr: RR): RR
    requires EncodableRR(rr)
  {
    match rr.payload
    case Raw(_) => rr
    case Text(t) => rr.(dataLength := |NameOctets(z, tab, t)|)
  }

  function EmitRR(z: bool, o: Out, rr: RR): Out
    requires EncodableRR(rr)
  {
    var o1 := EmitName(z, o, rr.name);
    var o2 := Append(o1, FixedPart(rr, WithLength(z, o1.tab, rr).dataLength));
    match rr.payload
    case Raw(data) => Append(o2, data)
    case Text(t) => EmitName(z, o2, t)
  }

  /** The record as `encodeRR` leaves it when called in state o. */
  function SentRR(z: bool, o: Out, rr: RR): RR
    requires EncodableRR(rr)
  {
    WithLength(z, EmitName(z, o, rr.name).tab, rr)
  }

  function EmitQuestions(z: bool, o: Out, qs: seq<Question>): Out {
    if qs == [] then o
    else EmitQuestion(z, EmitQuestions(z, o, qs[..|qs| - 1]), qs[|qs| - 1])
  }

  function EmitRRs(z: bool, o: Out, rrs: seq<RR>): Out
    requires forall i | 0 <= i < |rrs| :: EncodableRR(rrs[i])
  {
    if rrs == [] then o
    else EmitRR(z, EmitRRs(z, o, rrs[..|rrs| - 1]), rrs[|rrs| - 1])
  }

  function SentRRs(z: bool, o: Out, rrs: seq<RR>): (r: seq<RR>)
    requires forall i | 0 <= i < |rrs| :: EncodableRR(rrs[i])
    ensures |r| == |rrs|
  {
    if rrs == [] then []
    else
      var init := rrs[..|rrs| - 1];
      SentRRs(z, o, init) + [SentRR(z, EmitRRs(z, o, init), rrs[|rrs| - 1])]
  }

  /** The state of an `encode` run before its section number n. */
  function EmitUpTo(z: bool, m: Msg, n: nat): Out
    requires Encodable(m) && n <= 3
  {
    if n == 0 then EmitQuestions(z, Out(Header(m), map[]), m.ques)
    else EmitRRs(z, EmitUpTo(z, m, n - 1), m.sections[n - 1])
  }

  /** `encode`: the octets it writes ... */
  function Encode(z: bool, m: Msg): seq<Byte>
    requires Encodable(m)
  {
    EmitUpTo(z, m, 3).bytes
  }

  /** ... and the message as it leaves it. */
  function Sent(z: bool, m: Msg): Msg
    requires Encodable(m)
  {
    m.(sections := [SentRRs(z, EmitUpTo(z, m, 0), m.sections[0]),
                    SentRRs(z, EmitUpTo(z, m, 1), m.sections[1]),
                    SentRRs(z, EmitUpTo(z, m, 2), m.sections[2])])
  }

  // ---- Decoder --------------------------------------------------------------------------------

  /** A value and the position of the octet after it. */
  datatype Parsed<+T> = Fail | Ok(value: T, next: nat)

  function DecQuestion(buf: seq<Byte>, pos: nat, hops: nat): Parsed<Question> {
    var p := NameEnd(buf, pos);
    match DecName(buf, pos, hops)
    case None => Fail
    case Some(name) =>
      if p + 4 > |buf| then Fail else Ok(Question(name, Get16(buf, p), Get16(buf, p + 2)), p + 4)
  }

  function DecRR(buf: seq<Byte>, pos: nat, hops: nat): Parsed<RR> {
    var p := NameEnd(buf, pos);
    match DecName(buf, pos, hops)
    case None => Fail
    case Some(name) =>
      if p + 10 > |buf| then Fail
      else
        var rtype, n := Get16(buf, p), Get16(buf, p + 8);
        var payload :=
          if IsTextType(rtype) then
            match DecName(buf, p + 10, hops)
            case None => None
            case Some(t) => Some(Text(t))
          else if p + 10 + n > |buf| then None
          else Some(Raw(buf[p + 10..p + 10 + n]));
        match payload
        case None => Fail
        case Some(d) => Ok(RR(name, rtype, Get16(buf, p + 2), Get32(buf, p + 4), n, d), p + 10 + n)
  }

  /** What a record is, by the octets: after the name come TYPE, CLASS, TTL and RDLENGTH, most significant octet first, and
      RDATA, which is read as a name exactly for NS (2) and CNAME (5), and as RDLENGTH octets otherwise; the next record
      starts RDLENGTH octets after it. */
  lemma DecRRMeans(buf: seq<Byte>, pos: nat, hops: nat)
    requires DecRR(buf, pos, hops).Ok?
    ensures var x, p := DecRR(buf, pos, hops).value, NameEnd(buf, pos);
            && p + 10 <= |buf| && Some(x.name) == DecName(buf, pos, hops)
            && x.rtype == buf[p] as int * 0x100 + buf[p + 1] as int
            && x.rclass == buf[p + 2] as int * 0x100 + buf[p + 3] as int
            && x.ttl == buf[p + 4] as int * 0x100_0000 + buf[p + 5] as int * 0x1_0000
                        + buf[p + 6] as int * 0x100 + buf[p + 7] as int
            && x.dataLength == buf[p + 8] as int * 0x100 + buf[p + 9] as int
            && (x.payload.Text? <==> x.rtype == 2 || x.rtype == 5)
            && (x.payload.Text? ==> Some(x.payload.name) == DecName(buf, p + 10, hops))
            && (x.payload.Raw? ==> p + 10 + x.dataLength <= |buf| && x.payload.data == buf[p + 10..p + 10 + x.dataLength])
            && DecRR(buf, pos, hops).next == p + 10 + x.dataLength
  {
    hide DecName, NameEnd;
  }

  /** The same for a question. */
  lemma DecQuestionMeans(buf: seq<Byte>, pos: nat, hops: nat)
    requires DecQuestion(buf, pos, hops).Ok?
    ensures var x, p := DecQuestion(buf, pos, hops).value, NameEnd(buf, pos);
            && p + 4 <= |buf| && Some(x.name) == DecName(buf, pos, hops)
            && x.qtype == buf[p] as int * 0x100 + buf[p + 1] as int
            && x.qclass == buf[p + 2] as int * 0x100 + buf[p + 3] as int
            && DecQuestion(buf, pos, hops).next == p + 4
  {
    hide DecName, NameEnd;
  }

  function DecQuestions(buf: seq<Byte>, pos: nat, n: nat, hops: nat): Parsed<seq<Question>> {
    if n == 0 then Ok([], pos)
    else
      match DecQuestions(buf, pos, n - 1, hops)
      case Fail => Fail
      case Ok(qs, p) =>
        match DecQuestion(buf, p, hops)
        case Fail => Fail
        case Ok(q, p') => Ok(qs + [q], p')
  }

  function DecRRs(buf: seq<Byte>, pos: nat, n: nat, hops: nat): Parsed<seq<RR>> {
    if n == 0 then Ok([], pos)
    else
      match DecRRs(buf, pos, n - 1, hops)
      case Fail => Fail
      case Ok(rrs, p) =>
        match DecRR(buf, p, hops)
        case Fail => Fail
        case Ok(rr, p') => Ok(rrs + [rr], p')
  }

  /** `decode` on a buffer in which no name needs more than `hops` pointers. */
  function Decode(buf: seq<Byte>, hops: nat): Parsed<Msg> {
    if |buf| < HEADER_SIZE then Fail
    else
      match DecQuestions(buf, HEADER_SIZE, Get16(buf, 4), hops)
      case Fail => Fail
      case Ok(qs, p0) =>
        match DecRRs(buf, p0, Get16(buf, 6), hops)
        case Fail => Fail
        case Ok(s0, p1) =>
          match DecRRs(buf, p1, Get16(buf, 8), hops)
          case Fail => Fail
          case Ok(s1, p2) =>
            match DecRRs(buf, p2, Get16(buf, 10), hops)
            case Fail => Fail
            case Ok(s2, p3) =>
              Ok(Msg(Get16(buf, 0), Flags.FromOctets(buf[2], buf[3]), qs, [s0, s1, s2]), p3)
  }

  // ---- Round trip -------------------------------------------------------------------------------

  /** What holds between the items of an encode run. */
  ghost predicate InRun(z: bool, o: Out) {
    z ==> TableSound(o)
  }

  /** r continues o. */
  ghost predicate Continues(o: Out, r: Out) {
    |o.bytes| <= |r.bytes| && r.bytes[..|o.bytes|] == o.bytes
  }

  /** Compressed messages must stay within the reach of pointers. */
  ghost predicate Fits(z: bool, r: Out) {
    z ==> |r.bytes| <= 0x4000
  }

  lemma AppendInRun(z: bool, o: Out, octets: seq<Byte>)
    requires InRun(z, o)
    ensures InRun(z, Append(o, octets)) && Continues(o, Append(o, octets))
  {
    if z {
      forall t | t in o.tab ensures EntrySound(o.bytes + octets, t, o.tab[t]) {
        EntryStable(o.bytes, octets, t, o.tab[t]);
      }
    }
  }

  /** A name inside a run decodes at its place, whatever is written after it. */
  lemma NameInRun(z: bool, o: Out, s: Name, later: seq<Byte>, hops: nat)
    requires GoodName(s) && InRun(z, o) && Fits(z, EmitName(z, o, s)) && hops >= |o.bytes|
    ensures var r := EmitName(z, o, s);
            && Continues(o, r) && InRun(z, r)
            && DecName(r.bytes + later, |o.bytes|, hops) == Some(s)
            && NameEnd(r.bytes + later, |o.bytes|) == |r.bytes|
  {
    hide DecName, NameEnd, EmitName, GoodLabels, PointsBack;
    var r := EmitName(z, o, s);
    EmitNameSound(z, o, s, |o.bytes|);
    if z {
      EmittedKeepsTableSound(o, r);
    }
    DecNameStable(r.bytes, later, |o.bytes|, |o.bytes|);
    DecNameMoreHops(r.bytes + later, |o.bytes|, |o.bytes|, hops);
  }

  lemma ContinuesTrans(a: Out, b: Out, c: Out)
    requires Continues(a, b) && Continues(b, c)
    ensures Continues(a, c)
  {
    assert c.bytes[..|a.bytes|] == c.bytes[..|b.bytes|][..|a.bytes|];
  }

  lemma EmitNameExtends(z: bool, o: Out, s: Name)
    ensures Continues(o, EmitName(z, o, s)) && |o.bytes| < |EmitName(z, o, s).bytes|
  {
    hide EmitName, NameOctets;
    EmitNameOctets(z, o, s);
  }

  lemma QuestionRoundTrip(z: bool, o: Out, q: Question, later: seq<Byte>, hops: nat)
    requires GoodName(q.name) && InRun(z, o) && Fits(z, EmitQuestion(z, o, q)) && hops >= |o.bytes|
    ensures var r := EmitQuestion(z, o, q);
            && Continues(o, r) && InRun(z, r)
            && DecQuestion(r.bytes + later, |o.bytes|, hops) == Ok(q, |r.bytes|)
  {
    hide DecName, NameEnd, EmitName, GoodLabels, PointsBack, Get16, Put16;
    var o1 := EmitName(z, o, q.name);
    var w := Put16(q.qtype) + Put16(q.qclass);
    var r := EmitQuestion(z, o, q);
    var b := r.bytes + later;
    NameInRun(z, o, q.name, w + later, hops);
    assert o1.bytes + (w + later) == b;
    AppendInRun(z, o1, w);
    ContinuesTrans(o, o1, r);
    var p := |o1.bytes|;
    assert b[p..p + 2] == Put16(q.qtype) && b[p + 2..p + 4] == Put16(q.qclass);
    GetPut16(b, p, q.qtype);
    GetPut16(b, p + 2, q.qclass);
  }

  lemma FixedPartReads(b: seq<Byte>, p: nat, rr: RR, n: U16)
    requires p + 10 <= |b| && b[p..p + 10] == FixedPart(rr, n)
    ensures Get16(b, p) == rr.rtype && Get16(b, p + 2) == rr.rclass
    ensures Get32(b, p + 4) == rr.ttl && Get16(b, p + 8) == n
  {
    hide Get16, Get32, Put16, Put32;
    var w := b[p..p + 10];
    assert forall i | 0 <= i < 10 :: b[p + i] == w[i];
    assert b[p..p + 2] == w[..2] == Put16(rr.rtype);
    assert b[p + 2..p + 4] == w[2..4] == Put16(rr.rclass);
    assert b[p + 4..p + 8] == w[4..8] == Put32(rr.ttl);
    assert b[p + 8..p + 10] == w[8..] == Put16(n);
    GetPut16(b, p, rr.rtype);
    GetPut16(b, p + 2, rr.rclass);
    GetPut32(b, p + 4, rr.ttl);
    GetPut16(b, p + 8, n);
  }

  /** The state of `encodeRR` between the fixed part and RDATA. */
  function BeforeData(z: bool, o: Out, rr: RR): Out
    requires EncodableRR(rr)
  {
    Append(EmitName(z, o, rr.name), FixedPart(rr, SentRR(z, o, rr).dataLength))
  }

  lemma BeforeDataExtends(z: bool, o: Out, rr: RR)
    requires EncodableRR(rr)
    ensures Continues(o, BeforeData(z, o, rr)) && |o.bytes| < |BeforeData(z, o, rr).bytes|
  {
    hide EmitName, FixedPart, SentRR;
    EmitNameExtends(z, o, rr.name);
    ContinuesTrans(o, EmitName(z, o, rr.name), BeforeData(z, o, rr));
  }

  lemma BeforeDataInRun(z: bool, o: Out, rr: RR, later: seq<Byte>, hops: nat)
    requires EncodableRR(rr) && GoodName(rr.name)
    requires InRun(z, o) && Fits(z, BeforeData(z, o, rr)) && hops >= |o.bytes|
    ensures var r := BeforeData(z, o, rr);
            var b := r.bytes + later;
            && Continues(o, r) && InRun(z, r)
            && DecName(b, |o.bytes|, hops) == Some(rr.name)
            && var p := NameEnd(b, |o.bytes|);
            && p + 10 == |r.bytes|
            && Get16(b, p) == rr.rtype && Get16(b, p + 2) == rr.rclass
            && Get32(b, p + 4) == rr.ttl && Get16(b, p + 8) == SentRR(z, o, rr).dataLength
  {
    hide DecName, NameEnd, EmitName, GoodLabels, PointsBack, Get16, Get32, FixedPart, SentRR;
    var o1 := EmitName(z, o, rr.name);
    var n := SentRR(z, o, rr).dataLength;
    var w := FixedPart(rr, n);
    var r := BeforeData(z, o, rr);
    var b := r.bytes + later;
    NameInRun(z, o, rr.name, w + later, hops);
    assert o1.bytes + (w + later) == b;
    AppendInRun(z, o1, w);
    ContinuesTrans(o, o1, r);
    var p := |o1.bytes|;
    assert b[p..p + 10] == w;
    FixedPartReads(b, p, rr, n);
  }

  lemma EmitRRCases(z: bool, o: Out, rr: RR)
    requires EncodableRR(rr)
    ensures rr.payload.Raw? ==> EmitRR(z, o, rr) == Append(BeforeData(z, o, rr), rr.payload.data)
    ensures rr.payload.Text? ==>
              && EmitRR(z, o, rr) == EmitName(z, BeforeData(z, o, rr), rr.payload.name)
              && |EmitRR(z, o, rr).bytes| == |BeforeData(z, o, rr).bytes| + SentRR(z, o, rr).dataLength
  {
    hide EmitName, NameOctets, FixedPart;
    if rr.payload.Text? {
      EmitNameOctets(z, BeforeData(z, o, rr), rr.payload.name);
    }
  }

  lemma RRRoundTrip(z: bool, o: Out, rr: RR, later: seq<Byte>, hops: nat)
    requires GoodRR(rr) && InRun(z, o) && Fits(z, EmitRR(z, o, rr)) && hops >= |EmitRR(z, o, rr).bytes|
    ensures var r := EmitRR(z, o, rr);
            && Continues(o, r) && InRun(z, r)
            && DecRR(r.bytes + later, |o.bytes|, hops) == Ok(SentRR(z, o, rr), |r.bytes|)
  {
    hide DecName, NameEnd, EmitName, GoodLabels, PointsBack, Get16, Get32, FixedPart, BeforeData, EmitRR, SentRR;
    EmitRRCases(z, o, rr);
    var o2 := BeforeData(z, o, rr);
    var r := EmitRR(z, o, rr);
    var b := r.bytes + later;
    var p := |o2.bytes|;
    SentRRFields(z, o, rr);
    BeforeDataExtends(z, o, rr);
    match rr.payload {
      case Raw(data) =>
        assert b == o2.bytes + (data + later);
        BeforeDataInRun(z, o, rr, data + later, hops);
        AppendInRun(z, o2, data);
        assert b[p..p + |data|] == data;
      case Text(t) =>
        EmitNameExtends(z, o2, t);
        var rest := r.bytes[p..];
        assert b == o2.bytes + (rest + later);
        BeforeDataInRun(z, o, rr, rest + later, hops);
        NameInRun(z, o2, t, later, hops);
    }
    ContinuesTrans(o, o2, r);
  }

  lemma SentRRFields(z: bool, o: Out, rr: RR)
    requires EncodableRR(rr)
    ensures var x := SentRR(z, o, rr);
            && x == rr.(dataLength := x.dataLength)
            && (rr.payload.Raw? ==> x.dataLength == |rr.payload.data|)
  {
  }

  // ---- Lists of questions and records ---------------------------------------------------------------

  lemma EmitQuestionExtends(z: bool, o: Out, q: Question)
    ensures Continues(o, EmitQuestion(z, o, q))
  {
    hide EmitName;
    EmitNameExtends(z, o, q.name);
    ContinuesTrans(o, EmitName(z, o, q.name), EmitQuestion(z, o, q));
  }

  lemma EmitRRExtends(z: bool, o: Out, rr: RR)
    requires EncodableRR(rr)
    ensures Continues(o, EmitRR(z, o, rr))
  {
    hide EmitName, BeforeData, EmitRR;
    var o2 := BeforeData(z, o, rr);
    BeforeDataExtends(z, o, rr);
    EmitRRCases(z, o, rr);
    if rr.payload.Text? {
      EmitNameExtends(z, o2, rr.payload.name);
    }
    ContinuesTrans(o, o2, EmitRR(z, o, rr));
  }

  lemma {:induction false} QuestionsRoundTrip(z: bool, o: Out, qs: seq<Question>, later: seq<Byte>, hops: nat)
    requires forall i | 0 <= i < |qs| :: GoodName(qs[i].name)
    requires InRun(z, o) && Fits(z, EmitQuestions(z, o, qs)) && hops >= |EmitQuestions(z, o, qs).bytes|
    ensures var r := EmitQuestions(z, o, qs);
            && Continues(o, r) && InRun(z, r)
            && DecQuestions(r.bytes + later, |o.bytes|, |qs|, hops) == Ok(qs, |r.bytes|)
    decreases |qs|
  {
    hide DecQuestion, EmitQuestion, GoodName, TableSound;
    if qs != [] {
      var init, q := qs[..|qs| - 1], qs[|qs| - 1];
      var o1, r := EmitQuestions(z, o, init), EmitQuestions(z, o, qs);
      EmitQuestionExtends(z, o1, q);
      var rest := r.bytes[|o1.bytes|..];
      assert r.bytes + later == o1.bytes + (rest + later);
      QuestionsRoundTrip(z, o, init, rest + later, hops);
      QuestionRoundTrip(z, o1, q, later, hops);
      ContinuesTrans(o, o1, r);
      assert DecQuestions(r.bytes + later, |o.bytes|, |init|, hops) == Ok(init, |o1.bytes|);
      hide EmitQuestions, Fits, InRun, Continues;
      assert qs == init + [q];
    }
  }

  lemma {:induction false} RRsRoundTrip(z: bool, o: Out, rrs: seq<RR>, later: seq<Byte>, hops: nat)
    requires forall i | 0 <= i < |rrs| :: EncodableRR(rrs[i]) && GoodRR(rrs[i])
    requires InRun(z, o) && Fits(z, EmitRRs(z, o, rrs)) && hops >= |EmitRRs(z, o, rrs).bytes|
    ensures var r := EmitRRs(z, o, rrs);
            && Continues(o, r) && InRun(z, r)
            && DecRRs(r.bytes + later, |o.bytes|, |rrs|, hops) == Ok(SentRRs(z, o, rrs), |r.bytes|)
    decreases |rrs|
  {
    hide DecRR, EmitRR, GoodRR, EncodableRR, TableSound, SentRR;
    if rrs != [] {
      var init, rr := rrs[..|rrs| - 1], rrs[|rrs| - 1];
      var o1, r := EmitRRs(z, o, init), EmitRRs(z, o, rrs);
      EmitRRExtends(z, o1, rr);
      var rest := r.bytes[|o1.bytes|..];
      assert r.bytes + later == o1.bytes + (rest + later);
      RRsRoundTrip(z, o, init, rest + later, hops);
      RRRoundTrip(z, o1, rr, later, hops);
      ContinuesTrans(o, o1, r);
    }
  }

  // ---- The message -----------------------------------------------------------------------------------

  lemma HeaderReads(m: Msg, b: seq<Byte>)
    requires Encodable(m) && HEADER_SIZE <= |b| && b[..HEADER_SIZE] == Header(m)
    ensures Get16(b, 0) == m.id && Flags.FromOctets(b[2], b[3]) == m.flag && Get16(b, 4) == |m.ques|
    ensures forall i | 0 <= i < 3 :: Get16(b, 6 + 2 * i) == |m.sections[i]|
  {
    hide Get16, Put16, Flags.FromOctets, Flags.ToOctets;
    var w := b[..HEADER_SIZE];
    assert forall i | 0 <= i < HEADER_SIZE :: b[i] == w[i];
    assert b[0..2] == w[..2] == Put16(m.id);
    assert w[2..4] == Flags.ToOctets(m.flag);
    assert b[2] == w[2..4][0] && b[3] == w[2..4][1];
    Flags.OctetsRoundTrip(m.flag);
    assert b[4..6] == w[4..6] == Put16(|m.ques|);
    GetPut16(b, 0, m.id);
    GetPut16(b, 4, |m.ques|);
    assert b[6..8] == w[6..8] == Put16(|m.sections[0]|);
    assert b[8..10] == w[8..10] == Put16(|m.sections[1]|);
    assert b[10..12] == w[10..12] == Put16(|m.sections[2]|);
    GetPut16(b, 6, |m.sections[0]|);
    GetPut16(b, 8, |m.sections[1]|);
    GetPut16(b, 10, |m.sections[2]|);
  }

  lemma {:induction false} EmitRRsExtends(z: bool, o: Out, rrs: seq<RR>)
    requires forall i | 0 <= i < |rrs| :: EncodableRR(rrs[i])
    ensures Continues(o, EmitRRs(z, o, rrs))
    decreases |rrs|
  {
    hide EmitRR, EncodableRR;
    if rrs != [] {
      var init, rr := rrs[..|rrs| - 1], rrs[|rrs| - 1];
      EmitRRsExtends(z, o, init);
      EmitRRExtends(z, EmitRRs(z, o, init), rr);
      ContinuesTrans(o, EmitRRs(z, o, init), EmitRRs(z, o, rrs));
    }
  }

  /** Section n of a message, with whatever follows it, decodes from where the run before it ended. */
  lemma SectionRoundTrip(z: bool, m: Msg, n: nat, later: seq<Byte>, hops: nat)
    requires GoodMsg(m) && n < 3 && InRun(z, EmitUpTo(z, m, n)) && Fits(z, EmitUpTo(z, m, n + 1))
    requires hops >= |EmitUpTo(z, m, n + 1).bytes|
    ensures var o, r := EmitUpTo(z, m, n), EmitUpTo(z, m, n + 1);
            && Continues(o, r) && InRun(z, r)
            && DecRRs(r.bytes + later, |o.bytes|, |m.sections[n]|, hops)
               == Ok(SentRRs(z, o, m.sections[n]), |r.bytes|)
  {
    hide DecRRs, EmitRRs, GoodRR, TableSound, SentRRs;
    RRsRoundTrip(z, EmitUpTo(z, m, n), m.sections[n], later, hops);
  }

  lemma FirstPartRoundTrip(z: bool, m: Msg, later: seq<Byte>, hops: nat)
    requires GoodMsg(m) && Fits(z, EmitUpTo(z, m, 0)) && hops >= |EmitUpTo(z, m, 0).bytes|
    ensures var r := EmitUpTo(z, m, 0);
            var b := r.bytes + later;
            && InRun(z, r) && HEADER_SIZE <= |r.bytes| && b[..HEADER_SIZE] == Header(m)
            && DecQuestions(b, HEADER_SIZE, |m.ques|, hops) == Ok(m.ques, |r.bytes|)
  {
    hide DecQuestions, EmitQuestions, GoodName, Header, GoodRR;
    var o := Out(Header(m), map[]);
    QuestionsRoundTrip(z, o, m.ques, later, hops);
    var r := EmitUpTo(z, m, 0);
    assert (r.bytes + later)[..HEADER_SIZE] == r.bytes[..HEADER_SIZE] == Header(m);
  }

  lemma EmitUpToExtends(z: bool, m: Msg, n: nat)
    requires Encodable(m) && n < 3
    ensures Continues(EmitUpTo(z, m, n), EmitUpTo(z, m, n + 1))
  {
    hide EmitRRs;
    EmitRRsExtends(z, EmitUpTo(z, m, n), m.sections[n]);
  }

  lemma DecodeSteps(b: seq<Byte>, hops: nat, m: Msg, p0: nat, p1: nat, p2: nat, p3: nat)
    requires |b| >= HEADER_SIZE
    requires Get16(b, 0) == m.id && Flags.FromOctets(b[2], b[3]) == m.flag
    requires DecQuestions(b, HEADER_SIZE, Get16(b, 4), hops) == Ok(m.ques, p0)
    requires DecRRs(b, p0, Get16(b, 6), hops) == Ok(m.sections[0], p1)
    requires DecRRs(b, p1, Get16(b, 8), hops) == Ok(m.sections[1], p2)
    requires DecRRs(b, p2, Get16(b, 10), hops) == Ok(m.sections[2], p3)
    ensures Decode(b, hops) == Ok(m, p3)
  {
    hide DecQuestions, DecRRs, Get16, Flags.FromOctets;
    assert m.sections == [m.sections[0], m.sections[1], m.sections[2]];
  }

  lemma CutAt(a: Out, c: Out, later: seq<Byte>)
    requires Continues(a, c)
    ensures a.bytes + (c.bytes[|a.bytes|..] + later) == c.bytes + later
  {
  }

  /** Whole-message round trip. Whatever good message is encoded, without compression or with a table that keeps every
      key whole, the octets decode to that message with the data_length values that encoding left in it, and
      reading ends at the length that `encode` returned. No name needs more pointers than the
      message has octets. */
  lemma RoundTrip(z: bool, m: Msg, later: seq<Byte>, hops: nat)
    requires GoodMsg(m) && (z ==> |Encode(z, m)| <= 0x4000) && hops >= |Encode(z, m)|
    ensures Decode(Encode(z, m) + later, hops) == Ok(Sent(z, m), |Encode(z, m)|)
  {
    hide DecQuestions, DecRRs, EmitUpTo, GoodRR, GoodName, TableSound, Header, SentRRs, Get16, Flags.FromOctets,
      Decode, EncodableRR;
    var o0, o1, o2, o3 := EmitUpTo(z, m, 0), EmitUpTo(z, m, 1), EmitUpTo(z, m, 2), EmitUpTo(z, m, 3);
    EmitUpToExtends(z, m, 0);
    EmitUpToExtends(z, m, 1);
    EmitUpToExtends(z, m, 2);
    var b := o3.bytes + later;
    var t2 := o3.bytes[|o2.bytes|..] + later;
    var t1 := o2.bytes[|o1.bytes|..] + t2;
    var t0 := o1.bytes[|o0.bytes|..] + t1;
    CutAt(o2, o3, later);
    CutAt(o1, o2, t2);
    CutAt(o0, o1, t1);
    FirstPartRoundTrip(z, m, t0, hops);
    SectionRoundTrip(z, m, 0, t1, hops);
    SectionRoundTrip(z, m, 1, t2, hops);
    SectionRoundTrip(z, m, 2, later, hops);
    HeaderReads(m, b);
    DecodeSteps(b, hops, Sent(z, m), |o0.bytes|, |o1.bytes|, |o2.bytes|, |o3.bytes|);
  }

  // ---- Exactly which queries survive --------------------------------------------------------------

  /** Without an additional section, ARCOUNT is zero and the octets end with the authority section. */
  lemma NoAdditional(z: bool, m: Msg)
    requires Encodable(m) && m.sections[2] == []
    ensures Header(m)[10..] == Put16(0) && Encode(z, m) == EmitUpTo(z, m, 2).bytes
  {
    hide EncodableRR;
    assert EmitUpTo(z, m, 3) == EmitRRs(z, EmitUpTo(z, m, 2), m.sections[2]);
  }

  /** What a client sends: one question, no records. */
  predicate IsQuery(m: Msg) {
    |m.ques| == 1 && m.sections == [[], [], []]
  }

  lemma QueryShape(z: bool, m: Msg)
    requires IsQuery(m)
    ensures Encodable(m) && Sent(z, m) == m
    ensures var o := Out(Header(m), map[]);
            Encode(z, m) == EmitName(z, o, m.ques[0].name).bytes + (Put16(m.ques[0].qtype) + Put16(m.ques[0].qclass))
  {
    hide EmitName, Header;
    var o := Out(Header(m), map[]);
    assert m.ques[..0] == [];
    assert EmitQuestions(z, o, m.ques[..0]) == o;
    assert EmitQuestions(z, o, m.ques) == EmitQuestion(z, o, m.ques[0]);
    assert EmitUpTo(z, m, 0) == EmitQuestion(z, o, m.ques[0]);
    assert EmitUpTo(z, m, 1) == EmitUpTo(z, m, 0);
    assert EmitUpTo(z, m, 2) == EmitUpTo(z, m, 1);
  }

  /** An uncompressed query comes back as it was sent, from all of its octets, exactly when its name is good. */
  lemma PlainQueryRoundTrip(m: Msg)
    requires IsQuery(m) && 0 !in m.ques[0].name && Encodable(m)
    ensures GoodName(m.ques[0].name) <==> exists hops :: Decode(Encode(false, m), hops) == Ok(m, |Encode(false, m)|)
  {
    hide EmitName, Header, DecName, NameEnd, NameOctets, GoodLabels;
    var o, q := Out(Header(m), map[]), m.ques[0];
    var w, later := EmitName(false, o, q.name).bytes, Put16(q.qtype) + Put16(q.qclass);
    var b := Encode(false, m);
    QueryShape(false, m);
    EmitNameOctets(false, o, q.name);
    PlainNameRoundTrip(o.bytes, q.name, later);
    if GoodName(q.name) {
      RoundTrip(false, m, [], |b|);
      assert b + [] == b;
    }
    if exists hops :: Decode(b, hops) == Ok(m, |b|) {
      var hops :| Decode(b, hops) == Ok(m, |b|);
      assert b[..HEADER_SIZE] == Header(m);
      HeaderReads(m, b);
      QueryDecodes(m, b, hops);
    }
  }

  lemma QueryDecodes(m: Msg, b: seq<Byte>, hops: nat)
    requires IsQuery(m) && Decode(b, hops) == Ok(m, |b|) && Get16(b, 4) == 1
    requires Get16(b, 6) == 0 && Get16(b, 8) == 0 && Get16(b, 10) == 0
    ensures DecName(b, HEADER_SIZE, hops) == Some(m.ques[0].name) && NameEnd(b, HEADER_SIZE) + 4 == |b|
  {
    hide DecName, NameEnd, Get16;
    assert DecQuestions(b, HEADER_SIZE, 0, hops) == Ok([], HEADER_SIZE);
    var q := DecQuestion(b, HEADER_SIZE, hops);
    assert DecQuestions(b, HEADER_SIZE, 1, hops) == Ok([] + [q.value], q.next);
    forall p: nat ensures DecRRs(b, p, 0, hops) == Ok([], p) {
    }
  }
}

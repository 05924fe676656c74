/** Whole messages with compression as it is: which messages survive it, and what it is worth. */
module StoredMessages {
  import opened Bytes
  import opened HashTable
  import opened NameCodec
  import opened Messages
  import opened Meaning
  import opened StoredKeys
  import opened ClashingKeys
  import Flags

  // ---- Encoder -------------------------------------------------------------------------------------------------

  function Then(o: Store, octets: seq<Byte>): Store {
    o.(bytes := o.bytes + octets)
  }

  function StoreQuestion(w: World, o: Store, q: Question): Store {
    Then(StoreName(w, o, q.name), Put16(q.qtype) + Put16(q.qclass))
  }

  /** RDLENGTH; o is the state after the owner's name. */
  function DataLength(w: World, o: Store, rr: RR): U16
    requires EncodableRR(rr)
  {
    match rr.payload
    case Raw(_) => rr.dataLength
    case Text(t) =>
      var o' := Then(o, FixedPart(rr, 0));
      StoreMore(w, o', t);
      |StoreName(w, o', t).bytes| - |o'.bytes|
  }

  /** The state before RDATA. */
  function BeforeStored(w: World, o: Store, rr: RR): Store
    requires EncodableRR(rr)
  {
    var o1 := StoreName(w, o, rr.name);
    Then(o1, FixedPart(rr, DataLength(w, o1, rr)))
  }

  function StoreRR(w: World, o: Store, rr: RR): Store
    requires EncodableRR(rr)
  {
    match rr.payload
    case Raw(data) => Then(BeforeStored(w, o, rr), data)
    case Text(t) => StoreName(w, BeforeStored(w, o, rr), t)
  }

  /** The record as `encodeRR` leaves it. */
  function StoredRR(w: World, o: Store, rr: RR): RR
    requires EncodableRR(rr)
  {
    rr.(dataLength := DataLength(w, StoreName(w, o, rr.name), rr))
  }

  function StoreQuestions(w: World, o: Store, qs: seq<Question>): Store {
    if qs == [] then o
    else StoreQuestion(w, StoreQuestions(w, o, qs[..|qs| - 1]), qs[|qs| - 1])
  }

  function StoreRRs(w: World, o: Store, rrs: seq<RR>): Store
    requires forall i | 0 <= i < |rrs| :: EncodableRR(rrs[i])
  {
    if rrs == [] then o
    else StoreRR(w, StoreRRs(w, o, rrs[..|rrs| - 1]), rrs[|rrs| - 1])
  }

  function StoredRRs(w: World, o: Store, rrs: seq<RR>): (r: seq<RR>)
    requires forall i | 0 <= i < |rrs| :: EncodableRR(rrs[i])
    ensures |r| == |rrs|
  {
    if rrs == [] then []
    else
      var init := rrs[..|rrs| - 1];
      StoredRRs(w, o, init) + [StoredRR(w, StoreRRs(w, o, init), rrs[|rrs| - 1])]
  }

  /** The state before section number n. */
  function StoreUpTo(w: World, m: Msg, n: nat): Store
    requires Encodable(m) && n <= 3
  {
    if n == 0 then StoreQuestions(w, Store(Header(m), []), m.ques)
    else StoreRRs(w, StoreUpTo(w, m, n - 1), m.sections[n - 1])
  }

  /** `encode` with compression in the world w: the octets ... */
  function StoreEncode(w: World, m: Msg): seq<Byte>
    requires Encodable(m)
  {
    StoreUpTo(w, m, 3).bytes
  }

  /** ... and the message as it is left. */
  function StoreSent(w: World, m: Msg): Msg
    requires Encodable(m)
  {
    m.(sections := [StoredRRs(w, StoreUpTo(w, m, 0), m.sections[0]),
                    StoredRRs(w, StoreUpTo(w, m, 1), m.sections[1]),
                    StoredRRs(w, StoreUpTo(w, m, 2), m.sections[2])])
  }

  // ---- Growth --------------------------------------------------------------------------------------------------

  lemma RRGrows(w: World, o: Store, rr: RR)
    requires EncodableRR(rr)
    ensures o.bytes <= StoreName(w, o, rr.name).bytes <= BeforeStored(w, o, rr).bytes <= StoreRR(w, o, rr).bytes
    ensures o.bytes <= StoreRR(w, o, rr).bytes
  {
    hide StoreName, FixedPart, DataLength;
    NameGrows(w, o, rr.name);
    var o2 := BeforeStored(w, o, rr);
    if rr.payload.Text? {
      NameGrows(w, o2, rr.payload.name);
    }
    PrefixTrans(o.bytes, StoreName(w, o, rr.name).bytes, o2.bytes);
    PrefixTrans(o.bytes, o2.bytes, StoreRR(w, o, rr).bytes);
  }

  lemma QuestionGrows(w: World, o: Store, q: Question)
    ensures o.bytes <= StoreQuestion(w, o, q).bytes
  {
    hide StoreName;
    NameGrows(w, o, q.name);
    PrefixTrans(o.bytes, StoreName(w, o, q.name).bytes, StoreQuestion(w, o, q).bytes);
  }

  lemma {:induction false} QuestionsGrow(w: World, o: Store, qs: seq<Question>)
    ensures o.bytes <= StoreQuestions(w, o, qs).bytes
    decreases |qs|
  {
    hide StoreQuestion;
    if qs != [] {
      var o1 := StoreQuestions(w, o, qs[..|qs| - 1]);
      QuestionsGrow(w, o, qs[..|qs| - 1]);
      QuestionGrows(w, o1, qs[|qs| - 1]);
      PrefixTrans(o.bytes, o1.bytes, StoreQuestions(w, o, qs).bytes);
    }
  }

  lemma {:induction false} RRsGrow(w: World, o: Store, rrs: seq<RR>)
    requires forall i | 0 <= i < |rrs| :: EncodableRR(rrs[i])
    ensures o.bytes <= StoreRRs(w, o, rrs).bytes
    decreases |rrs|
  {
    hide StoreRR, EncodableRR;
    if rrs != [] {
      var o1 := StoreRRs(w, o, rrs[..|rrs| - 1]);
      RRsGrow(w, o, rrs[..|rrs| - 1]);
      RRGrows(w, o1, rrs[|rrs| - 1]);
      PrefixTrans(o.bytes, o1.bytes, StoreRRs(w, o, rrs).bytes);
    }
  }

  /** What is written depends on what was written before only through its number and the slots. */
  lemma {:induction false} SameSize(w: World, o: Store, o2: Store, s: Name)
    requires |o.bytes| == |o2.bytes| && o.slots == o2.slots
    ensures StoreName(w, o2, s).slots == StoreName(w, o, s).slots
    ensures |StoreName(w, o2, s).bytes| == |StoreName(w, o, s).bytes|
    decreases |s|
  {
    StoreCases(w, o, s);
    StoreCases(w, o2, s);
    hide StoreName, Seen, Lookup;
    if Lookup(w, |o.slots|, o.slots, s) == None && FirstLabel(s) < |s| {
      SameSize(w, LabelStored(o, s), LabelStored(o2, s), AfterDot(s));
    }
  }

  /** RDLENGTH counts the octets that follow it. */
  lemma DataLengthIsTrue(w: World, o: Store, rr: RR)
    requires EncodableRR(rr)
    ensures |StoreRR(w, o, rr).bytes| == |BeforeStored(w, o, rr).bytes| + StoredRR(w, o, rr).dataLength
    ensures rr.payload.Raw? ==> StoredRR(w, o, rr) == rr
  {
    hide StoreName;
    if rr.payload.Text? {
      var o1 := StoreName(w, o, rr.name);
      SameSize(w, Then(o1, FixedPart(rr, 0)), BeforeStored(w, o, rr), rr.payload.name);
      hide FixedPart;
    }
  }

  // ---- Where reading goes on -----------------------------------------------------------------------------------

  lemma QuestionReads(w: World, o: Store, q: Question, b: seq<Byte>, hops: nat)
    requires GoodName(q.name) && StoreQuestion(w, o, q).bytes <= b
    ensures DecQuestion(b, |o.bytes|, hops) == Ok(q, |StoreQuestion(w, o, q).bytes|)
       <==> DecName(b, |o.bytes|, hops) == Some(q.name)
    ensures var x := DecQuestion(b, |o.bytes|, hops); x.Ok? ==> x.next == |StoreQuestion(w, o, q).bytes|
  {
    var o1, r := StoreName(w, o, q.name), StoreQuestion(w, o, q);
    var p := |o1.bytes|;
    assert b[p..p + 2] == r.bytes[p..p + 2] == Put16(q.qtype);
    assert b[p + 2..p + 4] == r.bytes[p + 2..p + 4] == Put16(q.qclass);
    GetPut16(b, p, q.qtype);
    GetPut16(b, p + 2, q.qclass);
    PrefixTrans(o1.bytes, r.bytes, b);
    StoredEnd(w, o, q.name, b);
    hide StoreName, DecName, NameEnd, Get16, Put16, GoodName;
  }

  /** The names of a record decode where they were written. */
  ghost predicate NamesRead(w: World, o: Store, rr: RR, b: seq<Byte>, hops: nat)
    requires EncodableRR(rr)
  {
    && DecName(b, |o.bytes|, hops) == Some(rr.name)
    && (rr.payload.Text? ==> DecName(b, |BeforeStored(w, o, rr).bytes|, hops) == Some(rr.payload.name))
  }

  lemma FixedReads(w: World, o: Store, rr: RR, b: seq<Byte>)
    requires GoodRR(rr) && StoreRR(w, o, rr).bytes <= b
    ensures |BeforeStored(w, o, rr).bytes| == NameEnd(b, |o.bytes|) + 10 <= |b|
    ensures var p := NameEnd(b, |o.bytes|);
            && Get16(b, p) == rr.rtype && Get16(b, p + 2) == rr.rclass
            && Get32(b, p + 4) == rr.ttl && Get16(b, p + 8) == StoredRR(w, o, rr).dataLength
  {
    var o1, o2 := StoreName(w, o, rr.name), BeforeStored(w, o, rr);
    var n := StoredRR(w, o, rr).dataLength;
    RRGrows(w, o, rr);
    assert GoodName(rr.name) && o2.bytes == o1.bytes + FixedPart(rr, n);
    hide *;
    PrefixTrans(o2.bytes, StoreRR(w, o, rr).bytes, b);
    PrefixTrans(o1.bytes, o2.bytes, b);
    StoredEnd(w, o, rr.name, b);
    There(o1.bytes, FixedPart(rr, n), b);
    FixedPartReads(b, |o1.bytes|, rr, n);
  }

  /** A record whose fixed fields are read as those of x. */
  lemma RRReadsRaw(b: seq<Byte>, pos: nat, x: RR, hops: nat)
    requires x.payload.Raw? && !IsTextType(x.rtype) && |x.payload.data| == x.dataLength
    requires var p := NameEnd(b, pos);
             && p + 10 + x.dataLength <= |b| && b[p + 10..p + 10 + x.dataLength] == x.payload.data
             && Get16(b, p) == x.rtype && Get16(b, p + 2) == x.rclass && Get32(b, p + 4) == x.ttl
             && Get16(b, p + 8) == x.dataLength
    ensures var r, end := DecRR(b, pos, hops), NameEnd(b, pos) + 10 + x.dataLength;
            (r == Ok(x, end) <==> DecName(b, pos, hops) == Some(x.name)) && (r.Ok? ==> r.next == end)
  {
    hide DecName, NameEnd, Get16, Get32;
  }

  lemma RRReadsText(b: seq<Byte>, pos: nat, x: RR, hops: nat)
    requires x.payload.Text? && IsTextType(x.rtype)
    requires var p := NameEnd(b, pos);
             && p + 10 <= |b|
             && Get16(b, p) == x.rtype && Get16(b, p + 2) == x.rclass && Get32(b, p + 4) == x.ttl
             && Get16(b, p + 8) == x.dataLength
    ensures var r, end := DecRR(b, pos, hops), NameEnd(b, pos) + 10 + x.dataLength;
            && (r == Ok(x, end) <==> && DecName(b, pos, hops) == Some(x.name)
                                     && DecName(b, NameEnd(b, pos) + 10, hops) == Some(x.payload.name))
            && (r.Ok? ==> r.next == end)
  {
    hide DecName, NameEnd, Get16, Get32;
  }

  /** Reading a record goes on where writing it stopped, and gives the record as it was left if and only if its names
      decode. */
  lemma RRReads(w: World, o: Store, rr: RR, b: seq<Byte>, hops: nat)
    requires GoodRR(rr) && StoreRR(w, o, rr).bytes <= b
    ensures DecRR(b, |o.bytes|, hops) == Ok(StoredRR(w, o, rr), |StoreRR(w, o, rr).bytes|) <==> NamesRead(w, o, rr, b, hops)
    ensures var x := DecRR(b, |o.bytes|, hops); x.Ok? ==> x.next == |StoreRR(w, o, rr).bytes|
  {
    hide *;
    RRShape(w, o, rr, b, hops);
    RREnds(w, o, rr, b);
    if rr.payload.Raw? {
      RRReadsRaw(b, |o.bytes|, StoredRR(w, o, rr), hops);
    } else {
      RRReadsText(b, |o.bytes|, StoredRR(w, o, rr), hops);
    }
  }

  lemma RREnds(w: World, o: Store, rr: RR, b: seq<Byte>)
    requires GoodRR(rr) && StoreRR(w, o, rr).bytes <= b
    ensures var p, x := NameEnd(b, |o.bytes|), StoredRR(w, o, rr);
            && p + 10 == |BeforeStored(w, o, rr).bytes| <= |b|
            && p + 10 + x.dataLength == |StoreRR(w, o, rr).bytes| <= |b|
            && Get16(b, p) == x.rtype && Get16(b, p + 2) == x.rclass && Get32(b, p + 4) == x.ttl
            && Get16(b, p + 8) == x.dataLength
            && (rr.payload.Raw? ==> b[p + 10..p + 10 + x.dataLength] == rr.payload.data)
  {
    assert EncodableRR(rr) && (rr.payload.Raw? ==> |rr.payload.data| == rr.dataLength);
    assert StoredRR(w, o, rr).(dataLength := 0) == rr.(dataLength := 0);
    hide *;
    FixedReads(w, o, rr, b);
    DataLengthIsTrue(w, o, rr);
    if rr.payload.Raw? {
      DataReads(w, o, rr, b);
    }
  }

  lemma RRShape(w: World, o: Store, rr: RR, b: seq<Byte>, hops: nat)
    requires GoodRR(rr)
    ensures var x := StoredRR(w, o, rr);
            && x == rr.(dataLength := x.dataLength) && (rr.payload.Raw? ==> |rr.payload.data| == x.dataLength)
            && (rr.payload.Text? <==> IsTextType(x.rtype)) && EncodableRR(rr)
    ensures NamesRead(w, o, rr, b, hops) <==>
            && DecName(b, |o.bytes|, hops) == Some(rr.name)
            && (rr.payload.Text? ==> DecName(b, |BeforeStored(w, o, rr).bytes|, hops) == Some(rr.payload.name))
  {
    hide StoreName, DecName, BeforeStored, GoodName;
  }

  lemma DataReads(w: World, o: Store, rr: RR, b: seq<Byte>)
    requires EncodableRR(rr) && rr.payload.Raw? && StoreRR(w, o, rr).bytes <= b
    ensures var p, n := |BeforeStored(w, o, rr).bytes|, |rr.payload.data|; p + n <= |b| && b[p..p + n] == rr.payload.data
  {
    There(BeforeStored(w, o, rr).bytes, rr.payload.data, b);
  }

  // ---- Names ---------------------------------------------------------------------------------------------------

  function QuestionNames(qs: seq<Question>): seq<Name> {
    if qs == [] then [] else QuestionNames(qs[..|qs| - 1]) + [qs[|qs| - 1].name]
  }

  function RRNames(rr: RR): seq<Name> {
    if rr.payload.Text? then [rr.name] + [rr.payload.name] else [rr.name]
  }

  function RRsNames(rrs: seq<RR>): seq<Name> {
    if rrs == [] then [] else RRsNames(rrs[..|rrs| - 1]) + RRNames(rrs[|rrs| - 1])
  }

  /** All names before section n, in the order in which they are written. */
  function NamesUpTo(m: Msg, n: nat): seq<Name>
    requires n <= 3
  {
    if n == 0 then QuestionNames(m.ques) else NamesUpTo(m, n - 1) + RRsNames(m.sections[n - 1])
  }

  lemma NamesAssoc(a: seq<Name>, b: seq<Name>, c: seq<Name>)
    ensures a + (b + c) == a + b + c && a + b <= a + (b + c)
  {
  }

  // ---- Round trip ----------------------------------------------------------------------------------------------

  /** What holds when the names `done` have been written. */
  ghost predicate Sound(o: Store, done: seq<Name>) {
    SlotsSound(o) && Names(o.slots) == SuffixesOf(done) && |o.slots| <= LabelsOf(done)
  }

  lemma NameSteps(w: World, o: Store, done: seq<Name>, s: Name, all: seq<Name>, b: seq<Byte>, hops: nat)
    requires GoodName(s) && Sound(o, done) && done + [s] <= all && Apart(w, all)
    requires StoreName(w, o, s).bytes <= b && |StoreName(w, o, s).bytes| <= 0x4000 && |o.bytes| <= hops
    ensures Sound(StoreName(w, o, s), done + [s]) && DecName(b, |o.bytes|, hops) == Some(s)
  {
    var r := StoreName(w, o, s).bytes;
    assert b == r + b[|r|..];
    ApartFirst(w, done + [s], all);
    hide StoreName, DecName, SlotsSound, Names, Apart, SuffixesOf, LabelsOf, GoodName, NameEnd, PointsBack;
    NameSound(w, o, done, s);
    NamesComplete(w, o, done, s);
    DecNameStable(r, b[|r|..], |o.bytes|, |o.bytes|);
    DecNameMoreHops(b, |o.bytes|, |o.bytes|, hops);
  }

  lemma ThenSound(o: Store, octets: seq<Byte>, done: seq<Name>)
    requires Sound(o, done)
    ensures Sound(Then(o, octets), done)
  {
    OldSlotsSound(o, octets);
  }

  lemma QuestionSteps(w: World, o: Store, done: seq<Name>, q: Question, all: seq<Name>, b: seq<Byte>, hops: nat)
    requires GoodName(q.name) && Sound(o, done) && done + [q.name] <= all && Apart(w, all)
    requires var r := StoreQuestion(w, o, q).bytes; r <= b && |r| <= 0x4000 && |r| <= hops
    ensures var r := StoreQuestion(w, o, q);
            Sound(r, done + [q.name]) && DecQuestion(b, |o.bytes|, hops) == Ok(q, |r.bytes|)
  {
    hide StoreName, DecName, Sound, Apart, GoodName, DecQuestion, Put16;
    var o1, r := StoreName(w, o, q.name), StoreQuestion(w, o, q);
    NameGrows(w, o, q.name);
    PrefixTrans(o1.bytes, r.bytes, b);
    NameSteps(w, o, done, q.name, all, b, hops);
    ThenSound(o1, Put16(q.qtype) + Put16(q.qclass), done + [q.name]);
    QuestionReads(w, o, q, b, hops);
  }

  lemma RRSteps(w: World, o: Store, done: seq<Name>, rr: RR, all: seq<Name>, b: seq<Byte>, hops: nat)
    requires GoodRR(rr) && Sound(o, done) && done + RRNames(rr) <= all && Apart(w, all)
    requires var r := StoreRR(w, o, rr).bytes; r <= b && |r| <= 0x4000 && |r| <= hops
    ensures var r := StoreRR(w, o, rr);
            Sound(r, done + RRNames(rr)) && DecRR(b, |o.bytes|, hops) == Ok(StoredRR(w, o, rr), |r.bytes|)
  {
    hide StoreName, DecName, Sound, Apart, GoodName, DecRR, FixedPart, DataLength, StoredRR;
    var o1, o2, r := StoreName(w, o, rr.name), BeforeStored(w, o, rr), StoreRR(w, o, rr);
    var done1 := done + [rr.name];
    RRGrows(w, o, rr);
    PrefixTrans(o2.bytes, r.bytes, b);
    PrefixTrans(o1.bytes, o2.bytes, b);
    RRNamesFirst(done, rr, all);
    NameSteps(w, o, done, rr.name, all, b, hops);
    ThenSound(o1, FixedPart(rr, DataLength(w, o1, rr)), done1);
    match rr.payload {
      case Raw(data) => ThenSound(o2, data, done1);
      case Text(t) => NameSteps(w, o2, done1, t, all, b, hops);
    }
    RRReads(w, o, rr, b, hops);
  }

  lemma RRNamesFirst(done: seq<Name>, rr: RR, all: seq<Name>)
    requires done + RRNames(rr) <= all
    ensures done + [rr.name] <= all
    ensures done + RRNames(rr) == if rr.payload.Text? then done + [rr.name] + [rr.payload.name] else done + [rr.name]
  {
    NamesAssoc(done, [rr.name], if rr.payload.Text? then [rr.payload.name] else []);
  }

  lemma {:induction false} QuestionsSteps(w: World, o: Store, done: seq<Name>, qs: seq<Question>, all: seq<Name>,
                                          b: seq<Byte>, hops: nat)
    requires (forall i | 0 <= i < |qs| :: GoodName(qs[i].name)) && Sound(o, done)
    requires done + QuestionNames(qs) <= all && Apart(w, all)
    requires var r := StoreQuestions(w, o, qs).bytes; r <= b && |r| <= 0x4000 && |r| <= hops
    ensures var r := StoreQuestions(w, o, qs);
            && Sound(r, done + QuestionNames(qs))
            && DecQuestions(b, |o.bytes|, |qs|, hops) == Ok(qs, |r.bytes|)
    decreases |qs|
  {
    hide StoreQuestion, Sound, Apart, GoodName, DecQuestion;
    if qs == [] {
      assert done + [] == done;
    } else {
      var init, q := qs[..|qs| - 1], qs[|qs| - 1];
      var o1, r := StoreQuestions(w, o, init), StoreQuestions(w, o, qs);
      NamesAssoc(done, QuestionNames(init), [q.name]);
      QuestionGrows(w, o1, q);
      PrefixTrans(o1.bytes, r.bytes, b);
      QuestionsSteps(w, o, done, init, all, b, hops);
      QuestionSteps(w, o1, done + QuestionNames(init), q, all, b, hops);
      assert qs == init + [q];
    }
  }

  lemma {:induction false} RRsSteps(w: World, o: Store, done: seq<Name>, rrs: seq<RR>, all: seq<Name>, b: seq<Byte>,
                                    hops: nat)
    requires (forall i | 0 <= i < |rrs| :: EncodableRR(rrs[i]) && GoodRR(rrs[i]))
    requires Sound(o, done) && done + RRsNames(rrs) <= all && Apart(w, all)
    requires var r := StoreRRs(w, o, rrs).bytes; r <= b && |r| <= 0x4000 && |r| <= hops
    ensures var r := StoreRRs(w, o, rrs);
            && Sound(r, done + RRsNames(rrs))
            && DecRRs(b, |o.bytes|, |rrs|, hops) == Ok(StoredRRs(w, o, rrs), |r.bytes|)
    decreases |rrs|
  {
    hide StoreRR, StoredRR, Sound, Apart, RRNames, EncodableRR, GoodRR, DecRR;
    if rrs == [] {
      assert done + [] == done;
    } else {
      var init, rr := rrs[..|rrs| - 1], rrs[|rrs| - 1];
      var o1, r := StoreRRs(w, o, init), StoreRRs(w, o, rrs);
      NamesAssoc(done, RRsNames(init), RRNames(rr));
      RRGrows(w, o1, rr);
      PrefixTrans(o1.bytes, r.bytes, b);
      RRsSteps(w, o, done, init, all, b, hops);
      RRSteps(w, o1, done + RRsNames(init), rr, all, b, hops);
    }
  }

  lemma UpToGrows(w: World, m: Msg, n: nat)
    requires Encodable(m) && n < 3
    ensures StoreUpTo(w, m, n).bytes <= StoreUpTo(w, m, n + 1).bytes
  {
    hide StoreRRs, EncodableRR;
    RRsGrow(w, StoreUpTo(w, m, n), m.sections[n]);
  }

  /** Up to section n, everything decodes where it was written, and the table has slots for exactly the label suffixes
      of the names. */
  lemma UpToSteps(w: World, m: Msg, n: nat, b: seq<Byte>, hops: nat)
    requires GoodMsg(m) && n <= 3 && Apart(w, NamesUpTo(m, 3)) && StoreUpTo(w, m, n).bytes <= b
    requires |StoreUpTo(w, m, n).bytes| <= 0x4000 && |StoreUpTo(w, m, n).bytes| <= hops
    ensures Sound(StoreUpTo(w, m, n), NamesUpTo(m, n))
    ensures n == 0 ==> DecQuestions(b, HEADER_SIZE, |m.ques|, hops) == Ok(m.ques, |StoreUpTo(w, m, 0).bytes|)
    ensures n > 0 ==> DecRRs(b, |StoreUpTo(w, m, n - 1).bytes|, |m.sections[n - 1]|, hops)
                      == Ok(StoredRRs(w, StoreUpTo(w, m, n - 1), m.sections[n - 1]), |StoreUpTo(w, m, n).bytes|)
    decreases n
  {
    var all := NamesUpTo(m, 3);
    NamesGrow(m, n);
    hide StoreQuestions, StoreRRs, StoredRRs, EncodableRR, GoodName, DecQuestions, DecRRs, QuestionNames, RRsNames,
      Apart, Header, GoodRR;
    if n == 0 {
      var o := Store(Header(m), []);
      assert Sound(o, []);
      hide Sound;
      assert [] + QuestionNames(m.ques) == QuestionNames(m.ques);
      QuestionsSteps(w, o, [], m.ques, all, b, hops);
    } else {
      var o := StoreUpTo(w, m, n - 1);
      UpToGrows(w, m, n - 1);
      PrefixTrans(o.bytes, StoreUpTo(w, m, n).bytes, b);
      UpToSteps(w, m, n - 1, b, hops);
      hide Sound;
      RRsSteps(w, o, NamesUpTo(m, n - 1), m.sections[n - 1], all, b, hops);
    }
  }

  lemma {:induction false} NamesGrow(m: Msg, n: nat)
    requires n <= 3
    ensures NamesUpTo(m, n) <= NamesUpTo(m, 3)
    decreases 3 - n
  {
    if n < 3 {
      NamesGrow(m, n + 1);
    }
  }

  lemma HeaderFirst(w: World, m: Msg, b: seq<Byte>)
    requires Encodable(m) && StoreUpTo(w, m, 0).bytes <= b
    ensures HEADER_SIZE <= |b| && b[..HEADER_SIZE] == Header(m)
  {
    hide StoreQuestions, EncodableRR;
    QuestionsGrow(w, Store(Header(m), []), m.ques);
    PrefixTrans(Header(m), StoreUpTo(w, m, 0).bytes, b);
  }

  lemma AllGrow(w: World, m: Msg, b: seq<Byte>)
    requires Encodable(m) && StoreEncode(w, m) <= b
    ensures forall n | 0 <= n <= 3 :: StoreUpTo(w, m, n).bytes <= b && |StoreUpTo(w, m, n).bytes| <= |StoreEncode(w, m)|
  {
    hide StoreUpTo, EncodableRR;
    UpToGrows(w, m, 2);
    UpToGrows(w, m, 1);
    UpToGrows(w, m, 0);
    PrefixTrans(StoreUpTo(w, m, 2).bytes, StoreUpTo(w, m, 3).bytes, b);
    PrefixTrans(StoreUpTo(w, m, 1).bytes, StoreUpTo(w, m, 2).bytes, b);
    PrefixTrans(StoreUpTo(w, m, 0).bytes, StoreUpTo(w, m, 1).bytes, b);
  }

  lemma SentParts(w: World, m: Msg)
    requires Encodable(m)
    ensures var x := StoreSent(w, m);
            && x == m.(sections := x.sections)
            && forall n | 0 <= n < 3 :: x.sections[n] == StoredRRs(w, StoreUpTo(w, m, n), m.sections[n])
  {
  }

  /** Whole messages, compressed through the table as it is: whatever memory and the hash function do, a good message
      in which no name is found under another decodes to itself with the data_length values that encoding left in it, and
      reading ends at the length that `encode` returned. */
  lemma RoundTrip(w: World, m: Msg, later: seq<Byte>, hops: nat)
    requires GoodMsg(m) && Apart(w, NamesUpTo(m, 3))
    requires |StoreEncode(w, m)| <= 0x4000 && |StoreEncode(w, m)| <= hops
    ensures Decode(StoreEncode(w, m) + later, hops) == Ok(StoreSent(w, m), |StoreEncode(w, m)|)
  {
    var b := StoreEncode(w, m) + later;
    AllGrow(w, m, b);
    assert StoreEncode(w, m) == StoreUpTo(w, m, 3).bytes && Encodable(m);
    assert |m.ques| < 0x1_0000 && forall i | 0 <= i < 3 :: |m.sections[i]| < 0x1_0000;
    hide *;
    UpToSteps(w, m, 0, b, hops);
    UpToSteps(w, m, 1, b, hops);
    UpToSteps(w, m, 2, b, hops);
    UpToSteps(w, m, 3, b, hops);
    HeaderFirst(w, m, b);
    HeaderReads(m, b);
    SentParts(w, m);
    DecodeSteps(b, hops, StoreSent(w, m), |StoreUpTo(w, m, 0).bytes|, |StoreUpTo(w, m, 1).bytes|,
                |StoreUpTo(w, m, 2).bytes|, |StoreUpTo(w, m, 3).bytes|);
  }

  // ---- Size ----------------------------------------------------------------------------------------------------

  lemma NameNoLonger(w: World, o: Store, p: Out, s: Name)
    requires |o.bytes| <= |p.bytes|
    ensures |StoreName(w, o, s).bytes| <= |EmitName(false, p, s).bytes|
  {
    hide StoreName, EmitName, NameOctets;
    StoreMore(w, o, s);
    EmitNameOctets(false, p, s);
    PlainSize(p.tab, s);
  }

  lemma RRNoLonger(w: World, o: Store, p: Out, rr: RR)
    requires EncodableRR(rr) && |o.bytes| <= |p.bytes|
    ensures |StoreRR(w, o, rr).bytes| <= |EmitRR(false, p, rr).bytes|
  {
    hide StoreName, EmitName, EmitRR, SentRR, DataLength;
    EmitRRCases(false, p, rr);
    NameNoLonger(w, o, p, rr.name);
    if rr.payload.Text? {
      NameNoLonger(w, BeforeStored(w, o, rr), BeforeData(false, p, rr), rr.payload.name);
    }
  }

  lemma {:induction false} QuestionsNoLonger(w: World, o: Store, p: Out, qs: seq<Question>)
    requires |o.bytes| <= |p.bytes|
    ensures |StoreQuestions(w, o, qs).bytes| <= |EmitQuestions(false, p, qs).bytes|
    decreases |qs|
  {
    hide StoreName, EmitName;
    if qs != [] {
      var init := qs[..|qs| - 1];
      QuestionsNoLonger(w, o, p, init);
      NameNoLonger(w, StoreQuestions(w, o, init), EmitQuestions(false, p, init), qs[|qs| - 1].name);
    }
  }

  lemma {:induction false} RRsNoLonger(w: World, o: Store, p: Out, rrs: seq<RR>)
    requires forall i | 0 <= i < |rrs| :: EncodableRR(rrs[i])
    requires |o.bytes| <= |p.bytes|
    ensures |StoreRRs(w, o, rrs).bytes| <= |EmitRRs(false, p, rrs).bytes|
    decreases |rrs|
  {
    hide StoreRR, EmitRR, EncodableRR;
    if rrs != [] {
      var init := rrs[..|rrs| - 1];
      RRsNoLonger(w, o, p, init);
      RRNoLonger(w, StoreRRs(w, o, init), EmitRRs(false, p, init), rrs[|rrs| - 1]);
    }
  }

  lemma {:induction false} UpToNoLonger(w: World, m: Msg, n: nat)
    requires Encodable(m) && n <= 3
    ensures |StoreUpTo(w, m, n).bytes| <= |EmitUpTo(false, m, n).bytes|
    decreases n
  {
    hide StoreRRs, EmitRRs, StoreQuestions, EmitQuestions, EncodableRR;
    if n == 0 {
      QuestionsNoLonger(w, Store(Header(m), []), Out(Header(m), map[]), m.ques);
    } else {
      UpToNoLonger(w, m, n - 1);
      RRsNoLonger(w, StoreUpTo(w, m, n - 1), EmitUpTo(false, m, n - 1), m.sections[n - 1]);
    }
  }

  /** Compressed messages are never longer than uncompressed ones, names that clash included. */
  lemma NeverLonger(w: World, m: Msg)
    requires Encodable(m)
    ensures |StoreEncode(w, m)| <= |Encode(false, m)|
  {
    UpToNoLonger(w, m, 3);
  }

  // ---- Meaning -------------------------------------------------------------------------------------------------

  lemma {:induction false} StoredRRsSame(w: World, o: Store, rrs: seq<RR>, i: nat)
    requires forall j | 0 <= j < |rrs| :: EncodableRR(rrs[j])
    requires i < |rrs|
    ensures SameRR(StoredRRs(w, o, rrs)[i], rrs[i])
    decreases |rrs|
  {
    hide StoreRRs, StoreRR, StoreName, DataLength;
    var init := rrs[..|rrs| - 1];
    if i == |rrs| - 1 {
      DataLengthIsTrue(w, StoreRRs(w, o, init), rrs[i]);
    } else {
      StoredRRsSame(w, o, init, i);
    }
  }

  lemma StoreSentSame(w: World, m: Msg)
    requires Encodable(m)
    ensures SameMsg(StoreSent(w, m), m)
  {
    hide StoreUpTo, StoredRRs, EncodableRR, SameRR;
    forall n, i | 0 <= n < 3 && 0 <= i < |m.sections[n]|
      ensures SameRR(StoreSent(w, m).sections[n][i], m.sections[n][i])
    {
      StoredRRsSame(w, StoreUpTo(w, m, n), m.sections[n], i);
    }
  }

  /** With and without compression the octets decode to the same message, apart from the data_length of CNAME and NS
      records. */
  lemma CompressionPreservesMeaning(w: World, m: Msg, hops: nat)
    requires GoodMsg(m) && Apart(w, NamesUpTo(m, 3)) && |StoreEncode(w, m)| <= 0x4000
    requires hops >= |Encode(false, m)|
    ensures var x, y := Decode(StoreEncode(w, m), hops), Decode(Encode(false, m), hops);
            x.Ok? && y.Ok? && SameMsg(x.value, y.value) && SameMsg(x.value, m)
  {
    hide Encode, StoreEncode, Decode, Sent, StoreSent, SameMsg, GoodRR, NamesUpTo, Apart;
    NeverLonger(w, m);
    RoundTrip(w, m, [], hops);
    Messages.RoundTrip(false, m, [], hops);
    assert StoreEncode(w, m) + [] == StoreEncode(w, m) && Encode(false, m) + [] == Encode(false, m);
    StoreSentSame(w, m);
    SentSame(false, m);
    SameMsgSym(StoreSent(w, m), Sent(false, m), m);
  }

  // ---- Exactly which messages survive --------------------------------------------------------------------------

  /** The world in which t and u are mixed up. */
  function Mixed(t: Name, u: Name, h: Name -> nat): World
    requires |u| >= KEY_MAX
  {
    Steady(Mixing(t, u), h)
  }

  /** In b the names `done` have been written and decode, and u does not follow t, with which it clashes. */
  ghost predicate Unmixed(t: Name, u: Name, h: Name -> nat, b: seq<Byte>, o: Store, hops: nat, done: seq<Name>) {
    Clash(t, u) && h(t) == h(u) && Told(Mixed(t, u, h), b, o, hops, done) && !Follows(done, t, u)
  }

  lemma NameUnmixed(t: Name, u: Name, h: Name -> nat, o: Store, s: Name, b: seq<Byte>, hops: nat, done: seq<Name>)
    requires Unmixed(t, u, h, b, o, hops, done) && GoodName(s) && DecName(b, |o.bytes|, hops) == Some(s)
    requires var r := StoreName(Mixed(t, u, h), o, s).bytes; |r| <= 0x4000 && r <= b
    ensures Unmixed(t, u, h, b, StoreName(Mixed(t, u, h), o, s), hops, done + [s])
  {
    assert |u| >= KEY_MAX;
    hide StoreName, DecName, Told, GoodName, Clash, Follows, Steady, Mixing;
    NameTold(Mixed(t, u, h), o, s, b, hops, done);
    NotMixed(t, u, h, o, s, b, hops, done);
  }

  lemma ThenUnmixed(t: Name, u: Name, h: Name -> nat, b: seq<Byte>, o: Store, octets: seq<Byte>, hops: nat,
                    done: seq<Name>)
    requires Unmixed(t, u, h, b, o, hops, done) && |Then(o, octets).bytes| <= 0x4000 && Then(o, octets).bytes <= b
    ensures Unmixed(t, u, h, b, Then(o, octets), hops, done)
  {
    hide DecName, OnMiss, Names, SuffixesOf, Clash, Follows, Mixed;
  }

  lemma QuestionUnmixed(t: Name, u: Name, h: Name -> nat, o: Store, q: Question, b: seq<Byte>, hops: nat,
                        done: seq<Name>)
    requires Unmixed(t, u, h, b, o, hops, done) && GoodName(q.name) && DecName(b, |o.bytes|, hops) == Some(q.name)
    requires |u| >= KEY_MAX
    requires var r := StoreQuestion(Mixed(t, u, h), o, q).bytes; |r| <= 0x4000 && r <= b
    ensures Unmixed(t, u, h, b, StoreQuestion(Mixed(t, u, h), o, q), hops, done + [q.name])
  {
    var w := Mixed(t, u, h);
    hide StoreName, DecName, Unmixed, GoodName, Put16, Mixed;
    var o1, r := StoreName(w, o, q.name), StoreQuestion(w, o, q);
    NameGrows(w, o, q.name);
    PrefixTrans(o1.bytes, r.bytes, b);
    NameUnmixed(t, u, h, o, q.name, b, hops, done);
    ThenUnmixed(t, u, h, b, o1, Put16(q.qtype) + Put16(q.qclass), hops, done + [q.name]);
  }

  lemma RRUnmixed(t: Name, u: Name, h: Name -> nat, o: Store, rr: RR, b: seq<Byte>, hops: nat, done: seq<Name>)
    requires Unmixed(t, u, h, b, o, hops, done) && GoodRR(rr) && |u| >= KEY_MAX
    requires NamesRead(Mixed(t, u, h), o, rr, b, hops)
    requires var r := StoreRR(Mixed(t, u, h), o, rr).bytes; |r| <= 0x4000 && r <= b
    ensures Unmixed(t, u, h, b, StoreRR(Mixed(t, u, h), o, rr), hops, done + RRNames(rr))
  {
    var w := Mixed(t, u, h);
    hide StoreName, DecName, Unmixed, GoodName, FixedPart, DataLength, Mixed;
    var o1, o2, r := StoreName(w, o, rr.name), BeforeStored(w, o, rr), StoreRR(w, o, rr);
    var done1 := done + [rr.name];
    RRGrows(w, o, rr);
    PrefixTrans(o2.bytes, r.bytes, b);
    PrefixTrans(o1.bytes, o2.bytes, b);
    RRNamesFirst(done, rr, done + RRNames(rr));
    NameUnmixed(t, u, h, o, rr.name, b, hops, done);
    ThenUnmixed(t, u, h, b, o1, FixedPart(rr, DataLength(w, o1, rr)), hops, done1);
    match rr.payload {
      case Raw(data) => ThenUnmixed(t, u, h, b, o2, data, hops, done1);
      case Text(name) => NameUnmixed(t, u, h, o2, name, b, hops, done1);
    }
  }

  lemma {:induction false} QuestionsUnmixed(t: Name, u: Name, h: Name -> nat, o: Store, qs: seq<Question>, b: seq<Byte>,
                                            hops: nat, done: seq<Name>, p: nat)
    requires Unmixed(t, u, h, b, o, hops, done) && |u| >= KEY_MAX && forall i | 0 <= i < |qs| :: GoodName(qs[i].name)
    requires var r := StoreQuestions(Mixed(t, u, h), o, qs).bytes; |r| <= 0x4000 && r <= b
    requires DecQuestions(b, |o.bytes|, |qs|, hops) == Ok(qs, p)
    ensures p == |StoreQuestions(Mixed(t, u, h), o, qs).bytes|
    ensures Unmixed(t, u, h, b, StoreQuestions(Mixed(t, u, h), o, qs), hops, done + QuestionNames(qs))
    decreases |qs|
  {
    var w := Mixed(t, u, h);
    hide StoreQuestion, DecName, Unmixed, GoodName, DecQuestion, Mixed;
    if qs == [] {
      assert done + [] == done;
    } else {
      var init, q := qs[..|qs| - 1], qs[|qs| - 1];
      var o1, r := StoreQuestions(w, o, init), StoreQuestions(w, o, qs);
      QuestionGrows(w, o1, q);
      PrefixTrans(o1.bytes, r.bytes, b);
      var x := DecQuestions(b, |o.bytes|, |init|, hops);
      assert x.value == init;
      QuestionsUnmixed(t, u, h, o, init, b, hops, done, x.next);
      QuestionReads(w, o1, q, b, hops);
      QuestionUnmixed(t, u, h, o1, q, b, hops, done + QuestionNames(init));
      NamesAssoc(done, QuestionNames(init), [q.name]);
    }
  }

  lemma {:induction false} RRsUnmixed(t: Name, u: Name, h: Name -> nat, o: Store, rrs: seq<RR>, b: seq<Byte>, hops: nat,
                                      done: seq<Name>, p: nat)
    requires Unmixed(t, u, h, b, o, hops, done) && |u| >= KEY_MAX
    requires forall i | 0 <= i < |rrs| :: EncodableRR(rrs[i]) && GoodRR(rrs[i])
    requires var r := StoreRRs(Mixed(t, u, h), o, rrs).bytes; |r| <= 0x4000 && r <= b
    requires DecRRs(b, |o.bytes|, |rrs|, hops) == Ok(StoredRRs(Mixed(t, u, h), o, rrs), p)
    ensures p == |StoreRRs(Mixed(t, u, h), o, rrs).bytes|
    ensures Unmixed(t, u, h, b, StoreRRs(Mixed(t, u, h), o, rrs), hops, done + RRsNames(rrs))
    decreases |rrs|
  {
    var w := Mixed(t, u, h);
    hide StoreRR, StoredRR, Unmixed, RRNames, GoodRR, EncodableRR, DecRR, NamesRead, Mixed;
    if rrs == [] {
      assert done + [] == done;
    } else {
      var init, rr := rrs[..|rrs| - 1], rrs[|rrs| - 1];
      var o1, r := StoreRRs(w, o, init), StoreRRs(w, o, rrs);
      RRGrows(w, o1, rr);
      PrefixTrans(o1.bytes, r.bytes, b);
      var x := DecRRs(b, |o.bytes|, |init|, hops);
      LastTwo(x.value, DecRR(b, x.next, hops).value, StoredRRs(w, o, init), StoredRR(w, o1, rr));
      RRsUnmixed(t, u, h, o, init, b, hops, done, x.next);
      RRReads(w, o1, rr, b, hops);
      RRUnmixed(t, u, h, o1, rr, b, hops, done + RRsNames(init));
      NamesAssoc(done, RRsNames(init), RRNames(rr));
    }
  }

  lemma LastTwo<T>(a: seq<T>, x: T, b: seq<T>, y: T)
    ensures a + [x] == b + [y] ==> a == b && x == y
  {
    if a + [x] == b + [y] {
      assert |a| == |b|;
      assert a == (a + [x])[..|a|] == b;
      assert x == (a + [x])[|a|] == y;
    }
  }

  /** What a message that decodes is made of. */
  lemma DecodeParts(b: seq<Byte>, hops: nat, m: Msg, p: nat) returns (p0: nat, p1: nat, p2: nat)
    requires Decode(b, hops) == Ok(m, p)
    ensures |b| >= HEADER_SIZE
    ensures DecQuestions(b, HEADER_SIZE, Get16(b, 4), hops) == Ok(m.ques, p0)
    ensures DecRRs(b, p0, Get16(b, 6), hops) == Ok(m.sections[0], p1)
    ensures DecRRs(b, p1, Get16(b, 8), hops) == Ok(m.sections[1], p2)
    ensures DecRRs(b, p2, Get16(b, 10), hops) == Ok(m.sections[2], p)
  {
    hide DecQuestions, DecRRs, Get16, Flags.FromOctets;
    p0 := DecQuestions(b, HEADER_SIZE, Get16(b, 4), hops).next;
    p1 := DecRRs(b, p0, Get16(b, 6), hops).next;
    p2 := DecRRs(b, p1, Get16(b, 8), hops).next;
  }

  lemma QuesUnmixed(t: Name, u: Name, h: Name -> nat, m: Msg, b: seq<Byte>, hops: nat, p: nat)
    requires GoodMsg(m) && Clash(t, u) && h(t) == h(u)
    requires var r := StoreUpTo(Mixed(t, u, h), m, 0).bytes; r <= b && |r| <= 0x4000
    requires DecQuestions(b, HEADER_SIZE, |m.ques|, hops) == Ok(m.ques, p)
    ensures p == |StoreUpTo(Mixed(t, u, h), m, 0).bytes|
    ensures Unmixed(t, u, h, b, StoreUpTo(Mixed(t, u, h), m, 0), hops, NamesUpTo(m, 0))
  {
    hide StoreQuestions, EncodableRR, GoodName, DecQuestions, QuestionNames, GoodRR;
    var o := Store(Header(m), []);
    QuestionsGrow(Mixed(t, u, h), o, m.ques);
    assert Unmixed(t, u, h, b, o, hops, []);
    hide Unmixed, Clash;
    QuestionsUnmixed(t, u, h, o, m.ques, b, hops, [], p);
    assert [] + QuestionNames(m.ques) == QuestionNames(m.ques);
  }

  lemma SectionUnmixed(t: Name, u: Name, h: Name -> nat, m: Msg, n: nat, b: seq<Byte>, hops: nat, p: nat)
    requires GoodMsg(m) && n < 3 && |u| >= KEY_MAX
    requires var r := StoreUpTo(Mixed(t, u, h), m, n + 1).bytes; r <= b && |r| <= 0x4000
    requires Unmixed(t, u, h, b, StoreUpTo(Mixed(t, u, h), m, n), hops, NamesUpTo(m, n))
    requires DecRRs(b, |StoreUpTo(Mixed(t, u, h), m, n).bytes|, |m.sections[n]|, hops)
             == Ok(StoredRRs(Mixed(t, u, h), StoreUpTo(Mixed(t, u, h), m, n), m.sections[n]), p)
    ensures p == |StoreUpTo(Mixed(t, u, h), m, n + 1).bytes|
    ensures Unmixed(t, u, h, b, StoreUpTo(Mixed(t, u, h), m, n + 1), hops, NamesUpTo(m, n + 1))
  {
    hide StoreRRs, StoredRRs, EncodableRR, GoodRR, DecRRs, RRsNames, Unmixed, Mixed;
    RRsUnmixed(t, u, h, StoreUpTo(Mixed(t, u, h), m, n), m.sections[n], b, hops, NamesUpTo(m, n), p);
  }

  /** If a message comes back as it was sent, u does not follow t. */
  lemma MessageUnmixed(t: Name, u: Name, h: Name -> nat, m: Msg, later: seq<Byte>, hops: nat, p: nat)
    requires GoodMsg(m) && Clash(t, u) && h(t) == h(u) && |StoreEncode(Mixed(t, u, h), m)| <= 0x4000
    requires Decode(StoreEncode(Mixed(t, u, h), m) + later, hops) == Ok(StoreSent(Mixed(t, u, h), m), p)
    ensures !Follows(NamesUpTo(m, 3), t, u)
  {
    var w := Mixed(t, u, h);
    var b := StoreEncode(w, m) + later;
    AllGrow(w, m, b);
    assert |u| >= KEY_MAX;
    hide StoreUpTo, EncodableRR, GoodRR, GoodName, DecQuestions, DecRRs, NamesUpTo, Header, Decode, Get16, Clash,
      Flags.FromOctets, StoredRRs, Unmixed, Mixed;
    HeaderFirst(w, m, b);
    HeaderReads(m, b);
    var p0, p1, p2 := DecodeParts(b, hops, StoreSent(w, m), p);
    QuesUnmixed(t, u, h, m, b, hops, p0);
    SectionUnmixed(t, u, h, m, 0, b, hops, p1);
    SectionUnmixed(t, u, h, m, 1, b, hops, p2);
    SectionUnmixed(t, u, h, m, 2, b, hops, p);
    UnmixedMeans(t, u, h, b, StoreUpTo(w, m, 3), hops, NamesUpTo(m, 3));
  }

  lemma UnmixedMeans(t: Name, u: Name, h: Name -> nat, b: seq<Byte>, o: Store, hops: nat, done: seq<Name>)
    requires Unmixed(t, u, h, b, o, hops, done)
    ensures !Follows(done, t, u)
  {
  }

  /** The message comes back as `encode` left it, from all octets that were written. */
  ghost predicate ComesBack(w: World, m: Msg, later: seq<Byte>)
    requires Encodable(m)
  {
    exists hops :: Decode(StoreEncode(w, m) + later, hops) == Ok(StoreSent(w, m), |StoreEncode(w, m)|)
  }

  /** Exactly which good messages of at most 2048 labels, which do not make the table rescale before their last name is
      looked for, survive compression, whatever memory holds behind the keys: those in which no label suffix of 50 to
      50 + l octets follows one that agrees with it in its first 50 and lies in the same bucket. */
  lemma SurvivesExactly(h: Name -> nat, l: nat, m: Msg, later: seq<Byte>)
    requires GoodMsg(m) && |Encode(false, m)| <= 0x4000 && LabelsOf(NamesUpTo(m, 3)) <= RESCALED
    ensures (forall w | Real(w, h, l) :: ComesBack(w, m, later)) <==> ApartIn(h, l, NamesUpTo(m, 3))
  {
    assert Encodable(m);
    hide GoodMsg, Encodable, Encode, NamesUpTo, ComesBack, ApartIn, Real, LabelsOf, Mixed;
    if ApartIn(h, l, NamesUpTo(m, 3)) {
      forall w | Real(w, h, l) ensures ComesBack(w, m, later) {
        ApartSame(w, h, l, NamesUpTo(m, 3));
        ComesBackAlways(w, m, later);
      }
    } else {
      var t, u := Meeting(h, l, NamesUpTo(m, 3));
      MixedWorld(t, u, h, l, m);
      ClashLosesMessage(t, u, h, m, later);
    }
  }

  /** Exactly which good messages of any size survive compression, whatever the hash function and memory do. */
  lemma SurvivesAnyHash(l: nat, m: Msg, later: seq<Byte>)
    requires GoodMsg(m) && |Encode(false, m)| <= 0x4000
    ensures (forall w | Fair(w) && Bounded(w, l) :: ComesBack(w, m, later))
       <==> forall t, u | Follows(NamesUpTo(m, 3), t, u) :: !(Clash(t, u) && |u| <= KEY_MAX + l)
  {
    assert Encodable(m);
    var h := (s: Name) => 0;
    OneBucket(l, NamesUpTo(m, 3));
    hide GoodMsg, Encodable, Encode, NamesUpTo, ComesBack, Fair, Bounded, Mixed, Follows;
    if ApartIn(h, l, NamesUpTo(m, 3)) {
      forall w | Fair(w) && Bounded(w, l) ensures ComesBack(w, m, later) {
        ApartAnyway(w, l, NamesUpTo(m, 3));
        ComesBackAlways(w, m, later);
      }
    } else {
      var t, u := Meeting(h, l, NamesUpTo(m, 3));
      MixedWorld(t, u, h, l, m);
      ClashLosesMessage(t, u, h, m, later);
      RealIsFair(Mixed(t, u, h), h, l);
    }
  }

  lemma RealIsFair(w: World, h: Name -> nat, l: nat)
    requires Real(w, h, l)
    ensures Fair(w) && Bounded(w, l)
  {
  }

  lemma OneBucket(l: nat, names: seq<Name>)
    ensures ApartIn((s: Name) => 0, l, names)
       <==> forall t, u | Follows(names, t, u) :: !(Clash(t, u) && |u| <= KEY_MAX + l)
  {
    hide Follows, Clash;
  }

  lemma ApartAnyway(w: World, l: nat, names: seq<Name>)
    requires Bounded(w, l) && ApartIn((s: Name) => 0, l, names)
    ensures Apart(w, names)
  {
    hide Follows, LabelsOf;
    forall t, u, n: nat, off: U16 | Follows(names, t, u) && Clash(t, u) && n < LabelsOf(names)
      ensures !Stops(w, n, Slot(t, off), u)
    {
      assert |StoredKey(t, w.junk(n, Slot(t, off)))| <= KEY_MAX + l;
    }
  }

  lemma ComesBackAlways(w: World, m: Msg, later: seq<Byte>)
    requires GoodMsg(m) && |Encode(false, m)| <= 0x4000 && Apart(w, NamesUpTo(m, 3))
    ensures ComesBack(w, m, later)
  {
    hide GoodRR, EncodableRR, Encode, StoreEncode, NamesUpTo, Apart, Decode, StoreSent;
    NeverLonger(w, m);
    RoundTrip(w, m, later, |StoreEncode(w, m)|);
  }

  lemma ClashLosesMessage(t: Name, u: Name, h: Name -> nat, m: Msg, later: seq<Byte>)
    requires GoodMsg(m) && |Encode(false, m)| <= 0x4000
    requires Clash(t, u) && h(t) == h(u) && Follows(NamesUpTo(m, 3), t, u)
    ensures !ComesBack(Mixed(t, u, h), m, later)
  {
    var w := Mixed(t, u, h);
    hide GoodRR, EncodableRR, Encode, StoreEncode, NamesUpTo, Decode, StoreSent, Clash, Mixed, Follows;
    NeverLonger(w, m);
    var b := StoreEncode(w, m) + later;
    forall hops | Decode(b, hops) == Ok(StoreSent(w, m), |StoreEncode(w, m)|) ensures false {
      MessageUnmixed(t, u, h, m, later, hops, |StoreEncode(w, m)|);
    }
  }

  lemma MixedWorld(t: Name, u: Name, h: Name -> nat, l: nat, m: Msg)
    requires GoodMsg(m) && Follows(NamesUpTo(m, 3), t, u) && KEY_MAX <= |u| <= KEY_MAX + l
    ensures Real(Mixed(t, u, h), h, l)
  {
    NamesAreStrings(m, 3);
    hide GoodMsg, NamesUpTo, Follows, Real;
    FollowerString(NamesUpTo(m, 3), t, u);
    MixingIsReal(t, u, h, l);
  }

  lemma {:induction false} QuestionNamesStrings(qs: seq<Question>)
    requires forall i | 0 <= i < |qs| :: GoodName(qs[i].name)
    ensures forall i | 0 <= i < |QuestionNames(qs)| :: 0 !in QuestionNames(qs)[i]
    decreases |qs|
  {
    if qs != [] {
      QuestionNamesStrings(qs[..|qs| - 1]);
    }
  }

  lemma {:induction false} RRsNamesStrings(rrs: seq<RR>)
    requires forall i | 0 <= i < |rrs| :: GoodRR(rrs[i])
    ensures forall i | 0 <= i < |RRsNames(rrs)| :: 0 !in RRsNames(rrs)[i]
    decreases |rrs|
  {
    if rrs != [] {
      RRsNamesStrings(rrs[..|rrs| - 1]);
    }
  }

  lemma {:induction false} NamesAreStrings(m: Msg, n: nat)
    requires GoodMsg(m) && n <= 3
    ensures forall i | 0 <= i < |NamesUpTo(m, n)| :: 0 !in NamesUpTo(m, n)[i]
    decreases n
  {
    hide GoodName, GoodRR, EncodableRR, QuestionNames, RRsNames;
    if n == 0 {
      QuestionNamesStrings(m.ques);
    } else {
      NamesAreStrings(m, n - 1);
      RRsNamesStrings(m.sections[n - 1]);
    }
  }

  lemma QueryStored(w: World, m: Msg)
    requires IsQuery(m)
    ensures Encodable(m) && StoreSent(w, m) == m && NamesUpTo(m, 3) == [m.ques[0].name]
    ensures StoreEncode(w, m) == StoreName(w, Store(Header(m), []), m.ques[0].name).bytes
                                 + (Put16(m.ques[0].qtype) + Put16(m.ques[0].qclass))
  {
    hide StoreName, Header, EncodableRR;
    var o := Store(Header(m), []);
    assert m.ques[..0] == [];
    assert StoreQuestions(w, o, m.ques[..0]) == o && QuestionNames(m.ques[..0]) == [];
    assert StoreQuestions(w, o, m.ques) == StoreQuestion(w, o, m.ques[0]);
    assert StoreUpTo(w, m, 0) == StoreQuestion(w, o, m.ques[0]);
    assert StoreUpTo(w, m, 1) == StoreUpTo(w, m, 0) && NamesUpTo(m, 1) == NamesUpTo(m, 0);
    assert StoreUpTo(w, m, 2) == StoreUpTo(w, m, 1) && NamesUpTo(m, 2) == NamesUpTo(m, 1);
    assert StoreUpTo(w, m, 3) == StoreUpTo(w, m, 2);
  }

  /** A compressed query comes back as it was sent, whatever memory holds behind the keys, exactly when its name is good and
      none of its label suffixes of 50 to 50 + l octets agrees in its first 50 with a longer one and lies in the same
      bucket. */
  lemma QueryExactly(h: Name -> nat, l: nat, m: Msg)
    requires IsQuery(m) && 0 !in m.ques[0].name && Encodable(m) && |Encode(false, m)| <= 0x4000
    requires Labels(m.ques[0].name) <= RESCALED
    ensures (forall w | Real(w, h, l) :: StoreSent(w, m) == m && ComesBack(w, m, []))
       <==> GoodName(m.ques[0].name) && ApartIn(h, l, [m.ques[0].name])
  {
    assert |m.ques| == 1;
    hide *;
    forall w: World ensures StoreSent(w, m) == m {
      QueryStored(w, m);
    }
    if GoodName(m.ques[0].name) {
      GoodQuery(h, l, m);
    } else {
      EmptyIsReal(h, l);
      BadQuery(Steady(NoJunk(), h), m);
    }
  }

  lemma GoodQuery(h: Name -> nat, l: nat, m: Msg)
    requires IsQuery(m) && Encodable(m) && |Encode(false, m)| <= 0x4000 && GoodName(m.ques[0].name)
    requires Labels(m.ques[0].name) <= RESCALED
    ensures (forall w | Real(w, h, l) :: ComesBack(w, m, [])) <==> ApartIn(h, l, [m.ques[0].name])
  {
    var s := m.ques[0].name;
    assert GoodMsg(m);
    hide *;
    QueryStored(Steady(NoJunk(), h), m);
    OneName([], s);
    NoLabels();
    assert [] + [s] == [s];
    SurvivesExactly(h, l, m, []);
  }

  lemma NoLabels()
    ensures LabelsOf([]) == 0
  {
  }

  lemma BadQuery(w: World, m: Msg)
    requires IsQuery(m) && 0 !in m.ques[0].name && Encodable(m) && |Encode(false, m)| <= 0x4000
    requires !GoodName(m.ques[0].name)
    ensures !ComesBack(w, m, [])
  {
    var s, b := m.ques[0].name, StoreEncode(w, m);
    var tail := Put16(m.ques[0].qtype) + Put16(m.ques[0].qclass);
    QueryStored(w, m);
    QueryRoom(m);
    NameGrows(w, Store(Header(m), []), s);
    assert b[..HEADER_SIZE] == Header(m);
    HeaderReads(m, b);
    hide StoreName, Decode, GoodName, Header, DecName, NameEnd, Encode, StoreSent, StoreEncode, Get16, Put16;
    assert b + [] == b;
    forall hops | Decode(b, hops) == Ok(m, |b|) ensures false {
      QueryDecodes(m, b, hops);
      assert StoreName(w, Store(Header(m), []), s).bytes + tail == b;
      assert ClashingKeys.Survives(w, Header(m), s, tail);
      OnlyGoodSurvive(w, Header(m), s, tail);
    }
  }

  lemma QueryRoom(m: Msg)
    requires IsQuery(m) && Encodable(m) && |Encode(false, m)| <= 0x4000
    ensures HEADER_SIZE + |m.ques[0].name| + 2 <= 0x4000
  {
    QueryShape(false, m);
    EmitNameOctets(false, Out(Header(m), map[]), m.ques[0].name);
    PlainSize(map[], m.ques[0].name);
    hide EmitName, NameOctets, Header;
  }

  // ---- What compression is worth -------------------------------------------------------------------------------

  /** Inside section n, after its first k records, where no name is found under another, a name of fewer than 50 octets
      costs two exactly when it is a label suffix of a name written before. */
  lemma SeenCostsTwo(w: World, m: Msg, n: nat, k: nat, s: Name)
    requires GoodMsg(m) && n < 3 && k <= |m.sections[n]| && 0 < |s| < KEY_MAX
    requires Fair(w) && Apart(w, NamesUpTo(m, 3))
    requires |StoreRRs(w, StoreUpTo(w, m, n), m.sections[n][..k]).bytes| <= 0x4000
    ensures var o := StoreRRs(w, StoreUpTo(w, m, n), m.sections[n][..k]);
            |StoreName(w, o, s).bytes| == |o.bytes| + 2
            <==> s in SuffixesOf(NamesUpTo(m, n) + RRsNames(m.sections[n][..k]))
  {
    var o, rrs := StoreUpTo(w, m, n), m.sections[n][..k];
    var r, all := StoreRRs(w, o, rrs), NamesUpTo(m, 3);
    NamesGrow(m, n + 1);
    PrefixNames(m.sections[n], k);
    NamesPrefix(NamesUpTo(m, n), RRsNames(rrs), RRsNames(m.sections[n]), all);
    hide StoreUpTo, StoreRRs, GoodRR, EncodableRR, NamesUpTo, RRsNames, Apart, StoreName, GoodName, Fair, SuffixesOf;
    RRsGrow(w, o, rrs);
    UpToSteps(w, m, n, o.bytes, |r.bytes|);
    RRsSteps(w, o, NamesUpTo(m, n), rrs, all, r.bytes, |r.bytes|);
    ShortCostsTwo(w, r, s);
  }

  lemma NamesPrefix(a: seq<Name>, b: seq<Name>, c: seq<Name>, all: seq<Name>)
    requires b <= c && a + c <= all
    ensures a + b <= all
  {
  }

  lemma {:induction false} PrefixNames(rrs: seq<RR>, k: nat)
    requires k <= |rrs|
    ensures RRsNames(rrs[..k]) <= RRsNames(rrs)
    decreases |rrs|
  {
    if k < |rrs| {
      assert rrs[..|rrs| - 1][..k] == rrs[..k];
      PrefixNames(rrs[..|rrs| - 1], k);
    } else {
      assert rrs[..k] == rrs;
    }
  }

  // ---- Short names ---------------------------------------------------------------------------------------------

  predicate ShortRR(rr: RR) {
    |rr.name| < KEY_MAX && (rr.payload.Text? ==> |rr.payload.name| < KEY_MAX)
  }

  /** All names have fewer than 50 octets. */
  ghost predicate ShortMsg(m: Msg) {
    && (forall i | 0 <= i < |m.ques| :: |m.ques[i].name| < KEY_MAX)
    && (forall i, j | 0 <= i < 3 && 0 <= j < |m.sections[i]| :: ShortRR(m.sections[i][j]))
  }

  lemma RRAgrees(w: World, o: Store, p: Out, rr: RR)
    requires Fair(w) && Agrees(o, p) && EncodableRR(rr) && ShortRR(rr)
    ensures Agrees(StoreRR(w, o, rr), EmitRR(true, p, rr)) && StoredRR(w, o, rr) == SentRR(true, p, rr)
  {
    hide StoreName, EmitName, NameOctets, FixedPart, Fair, Names;
    var o1, p1 := StoreName(w, o, rr.name), EmitName(true, p, rr.name);
    StoredKeys.ShortIsPerfect(w, o, p, rr.name);
    if rr.payload.Text? {
      var t := rr.payload.name;
      StoredKeys.ShortIsPerfect(w, Then(o1, FixedPart(rr, 0)), Append(p1, FixedPart(rr, 0)), t);
      EmitNameOctets(true, Append(p1, FixedPart(rr, 0)), t);
      assert StoredRR(w, o, rr) == SentRR(true, p, rr);
      StoredKeys.ShortIsPerfect(w, BeforeStored(w, o, rr), BeforeData(true, p, rr), t);
    }
  }

  lemma {:induction false} QuestionsAgree(w: World, o: Store, p: Out, qs: seq<Question>)
    requires Fair(w) && Agrees(o, p) && forall i | 0 <= i < |qs| :: |qs[i].name| < KEY_MAX
    ensures Agrees(StoreQuestions(w, o, qs), EmitQuestions(true, p, qs))
    decreases |qs|
  {
    hide StoreName, EmitName, Fair, Names;
    if qs != [] {
      var init := qs[..|qs| - 1];
      QuestionsAgree(w, o, p, init);
      StoredKeys.ShortIsPerfect(w, StoreQuestions(w, o, init), EmitQuestions(true, p, init), qs[|qs| - 1].name);
    }
  }

  lemma {:induction false} RRsAgree(w: World, o: Store, p: Out, rrs: seq<RR>)
    requires forall i | 0 <= i < |rrs| :: EncodableRR(rrs[i]) && ShortRR(rrs[i])
    requires Fair(w) && Agrees(o, p)
    ensures Agrees(StoreRRs(w, o, rrs), EmitRRs(true, p, rrs)) && StoredRRs(w, o, rrs) == SentRRs(true, p, rrs)
    decreases |rrs|
  {
    hide StoreRR, EmitRR, StoredRR, SentRR, EncodableRR, ShortRR, Fair, Agrees;
    if rrs != [] {
      var init := rrs[..|rrs| - 1];
      RRsAgree(w, o, p, init);
      RRAgrees(w, StoreRRs(w, o, init), EmitRRs(true, p, init), rrs[|rrs| - 1]);
    }
  }

  lemma {:induction false} UpToAgrees(w: World, m: Msg, n: nat)
    requires Fair(w) && Encodable(m) && ShortMsg(m) && n <= 3
    ensures Agrees(StoreUpTo(w, m, n), EmitUpTo(true, m, n))
    ensures n > 0 ==> StoredRRs(w, StoreUpTo(w, m, n - 1), m.sections[n - 1])
                      == SentRRs(true, EmitUpTo(true, m, n - 1), m.sections[n - 1])
    decreases n
  {
    hide StoreRRs, EmitRRs, StoreQuestions, EmitQuestions, StoredRRs, SentRRs, EncodableRR, ShortRR, Fair;
    if n == 0 {
      assert Agrees(Store(Header(m), []), Out(Header(m), map[]));
      hide Agrees;
      QuestionsAgree(w, Store(Header(m), []), Out(Header(m), map[]), m.ques);
    } else {
      UpToAgrees(w, m, n - 1);
      hide Agrees;
      RRsAgree(w, StoreUpTo(w, m, n - 1), EmitUpTo(true, m, n - 1), m.sections[n - 1]);
    }
  }

  /** Messages whose names all have fewer than 50 octets: whatever memory and the hash function do, the run is the one
      with a perfect table. */
  lemma ShortIsPerfect(w: World, m: Msg)
    requires Fair(w) && Encodable(m) && ShortMsg(m)
    ensures StoreEncode(w, m) == Encode(true, m) && StoreSent(w, m) == Sent(true, m)
  {
    hide StoreUpTo, EmitUpTo, StoredRRs, SentRRs, ShortMsg, EncodableRR, Names, Fair;
    UpToAgrees(w, m, 1);
    UpToAgrees(w, m, 2);
    UpToAgrees(w, m, 3);
  }
}

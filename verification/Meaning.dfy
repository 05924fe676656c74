/** Messages that are the same but for the data_length that encoding leaves in CNAME and NS records. */
module Meaning {
  import opened Bytes
  import opened NameCodec
  import opened Messages

  /** Equal up to the data_length of name-valued records. */
  ghost predicate SameRR(x: RR, y: RR) {
    x.(dataLength := 0) == y.(dataLength := 0) && (x.payload.Raw? ==> x == y)
  }

  ghost predicate SameMsg(x: Msg, y: Msg) {
    && x.(sections := [[], [], []]) == y.(sections := [[], [], []])
    && forall n | 0 <= n < 3 ::
         && |x.sections[n]| == |y.sections[n]|
         && forall i | 0 <= i < |x.sections[n]| :: SameRR(x.sections[n][i], y.sections[n][i])
  }

  lemma {:induction false} SentRRsSame(z: bool, o: Out, rrs: seq<RR>, i: nat)
    requires forall j | 0 <= j < |rrs| :: EncodableRR(rrs[j])
    requires i < |rrs|
    ensures SameRR(SentRRs(z, o, rrs)[i], rrs[i])
    decreases |rrs|
  {
    hide EmitRRs, SentRR;
    var init := rrs[..|rrs| - 1];
    if i == |rrs| - 1 {
      SentRRFields(z, EmitRRs(z, o, init), rrs[i]);
    } else {
      SentRRsSame(z, o, init, i);
    }
  }

  lemma SentSame(z: bool, m: Msg)
    requires Encodable(m)
    ensures SameMsg(Sent(z, m), m)
  {
    hide EmitUpTo, SentRRs, EncodableRR, SameRR;
    forall n, i | 0 <= n < 3 && 0 <= i < |m.sections[n]|
      ensures SameRR(Sent(z, m).sections[n][i], m.sections[n][i])
    {
      SentRRsSame(z, EmitUpTo(z, m, n), m.sections[n], i);
    }
  }

  lemma SameMsgSym(a: Msg, b: Msg, m: Msg)
    requires SameMsg(a, m) && SameMsg(b, m)
    ensures SameMsg(a, b)
  {
  }
}

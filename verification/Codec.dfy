/** The two halves of message/message.c on one buffer. */
module Codec {
  import opened Bytes
  import opened NameCodec
  import opened Messages
  import opened Meaning
  import opened MessageObject
  import Encoder
  import Decoder

  lemma LegibleSent(z: bool, m: Msg)
    requires Encodable(m) && Decoder.LegibleMsg(m)
    ensures Decoder.LegibleMsg(Sent(z, m))
  {
    hide EmitUpTo, SentRRs, EncodableRR, Decoder.Legible;
    SentSame(z, m);
    forall i, rr | 0 <= i < 3 && rr in Sent(z, m).sections[i] ensures Decoder.LegibleRR(rr) {
      var j :| 0 <= j < |Sent(z, m).sections[i]| && Sent(z, m).sections[i][j] == rr;
      var was := m.sections[i][j];
      assert SameRR(rr, was) && Decoder.LegibleRR(was);
      assert rr == rr.(dataLength := 0).(dataLength := rr.dataLength) == was.(dataLength := rr.dataLength);
    }
  }

  /** A message is encoded into a buffer with room for it, and the buffer is decoded: the new message is the old one as
      encoding left it, which is the old one but for the data_length of CNAME and NS records, and the decoder stops at
      the length that the encoder returned, whatever the buffer held. */
  method EncodeThenDecode(z: bool, msg: Message, buff: array<Byte>) returns (got: Message, n: nat, ghost end: nat)
    requires GoodMsg(msg.Value()) && Decoder.LegibleMsg(msg.Value()) && Encoder.Room(msg.Value()) <= buff.Length
    requires z ==> Encoder.AllShort(msg.Value()) && |Messages.Encode(true, msg.Value())| <= 0x4000
    modifies buff, msg`records
    ensures fresh(got) && got.Value() == msg.Value() && SameMsg(got.Value(), old(msg.Value()))
    ensures n == end == |Messages.Encode(z, old(msg.Value()))|
  {
    ghost var m := msg.Value();
    LegibleSent(z, m);
    SentSame(z, m);
    hide *;
    n := Encoder.Encode(z, msg, buff);
    assert buff[..] == Messages.Encode(z, m) + buff[n..];
    RoundTrip(z, m, buff[n..], n);
    got, end := Decoder.Decode(buff, n);
  }
}

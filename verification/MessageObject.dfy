/** The message structure of include/message.h with the functions of message/message.c that fill it in. */
module MessageObject {
  import opened Bytes
  import opened Messages
  import Flags

  const MAX_SIZE := 32

  class Message {
    var id: U16
    var flag: bv16
    var ques: seq<Question>
    var records: Sections

    function Value(): Msg
      reads this
    {
      Msg(id, flag, ques, records)
    }

    /** `newMsg`: all zero. */
    constructor ()
      ensures Value() == Msg(0, 0, [], [[], [], []])
    {
      id, flag, ques, records := 0, 0, [], [[], [], []];
    }

    /** The flag octets as they would go out now. */
    function Wire(): Flags.Wire
      reads this`flag
    {
      Flags.ToWire(flag)
    }

    /** QR becomes zero. */
    method SetQuery()
      modifies this`flag
      ensures Wire() == old(Wire()).(high := old(Wire()).high & 0x7f) && Flags.QR(Wire()) == 0
    {
      Flags.SetQueryCorrect(flag);
      hide Flags.ToWire, Flags.QR;
      flag := flag & !(1 as bv16);
    }

    /** QR becomes one. */
    method SetResp()
      modifies this`flag
      ensures Wire() == old(Wire()).(high := old(Wire()).high | 0x80) && Flags.QR(Wire()) == 1
    {
      Flags.SetRespCorrect(flag);
      hide Flags.ToWire, Flags.QR;
      flag := flag | 1;
    }

    /** The opcode of the wire becomes the mirror image of the one asked for. */
    method SetOpcode(op: bv16)
      modifies this`flag
      ensures Flags.PutsOpcode(old(Wire()), Wire(), op)
    {
      hide Flags.ToWire, Flags.PutsOpcode, Flags.SetOpcode;
      Flags.SetOpcodeWire(flag, op);
      Flags.SetOpcodeIs(flag, op);
      flag := flag & !(0xf << 1);
      flag := flag | (op << 1);
    }

    /** Bit b of the two octets, counted from the most significant one, becomes one. */
    method SetFlag(b: nat)
      requires b < 16
      modifies this`flag
      ensures Wire() == Flags.Wire(old(Wire()).high | Flags.RfcBit(b).high, old(Wire()).low | Flags.RfcBit(b).low)
    {
      Flags.SetFlagCorrect(flag, b);
      hide Flags.ToWire, Flags.RfcBit;
      flag := flag | (1 << b);
    }

    /** The code's bits are added to those of the wire's RCODE. */
    method SetRCODE(rcode: bv16)
      modifies this`flag
      ensures Flags.AddsRCODE(old(Wire()), Wire(), rcode)
    {
      Flags.SetRCODECorrect(flag, rcode);
      hide Flags.ToWire, Flags.Reverse8, Flags.AddsRCODE;
      flag := flag | ((Flags.Reverse8((rcode & 0xff) as bv8) as bv16) << 8);
    }

    /** At most 32 questions. */
    method AddQuestion(q: Question) returns (done: bool)
      modifies this`ques
      ensures done <==> |old(ques)| < 32
      ensures ques == if done then old(ques) + [q] else old(ques)
    {
      if |ques| >= MAX_SIZE {
        return false;
      }
      ques := ques + [q];
      return true;
    }

    /** At most 32 records in each section. */
    method AddRR(rr: RR, section: nat) returns (done: int)
      requires section < 3
      modifies this`records
      ensures done == if |old(records)[section]| < 32 then 1 else 0
      ensures records == if done == 1 then old(records)[section := old(records)[section] + [rr]] else old(records)
    {
      if |records[section]| >= MAX_SIZE {
        return 0;
      }
      records := records[section := records[section] + [rr]];
      return 1;
    }

    /** The message goes out without an additional section: ARCOUNT is zero and no octet is spent on it. */
    method ReleaseAdditionalRR()
      modifies this`records
      ensures records[2] == [] && records[0] == old(records[0]) && records[1] == old(records[1])
      ensures Encodable(Value()) ==> Header(Value())[10..] == Put16(0)
      ensures Encodable(Value()) ==> forall z :: Encode(z, Value()) == EmitUpTo(z, Value(), 2).bytes
    {
      records := records[2 := []];
      if Encodable(Value()) {
        NoAdditional(true, Value());
        NoAdditional(false, Value());
      }
    }
  }
}

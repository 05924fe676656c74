/** The flag word of a message. The program keeps it with its bits in reverse order and mirrors each
    octet on its way to and from the wire; this module relates both to section 4.1.1 of RFC 1035. */
module Flags {
  import opened Bytes

  /** `reverse8`. */
  function Reverse8(b: bv8): bv8 {
    var b1 := ((b & 0x55) << 1) | ((b & 0xAA) >> 1);
    var b2 := ((b1 & 0x33) << 2) | ((b1 & 0xCC) >> 2);
    ((b2 & 0x0F) << 4) | ((b2 & 0xF0) >> 4)
  }

  /** The two flag octets of a header. */
  datatype Wire = Wire(high: bv8, low: bv8)

  /** What `encodeHeader` writes for a flag word. */
  function ToWire(flag: bv16): Wire {
    Wire(Reverse8((flag & 0xff) as bv8), Reverse8((flag >> 8) as bv8))
  }

  /** What `decode` reads. */
  function FromWire(w: Wire): bv16 {
    (Reverse8(w.high) as bv16) | ((Reverse8(w.low) as bv16) << 8)
  }

  lemma FlagRoundTrip(flag: bv16)
    ensures FromWire(ToWire(flag)) == flag
  {
  }

  lemma WireRoundTrip(w: Wire)
    ensures ToWire(FromWire(w)) == w
  {
  }

  /** The octets as the buffer holds them. */
  function ToOctets(flag: bv16): (r: seq<Byte>)
    ensures |r| == 2
  {
    [ToWire(flag).high as int, ToWire(flag).low as int]
  }

  function FromOctets(high: Byte, low: Byte): bv16 {
    FromWire(Wire(high as bv8, low as bv8))
  }

  lemma OctetsRoundTrip(flag: bv16)
    ensures FromOctets(ToOctets(flag)[0], ToOctets(flag)[1]) == flag
  {
    FlagRoundTrip(flag);
  }

  /** The first octet is the high one, in both directions. */
  lemma OctetsAre(flag: bv16, high: bv8, low: bv8)
    ensures ToOctets(flag) == [ToWire(flag).high as int, ToWire(flag).low as int]
    ensures ToWire(FromOctets(high as int, low as int)) == Wire(high, low)
  {
    WireRoundTrip(Wire(high, low));
    hide ToWire, FromWire;
  }

  // ---- Section 4.1.1 of RFC 1035, most significant bit first -----------------------------------

  function QR(w: Wire): bv8 { w.high >> 7 }
  function Opcode(w: Wire): bv8 { (w.high >> 3) & 0xf }
  function AA(w: Wire): bv8 { (w.high >> 2) & 1 }
  function TC(w: Wire): bv8 { (w.high >> 1) & 1 }
  function RD(w: Wire): bv8 { w.high & 1 }
  function RA(w: Wire): bv8 { w.low >> 7 }
  function Z(w: Wire): bv8 { (w.low >> 4) & 7 }
  function RCODE(w: Wire): bv8 { w.low & 0xf }

  /** The fields cover the two octets: equal fields, equal octets. */
  lemma FieldsDetermineWire(v: Wire, w: Wire)
    requires QR(v) == QR(w) && Opcode(v) == Opcode(w) && AA(v) == AA(w) && TC(v) == TC(w) && RD(v) == RD(w)
    requires RA(v) == RA(w) && Z(v) == Z(w) && RCODE(v) == RCODE(w)
    ensures v == w
  {
  }

  // ---- Setters ---------------------------------------------------------------------------------

  function SetQuery(flag: bv16): bv16 { flag & !(1 as bv16) }

  function SetResp(flag: bv16): bv16 { flag | 1 }

  function SetOpcode(flag: bv16, op: bv16): bv16 {
    (flag & !(0xf << 1)) | (op << 1)
  }

  function SetFlag(flag: bv16, b: nat): bv16
    requires b < 16
  {
    flag | ((1 as bv16) << b)
  }

  function SetRCODE(flag: bv16, rcode: bv16): bv16 {
    flag | ((Reverse8((rcode & 0xff) as bv8) as bv16) << 8)
  }

  lemma Reverse8Or(a: bv8, b: bv8)
    ensures Reverse8(a | b) == Reverse8(a) | Reverse8(b)
  {
  }

  /** Adding bits to the word adds their mirror images to the octets. */
  lemma AddBits(flag: bv16, m: bv16)
    ensures var w, v := ToWire(flag), ToWire(m);
            ToWire(flag | m) == Wire(w.high | v.high, w.low | v.low)
  {
    assert ((flag | m) & 0xff) as bv8 == ((flag & 0xff) as bv8) | ((m & 0xff) as bv8);
    assert ((flag | m) >> 8) as bv8 == ((flag >> 8) as bv8) | ((m >> 8) as bv8);
    Reverse8Or((flag & 0xff) as bv8, (m & 0xff) as bv8);
    Reverse8Or((flag >> 8) as bv8, (m >> 8) as bv8);
  }

  /** `setResp` and `setQuery` set and clear QR and leave the other 15 bits alone. */
  lemma SetRespCorrect(flag: bv16)
    ensures ToWire(SetResp(flag)) == ToWire(flag).(high := ToWire(flag).high | 0x80)
    ensures QR(ToWire(SetResp(flag))) == 1
  {
    AddBits(flag, 1);
  }

  lemma SetQueryCorrect(flag: bv16)
    ensures ToWire(SetQuery(flag)) == ToWire(flag).(high := ToWire(flag).high & 0x7f)
    ensures QR(ToWire(SetQuery(flag))) == 0
  {
  }

  /** Bit b of the two octets, counted from the most significant one as RFC 1035 draws them. */
  function RfcBit(b: nat): Wire
    requires b < 16
  {
    if b < 8 then Wire((0x80 as bv8) >> b, 0) else Wire(0, (0x80 as bv8) >> (b - 8))
  }

  lemma MirroredBit(b: nat)
    requires b < 16
    ensures ToWire((1 as bv16) << b) == RfcBit(b)
  {
    if b < 8 {
      if { case b == 0 => case b == 1 => case b == 2 => case b == 3 =>
           case b == 4 => case b == 5 => case b == 6 => case b == 7 => }
    } else {
      if { case b == 8 => case b == 9 => case b == 10 => case b == 11 =>
           case b == 12 => case b == 13 => case b == 14 => case b == 15 => }
    }
  }

  /** `setFlag(msg, b)` sets exactly bit b of the wire's flag octets. */
  lemma SetFlagCorrect(flag: bv16, b: nat)
    requires b < 16
    ensures ToWire(SetFlag(flag, b)) == Wire(ToWire(flag).high | RfcBit(b).high, ToWire(flag).low | RfcBit(b).low)
  {
    MirroredBit(b);
    AddBits(flag, (1 as bv16) << b);
  }

  /** The numbers that message.h gives to AA, TC, RD and RA are those of section 4.1.1. */
  lemma FlagNumbers()
    ensures AA(RfcBit(5)) == 1 && TC(RfcBit(6)) == 1 && RD(RfcBit(7)) == 1 && RA(RfcBit(8)) == 1
    ensures RfcBit(5) == Wire(4, 0) && RfcBit(6) == Wire(2, 0) && RfcBit(7) == Wire(1, 0) && RfcBit(8) == Wire(0, 0x80)
  {
  }

  /** From the octets w, the code's low octet has been added to the second one, and nothing else has changed; so the
      RCODE is the one asked for exactly when the old one has no other bits. */
  predicate AddsRCODE(w: Wire, v: Wire, rcode: bv16) {
    var r := (rcode & 0xff) as bv8;
    v == w.(low := w.low | r) && (rcode < 16 ==> (RCODE(v) == r <==> RCODE(w) & !r == 0))
  }

  lemma SetRCODECorrect(flag: bv16, rcode: bv16)
    ensures AddsRCODE(ToWire(flag), ToWire(SetRCODE(flag, rcode)), rcode)
  {
  }

  /** Four bits in reverse order. */
  function Mirror4(op: bv8): bv8 {
    ((op & 1) << 3) | ((op & 2) << 1) | ((op & 4) >> 1) | ((op & 8) >> 3)
  }

  /** The bits of `op << 1`, mirrored, come into the opcode's cleared place. */
  predicate ComesIn(w: Wire, v: Wire, op: bv16) {
    v.high == (w.high & 0x87) | ToWire(op << 1).high && v.low == w.low | ToWire(op << 1).low
  }

  lemma OpcodeComesIn(flag: bv16, op: bv16)
    ensures ComesIn(ToWire(flag), ToWire(SetOpcode(flag, op)), op)
  {
  }

  /** An opcode of four bits touches nothing but its place, where it stands mirrored. */
  predicate Mirrors(w: Wire, v: Wire, op: bv16) {
    && v.low == w.low && v.high & 0x87 == w.high & 0x87
    && Opcode(v) == Mirror4((op & 0xff) as bv8)
    && (Opcode(v) as bv16 == op <==> op == 0 || op == 6 || op == 9 || op == 15)
  }

  predicate PutsOpcode(w: Wire, v: Wire, op: bv16) {
    ComesIn(w, v, op) && (op < 16 ==> Mirrors(w, v, op))
  }

  /** `setOpcode` forgets that the word is mirrored: the wire carries the opcode's bits reversed, which is the opcode
      asked for exactly when its four bits are a palindrome (QUERY, for one). */
  lemma SetOpcodeMirrors(flag: bv16, op: bv16)
    requires op < 16
    ensures Mirrors(ToWire(flag), ToWire(SetOpcode(flag, op)), op)
  {
  }

  lemma SetOpcodeWire(flag: bv16, op: bv16)
    ensures PutsOpcode(ToWire(flag), ToWire(SetOpcode(flag, op)), op)
  {
    OpcodeComesIn(flag, op);
    if op < 16 {
      SetOpcodeMirrors(flag, op);
    }
    hide ComesIn, Mirrors, ToWire, SetOpcode;
  }

  lemma SetOpcodeIs(flag: bv16, op: bv16)
    ensures SetOpcode(flag, op) == (flag & !(0xf << 1)) | (op << 1)
  {
  }

  /** IQUERY goes out as opcode 8 and STATUS as opcode 4. */
  lemma OpcodeWitness(flag: bv16)
    ensures Opcode(ToWire(SetOpcode(flag, 1))) == 8 && Opcode(ToWire(SetOpcode(flag, 2))) == 4
  {
  }
}

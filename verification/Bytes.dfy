/** Octets and the fixed-width, big-endian integers that the wire format is made of. */
module Bytes {

  type Byte = b: int | 0 <= b < 0x100
  type U16 = x: int | 0 <= x < 0x1_0000
  type U32 = x: int | 0 <= x < 0x1_0000_0000

  /** A C string without its terminating NUL. */
  type Name = seq<Byte>

  datatype Option<+T> = None | Some(value: T)

  const DOT: Byte := 46

  /** `htons` and a two-octet store. */
  function Put16(x: U16): (r: seq<Byte>)
    ensures |r| == 2
  {
    [x / 0x100, x % 0x100]
  }

  /** A two-octet load and `ntohs`. */
  function Get16(b: seq<Byte>, p: nat): (x: U16)
    requires p + 2 <= |b|
  {
    b[p] as int * 0x100 + b[p + 1] as int
  }

  /** `htonl` and a four-octet store. */
  function Put32(x: U32): (r: seq<Byte>)
    ensures |r| == 4
  {
    [x / 0x100_0000, x / 0x1_0000 % 0x100, x / 0x100 % 0x100, x % 0x100]
  }

  /** A four-octet load and `ntohl`. */
  function Get32(b: seq<Byte>, p: nat): (x: U32)
    requires p + 4 <= |b|
  {
    b[p] as int * 0x100_0000 + b[p + 1] as int * 0x1_0000 + b[p + 2] as int * 0x100 + b[p + 3] as int
  }

  /** Loads undo stores, wherever in a buffer the stored octets lie. */
  lemma GetPut16(b: seq<Byte>, p: nat, x: U16)
    requires p + 2 <= |b| && b[p..p + 2] == Put16(x)
    ensures Get16(b, p) == x
  {
    assert b[p] == b[p..p + 2][0] && b[p + 1] == b[p..p + 2][1];
  }

  lemma GetPut32(b: seq<Byte>, p: nat, x: U32)
    requires p + 4 <= |b| && b[p..p + 4] == Put32(x)
    ensures Get32(b, p) == x
  {
    var w := b[p..p + 4];
    assert b[p] == w[0] && b[p + 1] == w[1] && b[p + 2] == w[2] && b[p + 3] == w[3];
    var q := x / 0x100;
    var r := x / 0x1_0000;
    assert r == q / 0x100 && x / 0x100_0000 == r / 0x100;
  }
}

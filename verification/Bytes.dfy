// Octets and big-endian integers, as the m68k lays them out in memory and RFC 6143 on the wire.
module Bytes {

  type byte = x: int | 0 <= x < 0x100
  type uint16 = x: int | 0 <= x < 0x1_0000
  type uint32 = x: int | 0 <= x < 0x1_0000_0000

  function Join16(hi: byte, lo: byte): uint16 {
    0x100 * hi + lo
  }

  function Join32(a: byte, b: byte, c: byte, d: byte): uint32 {
    0x1_0000 * Join16(a, b) + Join16(c, d)
  }

  function At16(s: seq<byte>, i: nat): uint16
    requires i + 2 <= |s|
  {
    Join16(s[i], s[i + 1])
  }

  function At32(s: seq<byte>, i: nat): uint32
    requires i + 4 <= |s|
  {
    Join32(s[i], s[i + 1], s[i + 2], s[i + 3])
  }

  function Put16(v: uint16): seq<byte> {
    [v / 0x100, v % 0x100]
  }

  function Put32(v: uint32): seq<byte> {
    Put16(v / 0x1_0000) + Put16(v % 0x1_0000)
  }

  lemma JoinPut16(v: uint16)
    ensures |Put16(v)| == 2 && Join16(Put16(v)[0], Put16(v)[1]) == v
  {
  }

  lemma JoinPut32(v: uint32)
    ensures |Put32(v)| == 4 && Join32(Put32(v)[0], Put32(v)[1], Put32(v)[2], Put32(v)[3]) == v
  {
    JoinPut16(v / 0x1_0000);
    JoinPut16(v % 0x1_0000);
  }
}

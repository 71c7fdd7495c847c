/** Fixed-width integers of the C sources and the network byte order used on the wire. */
module Bytes {

  /** An unsigned char. */
  type byte = x: int | 0 <= x < 0x100

  /** A uint16_t. */
  type uint16 = x: int | 0 <= x < 0x1_0000

  /** A uint32_t. */
  type uint32 = x: int | 0 <= x < 0x1_0000_0000

  datatype Option<+T> = None | Some(value: T)

  /** `x + 1` in uint32 arithmetic: 0xFFFFFFFF wraps to 0. */
  function Inc32(x: uint32): (r: uint32)
    ensures x < 0xFFFF_FFFF ==> r == x + 1
    ensures x == 0xFFFF_FFFF ==> r == 0
  {
    (x + 1) % 0x1_0000_0000
  }

  /** htons: the two bytes of `x`, most significant first. */
  function Be16(x: uint16): (r: seq<byte>)
    ensures |r| == 2
  {
    [x / 0x100, x % 0x100]
  }

  /** htonl: the four bytes of `x`, most significant first. */
  function Be32(x: uint32): (r: seq<byte>)
    ensures |r| == 4
  {
    [x / 0x100_0000, (x / 0x1_0000) % 0x100, (x / 0x100) % 0x100, x % 0x100]
  }

  /** ntohs over two bytes in network order. */
  function ReadBe16(s: seq<byte>): (r: uint16)
    requires |s| == 2
  {
    (s[0] as int) * 0x100 + s[1]
  }

  /** ntohl over four bytes in network order. */
  function ReadBe32(s: seq<byte>): (r: uint32)
    requires |s| == 4
  {
    (((s[0] as int) * 0x100 + s[1]) * 0x100 + s[2]) * 0x100 + s[3]
  }

  lemma Be16RoundTrip(x: uint16)
    ensures ReadBe16(Be16(x)) == x
  {
  }

  lemma Be32RoundTrip(x: uint32)
    ensures ReadBe32(Be32(x)) == x
  {
    var b := Be32(x);
    assert (b[0] as int) * 0x100 + b[1] == x / 0x1_0000;
    assert (x / 0x1_0000) * 0x100 + b[2] == x / 0x100;
  }
}

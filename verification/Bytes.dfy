// The target_endian macros of jffs2-user.h: 16- and 32-bit fields in either
// byte order.
module Bytes {
  type byte = x: int | 0 <= x < 256
  type u16 = x: int | 0 <= x < 0x1_0000
  type u32 = x: int | 0 <= x < 0x1_0000_0000

  // Erased flash.
  function Ones(n: nat): (r: seq<byte>)
    ensures |r| == n
  {
    seq(n, _ => 0xff)
  }

  datatype Order = Little | Big {
    function Other(): Order {
      if this == Little then Big else Little
    }
  }

  function Put16(o: Order, x: u16): (r: seq<byte>)
    ensures |r| == 2
  {
    if o == Little then [x % 256, x / 256] else [x / 256, x % 256]
  }

  function Get16(o: Order, s: seq<byte>, at: nat): u16
    requires at + 2 <= |s|
  {
    var a: int, b: int := s[at], s[at + 1];
    if o == Little then a + 256 * b else 256 * a + b
  }

  function Put32(o: Order, x: u32): (r: seq<byte>)
    ensures |r| == 4
  {
    if o == Little then Put16(o, x % 0x1_0000) + Put16(o, x / 0x1_0000)
    else Put16(o, x / 0x1_0000) + Put16(o, x % 0x1_0000)
  }

  function Get32(o: Order, s: seq<byte>, at: nat): u32
    requires at + 4 <= |s|
  {
    if o == Little then Get16(o, s, at) + 0x1_0000 * Get16(o, s, at + 2)
    else 0x1_0000 * Get16(o, s, at) + Get16(o, s, at + 2)
  }

  lemma Read16(o: Order, s: seq<byte>, at: nat, x: u16)
    requires at + 2 <= |s| && s[at..at + 2] == Put16(o, x)
    ensures Get16(o, s, at) == x
  {
    assert s[at] == s[at..at + 2][0] && s[at + 1] == s[at..at + 2][1];
  }

  // A field that was written reads back as it was.
  lemma Read32(o: Order, s: seq<byte>, at: nat, x: u32)
    requires at + 4 <= |s| && s[at..at + 4] == Put32(o, x)
    ensures Get32(o, s, at) == x
  {
    var hi, lo := x / 0x1_0000, x % 0x1_0000;
    assert s[at..at + 2] == s[at..at + 4][..2] && s[at + 2..at + 4] == s[at..at + 4][2..];
    if o == Little {
      Read16(o, s, at, lo);
      Read16(o, s, at + 2, hi);
    } else {
      Read16(o, s, at, hi);
      Read16(o, s, at + 2, lo);
    }
  }
}

/** Byte order of the host (include/endian_private.h). Shifts and masks of the byte swaps are written as division and
    remainder by powers of two. */
module HostOrder {
  import opened Bytes

  datatype Order = LittleEndian | BigEndian

  function Bswap16(x: u16): u16 {
    x / 0x100 + x % 0x100 * 0x100
  }

  function Bswap32(x: u32): u32 {
    x / 0x100_0000 + x / 0x1_0000 % 0x100 * 0x100 + x / 0x100 % 0x100 * 0x1_0000 + x % 0x100 * 0x100_0000
  }

  function Htobe16(o: Order, x: u16): u16 {
    if o == LittleEndian then Bswap16(x) else x
  }

  function Htobe32(o: Order, x: u32): u32 {
    if o == LittleEndian then Bswap32(x) else x
  }

  function Betoh32(o: Order, x: u32): u32 {
    if o == LittleEndian then Bswap32(x) else x
  }

  /** The bytes a host lays out in memory for a 16-bit value, lowest address first. */
  function Store16(o: Order, x: u16): seq<byte> {
    if o == LittleEndian then [x % 0x100, x / 0x100] else BE16(x)
  }

  function Store32(o: Order, x: u32): (s: seq<byte>)
    ensures |s| == 4
  {
    if o == LittleEndian then [x % 0x100, x / 0x100 % 0x100, x / 0x1_0000 % 0x100, x / 0x100_0000] else BE32(x)
  }

  /** The value a host reads from four bytes of memory. */
  function Load32(o: Order, s: seq<byte>): u32
    requires |s| == 4
  {
    if o == LittleEndian then U32([s[3], s[2], s[1], s[0]]) else U32(s)
  }

  lemma Split32(x: u32) returns (a: byte, b: byte, c: byte, d: byte)
    ensures x == Join(a, b) * 0x1_0000 + Join(c, d) && BE32(x) == [a, b, c, d]
    ensures x / 0x100_0000 == a && x / 0x1_0000 % 0x100 == b && x / 0x100 % 0x100 == c && x % 0x100 == d
  {
    var hi, lo := x / 0x1_0000, x % 0x1_0000;
    a, b, c, d := hi / 0x100, hi % 0x100, lo / 0x100, lo % 0x100;
    assert x / 0x100 == hi * 0x100 + c;
  }

  lemma Bswap32Bytes(a: byte, b: byte, c: byte, d: byte)
    ensures Bswap32(U32([a, b, c, d])) == U32([d, c, b, a])
  {
    var x := U32([a, b, c, d]);
    var a', b', c', d' := Split32(x);
    BE32Bytes(a, b, c, d);
    assert [a, b, c, d] == [a', b', c', d'];
    assert a == a' && b == b' && c == c' && d == d' by {
      assert [a, b, c, d][0] == [a', b', c', d'][0] && [a, b, c, d][1] == [a', b', c', d'][1];
      assert [a, b, c, d][2] == [a', b', c', d'][2] && [a, b, c, d][3] == [a', b', c', d'][3];
    }
  }

  /** A 16-bit field lands in memory big-endian on either host. */
  lemma StoreHtobe16(o: Order, x: u16)
    ensures Store16(o, Htobe16(o, x)) == BE16(x)
  {
  }

  /** A 32-bit field lands in memory big-endian on either host. */
  lemma StoreHtobe32(o: Order, x: u32)
    ensures Store32(o, Htobe32(o, x)) == BE32(x)
  {
    if o == LittleEndian {
      var a, b, c, d := Split32(x);
      Bswap32Bytes(a, b, c, d);
      var a', b', c', d' := Split32(Bswap32(x));
      BE32Bytes(d, c, b, a);
      assert [a', b', c', d'] == [d, c, b, a];
      assert a' == [d, c, b, a][0] && b' == [d, c, b, a][1] && c' == [d, c, b, a][2] && d' == [d, c, b, a][3];
    }
  }

  /** A 32-bit field is read back as the big-endian value on either host. */
  lemma BetohLoad32(o: Order, s: seq<byte>)
    requires |s| == 4
    ensures Betoh32(o, Load32(o, s)) == U32(s)
  {
    if o == LittleEndian {
      Bswap32Bytes(s[3], s[2], s[1], s[0]);
      assert [s[0], s[1], s[2], s[3]] == s;
    }
  }
}

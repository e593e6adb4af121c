/** Machine integers, big-endian fields and bit masks. */
module Bytes {

  type byte = x: int | 0 <= x < 0x100
  type u16 = x: int | 0 <= x < 0x1_0000
  type u32 = x: int | 0 <= x < 0x1_0000_0000

  datatype Option<+T> = None | Some(value: T)

  /** The two bytes of a 16-bit field, most significant first. */
  function BE16(x: u16): (s: seq<byte>)
    ensures |s| == 2
  {
    [x / 0x100, x % 0x100]
  }

  /** The four bytes of a 32-bit field, most significant first. */
  function BE32(x: u32): (s: seq<byte>)
    ensures |s| == 4
  {
    var hi, lo := x / 0x1_0000, x % 0x1_0000;
    [hi / 0x100, hi % 0x100, lo / 0x100, lo % 0x100]
  }

  function Join(hi: int, lo: int): int {
    hi * 0x100 + lo
  }

  function U16(s: seq<byte>): u16
    requires |s| == 2
  {
    Join(s[0], s[1])
  }

  function U32(s: seq<byte>): u32
    requires |s| == 4
  {
    Join(s[0], s[1]) * 0x1_0000 + Join(s[2], s[3])
  }

  lemma BE16RoundTrip(x: u16)
    ensures U16(BE16(x)) == x
  {
  }

  lemma BE32RoundTrip(x: u32)
    ensures U32(BE32(x)) == x
  {
  }

  lemma BE32Bytes(a: byte, b: byte, c: byte, d: byte)
    ensures BE32(U32([a, b, c, d])) == [a, b, c, d]
  {
    var hi, lo := Join(a, b), Join(c, d);
    assert hi / 0x100 == a && hi % 0x100 == b && lo / 0x100 == c && lo % 0x100 == d;
    assert U32([a, b, c, d]) == hi * 0x1_0000 + lo;
    assert (hi * 0x1_0000 + lo) / 0x1_0000 == hi && (hi * 0x1_0000 + lo) % 0x1_0000 == lo;
  }

  /** The bit of weight `w`, a power of two, is set in `v`. */
  predicate Bit(v: nat, w: nat)
    requires w > 0
  {
    v / w % 2 == 1
  }

  /** Bit `j` of a number, the least significant being bit 0. */
  predicate HasBit(v: nat, j: nat) {
    if j == 0 then v % 2 == 1 else HasBit(v / 2, j - 1)
  }

  /** Bitwise conjunction of two unsigned integers of any width. */
  function BitAnd(a: nat, b: nat): (r: nat)
    decreases a
  {
    if a == 0 || b == 0 then 0 else (a % 2) * (b % 2) + 2 * BitAnd(a / 2, b / 2)
  }

  /** Every bit of `mask` is set in `v`. */
  predicate AllSet(v: nat, mask: nat) {
    BitAnd(v, mask) == mask
  }

  /** Some bit of `mask` is set in `v`. */
  predicate AnySet(v: nat, mask: nat) {
    BitAnd(v, mask) != 0
  }

  /** A mask of one bit within a byte. */
  predicate OneBit(w: nat) {
    w == 1 || w == 2 || w == 4 || w == 8 || w == 16 || w == 32 || w == 64 || w == 128
  }

  lemma HalveMask(v: nat, w: nat)
    requires w > 0
    ensures AllSet(v, 2 * w) <==> AllSet(v / 2, w)
  {
    assert BitAnd(v, 2 * w) == 2 * BitAnd(v / 2, w);
  }

  lemma HalveBit(v: nat, w: nat)
    requires OneBit(w) && w < 128
    ensures Bit(v, 2 * w) <==> Bit(v / 2, w)
  {
    if {
      case w == 1 => assert v / 2 / 1 == v / 2;
      case w == 2 => assert v / 2 / 2 == v / 4;
      case w == 4 => assert v / 2 / 4 == v / 8;
      case w == 8 => assert v / 2 / 8 == v / 16;
      case w == 16 => assert v / 2 / 16 == v / 32;
      case w == 32 => assert v / 2 / 32 == v / 64;
      case w == 64 => assert v / 2 / 64 == v / 128;
    }
  }

  /** Having all bits of a one-bit mask is having that bit. */
  lemma {:induction false} OneBitMask(v: nat, w: nat)
    requires OneBit(w)
    ensures AllSet(v, w) <==> Bit(v, w)
    decreases w
  {
    if w > 1 {
      var h := w / 2;
      OneBitMask(v / 2, h);
      HalveMask(v, h);
      HalveBit(v, h);
    } else {
      assert BitAnd(v, 1) == v % 2;
    }
  }

  function Zeros(n: nat): (s: seq<byte>)
    ensures |s| == n && forall i :: 0 <= i < n ==> s[i] == 0
  {
    seq(n, _ => 0)
  }

  lemma Assoc<T>(a: seq<T>, b: seq<T>, c: seq<T>)
    ensures a + b + c == a + (b + c)
  {
  }

  lemma SliceOfPrefix<T>(s: seq<T>, n: nat, a: nat, b: nat)
    requires a <= b <= n <= |s|
    ensures s[..n][a..b] == s[a..b]
  {
  }

  lemma PrefixOfPrefix<T>(a: seq<T>, b: seq<T>, c: seq<T>)
    requires |a| <= |b| <= |c| && b[..|a|] == a && c[..|b|] == b
    ensures c[..|a|] == a
  {
    SliceOfPrefix(c, |b|, 0, |a|);
  }

  function Flat<T>(s: seq<seq<T>>): seq<T> {
    if s == [] then [] else Flat(s[..|s| - 1]) + s[|s| - 1]
  }

  lemma FlatAppend<T>(s: seq<seq<T>>, x: seq<T>)
    ensures Flat(s + [x]) == Flat(s) + x
  {
  }
}

/** Return values of the library (enum tpm_ret_value). */
module Codes {
  const SUCCESS := 0
  const ERR_RESPONSE := -1
  const INVALID_PARAM := -2
  const ERR_TIMEOUT := -3
  const ERR_TRANSFER := -4
  const ERR_ITERATION_LIMIT := -5

  /** Not a code of the library. The model stops with it where the C program would read past the end of a command buffer or
      store past the end of a response buffer, because C gives the run no meaning from there on. */
  const OUT_OF_BOUNDS := -99

  predicate TransportCode(rc: int) {
    rc == SUCCESS || rc == ERR_TIMEOUT || rc == ERR_TRANSFER
  }

  /** What a capability request can return. */
  predicate ExchangeCode(rc: int) {
    TransportCode(rc) || rc == ERR_RESPONSE || rc == INVALID_PARAM || rc == OUT_OF_BOUNDS
  }
}

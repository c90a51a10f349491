/** The byte order of 64-bit fields on a little-endian machine. */
module Endian {

  /** bswap64 */
  function Bswap64(x: bv64): bv64 {
    ((x & 0xff00000000000000) >> 56) | ((x & 0x00ff000000000000) >> 40) | ((x & 0x0000ff0000000000) >> 24)
    | ((x & 0x000000ff00000000) >> 8) | ((x & 0x00000000ff000000) << 8) | ((x & 0x0000000000ff0000) << 24)
    | ((x & 0x000000000000ff00) << 40) | ((x & 0x00000000000000ff) << 56)
  }

  /** The bytes of an integer as a little-endian machine stores it. */
  function Stored(x: bv64): (b: seq<bv64>)
    ensures |b| == 8
  {
    [x & 0xff, (x >> 8) & 0xff, (x >> 16) & 0xff, (x >> 24) & 0xff,
     (x >> 32) & 0xff, (x >> 40) & 0xff, (x >> 48) & 0xff, (x >> 56) & 0xff]
  }

  /** The integer that bytes in network order stand for. */
  function Network(b: seq<bv64>): bv64
    requires |b| == 8
  {
    (b[0] << 56) | (b[1] << 48) | (b[2] << 40) | (b[3] << 32) | (b[4] << 24) | (b[5] << 16) | (b[6] << 8) | b[7]
  }

  /** Byte by byte, the swap reverses. */
  lemma SwapReverses(x: bv64)
    ensures var s, t := Stored(Bswap64(x)), Stored(x);
            && s[0] == t[7] && s[1] == t[6] && s[2] == t[5] && s[3] == t[4]
            && s[4] == t[3] && s[5] == t[2] && s[6] == t[1] && s[7] == t[0]
  {
  }

  /** Swapping twice changes nothing: the same function decodes. */
  lemma SwapTwice(x: bv64)
    ensures Bswap64(Bswap64(x)) == x
  {
  }

  lemma StoredReads(x: bv64)
    ensures var b := Stored(x);
            (b[7] << 56) | (b[6] << 48) | (b[5] << 40) | (b[4] << 32)
            | (b[3] << 24) | (b[2] << 16) | (b[1] << 8) | b[0] == x
  {
  }

  /** Stored after the swap, an integer lies in memory in network order. */
  lemma SwapIsNetworkOrder(x: bv64)
    ensures Network(Stored(Bswap64(x))) == x
  {
    hide Bswap64, Stored;
    SwapReverses(x);
    StoredReads(x);
  }
}

/** Machine integer widths of the MINIX x86 target and the little-endian byte
    layout that memcpy exposes when it copies out of a `uint32_t`. */
module Bytes {

  type byte = x: int | 0 <= x < 0x100
  type uint16 = x: int | 0 <= x < 0x1_0000
  type uint32 = x: int | 0 <= x < 0x1_0000_0000

  /** 256^n, the number of distinct values n bytes can hold. */
  function Pow256(n: nat): (r: nat)
    ensures r >= 1
  {
    if n == 0 then 1 else 256 * Pow256(n - 1)
  }

  /** The first n bytes of c in memory on a little-endian machine:
      least significant byte first. */
  function LittleEndian(c: nat, n: nat): (r: seq<byte>)
    ensures |r| == n
    ensures n > 0 ==> r[0] == c % 256
  {
    if n == 0 then [] else [c % 256] + LittleEndian(c / 256, n - 1)
  }

  /** The value a little-endian byte string denotes. */
  function FromLittleEndian(bs: seq<byte>): (r: nat)
    ensures r < Pow256(|bs|)
  {
    if bs == [] then 0 else bs[0] + 256 * FromLittleEndian(bs[1..])
  }

  /** Reading back the bytes that were written recovers any value that fits. */
  lemma {:induction false} DecodeEncode(c: nat, n: nat)
    requires c < Pow256(n)
    ensures FromLittleEndian(LittleEndian(c, n)) == c
  {
    if n > 0 {
      DecodeEncode(c / 256, n - 1);
      assert LittleEndian(c, n)[1..] == LittleEndian(c / 256, n - 1);
    }
  }

  /** Encoding the value of a byte string gives back the same bytes. */
  lemma {:induction false} EncodeDecode(bs: seq<byte>)
    ensures LittleEndian(FromLittleEndian(bs), |bs|) == bs
  {
    if bs != [] {
      var v := FromLittleEndian(bs);
      var rest := FromLittleEndian(bs[1..]);
      assert v % 256 == bs[0] && v / 256 == rest;
      EncodeDecode(bs[1..]);
    }
  }
}

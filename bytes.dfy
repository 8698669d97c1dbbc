/**
 * Bytes and fixed-width integers as the contract handles them: byte buffers,
 * `u64` values, their big-endian encoding (`u64::to_be_bytes`) and its value.
 */
module Bytes {

  type u8 = x: int | 0 <= x < 0x100
  type u64 = x: int | 0 <= x < 0x1_0000_0000_0000_0000

  const U64_MAX: int := 0xFFFF_FFFF_FFFF_FFFF

  /** A string literal of the contract, as the ASCII bytes a buffer holds. */
  function Ascii(s: string): (r: seq<u8>)
    ensures |r| == |s|
    ensures forall i | 0 <= i < |s| :: s[i] as int < 0x100 ==> r[i] == s[i] as int
  {
    seq(|s|, i requires 0 <= i < |s| => (s[i] as int) % 0x100)
  }

  function Pow256(n: nat): (r: nat)
    ensures r >= 1
  {
    if n == 0 then 1 else 0x100 * Pow256(n - 1)
  }

  lemma Pow256Eight()
    ensures Pow256(8) == 0x1_0000_0000_0000_0000
  {
  }

  /** The last `len` base-256 digits of `n`, most significant first. */
  function BigEndian(n: nat, len: nat): (r: seq<u8>)
    ensures |r| == len
  {
    if len == 0 then [] else BigEndian(n / 0x100, len - 1) + [n % 0x100]
  }

  /** `n.to_be_bytes()` for a `u64`: always eight bytes. */
  function Be8(n: u64): (r: seq<u8>)
    ensures |r| == 8
  {
    BigEndian(n, 8)
  }

  /** The number a big-endian byte string denotes. */
  function BigEndianValue(bs: seq<u8>): (v: nat)
    ensures v < Pow256(|bs|)
  {
    if bs == [] then 0
    else
      var front := BigEndianValue(bs[..|bs| - 1]);
      assert front * 0x100 <= (Pow256(|bs| - 1) - 1) * 0x100;
      front * 0x100 + bs[|bs| - 1]
  }

  lemma {:induction false} BigEndianRoundTrip(n: nat, len: nat)
    requires n < Pow256(len)
    ensures BigEndianValue(BigEndian(n, len)) == n
  {
    if len > 0 {
      var bs := BigEndian(n, len);
      assert bs[..len - 1] == BigEndian(n / 0x100, len - 1);
      BigEndianRoundTrip(n / 0x100, len - 1);
    }
  }

  /** Decoding the eight bytes of `Be8(n)` gives back `n`. */
  lemma Be8RoundTrip(n: u64)
    ensures BigEndianValue(Be8(n)) == n
  {
    Pow256Eight();
    BigEndianRoundTrip(n, 8);
  }

  lemma Be8Injective(m: u64, n: u64)
    ensures Be8(m) == Be8(n) <==> m == n
  {
    if Be8(m) == Be8(n) {
      Be8RoundTrip(m);
      Be8RoundTrip(n);
    }
  }
}

/**
 * `convert_to_hex`: upper-case Base16 (section 8 of RFC 4648) of a digest,
 * two characters per byte, high nibble first.
 */
module Base16 {
  import opened Bytes
  import opened Structures

  /** The ASCII characters `0`-`9` and `A`-`F`. */
  predicate IsHexChar(c: u8) {
    '0' as int <= c <= '9' as int || 'A' as int <= c <= 'F' as int
  }

  /** The upper-case character of one nibble. */
  function HexDigit(n: int): (c: u8)
    requires 0 <= n < 16
    ensures IsHexChar(c)
  {
    if n < 10 then '0' as int + n else 'A' as int + (n - 10)
  }

  /** The nibble an upper-case hex character stands for. */
  function NibbleOf(c: u8): (n: int)
    requires IsHexChar(c)
    ensures 0 <= n < 16 && HexDigit(n) == c
  {
    if c <= '9' as int then c - '0' as int else c - 'A' as int + 10
  }

  /** `hex::encode_upper(&[byte])`. */
  function EncodeUpper(b: u8): seq<u8> {
    [HexDigit(b / 16), HexDigit(b % 16)]
  }

  /** The upper-case hex text of a byte string. */
  function Hex(bs: seq<u8>): (r: seq<u8>)
    ensures |r| == 2 * |bs|
  {
    if bs == [] then [] else EncodeUpper(bs[0]) + Hex(bs[1..])
  }

  predicate IsHexText(hs: seq<u8>) {
    forall i | 0 <= i < |hs| :: IsHexChar(hs[i])
  }

  /** The inverse of `Hex`: reads the text two characters at a time. */
  function Unhex(hs: seq<u8>): (bs: seq<u8>)
    requires IsHexText(hs)
    ensures |bs| == |hs| / 2
  {
    if |hs| < 2 then [] else [NibbleOf(hs[0]) * 16 + NibbleOf(hs[1])] + Unhex(hs[2..])
  }

  lemma {:induction false} HexAppend(a: seq<u8>, b: seq<u8>)
    ensures Hex(a + b) == Hex(a) + Hex(b)
  {
    if a != [] {
      assert (a + b)[1..] == a[1..] + b;
      HexAppend(a[1..], b);
    } else {
      assert a + b == b;
    }
  }

  /** Every character of the output is one of `0-9A-F`. */
  lemma {:induction false} HexAlphabet(bs: seq<u8>)
    ensures IsHexText(Hex(bs))
  {
    if bs != [] {
      HexAlphabet(bs[1..]);
      var r := Hex(bs);
      forall i | 0 <= i < |r| ensures IsHexChar(r[i]) {
        if i >= 2 {
          assert r[i] == Hex(bs[1..])[i - 2];
        }
      }
    }
  }

  /** Byte `k` of the input is spelled by characters `2k` and `2k+1`. */
  lemma {:induction false} HexAt(bs: seq<u8>, k: nat)
    requires k < |bs|
    ensures Hex(bs)[2 * k] == HexDigit(bs[k] / 16)
    ensures Hex(bs)[2 * k + 1] == HexDigit(bs[k] % 16)
  {
    if k > 0 {
      HexAt(bs[1..], k - 1);
    }
  }

  lemma {:induction false} HexRoundTrip(bs: seq<u8>)
    ensures IsHexText(Hex(bs)) && Unhex(Hex(bs)) == bs
  {
    HexAlphabet(bs);
    if bs != [] {
      var h := Hex(bs);
      assert h[2..] == Hex(bs[1..]);
      HexRoundTrip(bs[1..]);
      assert NibbleOf(h[0]) == bs[0] / 16 && NibbleOf(h[1]) == bs[0] % 16 by {
        HexDigitInjective(NibbleOf(h[0]), bs[0] / 16);
        HexDigitInjective(NibbleOf(h[1]), bs[0] % 16);
      }
    }
  }

  lemma HexDigitInjective(m: int, n: int)
    requires 0 <= m < 16 && 0 <= n < 16
    ensures HexDigit(m) == HexDigit(n) ==> m == n
  {
  }

  /** Distinct inputs give distinct hex text. */
  lemma HexInjective(a: seq<u8>, b: seq<u8>)
    ensures Hex(a) == Hex(b) <==> a == b
  {
    if Hex(a) == Hex(b) {
      HexRoundTrip(a);
      HexRoundTrip(b);
    }
  }

  /** `convert_to_hex`: appends the two characters of each byte in order. */
  method ConvertToHex(hash: Digest) returns (hexBuffer: seq<u8>)
    ensures hexBuffer == Hex(hash)
    ensures |hexBuffer| == 64 && IsHexText(hexBuffer)
  {
    hexBuffer := [];
    for i := 0 to |hash|
      invariant hexBuffer == Hex(hash[..i])
    {
      assert hash[..i + 1] == hash[..i] + [hash[i]];
      HexAppend(hash[..i], [hash[i]]);
      hexBuffer := hexBuffer + EncodeUpper(hash[i]);
    }
    assert hash[..|hash|] == hash;
    HexAlphabet(hash);
  }
}

/** Fixed-width unsigned integers of the source and their big-endian byte form. */
module Bytes {

  type byte = x: int | 0 <= x < 0x100
  type u16 = x: int | 0 <= x < 0x1_0000
  type u32 = x: int | 0 <= x < 0x1_0000_0000
  type u64 = x: int | 0 <= x < 0x1_0000_0000_0000_0000

  /** 256 to the power k: the number of values k bytes can hold. */
  function Pow256(k: nat): (r: nat)
    ensures r > 0
  {
    if k == 0 then 1 else 256 * Pow256(k - 1)
  }

  lemma Pow256Values()
    ensures Pow256(1) == 0x100 && Pow256(2) == 0x1_0000
    ensures Pow256(4) == 0x1_0000_0000 && Pow256(8) == 0x1_0000_0000_0000_0000
  {
  }

  /** The k-byte big-endian representation of n. */
  function BigEndian(n: nat, k: nat): (r: seq<byte>)
    requires n < Pow256(k)
    ensures |r| == k
  {
    if k == 0 then [] else BigEndian(n / 256, k - 1) + [n % 256]
  }

  /** The number a big-endian byte string denotes. */
  function FromBigEndian(s: seq<byte>): (n: nat)
    ensures n < Pow256(|s|)
  {
    if |s| == 0 then 0 else FromBigEndian(s[..|s| - 1]) * 256 + s[|s| - 1]
  }

  /** Reading back a big-endian representation gives the number written. */
  lemma {:induction false} BigEndianRoundTrip(n: nat, k: nat)
    requires n < Pow256(k)
    ensures FromBigEndian(BigEndian(n, k)) == n
  {
    if k > 0 {
      var s := BigEndian(n, k);
      assert s[..k - 1] == BigEndian(n / 256, k - 1);
      BigEndianRoundTrip(n / 256, k - 1);
    }
  }

  /** A big-endian string is the representation of the number it denotes. */
  lemma {:induction false} FromBigEndianRoundTrip(s: seq<byte>)
    ensures BigEndian(FromBigEndian(s), |s|) == s
  {
    if |s| > 0 {
      var n := FromBigEndian(s);
      FromBigEndianRoundTrip(s[..|s| - 1]);
      assert n / 256 == FromBigEndian(s[..|s| - 1]);
      assert n % 256 == s[|s| - 1];
      assert s == s[..|s| - 1] + [s[|s| - 1]];
    }
  }
}

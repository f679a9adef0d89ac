/** Bytes and the big-endian integer conversions of bn.js (`BN.toArray`). */
module Bytes {

  /** One element of a `Uint8Array`. */
  type byte = b: int | 0 <= b < 0x100

  /** 256 to the power k. */
  function Pow256(k: nat): (r: nat)
    ensures r >= 1
  {
    if k == 0 then 1 else 0x100 * Pow256(k - 1)
  }

  /** The unsigned integer a big-endian byte string denotes. */
  function FromBigEndian(s: seq<byte>): nat
  {
    if s == [] then 0 else 0x100 * FromBigEndian(s[..|s| - 1]) + s[|s| - 1]
  }

  /**
   * `BN.toArray('be', w)`: the value in exactly w big-endian bytes. bn.js throws when the value
   * does not fit. Every caller here writes a coordinate with w = 32, and coordinates are below
   * 2^256, so only the fitting case carries a contract; what this returns for a larger value
   * (its low w bytes) stands for no behaviour of bn.js.
   */
  function ToBigEndian(n: nat, w: nat): (r: seq<byte>)
    ensures |r| == w
    ensures n < Pow256(w) ==> FromBigEndian(r) == n
  {
    if w == 0 then []
    else
      var r := ToBigEndian(n / 0x100, w - 1) + [n % 0x100];
      assert r[..|r| - 1] == ToBigEndian(n / 0x100, w - 1);
      r
  }

  /** `BN.toArray()`: the shortest big-endian byte string of n; zero is the single byte 0. */
  function MinimalBigEndian(n: nat): (r: seq<byte>)
    ensures 1 <= |r|
    ensures FromBigEndian(r) == n
    ensures r[0] == 0 <==> n == 0
    ensures n == 0 ==> r == [0]
  {
    if n < 0x100 then [n]
    else
      var r := MinimalBigEndian(n / 0x100) + [n % 0x100];
      assert r[..|r| - 1] == MinimalBigEndian(n / 0x100);
      r
  }
}

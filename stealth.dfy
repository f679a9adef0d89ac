/**
 * The derivation both sides of a payment perform: the ECDH shared secret, the blinding scalar
 * hashed from it, the one-time public key, its chain address, and the one-time private key the
 * recipient rebuilds. The sender runs it with (ephemeral scalar, recipient's public key), the
 * recipient with (spending scalar, ephemeral public key).
 */
module Stealth {
  import opened Bytes
  import opened Hex
  import opened Group
  import opened Library

  /** One record of the registry's announcement log, as `getNextKeys` returns it. */
  datatype Announcement = Announcement(x: string, y: string, ss: string, token: string)

  /** `key.derive(P).toArray()`: the x coordinate of k·P in shortest big-endian bytes. */
  function SharedSecret(lib: Lib, k: Scalar, p: Point): (ss: seq<byte>)
    ensures 1 <= |ss|
    ensures FromBigEndian(ss) == lib.coords(Mul(k, p)).x
  {
    MinimalBigEndian(lib.coords(Mul(k, p)).x)
  }

  /**
   * `key.derive(P)` reads the x coordinate of k·P (`getX()`), which throws when k·P is the point
   * at infinity.
   */
  predicate DeriveThrows(k: Scalar, p: Point) {
    Mul(k, p) == Infinity
  }

  /** ethers' `hexlify` of a digest, without its "0x": two lower-case hex digits per byte. */
  function BytesHex(d: seq<byte>): (h: string)
    ensures |h| == 2 * |d|
    ensures IsLowerHex(h) && AllHexDigits(h)
    ensures LaxValue(h) == FromBigEndian(d)
  {
    if d == [] then []
    else
      var b := d[|d| - 1];
      var pair := PadStart(ToHex(b), 2);
      assert b < Pow16(2);
      ToHexLength(b, 2);
      PadStartExact(ToHex(b), 2);
      LaxValueOfHex(pair);
      LaxValueConcat(BytesHex(d[..|d| - 1]), pair);
      HexConcat(BytesHex(d[..|d| - 1]), pair);
      BytesHex(d[..|d| - 1]) + pair
  }

  /**
   * `ec.keyFromPrivate(keccak256(ss)).getPrivate()`. ethers' keccak256 returns the digest d as the
   * text "0x" + `BytesHex(d)`; bn.js 4 (elliptic's) reads that text in base 16 without rejecting
   * the 'x', which it takes as the digit 8, and elliptic reduces the result mod N (`umod(n)`).
   * So the blinder is 8·256^|d| + d mod N, not d mod N.
   */
  function Blinder(lib: Lib, ss: seq<byte>): (h: Scalar)
    ensures var d := lib.keccak256(ss);
      h == (8 * Pow256(|d|) + FromBigEndian(d)) % N
  {
    var d := lib.keccak256(ss);
    LaxValueOfPrefix(BytesHex(d));
    Pow256IsPow16(|d|);
    LaxValue("0x" + BytesHex(d)) % N
  }

  /**
   * `base.add(ec.keyFromPrivate(keccak256(ss)).getPublic())`: base + h·G, which is the public key
   * of the one-time private key (log base + h) mod N; a zero blinder leaves the base unchanged.
   */
  function StealthPublic(lib: Lib, base: Point, ss: seq<byte>): (p: Point)
    ensures p == PublicKeyOf(StealthPrivateKey(base.log, Blinder(lib, ss)))
    ensures Blinder(lib, ss) == 0 ==> p == base
  {
    PublicKeyIsLog(base.log);
    Add(base, PublicKeyOf(Blinder(lib, ss)))
  }

  /**
   * `'0x' + keccak256(pub.splice(1)).substring(len - 40, len)`: the last 20 bytes of the digest of
   * the uncompressed key without its 0x04 format byte (the whole digest if it were shorter).
   */
  function AddressOf(lib: Lib, p: Point): (addr: seq<byte>)
    ensures lib.HashValid() ==> |addr| == 20
    ensures lib.HashValid() ==> addr == lib.keccak256(Uncompressed(lib.coords(p))[1..])[12..]
  {
    var d := lib.keccak256(Uncompressed(lib.coords(p))[1..]);
    if |d| >= 20 then d[|d| - 20..] else d
  }

  /** `spendingKey.getPrivate().add(h).mod(n)`; its public key is PK + h·G. */
  function StealthPrivateKey(sk: Scalar, h: Scalar): (k: Scalar)
    ensures PublicKeyOf(k) == Add(PublicKeyOf(sk), PublicKeyOf(h))
  {
    PublicKeyOfSum(sk, h);
    (sk + h) % N
  }

  /** Sender (e, sk·G) and recipient (sk, e·G) compute the same shared secret bytes. */
  lemma SharedSecretAgrees(lib: Lib, sk: Scalar, e: Scalar)
    ensures SharedSecret(lib, e, PublicKeyOf(sk)) == SharedSecret(lib, sk, PublicKeyOf(e))
  {
    MulCommutes(e, sk, G);
  }

  /** The rebuilt private key (sk + h) mod N controls the address derived from sk·G + h·G. */
  lemma StealthKeyControlsAddress(lib: Lib, sk: Scalar, ss: seq<byte>)
    ensures PublicKeyOf(StealthPrivateKey(sk, Blinder(lib, ss))) == StealthPublic(lib, PublicKeyOf(sk), ss)
    ensures AddressOf(lib, PublicKeyOf(StealthPrivateKey(sk, Blinder(lib, ss))))
         == AddressOf(lib, StealthPublic(lib, PublicKeyOf(sk), ss))
  {
  }
}

/**
 * The code the components call but do not contain: elliptic's point coordinates and key parsing,
 * keccak256, the crc16 helper and ethers' base58. Each is a field of `Lib`, a function supplied
 * from outside; `Lib.Valid` lists the only facts about them that the proofs use. The byte and
 * text layouts built from coordinates (compressed, uncompressed, hex) are written out here.
 */
module Library {
  import opened Wrappers
  import opened Bytes
  import opened Hex
  import opened Group

  /** Affine coordinates of a finite point (`getX()`, `getY()`). */
  datatype Affine = Affine(x: nat, y: nat)

  /** 2^256: every secp256k1 field element, hence every coordinate, is below it. */
  const FieldBound: nat := Pow16(64)

  datatype Lib = Lib(
    coords: Point -> Affine,                   // P.getX(), P.getY()
    keyFromPublicBytes: seq<byte> -> Option<Point>, // ec.keyFromPublic(bytes); None when it throws
    keyFromPublicHex: string -> Option<Point>,  // ec.keyFromPublic(hex, 'hex'); None when it throws
    keyFromPrivate: string -> Option<Scalar>,   // ec.keyFromPrivate(hex, 'hex').getPrivate()
    keccak256: seq<byte> -> seq<byte>,          // ethers keccak256, as raw digest bytes
    crc16: seq<byte> -> seq<byte>,              // calculateCrc
    base58Encode: seq<byte> -> string,          // base58.encode
    base58Decode: string -> Option<seq<byte>>   // base58.decode; None when it throws
  ) {
    /** What the model assumes of the foreign code. */
    ghost predicate Valid() {
      CurveValid() && HashValid() && CodecValid()
    }

    /**
     * elliptic: coordinates are field elements, its parsers read back the compressed bytes and
     * the uncompressed hex it writes itself, and any non-empty string of hex digits is taken as
     * a private key reduced mod N (`umod(n)`), leading zeros and all.
     */
    ghost predicate CurveValid() {
      && (forall p :: coords(p).x < FieldBound && coords(p).y < FieldBound)
      && (forall p {:trigger keyFromPublicBytes(Compressed(coords(p)))} ::
            p != Infinity ==> keyFromPublicBytes(Compressed(coords(p))) == Some(p))
      && (forall p {:trigger keyFromPublicHex(UncompressedHex(coords(p)))} ::
            p != Infinity ==> keyFromPublicHex(UncompressedHex(coords(p))) == Some(p))
      && (forall s {:trigger keyFromPrivate(s)} ::
            s != [] && AllHexDigits(s) ==> keyFromPrivate(s) == Some(Value(s) % N))
    }

    /** keccak256 digests are 32 bytes. */
    ghost predicate HashValid() {
      forall b :: |keccak256(b)| == 32
    }

    /** crc16 gives 2 bytes, and base58 decoding inverts base58 encoding. */
    ghost predicate CodecValid() {
      && (forall b :: |crc16(b)| == 2)
      && (forall b :: base58Decode(base58Encode(b)) == Some(b))
    }
  }

  /** The width of a coordinate in bytes. */
  const CoordBytes: nat := 32

  /** `encodeCompressed('array')`: 0x02 or 0x03 by the parity of y, then x in 32 bytes. */
  function Compressed(a: Affine): (b: seq<byte>)
    ensures |b| == 33 && b[0] as nat == 2 + a.y % 2
    ensures a.x < Pow256(CoordBytes) ==> FromBigEndian(b[1..]) == a.x
  {
    var b := [if a.y % 2 == 0 then 2 else 3] + ToBigEndian(a.x, CoordBytes);
    assert b[1..] == ToBigEndian(a.x, CoordBytes);
    b
  }

  /** `encode('array', false)`: 0x04, then x and y in 32 bytes each. */
  function Uncompressed(a: Affine): (b: seq<byte>)
    ensures |b| == 65 && b[0] == 4
    ensures a.x < Pow256(CoordBytes) ==> FromBigEndian(b[1..33]) == a.x
    ensures a.y < Pow256(CoordBytes) ==> FromBigEndian(b[33..]) == a.y
  {
    var b := [4] + ToBigEndian(a.x, CoordBytes) + ToBigEndian(a.y, CoordBytes);
    assert b[1..33] == ToBigEndian(a.x, CoordBytes);
    assert b[33..] == ToBigEndian(a.y, CoordBytes);
    b
  }

  /**
   * `BN.toString(16, 64)` of a coordinate: lower-case digits denoting v, zero-padded to a multiple
   * of 64, which is exactly 64 for every field element.
   */
  function CoordHex(v: nat): (s: string)
    ensures 1 <= |s| && |s| % 64 == 0
    ensures IsLowerHex(s) && AllHexDigits(s) && Value(s) == v
    ensures v < FieldBound ==> |s| == 64
  {
    var h := ToHex(v);
    PadTo64Digits(h);
    assert v < FieldBound ==> |h| <= 64 by {
      if v < FieldBound { ToHexLength(v, 64); }
    }
    PadTo64(h)
  }

  /**
   * The hex form `keyFromPublic(_, 'hex')` reads: "04", then x and y; for field elements it is
   * 130 digits, x in the 64 after the prefix and y in the last 64.
   */
  function UncompressedHex(a: Affine): (h: string)
    ensures |h| >= 2 && h[..2] == "04"
    ensures a.x < FieldBound && a.y < FieldBound ==>
      |h| == 130 && h[2..66] == CoordHex(a.x) && h[66..] == CoordHex(a.y)
  {
    PrefixedPair(CoordHex(a.x), CoordHex(a.y));
    "04" + CoordHex(a.x) + CoordHex(a.y)
  }

  /** Where the two halves of "04" + cx + cy sit. */
  lemma PrefixedPair(cx: string, cy: string)
    ensures var h := "04" + cx + cy;
      |h| == 2 + |cx| + |cy| && h[..2] == "04" && h[2..2 + |cx|] == cx && h[2 + |cx|..] == cy
  {
    var h := "04" + cx + cy;
    assert h[..2] == "04" && h[2..2 + |cx|] == cx && h[2 + |cx|..] == cy;
  }

  /** A coordinate is written in exactly 64 lower-case digits, and parseInt reads it back after "0x". */
  lemma CoordHexFormat(v: nat)
    requires v < FieldBound
    ensures |CoordHex(v)| == 64 && IsLowerHex(CoordHex(v)) && AllHexDigits(CoordHex(v))
    ensures Value(CoordHex(v)) == v && ParseInt16("0x" + CoordHex(v)) == Some(v)
  {
    ParseHexAfterPrefix(CoordHex(v));
  }

  lemma {:induction false} Pow16Add(a: nat, b: nat)
    ensures Pow16(a + b) == Pow16(a) * Pow16(b)
  {
    if a > 0 {
      Pow16Add(a - 1, b);
      assert Pow16(a + b) == 16 * Pow16(a - 1 + b);
    }
  }

  lemma {:induction false} Pow256IsPow16(k: nat)
    ensures Pow256(k) == Pow16(2 * k)
  {
    if k > 0 {
      Pow256IsPow16(k - 1);
      assert Pow16(2 * k) == 16 * (16 * Pow16(2 * k - 2));
    }
  }

  /** Both 2^256 bounds lie above the group order. */
  lemma OrderBelowBounds()
    ensures N < FieldBound && N < Pow256(32)
  {
    assert Pow16(4) == 0x1_0000;
    Pow16Add(4, 4);
    assert Pow16(8) == 0x1_0000_0000;
    Pow16Add(8, 8);
    assert Pow16(16) == 0x1_0000_0000_0000_0000;
    Pow16Add(16, 16);
    assert Pow16(32) == 0x1_0000_0000_0000_0000_0000_0000_0000_0000;
    Pow16Add(32, 32);
    assert Pow16(64) == 0x1_0000_0000_0000_0000_0000_0000_0000_0000_0000_0000_0000_0000_0000_0000_0000_0000;
    Pow256IsPow16(32);
  }
}

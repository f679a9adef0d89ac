/**
 * The assumptions `Lib.Valid` makes about the foreign code can all hold at once: a toy library
 * (coordinates equal to the discrete logarithm, parsers that invert the layouts, a constant
 * digest and checksum, and bytes written one per character) satisfies every one of them.
 */
module Consistency {
  import opened Wrappers
  import opened Bytes
  import opened Hex
  import opened Group
  import opened Library

  function ToyLib(): Lib {
    Lib(
      (p: Point) => Affine(p.log, p.log),
      (b: seq<byte>) => if |b| == 33 && FromBigEndian(b[1..]) < N then Some(Point(FromBigEndian(b[1..]))) else None,
      (s: string) => if |s| == 130 && AllHexDigits(s[2..66]) && Value(s[2..66]) < N then Some(Point(Value(s[2..66]))) else None,
      (s: string) => if s != [] && AllHexDigits(s) then Some(Value(s) % N) else None,
      (b: seq<byte>) => seq(32, _ => 0),
      (b: seq<byte>) => [0, 0],
      (b: seq<byte>) => seq(|b|, i requires 0 <= i < |b| => b[i] as char),
      (s: string) => if forall i :: 0 <= i < |s| ==> s[i] as int < 0x100
           then Some(seq(|s|, i requires 0 <= i < |s| && s[i] as int < 0x100 => s[i] as int as byte))
           else None)
  }

  lemma ToyCompressedParses(p: Point)
    requires p != Infinity
    ensures ToyLib().keyFromPublicBytes(Compressed(ToyLib().coords(p))) == Some(p)
  {
    OrderBelowBounds();
    var b := Compressed(ToyLib().coords(p));
    assert b[1..] == ToBigEndian(p.log, 32);
  }

  lemma ToyUncompressedHexParses(p: Point)
    requires p != Infinity
    ensures ToyLib().keyFromPublicHex(UncompressedHex(ToyLib().coords(p))) == Some(p)
  {
    OrderBelowBounds();
    CoordHexFormat(p.log);
    var h := UncompressedHex(ToyLib().coords(p));
    assert h[2..66] == CoordHex(p.log);
  }

  lemma ToyBase58RoundTrip(b: seq<byte>)
    ensures ToyLib().base58Decode(ToyLib().base58Encode(b)) == Some(b)
  {
    var s := ToyLib().base58Encode(b);
    assert |s| == |b|;
    assert forall i :: 0 <= i < |s| ==> s[i] as int == b[i];
    var d := seq(|s|, i requires 0 <= i < |s| && s[i] as int < 0x100 => s[i] as int as byte);
    assert d == b;
    assert ToyLib().base58Decode(s) == Some(d);
  }

  lemma ToyPrivateParses(s: string)
    ensures s != [] && AllHexDigits(s) ==> ToyLib().keyFromPrivate(s) == Some(Value(s) % N)
  {
  }

  lemma ToyCoordsBounded(p: Point)
    ensures ToyLib().coords(p).x < FieldBound && ToyLib().coords(p).y < FieldBound
  {
    OrderBelowBounds();
  }

  /** The curve assumptions hold of the toy library. */
  lemma ToyCurveValid()
    ensures ToyLib().CurveValid()
  {
    var lib := ToyLib();
    forall p: Point
      ensures lib.coords(p).x < FieldBound && lib.coords(p).y < FieldBound
    {
      ToyCoordsBounded(p);
    }
    forall p: Point | p != Infinity
      ensures lib.keyFromPublicBytes(Compressed(lib.coords(p))) == Some(p)
      ensures lib.keyFromPublicHex(UncompressedHex(lib.coords(p))) == Some(p)
    {
      ToyCompressedParses(p);
      ToyUncompressedHexParses(p);
    }
    forall s | s != [] && AllHexDigits(s) ensures lib.keyFromPrivate(s) == Some(Value(s) % N) {
      ToyPrivateParses(s);
    }
  }

  /** The codec assumptions hold of the toy library. */
  lemma ToyCodecValid()
    ensures ToyLib().CodecValid()
  {
    var lib := ToyLib();
    forall b: seq<byte> ensures lib.base58Decode(lib.base58Encode(b)) == Some(b) {
      ToyBase58RoundTrip(b);
    }
  }

  /** Every assumption of `Lib.Valid` holds of the toy library. */
  lemma ToyLibValid()
    ensures ToyLib().Valid()
  {
    ToyCurveValid();
    ToyCodecValid();
  }
}

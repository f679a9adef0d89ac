/**
 * Properties that span the three panes: the meta-address written by the identity pane is read
 * back by the send pane, and what the send pane publishes is found, at the same address, by the
 * withdraw pane of the key's owner, who can then rebuild the key that controls that address.
 */
module Protocol {
  import opened Wrappers
  import opened Bytes
  import opened Hex
  import opened Group
  import opened Library
  import opened Stealth
  import HazedId
  import Send
  import Withdraw

  /** Decoding an encoded meta-address passes every check and returns the 33 key bytes. */
  lemma MetaAddressRoundTrip(lib: Lib, pk: Point)
    requires lib.CodecValid()
    ensures Send.DecodeMetaAddress(lib, HazedId.MetaAddress(lib, pk)) == Ok(Compressed(lib.coords(pk)))
  {
    HazedId.MetaAddressLayout(lib, pk);
    Send.DecodeAcceptsExactly(lib, HazedId.MetaAddress(lib, pk), Compressed(lib.coords(pk)));
  }

  /** A meta-address is not itself a share link, so the ID effect processes it directly. */
  lemma MetaAddressIsNotLink(lib: Lib, pk: Point)
    ensures Send.StripLink(HazedId.MetaAddress(lib, pk)) == HazedId.MetaAddress(lib, pk)
  {
    var id := HazedId.MetaAddress(lib, pk);
    if |HazedId.LinkPrefix| <= |id| {
      assert id[..|HazedId.LinkPrefix|][0] == 'H' != HazedId.LinkPrefix[0];
    }
  }

  /** The sender who enters the meta-address of a finite key derives the payment for that key. */
  lemma SenderReachesRecipientKey(lib: Lib, pk: Point, e: Scalar)
    requires lib.Valid() && pk != Infinity
    ensures Send.DeriveFromId(lib, HazedId.MetaAddress(lib, pk), e) == Ok(Send.DeriveForRecipient(lib, pk, e))
  {
    MetaAddressRoundTrip(lib, pk);
  }

  /**
   * The receiver's `'04' + x.slice(2) + y.slice(2)` over the published coordinates is the
   * 130-character uncompressed key of the ephemeral point, x and y in place.
   */
  lemma ReceiverReadsEphemeralKey(lib: Lib, out: Send.Outgoing)
    requires lib.CurveValid()
    ensures var args := Send.Publish(lib, out);
      var h := Withdraw.EphemeralKeyHex(args.x, args.y);
      |h| == 130 && h == UncompressedHex(lib.coords(out.ephPublic)) &&
      h[2..66] == CoordHex(lib.coords(out.ephPublic).x) && h[66..] == CoordHex(lib.coords(out.ephPublic).y)
  {
    var c := lib.coords(out.ephPublic);
    var args := Send.Publish(lib, out);
    CoordHexFormat(c.x);
    CoordHexFormat(c.y);
    assert Withdraw.Drop2(args.x) == CoordHex(c.x);
    assert Withdraw.Drop2(args.y) == CoordHex(c.y);
  }

  /**
   * No false negative from the filter: the byte the sender publishes parses back to the first
   * shared-secret byte the true recipient computes.
   */
  lemma FilterByteAgrees(lib: Lib, sk: Scalar, e: Scalar)
    ensures var out := Send.DeriveForRecipient(lib, PublicKeyOf(sk), e);
      ParseInt16(Send.Publish(lib, out).ss) == Some(SharedSecret(lib, sk, PublicKeyOf(e))[0] as nat)
  {
    SharedSecretAgrees(lib, sk, e);
  }

  /** Sender and recipient derive the same stealth address. */
  lemma StealthAddressAgrees(lib: Lib, sk: Scalar, e: Scalar)
    ensures Send.DeriveForRecipient(lib, PublicKeyOf(sk), e).address
         == AddressOf(lib, StealthPublic(lib, PublicKeyOf(sk), SharedSecret(lib, sk, PublicKeyOf(e))))
  {
    SharedSecretAgrees(lib, sk, e);
  }

  /**
   * A true match is never discarded: the announcement of a payment to sk·G, read back by the
   * owner of sk, is listed with the sender's address exactly when it is a native payment whose
   * balance is not dust. The shared point and the stealth point must be finite: otherwise
   * `derive` or `encode` throws and the batch is rejected.
   */
  lemma TrueMatchIsFound(lib: Lib, sk: Scalar, e: Scalar, token: string, balanceOf: seq<byte> -> nat)
    requires lib.Valid() && !DeriveThrows(sk, PublicKeyOf(e))
    requires StealthPublic(lib, PublicKeyOf(sk), SharedSecret(lib, sk, PublicKeyOf(e))) != Infinity
    requires lib.coords(PublicKeyOf(e)).x != 0 && lib.coords(PublicKeyOf(e)).y != 0
    ensures var out := Send.DeriveForRecipient(lib, PublicKeyOf(sk), e);
      var args := Send.Publish(lib, out);
      var a := Announcement(args.x, args.y, args.ss, token);
      Withdraw.MatchOne(lib, sk, a, balanceOf) ==
        if token == Withdraw.ZeroAddress && balanceOf(out.address) >= Withdraw.Dust
        then Some(Withdraw.Claim(args.x, args.y, token, balanceOf(out.address), out.address))
        else None
  {
    var out := Send.DeriveForRecipient(lib, PublicKeyOf(sk), e);
    ReceiverReadsEphemeralKey(lib, out);
    FilterByteAgrees(lib, sk, e);
    StealthAddressAgrees(lib, sk, e);
  }

  /** The owner of sk rebuilds, from the published coordinates, the key that controls the paid address. */
  lemma ReceiverKeyOpensPayment(lib: Lib, sk: Scalar, e: Scalar)
    requires lib.Valid() && !DeriveThrows(sk, PublicKeyOf(e))
    ensures var out := Send.DeriveForRecipient(lib, PublicKeyOf(sk), e);
      var args := Send.Publish(lib, out);
      var k := Withdraw.BuildPrivateKey(lib, args.x, args.y, sk);
      k.Some? && AddressOf(lib, PublicKeyOf(k.value)) == out.address
  {
    var out := Send.DeriveForRecipient(lib, PublicKeyOf(sk), e);
    var args := Send.Publish(lib, out);
    ReceiverReadsEphemeralKey(lib, out);
    assert lib.keyFromPublicHex(Withdraw.EphemeralKeyHex(args.x, args.y)) == Some(PublicKeyOf(e));
    StealthAddressAgrees(lib, sk, e);
  }

  /**
   * The whole flow, for a spending key sk and ephemeral scalar e whose shared point sk·e·G and
   * stealth point are finite (so neither `derive` nor `encode` throws, and sk and e are
   * non-zero): the meta-address of sk,
   * entered on the send pane with e, yields a payment whose announcement the owner lists at the
   * paid address (native token, no dust), and the key the owner rebuilds controls that address.
   */
  lemma EndToEnd(lib: Lib, sk: Scalar, e: Scalar, balanceOf: seq<byte> -> nat)
    requires lib.Valid() && !DeriveThrows(sk, PublicKeyOf(e))
    requires StealthPublic(lib, PublicKeyOf(sk), SharedSecret(lib, sk, PublicKeyOf(e))) != Infinity
    requires lib.coords(PublicKeyOf(e)).x != 0 && lib.coords(PublicKeyOf(e)).y != 0
    ensures var r := Send.DeriveFromId(lib, HazedId.MetaAddress(lib, PublicKeyOf(sk)), e);
      r.Ok? &&
      var args := Send.Publish(lib, r.value);
      var a := Announcement(args.x, args.y, args.ss, Withdraw.ZeroAddress);
      (balanceOf(r.value.address) >= Withdraw.Dust ==>
        Withdraw.MatchOne(lib, sk, a, balanceOf) ==
          Some(Withdraw.Claim(args.x, args.y, Withdraw.ZeroAddress, balanceOf(r.value.address), r.value.address))) &&
      Withdraw.BuildPrivateKey(lib, args.x, args.y, sk).Some? &&
      AddressOf(lib, PublicKeyOf(Withdraw.BuildPrivateKey(lib, args.x, args.y, sk).value)) == r.value.address
  {
    SenderReachesRecipientKey(lib, PublicKeyOf(sk), e);
    TrueMatchIsFound(lib, sk, e, Withdraw.ZeroAddress, balanceOf);
    ReceiverKeyOpensPayment(lib, sk, e);
  }
}

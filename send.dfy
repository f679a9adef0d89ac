/**
 * The send pane (`send.tsx`): validating a recipient's meta-address, deriving the one-time
 * stealth address from it with a fresh ephemeral key, formatting what is published, stripping a
 * pasted share link, and the amount check.
 */
module Send {
  import opened Wrappers
  import opened Bytes
  import opened Hex
  import opened Group
  import opened Library
  import opened Stealth
  import HazedId

  /** Why an entered ID was refused; `Missing` (empty input) sets no error flag. */
  datatype IdError = Missing | BadPrefix | BadEncoding | BadLength | BadChecksum | BadPoint

  /** What the sender derives for one payment. */
  datatype Outgoing = Outgoing(ephPublic: Point, address: seq<byte>, filter: string)

  /** The arguments of `publishAndSend`: coordinates, filter byte, and the address paid. */
  datatype PublishArgs = PublishArgs(x: string, y: string, ss: string, to: seq<byte>)

  /**
   * `crc.every((x, idx) => x === decodedID[33 + idx])`: an index past the end reads `undefined`,
   * which equals no byte, so the check holds exactly when crc sits in full at offset 33.
   */
  predicate CrcMatches(crc: seq<byte>, decoded: seq<byte>): (b: bool)
    ensures b <==> crc == [] || (33 + |crc| <= |decoded| && decoded[33..33 + |crc|] == crc)
  {
    var every := forall i :: 0 <= i < |crc| ==> 33 + i < |decoded| && crc[i] == decoded[33 + i];
    assert every && crc != [] ==> 33 + |crc| <= |decoded| && decoded[33..33 + |crc|] == crc by {
      if every && crc != [] {
        var j := |crc| - 1;
        var last := crc[j];
        assert 33 + j < |decoded|;
      }
    }
    assert crc != [] && 33 + |crc| <= |decoded| && decoded[33..33 + |crc|] == crc ==> every by {
      if crc != [] && 33 + |crc| <= |decoded| && decoded[33..33 + |crc|] == crc {
        forall i | 0 <= i < |crc|
          ensures 33 + i < |decoded| && crc[i] == decoded[33 + i]
        {
          assert decoded[33..33 + |crc|][i] == decoded[33 + i];
        }
      }
    }
    every
  }

  /** For a 2-byte checksum and 35 decoded bytes, the element-wise check is equality of the tail. */
  lemma CrcMatchesIsTailEquality(crc: seq<byte>, decoded: seq<byte>)
    requires |crc| == 2 && |decoded| == 35
    ensures CrcMatches(crc, decoded) <==> crc == decoded[33..]
  {
    if CrcMatches(crc, decoded) {
      assert crc[0] == decoded[33] && crc[1] == decoded[34];
    }
  }

  /**
   * The checks of `generateNewEphKey` in order, each ending the callback: empty input, prefix
   * 'H', base58 of the rest, 35 decoded bytes, crc16 of the first 33 against the last 2.
   */
  function DecodeMetaAddress(lib: Lib, id: string): (r: Result<seq<byte>, IdError>)
    ensures r == Err(Missing) <==> id == ""
    ensures r == Err(BadPrefix) <==> id != "" && id[0] != 'H'
    ensures r == Err(BadEncoding) <==> id != "" && id[0] == 'H' && lib.base58Decode(id[1..]).None?
    ensures r == Err(BadLength) <==>
      (id != "" && id[0] == 'H' && lib.base58Decode(id[1..]).Some? && |lib.base58Decode(id[1..]).value| != 35)
    ensures r.Ok? ==> |r.value| == 33
    ensures lib.CodecValid() && r.Ok? ==> id[0] == 'H' && lib.base58Decode(id[1..]) == Some(r.value + lib.crc16(r.value))
    ensures r != Err(BadPoint)
  {
    if id == "" then Err(Missing)
    else if id[0] != 'H' then Err(BadPrefix)
    else match lib.base58Decode(id[1..])
      case None => Err(BadEncoding)
      case Some(decoded) =>
        if |decoded| != 35 then Err(BadLength)
        else if !CrcMatches(lib.crc16(decoded[..33]), decoded) then Err(BadChecksum)
        else
          assert lib.CodecValid() ==> decoded == decoded[..33] + lib.crc16(decoded[..33]) by {
            if lib.CodecValid() { CrcMatchesIsTailEquality(lib.crc16(decoded[..33]), decoded); }
          }
          Ok(decoded[..33])
  }

  /**
   * An ID is accepted with key bytes `key` exactly when it is 'H' followed by text that base58
   * decodes to `key` and then the crc16 of `key`.
   */
  lemma DecodeAcceptsExactly(lib: Lib, id: string, key: seq<byte>)
    requires lib.CodecValid() && |key| == 33
    ensures DecodeMetaAddress(lib, id) == Ok(key) <==>
      (id != "" && id[0] == 'H' && lib.base58Decode(id[1..]) == Some(key + lib.crc16(key)))
  {
    if id != "" && id[0] == 'H' && lib.base58Decode(id[1..]) == Some(key + lib.crc16(key)) {
      var decoded := key + lib.crc16(key);
      assert decoded[..33] == key;
      CrcMatchesIsTailEquality(lib.crc16(key), decoded);
    }
  }

  /** `ss.toArray()[0].toString(16).padStart(2, '0')`. */
  function FilterHex(b: byte): (s: string)
    ensures |s| == 2 && IsLowerHex(s)
    ensures ParseInt16("0x" + s) == Some(b)
  {
    ToHexLength(b, 2);
    PadStartExact(ToHex(b), 2);
    ParseHexAfterPrefix(PadStart(ToHex(b), 2));
    PadStart(ToHex(b), 2)
  }

  /**
   * The sender's derivation for recipient key `meta` with ephemeral scalar `e`: the ephemeral key
   * published is e·G, the filter reads back as the first shared-secret byte, and the address paid
   * is the 20-byte address of the one-time key (log meta + h) mod N.
   */
  function DeriveForRecipient(lib: Lib, meta: Point, e: Scalar): (out: Outgoing)
    ensures out.ephPublic == PublicKeyOf(e)
    ensures |out.filter| == 2 && ParseInt16("0x" + out.filter) == Some(SharedSecret(lib, e, meta)[0] as nat)
    ensures var ss := SharedSecret(lib, e, meta);
      out.address == AddressOf(lib, PublicKeyOf(StealthPrivateKey(meta.log, Blinder(lib, ss))))
    ensures lib.HashValid() ==> |out.address| == 20
  {
    var ss := SharedSecret(lib, e, meta);
    Outgoing(PublicKeyOf(e), AddressOf(lib, StealthPublic(lib, meta, ss)), FilterHex(ss[0]))
  }

  /**
   * `generateNewEphKey` as a pipeline: decode the ID, parse its point, derive; a derived payment
   * comes from a decoded, parsing key and publishes e·G.
   */
  function DeriveFromId(lib: Lib, id: string, e: Scalar): (r: Result<Outgoing, IdError>)
    ensures r.Ok? ==> DecodeMetaAddress(lib, id).Ok? && lib.keyFromPublicBytes(DecodeMetaAddress(lib, id).value).Some?
    ensures r.Ok? ==> r.value.ephPublic == PublicKeyOf(e)
  {
    match DecodeMetaAddress(lib, id)
    case Err(err) => Err(err)
    case Ok(key) =>
      match lib.keyFromPublicBytes(key)
      case None => Err(BadPoint)
      case Some(meta) => Ok(DeriveForRecipient(lib, meta, e))
  }

  /**
   * A refused ID keeps its reason; the point check fails exactly when the decoded key bytes do
   * not parse; a payment is derived exactly when they do, and it is the payment for the parsed
   * key: e·G published, the filter reading back as the first byte of the shared secret with that
   * key, and the address of the one-time key paid.
   */
  lemma DeriveFromIdOutcome(lib: Lib, id: string, e: Scalar)
    ensures var r := DeriveFromId(lib, id, e);
      && (DecodeMetaAddress(lib, id).Err? ==> r == Err(DecodeMetaAddress(lib, id).error))
      && (r == Err(BadPoint) <==>
          (DecodeMetaAddress(lib, id).Ok? && lib.keyFromPublicBytes(DecodeMetaAddress(lib, id).value).None?))
      && (r.Ok? <==>
          (DecodeMetaAddress(lib, id).Ok? && lib.keyFromPublicBytes(DecodeMetaAddress(lib, id).value).Some?))
      && (r.Ok? ==>
          var meta := lib.keyFromPublicBytes(DecodeMetaAddress(lib, id).value).value;
          var ss := SharedSecret(lib, e, meta);
          r.value.ephPublic == PublicKeyOf(e) &&
          ParseInt16("0x" + r.value.filter) == Some(ss[0] as nat) &&
          r.value.address == AddressOf(lib, PublicKeyOf(StealthPrivateKey(meta.log, Blinder(lib, ss)))))
  {
  }

  /** The `publishAndSend` arguments for a derived payment. */
  function Publish(lib: Lib, out: Outgoing): (args: PublishArgs)
    ensures lib.CurveValid() ==>
      |args.x| == 66 && |args.y| == 66 && args.x[..2] == "0x" && args.y[..2] == "0x" &&
      ParseInt16(args.x) == Some(lib.coords(out.ephPublic).x) &&
      ParseInt16(args.y) == Some(lib.coords(out.ephPublic).y)
    ensures args.x == "0x" + CoordHex(lib.coords(out.ephPublic).x)
    ensures args.y == "0x" + CoordHex(lib.coords(out.ephPublic).y)
    ensures IsLowerHex(args.x[2..]) && AllHexDigits(args.x[2..])
    ensures IsLowerHex(args.y[2..]) && AllHexDigits(args.y[2..])
    ensures args.ss == "0x" + out.filter && args.to == out.address
  {
    var c := lib.coords(out.ephPublic);
    var hx := CoordHex(c.x);
    var hy := CoordHex(c.y);
    assert ("0x" + hx)[2..] == hx && ("0x" + hy)[2..] == hy;
    assert lib.CurveValid() ==>
      (ParseInt16("0x" + hx) == Some(c.x) && |hx| == 64 && ParseInt16("0x" + hy) == Some(c.y) && |hy| == 64) by {
      if lib.CurveValid() {
        CoordHexFormat(c.x);
        CoordHexFormat(c.y);
      }
    }
    PublishArgs("0x" + hx, "0x" + hy, "0x" + out.filter, out.address)
  }

  /** The link-strip effect: `id.replace('https://hazed.io/#', '')` when `id` starts with it. */
  function StripLink(id: string): (r: string)
    ensures |r| <= |id| && r == id[|id| - |r|..]
    ensures r != id <==> |HazedId.LinkPrefix| <= |id| && id[..|HazedId.LinkPrefix|] == HazedId.LinkPrefix
  {
    var p := HazedId.LinkPrefix;
    if |p| <= |id| && id[..|p|] == p then id[|p|..] else id
  }

  /** Stripping the prefix from a share link gives back the meta-address. */
  lemma StripShareLink(metaAddr: string)
    requires metaAddr != ""
    ensures StripLink(HazedId.ShareLink(Some(metaAddr))) == metaAddr
  {
  }

  /** The pane's state. */
  class SendForm {
    var theirID: string
    var hazedIDError: bool
    var ephPublic: Option<Point>
    var fantomAddr: seq<byte>
    var sharedSecretByte: string
    var amountWei: int
    var amountError: bool

    /** Initial state: the zero address and the filter text "0x00". */
    constructor ()
      ensures theirID == "" && !hazedIDError && ephPublic == None
      ensures fantomAddr == seq(20, _ => 0) && sharedSecretByte == "0x00"
      ensures amountWei == 0 && !amountError
    {
      theirID := "";
      hazedIDError := false;
      ephPublic := None;
      fantomAddr := seq(20, _ => 0);
      sharedSecretByte := "0x00";
      amountWei := 0;
      amountError := false;
    }

    /** The location-hash effect: a hash longer than 20 characters, without its '#', is the ID. */
    method LoadFromHash(hash: string)
      modifies this`theirID
      ensures theirID == if |hash| > 20 then hash[1..] else old(theirID)
    {
      if |hash| > 20 {
        theirID := hash[1..];
      }
    }

    /** `handleIDInput`. */
    method EnterId(value: string)
      modifies this`theirID, this`hazedIDError
      ensures theirID == value && !hazedIDError
    {
      theirID := value;
      hazedIDError := false;
    }

    /**
     * `generateNewEphKey`: on success the ephemeral key, stealth address and filter text are
     * stored; a refused ID sets the error flag; an empty ID changes nothing.
     */
    method GenerateNewEphKey(lib: Lib, e: Scalar)
      modifies this`hazedIDError, this`ephPublic, this`fantomAddr, this`sharedSecretByte
      ensures var r := DeriveFromId(lib, theirID, e);
        if r.Ok? then
          ephPublic == Some(r.value.ephPublic) && fantomAddr == r.value.address &&
          sharedSecretByte == r.value.filter && hazedIDError == old(hazedIDError)
        else
          ephPublic == old(ephPublic) && fantomAddr == old(fantomAddr) &&
          sharedSecretByte == old(sharedSecretByte) &&
          hazedIDError == (old(hazedIDError) || r.error != Missing)
    {
      Show(DeriveFromId(lib, theirID, e));
    }

    /** The state setters `generateNewEphKey` calls for the outcome r of the derivation. */
    method Show(r: Result<Outgoing, IdError>)
      modifies this`hazedIDError, this`ephPublic, this`fantomAddr, this`sharedSecretByte
      ensures if r.Ok? then
          ephPublic == Some(r.value.ephPublic) && fantomAddr == r.value.address &&
          sharedSecretByte == r.value.filter && hazedIDError == old(hazedIDError)
        else
          ephPublic == old(ephPublic) && fantomAddr == old(fantomAddr) &&
          sharedSecretByte == old(sharedSecretByte) &&
          hazedIDError == (old(hazedIDError) || r.error != Missing)
    {
      if r.Ok? {
        ephPublic := Some(r.value.ephPublic);
        fantomAddr := r.value.address;
        sharedSecretByte := r.value.filter;
      } else if r.error != Missing {
        hazedIDError := true;
      }
    }

    /** The ID effect: a pasted share link is stripped, anything else non-empty is processed. */
    method OnIdChanged(lib: Lib, e: Scalar)
      modifies this`theirID, this`hazedIDError, this`ephPublic, this`fantomAddr, this`sharedSecretByte
      ensures old(theirID) == "" ==>
        theirID == old(theirID) && hazedIDError == old(hazedIDError) && ephPublic == old(ephPublic) &&
        fantomAddr == old(fantomAddr) && sharedSecretByte == old(sharedSecretByte)
      ensures old(theirID) != "" && StripLink(old(theirID)) != old(theirID) ==>
        theirID == StripLink(old(theirID)) && hazedIDError == old(hazedIDError) &&
        ephPublic == old(ephPublic) && fantomAddr == old(fantomAddr) && sharedSecretByte == old(sharedSecretByte)
      ensures old(theirID) != "" && StripLink(old(theirID)) == old(theirID) ==>
        theirID == old(theirID) &&
        var r := DeriveFromId(lib, theirID, e);
        if r.Ok? then
          ephPublic == Some(r.value.ephPublic) && fantomAddr == r.value.address &&
          sharedSecretByte == r.value.filter && hazedIDError == old(hazedIDError)
        else
          ephPublic == old(ephPublic) && fantomAddr == old(fantomAddr) &&
          sharedSecretByte == old(sharedSecretByte) &&
          hazedIDError == (old(hazedIDError) || r.error != Missing)
    {
      if theirID == "" {
        return;
      }
      var stripped := StripLink(theirID);
      if stripped != theirID {
        theirID := stripped;
      } else {
        GenerateNewEphKey(lib, e);
      }
    }

    /** `handleAmountInput` clears the amount error (the text itself is the `parsed` input below). */
    method EnterAmount()
      modifies this`amountError
      ensures !amountError
    {
      amountError := false;
    }

    /**
     * The amount effect: text that `parseEther` rejects (None) is an error; otherwise the amount
     * is kept, and it is an error when it is at least the balance, equality included.
     */
    method CheckAmount(parsed: Option<int>, balance: Option<nat>)
      modifies this`amountWei, this`amountError
      ensures amountError == (old(amountError) || parsed.None? || (balance.Some? && parsed.value >= balance.value))
      ensures amountWei == if parsed.Some? then parsed.value else old(amountWei)
    {
      if parsed.None? {
        amountError := true;
      } else {
        amountWei := parsed.value;
        if balance.Some? && parsed.value >= balance.value {
          amountError := true;
        }
      }
    }
  }
}

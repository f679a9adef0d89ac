/**
 * The identity pane (`hazedid.tsx`): the recipient's spending key, its persisted hex form, the
 * meta-address ("Hazed ID") derived from it, the keyfile import and the share link.
 */
module HazedId {
  import opened Wrappers
  import opened Bytes
  import opened Hex
  import opened Group
  import opened Library

  /** The prefix of a share link. */
  const LinkPrefix: string := "https://hazed.io/#"

  /** The only keyfile size accepted: 64 hex characters of a private scalar. */
  const KeyFileSize: nat := 64

  /**
   * The 35 bytes behind a meta-address: the 33-byte compressed public key, then its crc16, so the
   * tail checks the head.
   */
  function MetaAddressBytes(lib: Lib, pk: Point): (r: seq<byte>)
    ensures |r| >= 33 && r[..33] == Compressed(lib.coords(pk))
    ensures r[33..] == lib.crc16(r[..33])
  {
    var data := Compressed(lib.coords(pk));
    assert (data + lib.crc16(data))[..33] == data;
    data + lib.crc16(data)
  }

  /**
   * The meta-address: 'H' followed by the base58 text of `MetaAddressBytes`, which base58 decoding
   * gives back.
   */
  function MetaAddress(lib: Lib, pk: Point): (m: string)
    ensures |m| >= 1 && m[0] == 'H'
    ensures lib.CodecValid() ==> lib.base58Decode(m[1..]) == Some(MetaAddressBytes(lib, pk))
  {
    var m := "H" + lib.base58Encode(MetaAddressBytes(lib, pk));
    assert m[1..] == lib.base58Encode(MetaAddressBytes(lib, pk));
    m
  }

  /** The framing is 35 bytes: the 33 key bytes first, then the 2 checksum bytes. */
  lemma MetaAddressLayout(lib: Lib, pk: Point)
    requires lib.CodecValid()
    ensures |MetaAddressBytes(lib, pk)| == 35
    ensures MetaAddressBytes(lib, pk)[..33] == Compressed(lib.coords(pk))
    ensures MetaAddressBytes(lib, pk)[33..] == lib.crc16(Compressed(lib.coords(pk)))
    ensures MetaAddress(lib, pk)[0] == 'H' && MetaAddress(lib, pk)[1..] == lib.base58Encode(MetaAddressBytes(lib, pk))
  {
    var data := Compressed(lib.coords(pk));
    assert |lib.crc16(data)| == 2;
  }

  /**
   * Fills a fresh zeroed `Uint8Array(data.length + 2)` with `data`, then with `crc` at offset
   * `data.length` (which throws past the end, hence at most 2 checksum bytes).
   */
  method FrameMetaAddress(data: seq<byte>, crc: seq<byte>) returns (addr: seq<byte>)
    requires |crc| <= 2
    ensures |addr| == |data| + 2
    ensures addr[..|data|] == data
    ensures addr[|data|..|data| + |crc|] == crc
    ensures forall i :: |data| + |crc| <= i < |addr| ==> addr[i] == 0
  {
    var a := new byte[|data| + 2](_ => 0);
    var i := 0;
    while i < |data|
      invariant 0 <= i <= |data|
      invariant a[..i] == data[..i]
      invariant forall j :: i <= j < a.Length ==> a[j] == 0
    {
      a[i] := data[i];
      i := i + 1;
    }
    var j := 0;
    while j < |crc|
      invariant 0 <= j <= |crc|
      invariant a[..|data|] == data
      invariant a[|data|..|data| + j] == crc[..j]
      invariant forall k :: |data| + j <= k < a.Length ==> a[k] == 0
    {
      a[|data| + j] := crc[j];
      j := j + 1;
    }
    assert crc[..j] == crc;
    addr := a[..];
    assert addr[|data|..|data| + |crc|] == a[|data|..|data| + |crc|];
  }

  /**
   * What `handleFile` makes of a keyfile of `size` bytes holding `text`: nothing unless the size is
   * exactly 64, else the scalar `ec.keyFromPrivate(text, 'hex')` parses.
   */
  function KeyFileKey(lib: Lib, size: nat, text: string): (k: Option<Scalar>)
    ensures size != KeyFileSize ==> k.None?
    ensures lib.CurveValid() && size == KeyFileSize && text != [] && AllHexDigits(text) ==>
      k == Some(Value(text) % N)
  {
    if size != KeyFileSize then None else lib.keyFromPrivate(text)
  }

  /**
   * The text the "Save key" buttons download, as written: `getPrivate().toString(16)`, the
   * shortest hex form, which is under 64 digits for every key below 16^63.
   */
  function SavedKeyText(k: Scalar): (s: string)
    ensures 1 <= |s| && AllHexDigits(s) && Value(s) == k
    ensures k < Pow16(63) ==> |s| < KeyFileSize
  {
    assert k < Pow16(63) ==> |ToHex(k)| <= 63 by {
      if k < Pow16(63) { ToHexLength(k, 63); }
    }
    ToHex(k)
  }

  /**
   * A downloaded keyfile of a key below 16^63 (one key in 16, e.g. k = 1, saved as "1") is
   * refused on import: its size is not 64.
   */
  lemma ShortSavedKeyRejected(lib: Lib, k: Scalar)
    requires k < Pow16(63)
    ensures KeyFileKey(lib, |SavedKeyText(k)|, SavedKeyText(k)).None?
  {
  }

  /**
   * The keyfile text the download evidently intends, padded to 64 digits (`toString(16, 64)`):
   * exactly 64 hex digits denoting k. The buttons themselves write `SavedKeyText`.
   */
  function PaddedKeyText(k: Scalar): (s: string)
    ensures |s| == KeyFileSize && IsLowerHex(s) && AllHexDigits(s) && Value(s) == k
  {
    OrderBelowBounds();
    ToHexLength(k, 64);
    PadStartExact(ToHex(k), 64);
    PadStart(ToHex(k), 64)
  }

  /** Every padded keyfile imports back to the key it was saved from. */
  lemma PaddedKeyFileReloads(lib: Lib, k: Scalar)
    requires lib.CurveValid()
    ensures KeyFileKey(lib, |PaddedKeyText(k)|, PaddedKeyText(k)) == Some(k)
  {
    KeyFileOfValueBelowOrder(lib, PaddedKeyText(k));
  }

  /** A 64-digit keyfile denoting a value below N imports as exactly that value. */
  lemma KeyFileOfValueBelowOrder(lib: Lib, s: string)
    requires lib.CurveValid() && |s| == KeyFileSize && AllHexDigits(s) && Value(s) < N
    ensures KeyFileKey(lib, |s|, s) == Some(Value(s))
  {
  }

  /** The copy button's text: the share link, or "" while there is no meta-address. */
  function ShareLink(metaAddr: Option<string>): (link: string)
    ensures link == "" <==> metaAddr.None? || metaAddr.value == ""
    ensures link != "" ==> |LinkPrefix| < |link| && link[..|LinkPrefix|] == LinkPrefix
    ensures link != "" ==> link[|LinkPrefix|..] == metaAddr.value
  {
    if metaAddr.Some? && metaAddr.value != "" then LinkPrefix + metaAddr.value else ""
  }

  /** The pane's state: the active key (context), the stored key (local storage) and the flags. */
  class Identity {
    var spendingKey: Option<Scalar>
    var storedKey: Option<string>
    var metaAddr: Option<string>
    var loadError: bool
    var loadSuccess: bool
    var keySaved: bool

    /** First render: nothing derived yet; `stored` is what local storage holds (None for null). */
    constructor (stored: Option<string>)
      ensures spendingKey == None && storedKey == stored && metaAddr == None
      ensures !loadError && !loadSuccess && keySaved
    {
      spendingKey := None;
      storedKey := stored;
      metaAddr := None;
      loadError := false;
      loadSuccess := false;
      keySaved := true;
    }

    /** `generateNewKey`; `drawn` is the scalar `ec.genKeyPair()` drew. */
    method GenerateNewKey(drawn: Scalar)
      modifies this
      ensures spendingKey == Some(drawn) && storedKey == Some(ToHex(drawn))
      ensures !keySaved && !loadError
      ensures metaAddr == old(metaAddr) && loadSuccess == old(loadSuccess)
    {
      spendingKey := Some(drawn);
      storedKey := Some(ToHex(drawn));
      keySaved := false;
      loadError := false;
    }

    /**
     * The stored-key effect: a non-empty stored key that parses becomes the active key; otherwise
     * a new key is generated. Either way a key is active afterwards, and the stored text reloads
     * to exactly that key.
     */
    method LoadOrGenerate(lib: Lib, drawn: Scalar)
      requires lib.CurveValid()
      modifies this
      ensures spendingKey.Some?
      ensures storedKey.Some? && lib.keyFromPrivate(storedKey.value) == spendingKey
      ensures var s := old(storedKey);
        if s.Some? && s.value != "" && lib.keyFromPrivate(s.value).Some? then
          spendingKey == lib.keyFromPrivate(s.value) && storedKey == s
          && keySaved == old(keySaved) && loadError == old(loadError)
        else
          spendingKey == Some(drawn) && storedKey == Some(ToHex(drawn)) && !keySaved && !loadError
      ensures metaAddr == old(metaAddr) && loadSuccess == old(loadSuccess)
    {
      var loaded: Option<Scalar> := None;
      if storedKey.Some? && storedKey.value != "" {
        loaded := lib.keyFromPrivate(storedKey.value);
        if loaded.Some? {
          spendingKey := loaded;
        }
      }
      if loaded.None? {
        var text := ToHex(drawn);
        assert lib.keyFromPrivate(text) == Some(drawn);
        GenerateNewKey(drawn);
      }
    }

    /**
     * The meta-address effect: recomputed from the active key's public point. The zero key (a
     * keyfile of '0's imports it) has the point at infinity as its public key, and
     * `encodeCompressed` throws on it, so the meta-address is not set.
     */
    method RefreshMetaAddress(lib: Lib)
      requires lib.CodecValid()
      modifies this`metaAddr
      ensures spendingKey.None? || spendingKey == Some(0) ==> metaAddr == old(metaAddr)
      ensures spendingKey.Some? && spendingKey.value != 0 ==>
        metaAddr == Some(MetaAddress(lib, PublicKeyOf(spendingKey.value)))
    {
      if spendingKey.Some? && PublicKeyOf(spendingKey.value) != Infinity {
        var data := Compressed(lib.coords(PublicKeyOf(spendingKey.value)));
        var crc := lib.crc16(data);
        assert |crc| == 2;
        var addr := FrameMetaAddress(data, crc);
        assert addr == data + crc by {
          assert addr[..|data|] == data && addr[|data|..] == crc;
        }
        metaAddr := Some("H" + lib.base58Encode(addr));
      }
    }

    /**
     * `handleFile`: no file does nothing; a size other than 64 sets `loadError`; otherwise the
     * text is parsed as a private key, which on success replaces and stores the active key.
     */
    method HandleFile(lib: Lib, present: bool, size: nat, text: string)
      modifies this
      ensures !present ==>
        (spendingKey == old(spendingKey) && storedKey == old(storedKey) &&
         loadError == old(loadError) && loadSuccess == old(loadSuccess) && keySaved == old(keySaved))
      ensures present && size != KeyFileSize ==>
        (loadError && spendingKey == old(spendingKey) && storedKey == old(storedKey) &&
         loadSuccess == old(loadSuccess) && keySaved == old(keySaved))
      ensures present && size == KeyFileSize && lib.keyFromPrivate(text).None? ==>
        (loadError && spendingKey == old(spendingKey) && storedKey == old(storedKey) &&
         loadSuccess == old(loadSuccess) && keySaved == old(keySaved))
      ensures present && size == KeyFileSize && lib.keyFromPrivate(text).Some? ==>
        (spendingKey == lib.keyFromPrivate(text) && storedKey == Some(text) &&
         loadSuccess && keySaved && loadError == old(loadError))
      ensures present ==>
        spendingKey == (if KeyFileKey(lib, size, text).Some? then KeyFileKey(lib, size, text) else old(spendingKey))
      ensures metaAddr == old(metaAddr)
    {
      if !present {
        return;
      }
      if size != KeyFileSize {
        loadError := true;
        return;
      }
      var key := lib.keyFromPrivate(text);
      if key.Some? {
        spendingKey := key;
        storedKey := Some(text);
        loadSuccess := true;
        keySaved := true;
      } else {
        loadError := true;
      }
    }

    /**
     * The "Save key" buttons (shown only while a key is active): download the key's unpadded
     * `toString(16)` text and mark it saved.
     */
    method SaveKey() returns (text: Option<string>)
      modifies this`keySaved
      ensures spendingKey.None? ==> text.None? && keySaved == old(keySaved)
      ensures spendingKey.Some? ==> text == Some(SavedKeyText(spendingKey.value)) && keySaved
    {
      text := None;
      if spendingKey.Some? {
        text := Some(SavedKeyText(spendingKey.value));
        keySaved := true;
      }
    }

    /** The link the copy button writes to the clipboard. */
    function Link(): (link: string)
      reads this
      ensures link == "" <==> metaAddr.None? || metaAddr.value == ""
    {
      ShareLink(metaAddr)
    }
  }
}

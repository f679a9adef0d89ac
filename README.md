# Hazed stealth payments, modelled in Dafny

Hazed is a stealth-address wallet front end for EVM chains. Its three panes are modelled here.

- **Identity pane** (`hazedid.tsx`): the recipient holds a secp256k1 spending key. The pane persists the key as hex, loads it from a 64-byte keyfile, and publishes the key's *meta-address* ("Hazed ID"). The meta-address is `'H'` followed by base58 of the 33-byte compressed public key and its 2-byte crc16. The pane also builds a share link, `https://hazed.io/#<meta-address>`.
- **Send pane** (`send.tsx`):
  - validates an entered ID: prefix, base58, length and checksum, then point parsing;
  - strips a pasted share link;
  - draws an ephemeral key `e` and computes the ECDH shared secret `ss = x(e·PK)`;
  - derives the one-time address `addr(PK + keccak(ss)·G)` and a one-byte filter (the first byte of `ss`);
  - formats the `publishAndSend` arguments, and checks the amount against the balance.
- **Withdraw pane** (`withdraw.tsx`):
  - scans the registry's announcements in batches of 10, keeping a watermark;
  - for each announcement, rejects zero coordinates, unparsable keys and a wrong filter byte, then rederives the stealth address; a batch in which `derive` throws is dropped whole;
  - lists native-currency entries of at least 10^12 wei;
  - rebuilds the one-time private key `(sk + keccak(ss)) mod n`;
  - sweeps the balance less `gasLimit·gasPrice` to a target, removing the entry once the sweep is confirmed. A fee of 2^53 wei or more makes the fee log throw, so nothing is sent (see Findings).

How the model is built:

- **The curve group** (`group.dfy`) is represented exactly by discrete logarithms. secp256k1's group is cyclic of prime order `n`, so a point is `Point(log)` and point arithmetic is arithmetic mod `n`.
- **Code the panes call but do not contain** lives in `library.dfy`: elliptic's coordinates and key parsers, keccak256, crc16 and base58. It is a datatype of functions, `Lib`. `Lib.CurveValid`, `Lib.HashValid` and `Lib.CodecValid` list the only facts the proofs use about it. `consistency.dfy` exhibits a toy library that satisfies all of them (`Consistency.ToyLibValid`), so these assumptions are not contradictory.
- **JavaScript number formatting and parsing** is written out in `hex.dfy` and `bytes.dfy`. This covers `parseInt(_, 16)`, `toString(16)`, `padStart`, bn.js `toString(16, 64)` and `toArray`.
- **Component state** is modelled with classes: `HazedId.Identity`, `Send.SendForm` and `Withdraw.Scanner`. Their methods are the components' callbacks and effects.
- **Cross-pane properties** are in `protocol.dfy`:
  - the meta-address round-trips;
  - sender and receiver agree on the shared secret, filter byte and address;
  - a true match is always listed;
  - the rebuilt key controls the paid address.

## Model

| member | source | states |
|---|---|---|
| `Bytes.MinimalBigEndian` | frontend/src/components/withdraw.tsx:146 | `BN.toArray()` is non-empty and denotes n. Its first byte is 0 exactly for n = 0, which is then `[0]`. |
| `Bytes.ToBigEndian` | frontend/src/components/withdraw.tsx:213 | A fixed-width big-endian array has exactly w bytes, and it denotes n whenever n fits in w bytes. |
| `Hex.ToHex` | frontend/src/components/hazedid.tsx:44 | `toString(16)` gives at least one lower-case hex digit, and the digits denote n. A leading '0' occurs only for zero, and zero is exactly "0". |
| `Hex.PadStart` | frontend/src/components/send.tsx:140 | `padStart(w, '0')`: the length is the larger of w and the length of s, s is a suffix of the result, and everything before it is '0'. |
| `Hex.PadTo64` | frontend/src/components/send.tsx:64-65 | The padding of `toString(16, 64)`: the length is a multiple of 64, under 64 characters are added, s is a suffix, and the added characters are '0'. |
| `Hex.DigitPrefix` | frontend/src/components/withdraw.tsx:132-133 | parseInt's digit scan stops at the first non-hex character: a maximal run of hex digits. |
| `Hex.ParseInt16` | frontend/src/components/withdraw.tsx:132-133 | `parseInt(s, 16)` is NaN exactly when no hex digit follows the optional "0x"/"0X". A non-empty string of hex digits is read as its value. |
| `Hex.LaxDigit` | frontend/src/components/withdraw.tsx:148 | bn.js 4's hex digit reader gives a value below 16: the digit's value for a hex digit, and 8 for the 'x' of "0x". |
| `Hex.LaxValueOfPrefix` | frontend/src/components/withdraw.tsx:148 | bn.js 4 reads "0x" + s as 8·16^len(s) plus the value it reads for s. |
| `Hex.ToHexLength` | frontend/src/components/send.tsx:64-65 | A value below 16^k prints in at most k hex digits. |
| `Hex.ParseHexAfterPrefix` | frontend/src/components/withdraw.tsx:132-133 | `parseInt("0x" + s, 16)` reads back the value of every non-empty hex digit string s. |
| `Group.Mul` | frontend/src/components/send.tsx:126 | k·P: a multiple of n, or the point at infinity, gives the point at infinity; 1·P is P; k·G has logarithm k mod n. |
| `Group.Add` | frontend/src/components/withdraw.tsx:151 | P + Q: the point at infinity is neutral on both sides, and P plus its negation is the point at infinity. |
| `Group.PublicKeyOf` | frontend/src/components/hazedid.tsx:70 | `getPublic()` of k is the point at infinity exactly when k = 0. |
| `Group.MulCommutes` | frontend/src/components/send.tsx:126 | a·(b·P) = b·(a·P): the Diffie-Hellman identity behind `derive`. |
| `Group.PublicKeyOfSum` | frontend/src/components/withdraw.tsx:185-186 | ((a + b) mod n)·G = a·G + b·G. |
| `Library.Compressed` | frontend/src/components/hazedid.tsx:69-71 | `encodeCompressed('array')` is 33 bytes: the prefix byte is 2 for even y and 3 for odd y, and the other 32 are x big-endian whenever x is below 2^256. |
| `Library.Uncompressed` | frontend/src/components/withdraw.tsx:149-152 | `encode('array', false)` is 65 bytes: the prefix byte 4, then x in bytes 1-32 and y in bytes 33-64, each big-endian whenever below 2^256. |
| `Library.CoordHex` | frontend/src/components/send.tsx:64-65 | `toString(16, 64)` of a coordinate is lower-case hex denoting it, padded to a multiple of 64 digits, which is exactly 64 below 2^256. |
| `Library.UncompressedHex` | frontend/src/components/withdraw.tsx:139 | The hex `keyFromPublic` reads starts with "04". For field-element coordinates it is 130 characters, with x in the 64 after the prefix and y in the last 64. |
| `Library.CoordHexFormat` | frontend/src/components/send.tsx:64-65 | A coordinate below 2^256 prints as exactly 64 lower-case hex digits denoting it, and `parseInt` reads it back after "0x". |
| `Stealth.SharedSecret` | frontend/src/components/send.tsx:126 | The shared-secret bytes are non-empty and denote the x coordinate of k·P. |
| `Stealth.BytesHex` | frontend/src/components/withdraw.tsx:148 | ethers' hex text of the digest, without "0x": two lower-case hex digits per byte, reading as the digest's big-endian value. |
| `Stealth.Blinder` | frontend/src/components/withdraw.tsx:148 | `keyFromPrivate` of the "0x"-prefixed digest text reads the 'x' as the hex digit 8 (bn.js 4), so the blinding scalar is (8·256^len + digest) mod n for a digest of len bytes. |
| `Stealth.StealthPublic` | frontend/src/components/withdraw.tsx:148-152 | The one-time point PK + h·G is the public key of (log PK + h) mod n, and is PK itself when h = 0. |
| `Stealth.AddressOf` | frontend/src/components/withdraw.tsx:154-157 | The address is 20 bytes: the last 20 of the keccak256 digest of the uncompressed key without its format byte. |
| `Stealth.StealthPrivateKey` | frontend/src/components/withdraw.tsx:185-186 | The public key of (sk + h) mod n is sk·G + h·G. |
| `Stealth.SharedSecretAgrees` | frontend/src/components/withdraw.tsx:143 | The sender's `ephKey.derive(PK)` and the recipient's `spendingKey.derive(E)` give the same bytes. |
| `Stealth.StealthKeyControlsAddress` | frontend/src/components/withdraw.tsx:179-189 | The rebuilt private key's public point, and so its address, is the sender's stealth point and address. |
| `HazedId.MetaAddressBytes` | frontend/src/components/hazedid.tsx:69-76 | The framed bytes start with the 33-byte compressed key, and the rest is the crc16 of those 33 bytes. |
| `HazedId.MetaAddress` | frontend/src/components/hazedid.tsx:78 | The meta-address starts with 'H', and base58 decoding the rest gives back the framed bytes. |
| `HazedId.MetaAddressLayout` | frontend/src/components/hazedid.tsx:69-78 | The meta-address bytes are 35: the 33 compressed-key bytes, then their crc16. The text is 'H' followed by their base58. |
| `HazedId.FrameMetaAddress` | frontend/src/components/hazedid.tsx:74-76 | The `Uint8Array(len + 2)` framing holds the data bytes, then the crc bytes at offset len, with zeros after them. |
| `HazedId.ShareLink` | frontend/src/components/hazedid.tsx:110 | The copied text is "" exactly when there is no (or an empty) meta-address. Otherwise it is the link prefix followed by the meta-address. |
| `HazedId.KeyFileKey` | frontend/src/components/hazedid.tsx:84-91 | A keyfile whose size is not 64 gives no key. A 64-byte file of hex digits gives its value mod n. |
| `HazedId.SavedKeyText` | frontend/src/components/hazedid.tsx:178-181 | The downloaded text denotes the key, and is shorter than 64 characters for every key below 16^63. |
| `HazedId.ShortSavedKeyRejected` | frontend/src/components/hazedid.tsx:84-87 | A keyfile downloaded for a key below 16^63 is refused by the import's size check. |
| `HazedId.PaddedKeyText` | frontend/src/components/hazedid.tsx:178-181 | The corrected download of the Findings row (`toString(16, 64)`, not what the source writes): exactly 64 lower-case hex digits denoting the key. |
| `HazedId.PaddedKeyFileReloads` | frontend/src/components/hazedid.tsx:81-92 | Every padded keyfile imports back to the key it was saved from. |
| `HazedId.Identity.constructor` | frontend/src/components/hazedid.tsx:25-39 | The initial state: no key yet, the stored key as local storage holds it, no errors, and `keySaved` set. |
| `HazedId.Identity.GenerateNewKey` | frontend/src/components/hazedid.tsx:41-47 | The drawn key becomes active and is stored as `toString(16)`. `keySaved` and `loadError` are cleared. |
| `HazedId.Identity.LoadOrGenerate` | frontend/src/components/hazedid.tsx:49-64 | A non-empty stored key that parses becomes the active key; otherwise a new one is generated. Afterwards a key is always active, and the stored text reloads to exactly that key. |
| `HazedId.Identity.RefreshMetaAddress` | frontend/src/components/hazedid.tsx:66-79 | With an active non-zero key, the meta-address is 'H' + base58(compressed key ++ crc16), built through the array framing. Without a key, or with the zero key (whose public point is the point at infinity, which `encodeCompressed` throws on), it is unchanged. |
| `HazedId.Identity.HandleFile` | frontend/src/components/hazedid.tsx:81-105 | No file: nothing changes. A size other than 64: `loadError`. Text that does not parse: `loadError`. A parsing key: it replaces and stores the active key, and sets `loadSuccess` and `keySaved`. A refused file leaves the key, the stored text, `loadSuccess` and `keySaved` as they were, so the active key afterwards is the one `KeyFileKey` gives, if any. |
| `HazedId.Identity.SaveKey` | frontend/src/components/hazedid.tsx:172-183 | With an active key, the download is its unpadded `toString(16)` text (`SavedKeyText`) and `keySaved` is set. Without one, there is nothing to save and nothing changes. |
| `HazedId.Identity.Link` | frontend/src/components/hazedid.tsx:107-120 | The clipboard text is empty exactly when there is no meta-address. |
| `Send.CrcMatches` | frontend/src/components/send.tsx:113 | The element-wise `crc.every` holds exactly when the crc is empty or sits in full in the decoded bytes at offset 33; a crc running past the end fails. |
| `Send.CrcMatchesIsTailEquality` | frontend/src/components/send.tsx:111-113 | For 35 decoded bytes, the element-wise `crc.every` check is equality of the 2-byte crc with bytes 33-34. |
| `Send.DecodeMetaAddress` | frontend/src/components/send.tsx:88-117 | Each refusal holds exactly under its condition, in order: empty input, no 'H', base58 failure, decoded length other than 35. An accepted ID yields 33 bytes whose crc16 completes the decoded text. |
| `Send.DecodeAcceptsExactly` | frontend/src/components/send.tsx:88-117 | An ID is accepted with key bytes `key` if and only if it is 'H' followed by base58 text of `key ++ crc16(key)`. |
| `Send.FilterHex` | frontend/src/components/send.tsx:140 | The filter text is 2 lower-case hex digits, and `parseInt("0x" + s, 16)` reads the byte back. |
| `Send.DeriveForRecipient` | frontend/src/components/send.tsx:122-140 | The published ephemeral key is e·G. The 2-digit filter reads back as the first shared-secret byte. The address paid is that of the one-time key (log PK + h) mod n, and it is 20 bytes. |
| `Send.DeriveFromId` | frontend/src/components/send.tsx:88-147 | A derived payment comes from a decoded ID whose key bytes parse, and publishes e·G as its ephemeral key. |
| `Send.DeriveFromIdOutcome` | frontend/src/components/send.tsx:119-147 | A refused ID propagates its error. The point-parse failure occurs exactly when a decoded key does not parse, and a payment is derived exactly when it parses. That payment is the one for the parsed key: e·G published, a filter reading back as the first shared-secret byte with that key, and the address of the one-time key (log key + h) mod n paid. |
| `Send.Publish` | frontend/src/components/send.tsx:60-71 | x and y are "0x" followed by the coordinate's `toString(16, 64)` text: lower-case hex digits, 64 of them on the curve, that parseInt reads back as the ephemeral coordinates. The filter argument is "0x" + filter, and the payment goes to the derived address. |
| `Send.StripLink` | frontend/src/components/send.tsx:153-154 | The result is a suffix of the input, and it differs from the input exactly when the input starts with the link prefix. |
| `Send.StripShareLink` | frontend/src/components/send.tsx:150-158 | Stripping a share link gives back the meta-address it was built from. |
| `Send.SendForm.constructor` | frontend/src/components/send.tsx:39-49 | Initial state: the zero address, filter text "0x00", no ID, no errors, amount 0. |
| `Send.SendForm.LoadFromHash` | frontend/src/components/send.tsx:164-168 | A location hash longer than 20 characters becomes the ID without its '#'. Otherwise the ID is unchanged. |
| `Send.SendForm.EnterId` | frontend/src/components/send.tsx:77-81 | The input becomes the ID, and the ID error is cleared. |
| `Send.SendForm.GenerateNewEphKey` | frontend/src/components/send.tsx:88-148 | On success, the ephemeral key, address and filter are those of `DeriveFromId`. On refusal, the error flag is set (except for an empty ID) and nothing else changes. |
| `Send.SendForm.OnIdChanged` | frontend/src/components/send.tsx:150-158 | An empty ID does nothing. A share link is replaced by its stripped form, with nothing derived. Any other ID is derived from: on success the ephemeral key, address and filter are those of `DeriveFromId`; on refusal they stay, and the error flag is set unless the ID was missing. The ID itself is then unchanged. |
| `Send.SendForm.EnterAmount` | frontend/src/components/send.tsx:83-86 | Typing an amount clears the amount error. |
| `Send.SendForm.CheckAmount` | frontend/src/components/send.tsx:170-183 | Unparsable text is an error. A parsed amount is kept, and it is an error when it is at least the known balance. |
| `Withdraw.Drop2` | frontend/src/components/withdraw.tsx:139 | `slice(2)` drops exactly the first two characters: the input is those two followed by the result. A shorter string gives the empty string. |
| `Withdraw.EphemeralKeyHex` | frontend/src/components/withdraw.tsx:139 | The text handed to `keyFromPublic` is "04", then x without its first two characters, then y without its first two. |
| `Withdraw.MatchOne` | frontend/src/components/withdraw.tsx:129-171 | A zero coordinate, an unparsable ephemeral key, a throwing `derive` or a throwing `encode` (`Rejects`) gives no entry. A listed entry is claimable (native token, at least 10^12 wei) and carries the announcement's coordinates, its token and the fetched balance. Its filter byte is the first shared-secret byte, and its address is the rederived stealth address. Conversely, non-zero coordinates, a parsing key, no throw, a matching filter byte, a native token and a balance of at least 10^12 always list the entry. |
| `Withdraw.Map` | frontend/src/components/withdraw.tsx:129 | `map` keeps the length and puts f of element i at position i. |
| `Withdraw.Somes` | frontend/src/components/withdraw.tsx:174 | The null filter keeps at most every element. It keeps all of them exactly when every result is present, and none exactly when every result is null. |
| `Withdraw.Matches` | frontend/src/components/withdraw.tsx:128-174 | The non-null results of a batch: at most one per announcement, and all claimable. |
| `Withdraw.MatchesAppend` | frontend/src/components/withdraw.tsx:176 | The matches of two consecutive batches are the first batch's followed by the second's. |
| `Withdraw.MatchesMembership` | frontend/src/components/withdraw.tsx:174 | An entry is listed if and only if some announcement of the batch yields it. |
| `Withdraw.CollectSomes` | frontend/src/components/withdraw.tsx:128-174 | The loop over the batch, keeping the non-null results in order, computes exactly the filtered map. With the matcher as the callback, that is `Matches`. |
| `Withdraw.RemoveAddress` | frontend/src/components/withdraw.tsx:254 | Every entry with the swept address is removed, and every other entry keeps its number of occurrences; so an entry survives if and only if it was listed with another address. |
| `Withdraw.RemoveAddressAppend` | frontend/src/components/withdraw.tsx:254 | The filter works entry by entry: removing from two concatenated lists is removing from each, in their order. |
| `Withdraw.NextIndex` | frontend/src/components/withdraw.tsx:97-101 | The watermark never moves back and never moves by more than 10. While behind the total, it strictly advances without passing it. Otherwise it stays put. |
| `Withdraw.Watermark` | frontend/src/components/withdraw.tsx:97-101 | After k batches, the watermark is at most the total and at most 10k. |
| `Withdraw.WatermarkAfter` | frontend/src/components/withdraw.tsx:95-101 | After k batches, the watermark is min(count, 10k): batches are contiguous and end at the total. |
| `Withdraw.BuildPrivateKey` | frontend/src/components/withdraw.tsx:179-189 | A key is built exactly when the ephemeral key parses and `derive` does not throw on it, and its public point is the stealth point sk·G + h·G. |
| `Withdraw.ClaimKeyControlsAddress` | frontend/src/components/withdraw.tsx:179-189 | For every listed entry, the rebuilt key controls exactly that entry's address. |
| `Withdraw.IntendedSweep` | frontend/src/components/withdraw.tsx:210-235 | The corrected sweep of the Findings row: for every fee, a transaction signed by the key from the entry's address to the target, carrying balance − gasLimit·gasPrice. Only the zero key, which `new ethers.Wallet` refuses, sends nothing. |
| `Withdraw.LoggedSweep` | frontend/src/components/withdraw.tsx:210-235 | The sweep as written: the intended sweep when the fee is below 2^53 wei, and nothing from 2^53 wei on, where `fee.toNumber()` throws. |
| `Withdraw.FeeLogFault` | frontend/src/components/withdraw.tsx:222-226 | At 21000 gas and 430 gwei the written sweep sends nothing, while the intended sweep goes out. |
| `Withdraw.Scanner.constructor` | frontend/src/components/withdraw.tsx:35-55 | Initially there is no count, watermark 0 and an empty list, and the invariant holds. |
| `Withdraw.Scanner.Reset` | frontend/src/components/withdraw.tsx:57-60 | A key or chain change empties the list and returns the watermark to 0 from any state, which re-establishes the invariant. |
| `Withdraw.Scanner.UpdateCount` | frontend/src/components/withdraw.tsx:75-88 | The total is replaced. The list stays claimable, and the watermark bound holds exactly when the watermark is within the new total. |
| `Withdraw.Scanner.FindMatch` | frontend/src/components/withdraw.tsx:125-177 | With a key and a connection, the batch's matches are appended after the listed entries. Without them, or when `derive` throws for some announcement so that `Promise.all` rejects, nothing changes. The list stays claimable. |
| `Withdraw.Scanner.Advance` | frontend/src/components/withdraw.tsx:97-101 | The watermark becomes `NextIndex` of the total and the old watermark, keeping the invariant. |
| `Withdraw.Scanner.ScanStep` | frontend/src/components/withdraw.tsx:90-105 | With a non-zero total, a key, a connection and a batch that does not reject, the batch is matched and the watermark advanced. Otherwise nothing changes: a rejected batch neither lists entries nor advances the watermark. |
| `Withdraw.Scanner.Withdraw` | frontend/src/components/withdraw.tsx:191-261 | A transaction is built exactly when there is a key, the one-time key is rebuilt, it is non-zero, and the fee is below 2^53 wei; a fee of 2^53 wei or more sends nothing and leaves the list unchanged. A transaction is signed by the rebuilt key, goes from the entry's address to the target, and carries balance − gasLimit·gasPrice. The entry is removed only once confirmed. |
| `Protocol.MetaAddressRoundTrip` | frontend/src/components/hazedid.tsx:66-79 | The send pane accepts every meta-address the identity pane writes, and returns its compressed key bytes. |
| `Protocol.MetaAddressIsNotLink` | frontend/src/components/send.tsx:153-157 | A meta-address is not mistaken for a share link. |
| `Protocol.SenderReachesRecipientKey` | frontend/src/components/send.tsx:119-138 | Entering the meta-address of a key derives the payment for that very key. |
| `Protocol.ReceiverReadsEphemeralKey` | frontend/src/components/withdraw.tsx:139 | `'04' + x.slice(2) + y.slice(2)` over the published arguments is the 130-character uncompressed hex of the ephemeral point. |
| `Protocol.FilterByteAgrees` | frontend/src/components/withdraw.tsx:145-146 | The published filter byte parses to the first shared-secret byte the true recipient computes (no false negative). |
| `Protocol.StealthAddressAgrees` | frontend/src/components/withdraw.tsx:143-157 | Sender and recipient compute the same stealth address. |
| `Protocol.TrueMatchIsFound` | frontend/src/components/withdraw.tsx:125-171 | When neither the owner's `derive` nor `encode` throws (sk·e·G and the stealth point are not the point at infinity), an announcement of a payment to sk·G, scanned by the owner of sk, is listed at the sender's address exactly when it is native and not dust. |
| `Protocol.ReceiverKeyOpensPayment` | frontend/src/components/withdraw.tsx:179-189 | When sk·e·G is not the point at infinity, from the published coordinates the owner rebuilds a key that controls the paid address. |
| `Protocol.EndToEnd` | frontend/src/components/send.tsx:119-147 | The whole flow, when sk·e·G and the stealth point are not the point at infinity: from the meta-address of sk, a payment is derived. If not dust, its announcement is listed at the paid address, and the rebuilt key controls that address. |

## Left out

- Chain and wallet I/O is left out: `fetchBalance`, `prepareSendTransaction`, `sendTransaction`, `waitForTransaction`, `getGasPrice`, the registry reads and `publishAndSend` itself. Balances, gas values and the confirmation outcome are parameters (`balanceOf`, `balance`, `gasLimit`, `gasPrice`, `confirmed`), and a registry batch is an input sequence.
- Timers, the debounce hook and the 10-second count polling are left out. The 750 ms delay before advancing the watermark is left out; `Advance` is the delayed update itself. `loadSuccess` and the copy flag are not reset after 1.5 s.
- Randomness is a parameter: `ec.genKeyPair()` becomes the `drawn` / `e` scalars.
- Local storage, the browser side of the keyfile download and upload, and the clipboard are left out. Their values are parameters (the stored key, the uploaded file's size and text) or results (the downloaded text).
- UI-only state is left out: modal visibility, the `opened` toggle, copy indicators, sending and pending flags, the withdraw error and success messages, and target-address validation.
- `getAddress` (EIP-55 checksum casing) is left out. Addresses are their 20 raw bytes.
- `parseEther`/`formatEther` are left out. `CheckAmount` takes the parsed amount (None when parsing throws).
- `parseInt` whitespace, signs and double-precision rounding are not modelled. Only the zero test on coordinates and the byte comparison use it.
- `Stealth.Blinder` reads the "0x"-prefixed digest text the way bn.js 4 (the version elliptic depends on) does: its hex parser takes every character other than a-f and A-F as `(c - 48) & 0xf`, so 'x' is the digit 8. bn.js 5 would throw on the 'x' instead; which bn.js the build resolves is not part of this model. Sender and receiver call the same function, so they agree either way.
- Elliptic's point coordinates, its key parsers, keccak256, crc16 and base58 are foreign code. They are fields of `Library.Lib`, constrained only by `Lib.CurveValid`, `Lib.HashValid` and `Lib.CodecValid`.
- `Withdraw.Scanner.FindMatch` runs `Promise.all` sequentially. The model appends to the current list, whereas the source appends to the list its closure captured. Overlapping asynchronous runs, and the lost updates they can cause, are not modelled.
- `Withdraw.Scanner.Reset` runs as its own step, and `Withdraw.Scanner.Advance` reads the state the reset left. In the source the scan effect (withdraw.tsx:90-105) can run in the same commit as the reset effect (57-60), with the entries and watermark its closure captured before the reset. Its `setKeyAddrs([...keyAddrs, ...])` (176) can then restore the previous key's entries, and its `setKeysIndex` (100) the previous watermark, undoing the reset. That interleaving is not modelled.
- `Withdraw.MatchOne` (and so `Withdraw.Scanner.FindMatch` and `Withdraw.Scanner.ScanStep`) sees only points of the group. elliptic's `keyFromPublic` does not check that a point lies on the curve, and `derive` (withdraw.tsx:143, outside the `try`) asserts that it does in elliptic 6.5.4 and later. An announcement with an off-curve point then rejects the whole `Promise.all`: the batch is lost and the watermark never advances past it. The model cannot represent such a point, so this stall is not modelled; it also depends on the elliptic version. The same stall from a `derive` that lands on the point at infinity, as with the zero spending key, is modelled (`Withdraw.Rejects`, `Withdraw.BatchRejects`), and so is the stall from `encode('array', false)` (withdraw.tsx:149-152) when the stealth point sk·G + h·G is the point at infinity, that is when sk + h ≡ 0 mod n. `Withdraw.BuildPrivateKey` (180) calls `derive` the same way.
- `Withdraw.Scanner.Withdraw` has no insufficient-balance guard, because the source has none. When the fee exceeds the balance, the modelled sweep value is negative. Whatever the wallet does with such a request is outside the model.
- `Protocol.TrueMatchIsFound` assumes both ephemeral coordinates are non-zero. The source drops an announcement whose parsed coordinate is 0, so this assumption is needed.
- `Protocol.TrueMatchIsFound`, `Protocol.ReceiverKeyOpensPayment` and `Protocol.EndToEnd` assume that sk·e·G is not the point at infinity, since otherwise the owner's `derive` throws. Because n is prime, this holds for every non-zero sk and e, but n's primality is not proved here, so the assumption is stated as it is. `Protocol.TrueMatchIsFound` and `Protocol.EndToEnd` also assume that the stealth point sk·G + h·G is not the point at infinity, since otherwise the owner's `encode` throws and the batch is rejected; for a hash-derived h this happens with negligible probability, and it cannot be excluded by a proof.
- `Send.DeriveFromId` states in its own contract only where a derived payment comes from (a decoded ID whose key bytes parse) and its ephemeral key. The rest of the payment is stated by `Send.DeriveFromIdOutcome`, because carrying it in the function's contract makes the proofs of its callers in `Send.SendForm` too costly. The sender's `derive` (send.tsx:126) would throw only if e·P were the point at infinity. `genKeyPair` draws e in [1, n−1] and a parsed compressed key is never the point at infinity, so with n prime it does not throw, and the model has no such branch.
- `Send.DeriveForRecipient` (and so `Send.DeriveFromId` and `Send.SendForm.GenerateNewEphKey`) does not model the throw of `encode('array', false)` (send.tsx:128-132) when the stealth point P + h·G is the point at infinity, that is when log P + h ≡ 0 mod n. The source then lands in the `catch`: the ephemeral key is already set and the error flag is raised, while the model derives the address of the point at infinity. A hash-derived h hits this with negligible probability.
- `HazedId.Identity.RefreshMetaAddress` leaves the meta-address unset for the zero key, which a keyfile of '0's imports (`keyFromPrivate` accepts 0). The error the effect then throws, and what React does with it, are not modelled.
- `Withdraw.Scanner.Withdraw`: a `buildPrivateKey` that throws (outside the `try`) leaves the returned promise rejected and the sending flag set. The model only records that nothing is sent and nothing is removed.
- `HazedId.FrameMetaAddress` requires at most 2 checksum bytes, because `Uint8Array.set` throws a RangeError past the end of the array.
- The registry's own semantics (`getNextKeys`, `totalKeys`) and the token value sent with `publishAndSend` are left out. Non-native tokens are only rejected by the scanner.
- The `isSuccess` effect (send.tsx:160-162) only calls `generateNewEphKey` again. It is the same `Send.SendForm.GenerateNewEphKey` with a new drawn scalar.

## Findings

| source | as written | input that shows it | evidently intended | confidence | as-written member | corrected member |
|---|---|---|---|---|---|---|
| frontend/src/components/withdraw.tsx:222-226 | Inside the `try`, the fee is logged with `fee.toNumber()`, which throws for values of 2^53 or more. The `catch` then reports an error, and no transaction is sent. | 21000 gas at 430 gwei: the fee is 9.03·10^15 wei, above 2^53 ≈ 9.007·10^15, so the sweep never goes out. | The fee logged with `toString()` like gasLimit and gasPrice on the same line, so that a sweep is sent for every fee. | not executed | `Withdraw.FeeLogFault` | `Withdraw.IntendedSweep` |
| frontend/src/components/hazedid.tsx:178-181 | The "Save key" buttons (also 259-264) download `getPrivate().toString(16)`, the shortest hex form of the key, while `handleFile` (84-87) refuses any file whose size is not 64. | Any key below 16^63, about one generated key in 16. For example k = 1 is saved as the 1-byte file "1", which the import refuses. | The key saved as 64 hex digits (`toString(16, 64)`), so that every downloaded keyfile imports back to its key. | not executed | `HazedId.ShortSavedKeyRejected` | `HazedId.PaddedKeyFileReloads` |

# cktap host helpers in Dafny

A model of the host-side helpers that authenticate a Coldcard/Opendime
"cktap" smart card (`utils.js`, a JavaScript port of the Python cktap
helpers). They cover four concerns:

- **Derivation paths** (`path_codec.dfy`, module `PathCodec`). `path2str`
  writes a list of BIP-32 indices as `m/84h/0/1`: bit 31 (`HARDENED`) is
  removed from each index and shown as an `h` suffix. `str2path` reads that
  text back. It skips `m` and empty tokens, and a trailing `p`, `'` or `h`
  sets the hardened bit.
- **Byte helpers** (`byte_helpers.dfy`, module `ByteHelpers`). `xor_bytes`
  XORs two byte strings of equal length. `BytesArray` lists the character
  codes of a string.
- **Host nonces** (`nonce.dfy`, module `Nonce`). `randomStringGenerator`
  builds an alphanumeric string. `pick_nonce` tries up to three candidates
  and keeps the first that is not one repeated character. Each value of
  `Math.random()` is an injected draw in [0, 1).
- **Challenge-response checks** (`challenge.dfy`, module `Challenge`).
  `recover_address` and `verify_master_pubkey` rebuild the message
  `"OPENDIME" + card nonce + host nonce + payload`. They reject unless its
  length is `8 + CARD_NONCE_SIZE + USER_NONCE_SIZE + 32`, verify the card's
  signature over its hash, and (for `recover_address`) compare the rendered
  address with the card's claimed `prefix_suffix`. `render_address` picks
  the `tb`/`bc` human-readable part.

The signature check, hashing, key derivation, hash160 and Bech32 encoding
are foreign calls. They are the function-valued fields of `Primitives`, and
no property of them is assumed, except in two lemmas that state their
assumption as an explicit hypothesis. `RenderedNetworkPrefix` assumes
`PrefixesHrp`: the encoder writes the human-readable part and `1` first.
`RenderPrivateKey` assumes that the public key `privToPub` gives for a
32-byte private key is not itself 32 bytes long (a compressed public key
has 33), so that `render_address` does not convert it a second time. Each
warn-and-return of the source is a `Failure` naming the gate that rejected
(`Rejection`).

The model follows the Python semantics that the JavaScript was ported
from. Where `utils.js` as written differs, the model follows that intent:

- `str2path` never returns `rv` (utils.js:60-61). The model returns the
  decoded list.
- `i[-1]` and `rv[-1]` are `undefined` in JavaScript (utils.js:33, 57).
  The model reads them as the last character.
- `i[-1] in "p'h"` throws a `TypeError` in JavaScript, because `in` needs
  an object on its right (utils.js:57). As written, every token that is
  not skipped throws. The model tests whether the last character is one of
  `p`, `'` and `h`.
- A `Set` has no `.length` (utils.js:33). The model uses the number of
  distinct characters.
- `status_resp.get`, `expect.find`, `startswith` and `endswith` are not
  JavaScript methods (utils.js:80, 105-113). The model uses Python's
  `dict.get` with a false default, `str.find` (which gives -1 when there is
  no `_`), `str.startswith` and `str.endswith`.
- At utils.js:89 an array concatenated to a string is rendered as
  comma-separated numbers. A 32-character printable ASCII slot then adds at
  least 95 characters, so with nonces of the stated sizes the length gate
  at utils.js:90 rejects every 32-character slot as written. It accepts
  instead a slot whose rendering is 32 characters long, such as the
  11-character `ABCDEFGHIJK` (`65,66,...,75`). The model concatenates the
  character codes.
- Decoded path indices are unbounded naturals with Python's `|`.
  JavaScript's `|` gives a signed 32-bit result, so every hardened token
  decodes to a negative number (`84h` to -2147483564). Even with the
  missing `return`s added, the JavaScript round trip would fail on every
  hardened index.
- utils.js:159 calls `bech32.encode(HRP, [hash160(pubkey)], 0)`. It passes
  a one-element array as the data and 0 as the third argument (a length
  limit in the `bech32` package). The call the comment at utils.js:158
  gives, `bech32.encode(HRP, 0, hash160(pubkey))`, has witness version 0
  and the hash as the program. `RenderAddress` models that call.

Three discrepancies are modelled both as written and as intended under
"## Findings": the leading space at utils.js:20, the acceptance test at
utils.js:33 and the missing `return` at utils.js:42-44. The others are only
described here, and the model follows the intent.

`ADDR_TRIM`, `CARD_NONCE_SIZE` and `USER_NONCE_SIZE` come from
`constants.js`, which is not part of this model. Both nonce sizes are taken
as 16, the cktap protocol's values. `ADDR_TRIM` is a boolean parameter
`addrTrim`, and the rule `(|left| == |right|) == addrTrim` is kept exactly
as written at utils.js:114. Under JavaScript's `==` that comparison can
hold only when `ADDR_TRIM` is a boolean or the number 0 or 1. Any other
value makes the written test always fail, and `recover_address` would then
reject every response.

## Model

| member | source | states |
|---|---|---|
| PathCodec.SetHardened | utils.js:57 | the bitwise OR of `n` and `HARDENED` has bit 31 set, keeps the lower 31 bits and adds at most `HARDENED` |
| PathCodec.Decimal | utils.js:43 | `String(n)` is non-empty canonical decimal text (no leading zero) whose value is `n` |
| PathCodec.ParseIndex | utils.js:57-58 | the integer parse of a token succeeds exactly on decimal text |
| PathCodec.Component | utils.js:42-44 | a component is non-empty, is not `m` and has no `/`; it ends in `h` exactly when the hardened bit is set; and it parses back to the index |
| PathCodec.Path2Str | utils.js:39-46 | the text starts with `m`, and is `m` alone exactly for the empty path; `Path2StrShape` and `RoundTrip` state its components |
| PathCodec.Kept | utils.js:54-55 | the tokens kept by the loop are exactly the tokens other than `m` and empty ones |
| PathCodec.Split | utils.js:52 | `split("/")` gives at least one token and no token holds a `/` |
| PathCodec.ParseToken | utils.js:57-58 | a token ending in `p`, `'` or `h` parses iff the rest is decimal text, and the index then has bit 31 set; any other token parses iff it is decimal text |
| PathCodec.DecodeTokens | utils.js:53-60 | the loop over the tokens as a fold of one `Step` per token; `DecodeTokensMeaning` states what it computes |
| PathCodec.DecodePath | utils.js:52-60 | what `str2path` gives for a text; `RoundTrip`, `LeadingSlashIgnored` and `TrailingSlashIgnored` state its properties |
| PathCodec.SplitJoin | utils.js:45 | splitting a `/`-join of slash-free parts gives the parts back |
| PathCodec.JoinSplit | utils.js:52 | joining the tokens of a split with `/` gives the text back |
| PathCodec.Path2StrShape | utils.js:39-46 | `path2str` output is `m` then exactly one `/`-separated component per index, in order |
| PathCodec.DecodeTokensMeaning | utils.js:53-60 | `str2path` succeeds iff every kept token parses; it then gives one index per kept token, in order, each the parse of its token |
| PathCodec.Str2Path | utils.js:48-61 | the loop that pushes into `rv` computes exactly the decoded path, failing at the first token that does not parse |
| PathCodec.RoundTrip | utils.js:39-61 | `str2path(path2str(p)) == p` for every list of 32-bit indices |
| PathCodec.LeadingSlashIgnored | utils.js:52-55 | a leading `/` does not change the decoded path |
| PathCodec.TrailingSlashIgnored | utils.js:52-55 | a trailing `/` does not change the decoded path |
| PathCodec.Path2StrAsWritten | utils.js:42-45 | as written, `path2str` of any path is `m` followed by one `/` per index, with no digits |
| PathCodec.Path2StrAsWrittenLosesIndices | utils.js:42-44 | the written `path2str` turns `[84]` into `m/`, which decodes to the empty path, while the corrected one round-trips |
| ByteHelpers.XorBytes | utils.js:9-14 | a result exists iff the lengths are equal; it has that length and byte `i` is `a[i] ^ b[i]` |
| ByteHelpers.XorUndoes | utils.js:9-14 | `xor_bytes(xor_bytes(a, b), b) == a` |
| ByteHelpers.XorCommutes | utils.js:12 | `xor_bytes(a, b) == xor_bytes(b, a)`, including the no-result case |
| ByteHelpers.CharCodes | utils.js:67-74 | one code per character, code `i` being that of character `i` |
| ByteHelpers.CharCodesInjective | utils.js:67-74 | different strings have different code lists |
| ByteHelpers.BytesArray | utils.js:67-74 | the appending loop yields the codes of every character of the string, in order |
| Nonce.CharOfDraw | utils.js:23 | every draw in [0, 1) picks a character of the alphabet |
| Nonce.CandidateOf | utils.js:22-24 | the candidate has one character per draw, each a character of the alphabet |
| Nonce.RandomString | utils.js:17-26 | the generated text has the requested length, one alphabet character per draw |
| Nonce.RandomStringAsWritten | utils.js:17-26 | as written, the text is one character longer than requested and starts with a space |
| Nonce.Acceptable | utils.js:32-33 | the intended acceptance test; `AcceptableIffNotRepeated` states that it rejects exactly one repeated character |
| Nonce.AcceptableIffNotRepeated | utils.js:32-33 | a candidate passes the acceptance test exactly when it is not one repeated character (the empty text is both rejected and vacuously repeated) |
| Nonce.FirstAcceptable | utils.js:30-34 | a chosen nonce is one of the candidates and passes the test; `FirstAcceptableMeaning` states that it is the first such |
| Nonce.FirstAcceptableMeaning | utils.js:30-34 | the retry loop's choice exists iff some candidate is acceptable; it is then an acceptable candidate and every earlier candidate was rejected |
| Nonce.PickNonce | utils.js:28-35 | the loop returns the first acceptable one of the three candidates, or nothing; a returned nonce passes the test and has `USER_NONCE_SIZE` alphabet characters |
| Nonce.AcceptedAsWritten | utils.js:33 | the written test reduces to non-emptiness; `AcceptedAsWrittenLetsDegenerateThrough` shows what it lets through |
| Nonce.AcceptedAsWrittenLetsDegenerateThrough | utils.js:33 | the written test accepts `AAAAAAAAAAAAAAAA`, which the intended test rejects |
| Challenge.ChallengeMessage | utils.js:88-89 | the message is 8 plus the lengths of its parts long and starts with the `OPENDIME` tag |
| Challenge.MessageDeterminesParts | utils.js:134 | with nonces of fixed length, equal messages have equal card nonces, host nonces and payloads |
| Challenge.FreshNonceFreshMessage | utils.js:88-89 | two different host nonces of the same length make the card sign two different messages |
| Challenge.RecoveryLengthGate | utils.js:88-93 | with nonces of the protocol sizes, the length gate passes exactly when the slot text has 32 characters |
| Challenge.Hrp | utils.js:156 | the human-readable part has two characters and is `tb` exactly on testnet |
| Challenge.RenderAddress | utils.js:150-160 | a 32-byte input is converted to its public key, and the address is encoded under `Hrp(testnet)`; `RenderPrivateKey` and `RenderedNetworkPrefix` state these |
| Challenge.RenderedNetworkPrefix | utils.js:150-160 | for an encoder that writes `hrp1` first, testnet addresses start with `tb1`, mainnet ones with `bc1`, and the two never coincide |
| Challenge.RenderPrivateKey | utils.js:152-154 | a 32-byte input renders as the address of its public key |
| Challenge.FindUnderscore | utils.js:105-106 | the result is -1 iff there is no `_`, and otherwise the index of the first `_` |
| Challenge.ClaimParts | utils.js:104-106 | the claim is `left + "_" + right` with no `_` in `left`; with no `_`, `left` is all but the last character and `right` the whole claim (both empty for an empty claim) |
| Challenge.ClaimPartsOf | utils.js:104-106 | a claim `left_right` with no `_` in `left` splits into exactly `left` and `right` |
| Challenge.AddressMatches | utils.js:110-115 | the counterfeiting check against the card's claim; `AddressMatchesClaim` states it for a claim `left_right` |
| Challenge.AddressMatchesClaim | utils.js:110-115 | against a claim `left_right`, an address passes iff it starts with `left`, ends with `right` and the equal-length test agrees with `ADDR_TRIM` |
| Challenge.RecoveryMessage | utils.js:85-89 | the message is 8 plus the card nonce, the host nonce and the slot's characters long, and holds the host nonce right after the card nonce |
| Challenge.RecoverAddress | utils.js:76-122 | a TAPSIGNER card or a wrong-length message is rejected before any signature check; a bad signature is only reported once those gates passed; success holds iff every gate passes and returns the card's `pubkey` with its rendered address |
| Challenge.RecoverRejectsBeforeCrypto | utils.js:80-93 | on a TAPSIGNER card or a malformed response, the result is a rejection that does not depend on any primitive |
| Challenge.ForgedAddressRejected | utils.js:108-119 | a valid signature with a non-matching address is still rejected, as an address mismatch |
| Challenge.VerifyMasterPubkey | utils.js:130-148 | a wrong-length message is rejected before the signature check; success holds iff length and signature pass, and returns `pub` unchanged |
| Challenge.WrongChainCodeRejected | utils.js:134-139 | with nonces of the protocol sizes, a chain code that is not 32 bytes long is rejected as malformed |

## Left out

- `Math.random()` (utils.js:23) is not modelled. Its values are injected as draws in [0, 1).
- Nonce.PickNonce: takes all three draw series up front, though the source draws a series only when it needs another candidate. Unused series do not affect the result.
- `CT_sig_verify`, `sha256s`, `CT_priv_to_pubkey`, `hash160` and `bech32.encode` are foreign code. They are uninterpreted fields of `Primitives`.
- `verify_derive_address` (utils.js:162-169) is not modelled. It only composes BIP-32 derivation, which is foreign code, with `render_address`.
- `force_bytes` (utils.js:124-128) is not modelled. It depends on Node's `Buffer.from(..., "hex")`.
- ByteHelpers.XorBytes: works on decoded bytes. The hex decoding and re-encoding around the XOR (utils.js:10-13) is Node `Buffer` behaviour, and so are the two `typeof` lines (utils.js:7-8), which cannot change anything.
- `console.warn` (utils.js:81, 91, 100, 117, 137, 143) is a side effect only. Each warn-and-return is a `Rejection` value.
- `constants.js` is not part of this model. Both nonce sizes are fixed at 16, and `ADDR_TRIM` is the boolean parameter `addrTrim`.
- PathCodec.ParseIndex: accepts decimal digits only. `parseInt(..., 0)`'s `0x` prefix and JavaScript's parsing of a numeric prefix of text such as `12ab` are not modelled. A sign and surrounding whitespace (`-5`, `+5`, ` 5`), which both Python's `int` and `parseInt` accept, and Python's digit separators (`1_0`) are rejected too. Any other non-decimal text gives no result, as Python's `int` raises.
- PathCodec.Path2StrShape: states the component texts through `Component`. It does not state the 32-bit `&`/`|` wrap-around of JavaScript, which Python does not have.
- Challenge.RecoverAddress: an empty `slots` list is a `MalformedResponse` rejection. The source throws instead of returning.
- ByteHelpers.CharCodes: gives one code per Dafny `char`, a Unicode scalar value. `str.length` and `charCodeAt` (utils.js:69-70) count UTF-16 code units, so a character outside the Basic Multilingual Plane gives two surrogate codes in the source and one code above 0xFFFF in the model. The same holds for `left.length` and `right.length` at utils.js:114. Slot descriptors and addresses are ASCII, where the two agree.
- The card response is a record with typed fields. Missing fields and wrong field types of the untyped response are not modelled.

## Findings

| source | as written | input that shows it | evidently intended | confidence | as-written member | corrected member |
|---|---|---|---|---|---|---|
| utils.js:20 | `result` starts as `" "` | any length; 16 draws give 17 characters, the first a space | `result` starts empty, so the nonce has exactly `USER_NONCE_SIZE` alphabet characters | high (not executed) | Nonce.RandomStringAsWritten | Nonce.RandomString |
| utils.js:33 | `rv[-1]` and `rvSet.length` are `undefined`, so the test accepts any non-empty text | `AAAAAAAAAAAAAAAA` is accepted | accept only text that is not one repeated character | high (not executed) | Nonce.AcceptedAsWrittenLetsDegenerateThrough | Nonce.AcceptableIffNotRepeated |
| utils.js:42-44 | the `map` callback has a braced body and no `return`, so every component is empty | `[84]` becomes `m/`, which decodes to `[]` | one component per index, so that `str2path(path2str(p)) == p` | high (not executed) | PathCodec.Path2StrAsWrittenLosesIndices | PathCodec.RoundTrip |

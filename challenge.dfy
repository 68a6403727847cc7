/**
 * The challenge-response checks of utils.js: the signed message,
 * `render_address`, `recover_address` and `verify_master_pubkey`.
 *
 * Signature verification, hashing, key derivation and address encoding
 * are foreign calls; they are the function-valued fields of `Primitives`,
 * and nothing is assumed about them. Every check is a chain of gates, and
 * each gate that fails gives a rejection naming it, where the source logs
 * a warning and returns nothing.
 */
module Challenge {
  import opened Common
  import ByteHelpers
  import Nonce

  /** A message or key as JavaScript builds it: a sequence of character codes (see `ByteHelpers.CharCodes`), not `ByteHelpers.Byte` values. */
  type Codes = seq<int>

  /** Length of the nonce the card supplies. */
  const CARD_NONCE_SIZE: nat := 16

  /** The domain-separation tag at the front of every signed message. */
  const DOMAIN_TAG: string := "OPENDIME"

  /** The only accepted length of a signed message. */
  const MESSAGE_SIZE: nat := 8 + CARD_NONCE_SIZE + Nonce.USER_NONCE_SIZE + 32

  /** The foreign calls the checks make. */
  datatype Primitives = Primitives(
    sigVerify: (Codes, Codes, Codes) -> bool,      // CT_sig_verify(pubkey, digest, sig)
    sha256: Codes -> Codes,                        // sha256s
    privToPub: Codes -> Codes,                     // CT_priv_to_pubkey
    hash160: Codes -> Codes,                       // hash160
    bech32Encode: (string, nat, Codes) -> string)  // bech32 encoding: HRP, witness version, program

  /** The fields of the card's `status` response the checks read; `tapsigner` and `testnet` are false when absent. */
  datatype StatusResponse = StatusResponse(
    tapsigner: bool,
    testnet: bool,
    cardNonce: Codes,
    slots: seq<string>,
    addr: string)

  /** The fields of the card's `read` response the checks read. */
  datatype ReadResponse = ReadResponse(pubkey: Codes, sig: Codes)

  /** What `recover_address` returns: `{pubkey, addr}`. */
  datatype Identity = Identity(pubkey: Codes, addr: string)

  /** The gate that rejected a response. */
  datatype Rejection =
    | UnsupportedCardKind  // a TAPSIGNER card
    | MalformedResponse    // the signed message has the wrong length, or there is no slot
    | BadSignature         // the card did not prove it holds the key
    | AddressMismatch      // the rendered address does not match the card's claim

  // ---------------------------------------------------------------------
  // The signed message

  /** `"OPENDIME" + card_nonce + my_nonce + payload`, as bytes. */
  function ChallengeMessage(cardNonce: Codes, myNonce: Codes, payload: Codes): (msg: Codes)
    ensures |msg| == 8 + |cardNonce| + |myNonce| + |payload|
    ensures msg[..8] == ByteHelpers.CharCodes(DOMAIN_TAG)
  {
    ByteHelpers.CharCodes(DOMAIN_TAG) + cardNonce + myNonce + payload
  }

  /** With both nonces of fixed size, a message determines its three parts: no two challenges share a signed message. */
  lemma MessageDeterminesParts(cn1: Codes, mn1: Codes, p1: Codes, cn2: Codes, mn2: Codes, p2: Codes)
    requires |cn1| == |cn2| && |mn1| == |mn2|
    requires ChallengeMessage(cn1, mn1, p1) == ChallengeMessage(cn2, mn2, p2)
    ensures cn1 == cn2 && mn1 == mn2 && p1 == p2
  {
    var m := ChallengeMessage(cn1, mn1, p1);
    var tag := ByteHelpers.CharCodes(DOMAIN_TAG);
    var a, b := |tag| + |cn1|, |tag| + |cn1| + |mn1|;
    assert m == tag + cn1 + mn1 + p1 == tag + cn2 + mn2 + p2;
    assert cn1 == m[|tag|..a] == cn2;
    assert mn1 == m[a..b] == mn2;
    assert p1 == m[b..] == p2;
  }

  /** `hash` of the message verifies against `pubkey` and `sig`. */
  predicate Signed(prims: Primitives, pubkey: Codes, msg: Codes, sig: Codes)
  {
    prims.sigVerify(pubkey, prims.sha256(msg), sig)
  }

  // ---------------------------------------------------------------------
  // Addresses

  /** The human-readable part of the address: `tb` on testnet, `bc` otherwise. */
  function Hrp(testnet: bool): (hrp: string)
    ensures |hrp| == 2 && (hrp == "tb" <==> testnet)
  {
    if testnet then "tb" else "bc"
  }

  /** `render_address`: a 32-byte input is a private key and is first turned into its public key. */
  function RenderAddress(prims: Primitives, pubkey: Codes, testnet: bool): string
  {
    var key := if |pubkey| == 32 then prims.privToPub(pubkey) else pubkey;
    prims.bech32Encode(Hrp(testnet), 0, prims.hash160(key))
  }

  /** The encoder writes its human-readable part and the separator `1` first, as Bech32 addresses do. */
  ghost predicate PrefixesHrp(prims: Primitives)
  {
    forall hrp, version, program :: StartsWith(prims.bech32Encode(hrp, version, program), hrp + "1")
  }

  /** A rendered address starts with `tb1` on testnet and `bc1` otherwise, so no testnet address equals a mainnet one. */
  lemma RenderedNetworkPrefix(prims: Primitives, a: Codes, b: Codes)
    requires PrefixesHrp(prims)
    ensures StartsWith(RenderAddress(prims, a, true), "tb1")
    ensures StartsWith(RenderAddress(prims, b, false), "bc1")
    ensures RenderAddress(prims, a, true) != RenderAddress(prims, b, false)
  {
    var t, m := RenderAddress(prims, a, true), RenderAddress(prims, b, false);
    assert t[0] == "tb1"[0] == 't';
    assert m[0] == "bc1"[0] == 'b';
  }

  /** Rendering a private key gives the address of its public key. */
  lemma RenderPrivateKey(prims: Primitives, priv: Codes, testnet: bool)
    requires |priv| == 32 && |prims.privToPub(priv)| != 32
    ensures RenderAddress(prims, priv, testnet) == RenderAddress(prims, prims.privToPub(priv), testnet)
  {
  }

  /** Python's `s.find("_")`: the index of the first `_`, or -1 when there is none. */
  function FindUnderscore(s: string): (k: int)
    ensures -1 <= k < |s|
    ensures k == -1 <==> '_' !in s
    ensures k >= 0 ==> s[k] == '_' && forall j :: 0 <= j < k ==> s[j] != '_'
  {
    if |s| == 0 then -1
    else if s[0] == '_' then 0
    else
      var k := FindUnderscore(s[1..]);
      if k == -1 then -1 else k + 1
  }

  /**
   * The card's claimed address split around its first `_` into the prefix
   * and the suffix the rendered address must show. With no `_`, Python's
   * slicing gives all but the last character as the prefix and the whole
   * text as the suffix.
   */
  function ClaimParts(claim: string): (parts: (string, string))
    ensures '_' in claim ==> claim == parts.0 + "_" + parts.1 && '_' !in parts.0
    ensures '_' !in claim && claim != "" ==> parts == (claim[..|claim| - 1], claim)
    ensures claim == "" ==> parts == ("", "")
  {
    var k := FindUnderscore(claim);
    if k >= 0 then
      var left, right := claim[..k], claim[k + 1..];
      assert claim == left + "_" + right;
      assert forall j :: 0 <= j < |left| ==> left[j] != '_';
      assert '_' in claim;
      (left, right)
    else if claim == "" then ("", "")
    else (claim[..|claim| - 1], claim)
  }

  /** A claim written as `left_right` with no `_` in `left` splits back into exactly `left` and `right`. */
  lemma ClaimPartsOf(left: string, right: string)
    requires '_' !in left
    ensures ClaimParts(left + "_" + right) == (left, right)
  {
    var claim := left + "_" + right;
    assert claim[|left|] == '_';
    var parts := ClaimParts(claim);
    assert parts.0 == claim[..|left|] == left;
    assert parts.1 == claim[|left| + 1..] == right;
  }

  /** The counterfeiting check: prefix and suffix match, and the two have equal length exactly when `ADDR_TRIM` holds. */
  predicate AddressMatches(addr: string, claim: string, addrTrim: bool)
  {
    var (left, right) := ClaimParts(claim);
    StartsWith(addr, left) && EndsWith(addr, right) && ((|left| == |right|) == addrTrim)
  }

  /** For a claim `left_right`, the counterfeiting check compares against exactly `left` and `right`. */
  lemma AddressMatchesClaim(addr: string, left: string, right: string, addrTrim: bool)
    requires '_' !in left
    ensures AddressMatches(addr, left + "_" + right, addrTrim) <==>
      StartsWith(addr, left) && EndsWith(addr, right) && ((|left| == |right|) == addrTrim)
  {
    ClaimPartsOf(left, right);
  }

  // ---------------------------------------------------------------------
  // recover_address

  /** The message the card signs for `read`: the payload is the codes of the first slot. */
  function RecoveryMessage(status: StatusResponse, myNonce: Codes): (msg: Codes)
    requires |status.slots| > 0
    ensures |msg| == 8 + |status.cardNonce| + |myNonce| + |status.slots[0]|
    ensures msg[8 + |status.cardNonce|..8 + |status.cardNonce| + |myNonce|] == myNonce
  {
    ChallengeMessage(status.cardNonce, myNonce, ByteHelpers.CharCodes(status.slots[0]))
  }

  /**
   * `recover_address`: the card's verified payment address. Gates, in
   * order: not a TAPSIGNER; a slot and a message of the exact length; a
   * good signature by `read.pubkey`; the rendered address matches the
   * card's claim.
   */
  function RecoverAddress(prims: Primitives, status: StatusResponse, read: ReadResponse, myNonce: Codes, addrTrim: bool)
    : (r: Result<Identity, Rejection>)
    ensures status.tapsigner ==> r == Failure(UnsupportedCardKind)
    ensures !status.tapsigner && |status.slots| > 0 && |RecoveryMessage(status, myNonce)| != MESSAGE_SIZE ==>
      r == Failure(MalformedResponse)
    ensures r == Failure(BadSignature) ==>
      !status.tapsigner && |status.slots| > 0 && |RecoveryMessage(status, myNonce)| == MESSAGE_SIZE
    ensures r == Failure(AddressMismatch) ==>
      |status.slots| > 0 && Signed(prims, read.pubkey, RecoveryMessage(status, myNonce), read.sig)
    ensures r.Success? <==>
      !status.tapsigner && |status.slots| > 0 &&
      |RecoveryMessage(status, myNonce)| == MESSAGE_SIZE &&
      Signed(prims, read.pubkey, RecoveryMessage(status, myNonce), read.sig) &&
      AddressMatches(RenderAddress(prims, read.pubkey, status.testnet), status.addr, addrTrim)
    ensures r.Success? ==> r.value == Identity(read.pubkey, RenderAddress(prims, read.pubkey, status.testnet))
  {
    if status.tapsigner then Failure(UnsupportedCardKind)
    else if |status.slots| == 0 then Failure(MalformedResponse)
    else
      var msg := RecoveryMessage(status, myNonce);
      if |msg| != MESSAGE_SIZE then Failure(MalformedResponse)
      else if !Signed(prims, read.pubkey, msg, read.sig) then Failure(BadSignature)
      else
        var addr := RenderAddress(prims, read.pubkey, status.testnet);
        if !AddressMatches(addr, status.addr, addrTrim) then Failure(AddressMismatch)
        else Success(Identity(read.pubkey, addr))
  }

  /**
   * Before the length gate has passed, no primitive is consulted: two
   * sets of primitives give the same answer on a TAPSIGNER card or a
   * malformed response.
   */
  lemma RecoverRejectsBeforeCrypto(p: Primitives, q: Primitives, status: StatusResponse, read: ReadResponse, myNonce: Codes, addrTrim: bool)
    requires status.tapsigner || |status.slots| == 0 || |RecoveryMessage(status, myNonce)| != MESSAGE_SIZE
    ensures RecoverAddress(p, status, read, myNonce, addrTrim) == RecoverAddress(q, status, read, myNonce, addrTrim)
    ensures RecoverAddress(p, status, read, myNonce, addrTrim).Failure?
  {
  }

  /** A forged address is rejected even when the signature is good. */
  lemma ForgedAddressRejected(prims: Primitives, status: StatusResponse, read: ReadResponse, myNonce: Codes, addrTrim: bool)
    requires !status.tapsigner && |status.slots| > 0
    requires |RecoveryMessage(status, myNonce)| == MESSAGE_SIZE
    requires Signed(prims, read.pubkey, RecoveryMessage(status, myNonce), read.sig)
    requires !AddressMatches(RenderAddress(prims, read.pubkey, status.testnet), status.addr, addrTrim)
    ensures RecoverAddress(prims, status, read, myNonce, addrTrim) == Failure(AddressMismatch)
  {
  }

  /**
   * A fresh host nonce makes the card sign a fresh message: a signature
   * recorded for one nonce is a signature over a different message than
   * the one checked for any other nonce of the same length.
   */
  lemma FreshNonceFreshMessage(status: StatusResponse, n1: Codes, n2: Codes)
    requires |status.slots| > 0
    requires |n1| == |n2| && n1 != n2
    ensures RecoveryMessage(status, n1) != RecoveryMessage(status, n2)
  {
    if RecoveryMessage(status, n1) == RecoveryMessage(status, n2) {
      var payload := ByteHelpers.CharCodes(status.slots[0]);
      MessageDeterminesParts(status.cardNonce, n1, payload, status.cardNonce, n2, payload);
    }
  }

  /**
   * With nonces of the protocol sizes, the length gate of
   * `recover_address` passes exactly when the first slot has 32
   * characters.
   */
  lemma RecoveryLengthGate(status: StatusResponse, myNonce: Codes)
    requires |status.slots| > 0
    requires |status.cardNonce| == CARD_NONCE_SIZE && |myNonce| == Nonce.USER_NONCE_SIZE
    ensures |RecoveryMessage(status, myNonce)| == MESSAGE_SIZE <==> |status.slots[0]| == 32
  {
  }

  // ---------------------------------------------------------------------
  // verify_master_pubkey

  /**
   * `verify_master_pubkey`: `pub` is accepted only if the message over the
   * chain code has the exact length and its signature verifies; it is
   * then returned unchanged.
   */
  function VerifyMasterPubkey(prims: Primitives, pub: Codes, sig: Codes, chainCode: Codes, myNonce: Codes, cardNonce: Codes)
    : (r: Result<Codes, Rejection>)
    ensures |ChallengeMessage(cardNonce, myNonce, chainCode)| != MESSAGE_SIZE ==> r == Failure(MalformedResponse)
    ensures r == Failure(BadSignature) ==> |ChallengeMessage(cardNonce, myNonce, chainCode)| == MESSAGE_SIZE
    ensures r.Success? <==>
      |ChallengeMessage(cardNonce, myNonce, chainCode)| == MESSAGE_SIZE &&
      Signed(prims, pub, ChallengeMessage(cardNonce, myNonce, chainCode), sig)
    ensures r.Success? ==> r.value == pub
  {
    var msg := ChallengeMessage(cardNonce, myNonce, chainCode);
    if |msg| != MESSAGE_SIZE then Failure(MalformedResponse)
    else if !Signed(prims, pub, msg, sig) then Failure(BadSignature)
    else Success(pub)
  }

  /** With nonces of the protocol sizes, a chain code of any length but 32 is rejected as malformed. */
  lemma WrongChainCodeRejected(prims: Primitives, pub: Codes, sig: Codes, chainCode: Codes, myNonce: Codes, cardNonce: Codes)
    requires |cardNonce| == CARD_NONCE_SIZE && |myNonce| == Nonce.USER_NONCE_SIZE
    requires |chainCode| != 32
    ensures VerifyMasterPubkey(prims, pub, sig, chainCode, myNonce, cardNonce) == Failure(MalformedResponse)
  {
  }
}

/** SCEP messages: internal/scep/message.go, request.go and the pre-image of the
    replay key in replay.go. Signatures, certificate chains and envelopes are
    opened by a library; a message carries what that library makes of it. */
module ScepMessage {
  import opened Common
  import opened Bytes
  import opened Authz

  const NONCE_LEN: nat := 16
  const MAX_TRANSACTION_ID_LEN: nat := 128

  datatype MessageType = PKCSReq | RenewalReq | Unsupported

  function TypeOf(code: string): MessageType {
    if code == "19" then PKCSReq else if code == "17" then RenewalReq else Unsupported
  }

  /** Signed attributes as found; None where one is missing or does not decode. */
  datatype RawAttributes = RawAttributes(
    messageType: Option<string>, transactionID: Option<bytes>, senderNonce: Option<bytes>)

  datatype Attributes = Attributes(messageType: MessageType, transactionID: bytes, senderNonce: bytes)

  datatype AttributeError =
    | MissingType | UnsupportedType | MissingTransactionID | EmptyTransactionID | LongTransactionID
    | MissingNonce | NonceLength

  function ParseAttributes(r: RawAttributes): Result<Attributes, AttributeError> {
    if r.messageType.None? then Err(MissingType)
    else if TypeOf(r.messageType.value).Unsupported? then Err(UnsupportedType)
    else if r.transactionID.None? then Err(MissingTransactionID)
    else if r.transactionID.value == [] then Err(EmptyTransactionID)
    else if |r.transactionID.value| > MAX_TRANSACTION_ID_LEN then Err(LongTransactionID)
    else if r.senderNonce.None? then Err(MissingNonce)
    else if |r.senderNonce.value| != NONCE_LEN then Err(NonceLength)
    else Ok(Attributes(TypeOf(r.messageType.value), r.transactionID.value, r.senderNonce.value))
  }

  /** The outer SignedData as a verify call returns it. `csr` is what decrypting its
      content and parsing the request yields, None if either fails. */
  datatype Signed = Signed(signer: Cert, attributes: RawAttributes, csr: Option<CSR>, challenge: string)

  /** `intact` is VerifySignature's result and `anchored` VerifyChain's, against the
      device anchor; None where the call fails. */
  datatype Message = Message(intact: Option<Signed>, anchored: Option<Signed>)

  datatype ScepRequest = ScepRequest(
    attributes: Attributes, csr: CSR, challenge: string, signer: Cert, signerAuthenticated: bool)

  /** Parser.Parse. Without device roots no chain verifies, so nothing renews. */
  function Parse(deviceRoots: bool, m: Message): Option<ScepRequest> {
    if m.intact.None? then None
    else
      match ParseAttributes(m.intact.value.attributes)
      case Err(_) => None
      case Ok(a) =>
        var renewal := a.messageType == RenewalReq;
        if renewal && (!deviceRoots || m.anchored.None?) then None
        else
          var signed := if renewal then m.anchored.value else m.intact.value;
          if signed.csr.None? then None
          else Some(ScepRequest(a, signed.csr.value, signed.challenge, signed.signer, renewal))
  }

  predicate WellFormed(a: Attributes) {
    && a.messageType in {PKCSReq, RenewalReq}
    && 0 < |a.transactionID| <= 128
    && |a.senderNonce| == 16
  }

  /** All three attributes are there, supported and within bounds. */
  ghost predicate Acceptable(r: RawAttributes) {
    && r.messageType in {Some("19"), Some("17")}
    && r.transactionID.Some? && 0 < |r.transactionID.value| <= 128
    && r.senderNonce.Some? && |r.senderNonce.value| == 16
  }

  /** authzRequest. */
  function AuthzRequest(r: ScepRequest): Request {
    Request(if r.attributes.messageType == RenewalReq then SimpleReenroll else SimpleEnroll,
            if r.signerAuthenticated then Some(r.signer) else None,
            Some(r.csr), r.challenge, "")
  }

  /** Two anchors, kept apart. A message parses exactly when its signature is intact,
      its attributes are acceptable, a renewal's signer verifies against the device
      anchor, and its request can be read. The parsed request is what the message says.
      The pipeline sees its CSR, its own challenge and no label, and a client
      certificate exactly when it is a renewal: the anchored signer. A first request's
      signer is never an identity. */
  lemma OnlyAnchoredSignersAreIdentities(deviceRoots: bool, m: Message)
    ensures Parse(deviceRoots, m).Some? <==>
            && m.intact.Some? && Acceptable(m.intact.value.attributes)
            && if m.intact.value.attributes.messageType == Some("17")
               then deviceRoots && m.anchored.Some? && m.anchored.value.csr.Some?
               else m.intact.value.csr.Some?
    ensures Parse(deviceRoots, m).Some? ==>
              var r := Parse(deviceRoots, m).value;
              var raw := m.intact.value.attributes;
              var renews := raw.messageType == Some("17");
              var signed := if renews then m.anchored.value else m.intact.value;
              && r.attributes.transactionID == raw.transactionID.value
              && r.attributes.senderNonce == raw.senderNonce.value
              && r.attributes.messageType == (if renews then RenewalReq else PKCSReq)
              && r.csr == signed.csr.value && r.challenge == signed.challenge && r.signer == signed.signer
              && r.signerAuthenticated == renews
    ensures Parse(deviceRoots, m).Some? ==>
              var r := Parse(deviceRoots, m).value;
              var az := AuthzRequest(r);
              && WellFormed(r.attributes)
              && az.csr == Some(r.csr) && az.challengePassword == r.challenge && az.estLabel == ""
              && (az.clientCert.Some? <==> r.attributes.messageType == RenewalReq)
              && (az.operation.SimpleReenroll? <==> r.attributes.messageType == RenewalReq)
              && (az.clientCert.Some? ==>
                    deviceRoots && m.anchored.Some? && az.clientCert == Some(m.anchored.value.signer))
  {
  }

  /** What replayKey hashes. */
  function PreImage(transactionID: bytes, nonce: bytes): bytes {
    transactionID + [0] + nonce
  }

  /** The pre-image tells pairs apart because nonces have one length: with equal
      lengths it is injective even when transaction IDs contain zero octets. */
  lemma PreImageIsInjective(tx1: bytes, n1: bytes, tx2: bytes, n2: bytes)
    requires |n1| == |n2| && PreImage(tx1, n1) == PreImage(tx2, n2)
    ensures tx1 == tx2 && n1 == n2
  {
    var p1, p2 := PreImage(tx1, n1), PreImage(tx2, n2);
    assert |tx1| == |tx2|;
    assert p1[..|tx1|] == tx1 && p2[..|tx2|] == tx2;
    assert p1[|tx1| + 1..] == n1 && p2[|tx2| + 1..] == n2;
  }

  /** The separator alone would not do: with nonces of any length it collides. */
  lemma SeparatorAloneIsAmbiguous()
    ensures PreImage([1], [0, 2]) == PreImage([1, 0], [2])
  {
  }
}

/** The certs-only SignedData of internal/pkcs7/pkcs7.go (section 5.1 of RFC 5652,
    section 4.1.3 of RFC 7030), with the decoder that undoes it. */
module Pkcs7 {
  import opened Common
  import opened Bytes
  import opened Der

  const SEQUENCE: byte := 0x30
  const SET: byte := 0x31
  const INTEGER: byte := 0x02
  const OBJECT_IDENTIFIER: byte := 0x06
  const CONTEXT_0: byte := 0xA0  // [0], constructed

  /** 1.2.840.113549.1.7.2 */
  function OidSignedData(): bytes { Tlv(OBJECT_IDENTIFIER, [0x2A, 0x86, 0x48, 0x86, 0xF7, 0x0D, 0x01, 0x07, 0x02]) }

  /** 1.2.840.113549.1.7.1 */
  function OidData(): bytes { Tlv(OBJECT_IDENTIFIER, [0x2A, 0x86, 0x48, 0x86, 0xF7, 0x0D, 0x01, 0x07, 0x01]) }

  function VersionOne(): bytes { Tlv(INTEGER, [1]) }

  function EmptySet(): bytes { Tlv(SET, []) }

  /** What follows the certificates' element, and what precedes it. */
  function Preamble(): bytes { VersionOne() + (EmptySet() + Tlv(SEQUENCE, OidData())) }

  function SignedData(certBytes: bytes): bytes {
    Tlv(SEQUENCE, Preamble() + (Tlv(CONTEXT_0, certBytes) + EmptySet()))
  }

  function ContentInfo(certBytes: bytes): bytes {
    Tlv(SEQUENCE, OidSignedData() + Tlv(CONTEXT_0, SignedData(certBytes)))
  }

  /** The message octet by octet, but for its four lengths: SignedData, version 1, no
      digest algorithms, data without content, the certificates, no signers. */
  lemma WireFormat(certBytes: bytes)
    ensures var certs := [0xA0] + EncodeLength(|certBytes|) + certBytes;
            var body := [0x02, 1, 1, 0x31, 0,
                         0x30, 11, 0x06, 9, 0x2A, 0x86, 0x48, 0x86, 0xF7, 0x0D, 1, 7, 1] + certs + [0x31, 0];
            var signed := [0x30] + EncodeLength(|body|) + body;
            var content := [0x06, 9, 0x2A, 0x86, 0x48, 0x86, 0xF7, 0x0D, 1, 7, 2]
                           + ([0xA0] + EncodeLength(|signed|) + signed);
            ContentInfo(certBytes) == [0x30] + EncodeLength(|content|) + content
  {
    var certs := Tlv(CONTEXT_0, certBytes);
    FixedOctets();
    hide Preamble, EmptySet, EncodeLength, OidSignedData;
    assert Preamble() + (certs + EmptySet()) ==
           [0x02, 1, 1, 0x31, 0,
            0x30, 11, 0x06, 9, 0x2A, 0x86, 0x48, 0x86, 0xF7, 0x0D, 1, 7, 1] + certs + [0x31, 0];
  }

  lemma FixedOctets()
    ensures EmptySet() == [0x31, 0]
    ensures OidSignedData() == [0x06, 9, 0x2A, 0x86, 0x48, 0x86, 0xF7, 0x0D, 1, 7, 2]
    ensures Preamble() == [0x02, 1, 1, 0x31, 0, 0x30, 11, 0x06, 9, 0x2A, 0x86, 0x48, 0x86, 0xF7, 0x0D, 1, 7, 1]
  {
    var data := [0x06, 9, 0x2A, 0x86, 0x48, 0x86, 0xF7, 0x0D, 1, 7, 1];
    assert OidData() == data && VersionOne() == [0x02, 1, 1];
    assert Tlv(SEQUENCE, data) == [0x30, 11] + data;
  }

  datatype EncodeError = NoCertificates | EmptyCertificate(index: nat)

  /** The first empty certificate is reported; otherwise all are carried, in order. */
  method DegenerateCertsOnly(certDER: seq<bytes>) returns (r: Result<bytes, EncodeError>)
    ensures certDER == [] ==> r == Err(NoCertificates)
    ensures certDER != [] ==>
              if exists c | c in certDER :: c == []
              then r.Err? && r.error.EmptyCertificate? && r.error.index < |certDER| && certDER[r.error.index] == [] &&
                   forall i | 0 <= i < r.error.index :: certDER[i] != []
              else r == Ok(ContentInfo(Concat(certDER)))
  {
    if certDER == [] {
      return Err(NoCertificates);
    }
    var certBytes: bytes := [];
    for i := 0 to |certDER|
      invariant certBytes == Concat(certDER[..i])
      invariant forall j | 0 <= j < i :: certDER[j] != []
    {
      if certDER[i] == [] {
        assert certDER[i] in certDER;
        return Err(EmptyCertificate(i));
      }
      ConcatSnoc(certDER[..i], certDER[i]);
      assert certDER[..i + 1] == certDER[..i] + [certDER[i]];
      certBytes := certBytes + certDER[i];
    }
    assert certDER[..|certDER|] == certDER;
    var certs := Tlv(CONTEXT_0, certBytes);
    var innerCI := Tlv(SEQUENCE, OidData());
    var sdDER := Tlv(SEQUENCE, VersionOne() + (EmptySet() + innerCI) + (certs + EmptySet()));
    return Ok(Tlv(SEQUENCE, OidSignedData() + Tlv(CONTEXT_0, sdDER)));
  }

  lemma {:induction false} ConcatSnoc(list: seq<bytes>, c: bytes)
    ensures Concat(list + [c]) == Concat(list) + c
  {
    if list == [] {
      assert [c][1..] == [];
    } else {
      ConcatSnoc(list[1..], c);
      assert (list + [c])[1..] == list[1..] + [c];
    }
  }

  // ---- The decoder ----

  /** An element that must be exactly `expected`; what follows it. */
  function Expect(s: bytes, expected: bytes): Option<bytes> {
    match ParseTlv(s)
    case None => None
    case Some(e) => if e.full == expected then Some(e.rest) else None
  }

  /** An element with the identifier octet `tag`. */
  function Tagged(s: bytes, tag: byte): Option<Element> {
    match ParseTlv(s)
    case None => None
    case Some(e) => if e.full != [] && e.full[0] == tag then Some(e) else None
  }

  /** The content of the certificates' element of a SignedData. */
  function CertificateSet(sd: bytes): Option<bytes> {
    match Tagged(sd, SEQUENCE)
    case None => None
    case Some(outer) =>
      match Expect(outer.content, VersionOne())
      case None => None
      case Some(afterVersion) =>
        match Tagged(afterVersion, SET)
        case None => None
        case Some(digests) =>
          match Tagged(digests.rest, SEQUENCE)
          case None => None
          case Some(contentInfo) =>
            match Tagged(contentInfo.rest, CONTEXT_0)
            case None => None
            case Some(certs) => if Tagged(certs.rest, SET).Some? then Some(certs.content) else None
  }

  /** The certificates a ContentInfo carries. */
  function Certificates(der: bytes): Option<seq<bytes>> {
    match Tagged(der, SEQUENCE)
    case None => None
    case Some(outer) =>
      if outer.rest != [] then None
      else
        match Expect(outer.content, OidSignedData())
        case None => None
        case Some(afterOid) =>
          match Tagged(afterOid, CONTEXT_0)
          case None => None
          case Some(explicit) =>
            match CertificateSet(explicit.content)
            case None => None
            case Some(certs) => Split(certs)
  }

  lemma TaggedTlv(tag: byte, content: bytes, rest: bytes)
    requires tag % 32 != 31 && Encodable(|content|)
    ensures Tagged(Tlv(tag, content) + rest, tag) == Some(Element(Tlv(tag, content), content, rest))
    ensures Expect(Tlv(tag, content) + rest, Tlv(tag, content)) == Some(rest)
  {
    TlvRoundTrip(tag, content, rest);
  }

  lemma Shorter(n: nat, total: nat)
    requires n <= total && Encodable(total)
    ensures Encodable(n)
  {
    MoreDigits(n, total);
  }

  lemma SignedDataReadsBack(certBytes: bytes)
    requires Encodable(|SignedData(certBytes)|)
    ensures CertificateSet(SignedData(certBytes)) == Some(certBytes)
  {
    hide Tlv;
    hide Tagged;
    hide Expect;
    hide Encodable;
    TlvIsLonger();
    var certs, inner := Tlv(CONTEXT_0, certBytes), Tlv(SEQUENCE, OidData());
    var tail3 := certs + EmptySet();
    var tail2 := inner + tail3;
    var tail1 := EmptySet() + tail2;
    var body := Preamble() + tail3;
    assert body == VersionOne() + tail1;
    var total := |SignedData(certBytes)|;
    Shorter(|body|, total);
    Shorter(|certBytes|, total);
    Shorter(|OidData()|, total);
    Shorter(1, total);
    Shorter(0, total);
    assert SignedData(certBytes) + [] == SignedData(certBytes) && EmptySet() + [] == EmptySet();
    TaggedTlv(SEQUENCE, body, []);
    TaggedTlv(INTEGER, [1], tail1);
    TaggedTlv(SET, [], tail2);
    TaggedTlv(SEQUENCE, OidData(), tail3);
    TaggedTlv(CONTEXT_0, certBytes, EmptySet());
    TaggedTlv(SET, [], []);
  }

  lemma TlvIsLonger()
    ensures forall tag: byte, content: bytes :: |content| < |Tlv(tag, content)|
  {
  }

  lemma ContentInfoReadsBack(certBytes: bytes)
    requires Encodable(|ContentInfo(certBytes)|)
    ensures Certificates(ContentInfo(certBytes)) == Split(certBytes)
  {
    hide Tlv;
    hide Tagged;
    hide Expect;
    hide Encodable;
    hide CertificateSet;
    TlvIsLonger();
    var sd := SignedData(certBytes);
    var explicit := Tlv(CONTEXT_0, sd);
    var total := |ContentInfo(certBytes)|;
    Shorter(|OidSignedData() + explicit|, total);
    Shorter(|sd|, total);
    Shorter(9, total);
    assert ContentInfo(certBytes) + [] == ContentInfo(certBytes);
    TaggedTlv(SEQUENCE, OidSignedData() + explicit, []);
    TaggedTlv(OBJECT_IDENTIFIER, [0x2A, 0x86, 0x48, 0x86, 0xF7, 0x0D, 0x01, 0x07, 0x02], explicit);
    assert explicit + [] == explicit;
    TaggedTlv(CONTEXT_0, sd, []);
    SignedDataReadsBack(certBytes);
  }

  /** The round trip, for every list of certificates whose encoding has a length DER
      can express: decoding gives back exactly that list, in order, if and only if
      each entry is one complete element. The encoder does not check this itself. */
  lemma RoundTripsExactlyWhenElements(certDER: seq<bytes>)
    requires Encodable(|ContentInfo(Concat(certDER))|)
    ensures Certificates(ContentInfo(Concat(certDER))) == Some(certDER) <==> forall c | c in certDER :: OneTlv(c)
  {
    hide ContentInfo;
    hide Certificates;
    ContentInfoReadsBack(Concat(certDER));
    if forall c | c in certDER :: OneTlv(c) {
      SplitOfConcat(certDER);
    } else if Split(Concat(certDER)).Some? {
      SplitYieldsElements(Concat(certDER));
    }
  }
}

/** The reference issuer, and the chain from an issued QR text back to an accepted scan. */
module Issuer {
  import opened Prelude
  import opened Cbor
  import opened CborCanonical
  import opened CborParser
  import opened Cose
  import opened ServingOffer
  import opened Scan
  import opened Texts
  import Base45

  /** An issuer's key pair: the public key and the signing operation. */
  datatype Signer = Signer(pub: bytes, sign: bytes -> bytes)

  datatype IssuedQr = IssuedQr(qr: string, coseB64: string, trustPubB64: string, issuerKidB64: string)

  /** The bytes that are signed for a payload. */
  function ToSign(w: World, s: Signer, payload: bytes): bytes {
    SignedBytes(HeaderBytesOf(w.crypto, s.pub), payload)
  }

  function IssuedCose(w: World, s: Signer, payload: bytes): bytes {
    MessageBytes(HeaderBytesOf(w.crypto, s.pub), payload, s.sign(ToSign(w, s, payload)))
  }

  lemma IssuedAsEncoded(w: World, s: Signer, payload: bytes)
    ensures var prot := Encode(ProtectedHeader(Kid(w.crypto, s.pub)));
            ToSign(w, s, payload) == Encode(SigStructure(prot, payload)) &&
            IssuedCose(w, s, payload) == Encode(CoseArray(prot, payload, s.sign(ToSign(w, s, payload))))
  {
    hide Encode, SigStructure, CoseArray, SignedBytes, MessageBytes, HeaderBytesOf;
    HeaderIsBytes(w.crypto, s.pub);
    var prot := Encode(ProtectedHeader(Kid(w.crypto, s.pub)));
    SigStructureBytes(prot, payload);
    CoseArrayBytes(prot, payload, s.sign(ToSign(w, s, payload)));
  }

  function Gr1Text(w: World, cose: bytes): string {
    "GR1:" + Base45.Encode(w.deflate(cose))
  }

  /** `issue_payload`. */
  method IssuePayload(w: World, s: Signer, payload: bytes) returns (r: Result<IssuedQr, IssuerError>)
    ensures var kid := w.crypto.sha256(s.pub)[..16];
            var prot := [0xa2, 0x01, 0x32, 0x04, 0x50] + kid;
            var signature := s.sign([0x84, 0x6a] + Utf8("Signature1") + Head(2, |prot|) + prot + [0x40] + Head(2, |payload|) + payload);
            var cose := [0x84] + Head(2, |prot|) + prot + [0xa0] + Head(2, |payload|) + payload + Head(2, |signature|) + signature;
            var fault := IssuerFault(payload, kid);
            r == if fault.Some? then Err(fault.value)
                 else Ok(IssuedQr("GR1:" + Base45.Encode(w.deflate(cose)), w.b64Encode(cose), w.b64Encode(s.pub), w.b64Encode(kid)))
  {
    hide Encode, IssuerFault, Head, Utf8, SigStructure, CoseArray, Base45.Encode;
    var kid := Kid(w.crypto, s.pub);
    var fault := IssuerFault(payload, kid);
    if fault.Some? {
      return Err(fault.value);
    }
    IssuedAsEncoded(w, s, payload);
    var prot := new Buffer();
    WriteCanonical(ProtectedHeader(kid), prot);
    assert prot.data == Encode(ProtectedHeader(kid));
    var toSign := new Buffer();
    WriteCanonical(SigStructure(prot.data, payload), toSign);
    assert toSign.data == ToSign(w, s, payload);
    var signature := s.sign(toSign.data);
    var cose := new Buffer();
    WriteCanonical(CoseArray(prot.data, payload, signature), cose);
    assert cose.data == IssuedCose(w, s, payload);
    var text := Base45.Base45Encode(w.deflate(cose.data));
    r := Ok(IssuedQr("GR1:" + text, w.b64Encode(cose.data), w.b64Encode(s.pub), w.b64Encode(kid)));
  }

  /** What is assumed of signing: the signature made for this payload passes the strict input checks and
      verifies under the signer's public key. */
  ghost predicate SignsProperly(w: World, s: Signer, payload: bytes) {
    var m := ToSign(w, s, payload);
    StrictInputs(s.pub, s.sign(m)) && w.crypto.verify(s.pub, m, s.sign(m))
  }

  /** For every payload the issuer accepts, the QR text decodes to the issuer's exact COSE bytes and is
      accepted under the issuer's key; the message stays far below the GR1 limit. */
  lemma IssuedIsAccepted(w: World, s: Signer, payload: bytes)
    requires Base64Laws(w) && ZlibLaw(w) && SignsProperly(w, s, payload)
    requires IssuerFault(payload, Kid(w.crypto, s.pub)).None?
    ensures var cose := IssuedCose(w, s, payload); var trust := w.b64Encode(s.pub);
            0 < |cose| <= MAX_OFFER_BYTES + 93 < MAX_GR1_BYTES &&
            DecodeGr1(w, Gr1Text(w, cose)) == Ok(cose) &&
            AcceptPrepare(w, Gr1Text(w, cose), Some(trust)) == Ok(ScanRecord(ScanId(w, cose), w.b64Encode(cose), trust))
  {
    hide Encode, IssuerFault, Verify, ValidateOffer, IssuedCose, Gr1Text, TrustPub, ScanId, DecodeGr1;
    var cose := IssuedCose(w, s, payload);
    MessageSize(w, s, payload);
    SignedMessageVerifies(w, s, payload);
    TransportRoundTrip(w, cose);
    TrustRoundTrip(w, s.pub);
    IssuerAcceptsWhatScannersAccept(payload, Kid(w.crypto, s.pub));
  }

  /** The 2048-byte payload limit bounds the whole message. */
  lemma MessageSize(w: World, s: Signer, payload: bytes)
    requires SignsProperly(w, s, payload) && IssuerFault(payload, Kid(w.crypto, s.pub)).None?
    ensures |payload| <= MAX_OFFER_BYTES && |s.pub| == 32
    ensures 0 < |IssuedCose(w, s, payload)| <= MAX_OFFER_BYTES + 93
  {
    hide Encode, IssuerFault, StrictInputs, ParseStrict, Wf, Ordered, ToSign;
    var kid := Kid(w.crypto, s.pub);
    var sig := s.sign(ToSign(w, s, payload));
    IssuerAcceptsWhatScannersAccept(payload, kid);
    IssuedAsEncoded(w, s, payload);
    SigLength(s.pub, sig);
    EnvelopeEncoding(kid, payload, sig);
  }

  lemma SignedMessageVerifies(w: World, s: Signer, payload: bytes)
    requires |payload| < U64_BOUND && SignsProperly(w, s, payload)
    ensures Verify(w.crypto, IssuedCose(w, s, payload), s.pub) == Ok(Verified(payload, Kid(w.crypto, s.pub)))
  {
    hide Encode, StrictInputs, Verify, ToSign, IssuedCose;
    IssuedAsEncoded(w, s, payload);
    HonestMessageVerifies(w.crypto, s.pub, payload, s.sign(ToSign(w, s, payload)));
  }

  lemma TransportRoundTrip(w: World, cose: bytes)
    requires ZlibLaw(w) && 0 < |cose| <= MAX_GR1_BYTES
    ensures DecodeGr1(w, Gr1Text(w, cose)) == Ok(cose)
  {
    hide Base45.Encode, Base45.Decode;
    Base45.DecodeOfEncode(w.deflate(cose));
    assert Gr1Text(w, cose)[4..] == Base45.Encode(w.deflate(cose));
  }

  lemma TrustRoundTrip(w: World, pub: bytes)
    requires Base64Laws(w) && |pub| > 0
    ensures TrustPub(w, w.b64Encode(pub)) == Some(pub)
  {
    var t := w.b64Encode(pub);
    assert w.b64Decode(t) == Some(pub);
    assert w.b64Decode(w.b64Encode([])) == Some([]);
    assert !White(t[0]);
  }
}

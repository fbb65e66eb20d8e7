/** What a scan must be to be accepted, from the QR text down to the entries of the offer, and what is answered
    otherwise (core/rust/grain-core/src/qr.rs, core/rust/grain-client-core/src/scan.rs, accepted_scan.rs). */
module ScanTheorems {
  import opened Prelude
  import opened Cbor
  import opened Cose
  import opened CoseTheorems
  import opened Scan
  import opened ServingOffer
  import opened ServingOfferTheorems
  import Base45
  import Hex

  // ----- transport -----

  /** The verdict on a GR1 text: prefix, Base45, then what decompression yields up to the size limit. */
  lemma Gr1Verdict(w: World, qr: string)
    ensures var r := DecodeGr1(w, qr);
            if !(|qr| >= 4 && qr[0] == 'G' && qr[1] == 'R' && qr[2] == '1' && qr[3] == ':') then r == Err(QrPrefix)
            else if forall b :: Base45.Encode(b) != qr[4..] then r == Err(Schema)
            else exists b :: Base45.Encode(b) == qr[4..] &&
                   var z := w.inflate(b);
                   r == if |z.output| > 16_384 then Err(Limit) else if z.failed || z.output == [] then Err(Schema) else Ok(z.output)
  {
    hide Base45.Encode, Base45.Decode;
    var s := "GR1:";
    assert s <= qr <==> |qr| >= 4 && qr[0] == s[0] && qr[1] == s[1] && qr[2] == s[2] && qr[3] == s[3];
    if s <= qr {
      if Base45.Decode(qr[4..]).Some? {
        Base45.EncodeOfDecode(qr[4..]);
      }
      forall b | Base45.Encode(b) == qr[4..] ensures Base45.Decode(qr[4..]) == Some(b) {
        Base45.DecodeOfEncode(b);
      }
    }
  }

  /** White space as Unicode lists it. */
  lemma WhiteSpace(c: char)
    ensures White(c) <==> c as int in {0x09, 0x0a, 0x0b, 0x0c, 0x0d, 0x20, 0x85, 0xa0, 0x1680, 0x2000, 0x2001, 0x2002, 0x2003, 0x2004, 0x2005,
                                       0x2006, 0x2007, 0x2008, 0x2009, 0x200a, 0x2028, 0x2029, 0x202f, 0x205f, 0x3000}
  {
  }

  /** The trust text gives this key. */
  predicate GivesKey(w: World, trust: string, pub: bytes) {
    (exists i :: 0 <= i < |trust| && !White(trust[i])) && w.b64Decode(trust) == Some(pub) && pub != []
  }

  lemma TrustExactly(w: World, trust: string, pub: bytes)
    ensures TrustPub(w, trust) == Some(pub) <==> GivesKey(w, trust, pub)
  {
  }

  // ----- acceptance -----

  /** The verdict under a key: signature, then payload, then the record. */
  ghost predicate KeyVerdict(w: World, cose: bytes, pub: bytes, trust: string, r: Result<ScanRecord, ScanError>) {
    match VerifyWith(w.crypto, cose, pub, [], true)
    case Err(d) => r == Err(Core(d))
    case Ok(verified) =>
      match ValidateOffer(verified.payload, verified.kid)
      case Err(d) => r == Err(Core(d))
      case Ok(_) => r == Ok(ScanRecord("scan-sha256:" + Hex.Encode(w.crypto.sha256(cose)), w.b64Encode(cose), trust))
  }

  /** The verdict on a scan, step by step. */
  lemma ScanVerdict(w: World, qr: string, trust: Option<string>)
    ensures var r := AcceptPrepare(w, qr, trust);
            match DecodeGr1(w, qr)
            case Err(d) => r == Err(Core(d))
            case Ok(cose) =>
              if trust.None? then r == Err(TrustRequired)
              else if forall pub :: !GivesKey(w, trust.value, pub) then r == Err(TrustInvalid)
              else exists pub :: GivesKey(w, trust.value, pub) && KeyVerdict(w, cose, pub, trust.value, r)
  {
    hide DecodeGr1, VerifyWith, ValidateOffer, TrustPub, GivesKey;
    if trust.Some? {
      forall pub ensures TrustPub(w, trust.value) == Some(pub) <==> GivesKey(w, trust.value, pub) {
        TrustExactly(w, trust.value, pub);
      }
      var pub := TrustPub(w, trust.value);
      assert pub.Some? ==> GivesKey(w, trust.value, pub.value);
    }
  }

  /** Why a scan is good: the text carries this message, the trust text gives this key, the message is the
      key holder's own for this payload and signature, and the payload is an offer for the key. */
  ghost predicate GoodScan(w: World, qr: string, trust: string, cose: bytes, pub: bytes, payload: bytes, sig: bytes, v: CborValue) {
    DecodeGr1(w, qr) == Ok(cose) && GivesKey(w, trust, pub) && IsMessage(w.crypto, pub, payload, sig, cose) &&
    |payload| <= 2_048 && ParseExact(payload, STRICT_DAG_CBOR) == Ok(v) && IsOffer(v, w.crypto.sha256(pub)[..16])
  }

  /** Acceptance, exactly. */
  lemma AcceptedScans(w: World, qr: string, trust: Option<string>)
    ensures AcceptPrepare(w, qr, trust).Ok? <==>
            trust.Some? && exists cose, pub, payload, sig, v :: GoodScan(w, qr, trust.value, cose, pub, payload, sig, v)
    ensures forall cose, pub, payload, sig, v :: trust.Some? && GoodScan(w, qr, trust.value, cose, pub, payload, sig, v) ==>
              AcceptPrepare(w, qr, trust) == Ok(ScanRecord("scan-sha256:" + Hex.Encode(w.crypto.sha256(cose)), w.b64Encode(cose), trust.value))
  {
    hide DecodeGr1, GivesKey, IsMessage, ParseExact, IsOffer, AcceptPrepare, GoodScan;
    if AcceptPrepare(w, qr, trust).Ok? {
      var cose, pub, payload, sig, v := AcceptedIsGood(w, qr, trust);
    }
    forall cose, pub, payload, sig, v | trust.Some? && GoodScan(w, qr, trust.value, cose, pub, payload, sig, v)
      ensures AcceptPrepare(w, qr, trust) == Ok(ScanRecord("scan-sha256:" + Hex.Encode(w.crypto.sha256(cose)), w.b64Encode(cose), trust.value))
    {
      GoodIsAccepted(w, qr, trust.value, cose, pub, payload, sig, v);
    }
  }

  lemma AcceptedIsGood(w: World, qr: string, trust: Option<string>) returns (cose: bytes, pub: bytes, payload: bytes, sig: bytes, v: CborValue)
    requires AcceptPrepare(w, qr, trust).Ok?
    ensures trust.Some? && GoodScan(w, qr, trust.value, cose, pub, payload, sig, v)
  {
    hide DecodeGr1, GivesKey, IsMessage, ParseExact, IsOffer, ValidateOffer, TrustPub, VerifyWith;
    cose := DecodeGr1(w, qr).value;
    pub := TrustPub(w, trust.value).value;
    TrustExactly(w, trust.value, pub);
    var verified := Verify(w.crypto, cose, pub).value;
    payload := verified.payload;
    AcceptedExactly(w.crypto, cose, pub, payload, verified.kid);
    sig :| IsMessage(w.crypto, pub, payload, sig, cose);
    v := ValidateOffer(payload, verified.kid).value;
    OfferAcceptedExactly(payload, verified.kid, v);
  }

  lemma GoodIsAccepted(w: World, qr: string, trust: string, cose: bytes, pub: bytes, payload: bytes, sig: bytes, v: CborValue)
    requires GoodScan(w, qr, trust, cose, pub, payload, sig, v)
    ensures AcceptPrepare(w, qr, Some(trust)) == Ok(ScanRecord("scan-sha256:" + Hex.Encode(w.crypto.sha256(cose)), w.b64Encode(cose), trust))
  {
    hide DecodeGr1, GivesKey, IsMessage, ParseExact, IsOffer, ValidateOffer, TrustPub, VerifyWith;
    TrustExactly(w, trust, pub);
    var kid := w.crypto.sha256(pub)[..16];
    AcceptedExactly(w.crypto, cose, pub, payload, kid);
    OfferAcceptedExactly(payload, kid, v);
  }

  /** Which stored records re-validate: Base64 of a message that its trust text verifies, under its digest. */
  lemma RecordExactly(w: World, r: ScanRecord)
    ensures ValidRecord(w, r) <==>
            exists cose, pub, payload, sig, v ::
              w.b64Decode(r.coseB64) == Some(cose) && r.coseB64 == w.b64Encode(cose) &&
              r.scanId == "scan-sha256:" + Hex.Encode(w.crypto.sha256(cose)) &&
              GivesKey(w, r.trustPubB64, pub) && IsMessage(w.crypto, pub, payload, sig, cose) &&
              |payload| <= 2_048 && ParseExact(payload, STRICT_DAG_CBOR) == Ok(v) && IsOffer(v, w.crypto.sha256(pub)[..16])
  {
    hide GivesKey, IsMessage, ParseExact, IsOffer, ValidateOffer, TrustPub, VerifyWith, Hex.Encode;
    if ValidRecord(w, r) {
      var cose := w.b64Decode(r.coseB64).value;
      var pub := TrustPub(w, r.trustPubB64).value;
      TrustExactly(w, r.trustPubB64, pub);
      var verified := Verify(w.crypto, cose, pub).value;
      AcceptedExactly(w.crypto, cose, pub, verified.payload, verified.kid);
      var sig :| IsMessage(w.crypto, pub, verified.payload, sig, cose);
      OfferAcceptedExactly(verified.payload, verified.kid, ValidateOffer(verified.payload, verified.kid).value);
    }
    if cose, pub, payload, sig, v :|
      w.b64Decode(r.coseB64) == Some(cose) && r.coseB64 == w.b64Encode(cose) &&
      r.scanId == "scan-sha256:" + Hex.Encode(w.crypto.sha256(cose)) &&
      GivesKey(w, r.trustPubB64, pub) && IsMessage(w.crypto, pub, payload, sig, cose) &&
      |payload| <= 2_048 && ParseExact(payload, STRICT_DAG_CBOR) == Ok(v) && IsOffer(v, w.crypto.sha256(pub)[..16])
    {
      TrustExactly(w, r.trustPubB64, pub);
      AcceptedExactly(w.crypto, cose, pub, payload, w.crypto.sha256(pub)[..16]);
      OfferAcceptedExactly(payload, w.crypto.sha256(pub)[..16], v);
    }
  }
}

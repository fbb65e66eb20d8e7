/** What verification accepts, exactly: one message per payload and signature
    (core/rust/grain-core/src/cose.rs:74-203). */
module CoseTheorems {
  import opened Prelude
  import opened Cbor
  import opened CborCanonical
  import opened Cose
  import opened Texts
  import Lex

  /** `cose` is the signer's own message for this payload and signature, and the signature holds over the
      bytes that section 4.4 of RFC 9052 prescribes. */
  ghost predicate IsMessage(c: Crypto, pub: bytes, payload: bytes, sig: bytes, cose: bytes) {
    var prot := [0xa2, 0x01, 0x32, 0x04, 0x50] + c.sha256(pub)[..16];
    StrictInputs(pub, sig) &&
    c.verify(pub, [0x84, 0x6a] + Utf8("Signature1") + Head(2, |prot|) + prot + [0x40] + Head(2, |payload|) + payload, sig) &&
    cose == [0x84] + Head(2, |prot|) + prot + [0xa0] + Head(2, |payload|) + payload + Head(2, |sig|) + sig
  }

  lemma IsMessageMeans(c: Crypto, pub: bytes, payload: bytes, sig: bytes, cose: bytes)
    ensures var prot := Encode(ProtectedHeader(Kid(c, pub)));
            IsMessage(c, pub, payload, sig, cose) <==>
            StrictInputs(pub, sig) && c.verify(pub, Encode(SigStructure(prot, payload)), sig) &&
            cose == Encode(CoseArray(prot, payload, sig))
  {
    hide Encode, StrictInputs, SigStructure, CoseArray, Head, Utf8;
    HeaderIsBytes(c, pub);
    var prot := Encode(ProtectedHeader(Kid(c, pub)));
    SigStructureBytes(prot, payload);
    CoseArrayBytes(prot, payload, sig);
  }

  /** Verification accepts `cose` with this payload and key identifier if and only if the identifier is the
      first half of the key's digest and the bytes are the signer's encoding for some signature that passes the
      input checks and verifies. */
  lemma AcceptedExactly(c: Crypto, cose: bytes, pub: bytes, payload: bytes, kid: bytes)
    ensures Verify(c, cose, pub) == Ok(Verified(payload, kid)) <==>
            kid == c.sha256(pub)[..16] && |payload| < U64_BOUND && exists sig :: IsMessage(c, pub, payload, sig, cose)
  {
    hide Verify, Encode, StrictInputs, IsMessage;
    if Verify(c, cose, pub) == Ok(Verified(payload, kid)) {
      var sig := AcceptedIsMessage(c, cose, pub);
    }
    if sig :| IsMessage(c, pub, payload, sig, cose) && |payload| < U64_BOUND {
      IsMessageMeans(c, pub, payload, sig, cose);
      HonestMessageVerifies(c, pub, payload, sig);
    }
  }

  lemma AcceptedIsMessage(c: Crypto, cose: bytes, pub: bytes) returns (sig: bytes)
    requires Verify(c, cose, pub).Ok?
    ensures var r := Verify(c, cose, pub).value;
            r.kid == Kid(c, pub) && |r.payload| < U64_BOUND && IsMessage(c, pub, r.payload, sig, cose)
  {
    hide Encode, StrictInputs, ParseExact, Wf, Ordered, ReadHeader, TopLevelTag18, IsMessage;
    var v := ParseExact(cose, GENERIC_CANONICAL).value;
    CanonicalParseExactly(cose, GENERIC_CANONICAL, v);
    var prot, payload := v.items[0].b, v.items[2].b;
    sig := v.items[3].b;
    assert v == CoseArray(prot, payload, sig);
    ThirdFits(v);
    var p := ParseExact(prot, GENERIC_CANONICAL).value;
    CanonicalParseExactly(prot, GENERIC_CANONICAL, p);
    HeaderIsSigners(p, Kid(c, pub));
    IsMessageMeans(c, pub, payload, sig, cose);
  }

  lemma ThirdFits(v: CborValue)
    requires v.Array? && |v.items| == 4 && v.items[2].Bytes? && Wf(v, 0, GENERIC_CANONICAL)
    ensures |v.items[2].b| < U64_BOUND
  {
    var items := v.items;
    assert items[1..][0] == items[1] && items[1..][1..][0] == items[2];
    assert WfItems(items[1..], 1, GENERIC_CANONICAL);
    assert WfItems(items[1..][1..], 1, GENERIC_CANONICAL);
    assert Wf(items[2], 1, GENERIC_CANONICAL);
  }

  /** Two entries that pass the header loop, in key order, are the signer's own. */
  lemma HeaderIsSigners(p: CborValue, kid: bytes)
    requires p.Map? && |p.entries| == 2 && Ordered(p)
    requires ReadHeader(p.entries, HeaderState(false, None)) == Some(HeaderState(true, Some(kid)))
    ensures p == ProtectedHeader(kid)
  {
    hide Encode, Wf;
    var a, b := p.entries[0], p.entries[1];
    assert p.entries == [a, b];
    TwoHeaders(a, b, HeaderState(false, None));
    assert p.entries[1..] == [b];
    assert Ascending(None, p.entries);
    assert Ascending(Some(Encode(a.key)), [b]);
    assert Lex.KeyLess(Encode(a.key), Encode(b.key));
    SmallKeys();
    assert a == Entry(Unsigned(1), Negative(-19));
  }

  lemma TwoHeaders(a: Entry, b: Entry, h: HeaderState)
    ensures ReadHeader([a, b], h) ==
            match ReadHeader([a], h)
            case None => None
            case Some(g) => ReadHeader([b], g)
    ensures ReadHeader([a], h) == OneHeader(a, h) && forall g :: ReadHeader([b], g) == OneHeader(b, g)
  {
    assert [a, b][1..] == [b] && [a][1..] == [] && [b][1..] == [];
  }

  function OneHeader(e: Entry, h: HeaderState): Option<HeaderState> {
    if e == Entry(Unsigned(1), Negative(-19)) then Some(h.(algOk := true))
    else if e.key == Unsigned(4) && e.value.Bytes? && |e.value.b| == 16 then Some(h.(kid := Some(e.value.b)))
    else None
  }

  lemma SmallKeys()
    ensures !Lex.KeyLess(Encode(Unsigned(4)), Encode(Unsigned(1)))
    ensures !Lex.KeyLess(Encode(Unsigned(1)), Encode(Unsigned(1))) && !Lex.KeyLess(Encode(Unsigned(4)), Encode(Unsigned(4)))
  {
    assert Encode(Unsigned(4)) == [4] && Encode(Unsigned(1)) == [1];
  }

  /** No room for variation: an accepted message is determined by payload and signature, and determines both. */
  lemma OneMessagePerSignature(c: Crypto, pub: bytes, p1: bytes, s1: bytes, m1: bytes, p2: bytes, s2: bytes, m2: bytes)
    requires IsMessage(c, pub, p1, s1, m1) && IsMessage(c, pub, p2, s2, m2) && |p1| < U64_BOUND && |p2| < U64_BOUND
    ensures m1 == m2 <==> p1 == p2 && s1 == s2
  {
    hide Encode, StrictInputs, Wf, Ordered, IsMessage;
    var kid := Kid(c, pub);
    var prot := Encode(ProtectedHeader(kid));
    IsMessageMeans(c, pub, p1, s1, m1);
    IsMessageMeans(c, pub, p2, s2, m2);
    SigLength(pub, s1);
    SigLength(pub, s2);
    EnvelopeEncoding(kid, p1, s1);
    EnvelopeEncoding(kid, p2, s2);
    if m1 == m2 {
      var v1, v2 := CoseArray(prot, p1, s1), CoseArray(prot, p2, s2);
      OrderedInjective(v1, v2, 0, GENERIC_CANONICAL);
      assert v1.items[2] == Bytes(p1) && v2.items[2] == Bytes(p2) && v1.items[3] == Bytes(s1) && v2.items[3] == Bytes(s2);
    }
  }

  // ----- refusals -----

  predicate StartsWith(s: bytes, p: bytes) {
    p <= s
  }

  /** The shape of the four items that verification looks into. */
  predicate FourPart(v: CborValue) {
    v.Array? && |v.items| == 4 && v.items[0].Bytes? && v.items[1] == Map([]) && v.items[2].Bytes? && v.items[3].Bytes? &&
    |v.items[3].b| == 64
  }

  /** Which refusal: tag 18 in one of its three short forms first; then what the decoder says of message and
      header; everything else is a profile error. External data is always refused. */
  lemma RefusedWith(c: Crypto, cose: bytes, pub: bytes, aad: bytes)
    ensures var r := VerifyWith(c, cose, pub, aad, true);
            if StartsWith(cose, [0xd2]) || StartsWith(cose, [0xd8, 0x12]) || StartsWith(cose, [0xd9, 0x00, 0x12]) then r == Err(CoseTag18Forbidden)
            else match ParseExact(cose, GENERIC_CANONICAL)
                 case Err(e) => r == Err(FailDiag(e))
                 case Ok(v) =>
                   if !FourPart(v) || |aad| > 0 then r == Err(CoseProfile)
                   else match ParseExact(v.items[0].b, GENERIC_CANONICAL)
                        case Err(e) => r == Err(FailDiag(e))
                        case Ok(_) => r.Ok? || r == Err(CoseProfile)
  {
    hide Encode, StrictInputs, ParseExact, ReadHeader, TopLevelTag18;
    Tag18Forms(cose);
    SameParse(cose);
    if ParseExact(cose, GENERIC_CANONICAL).Ok? {
      var v := ParseExact(cose, GENERIC_CANONICAL).value;
      if FourPart(v) {
        SameParse(v.items[0].b);
      }
    }
  }

  lemma Tag18Forms(s: bytes)
    ensures TopLevelTag18(s) <==> StartsWith(s, [0xd2]) || StartsWith(s, [0xd8, 0x12]) || StartsWith(s, [0xd9, 0x00, 0x12])
  {
    if |s| > 0 {
      assert s[0] == s[0] / 32 * 32 + s[0] % 32;
    }
  }
}

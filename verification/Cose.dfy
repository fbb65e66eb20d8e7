/** COSE_Sign1 verification in the narrow profile (sections 4.2 and 4.4 of RFC 9052), with hashing and
    signature checking as parameters. */
module Cose {
  import opened Prelude
  import opened Cbor
  import opened CborCanonical
  import opened Texts
  import Lex
  import StableSort

  type digest = b: bytes | |b| == 32 witness Fill(0, 32)

  /** Cryptography that the model does not open up. */
  datatype Crypto = Crypto(sha256: bytes -> digest, verify: (bytes, bytes, bytes) -> bool)

  /** `kid_for_public_key`: the first half of the digest. */
  function Kid(c: Crypto, pub: bytes): (r: bytes)
    ensures |r| == 16
  {
    c.sha256(pub)[..16]
  }

  // ----- Ed25519 input checks -----

  function LeNat(b: bytes): nat {
    if |b| == 0 then 0 else b[0] + 256 * LeNat(b[1..])
  }

  const FIELD_P: bytes := [0xed] + Fill(0xff, 30) + [0x7f]
  const SCALAR_L: bytes := [
    0xed, 0xd3, 0xf5, 0x5c, 0x1a, 0x63, 0x12, 0x58, 0xd6, 0x9c, 0xf7, 0xa2, 0xde, 0xf9, 0xde, 0x14
  ] + Fill(0, 15) + [0x10]

  const SMALL_ORDER: seq<bytes> := [
    [0x01] + Fill(0, 31),
    ORDER_EIGHT_A + [0x7a],
    Fill(0, 31) + [0x80],
    ORDER_EIGHT_B + [0x05],
    [0xec] + Fill(0xff, 30) + [0x7f],
    ORDER_EIGHT_B + [0x85],
    Fill(0, 32),
    ORDER_EIGHT_A + [0xfa]
  ]
  const ORDER_EIGHT_A: bytes := [
    0xc7, 0x17, 0x6a, 0x70, 0x3d, 0x4d, 0xd8, 0x4f, 0xba, 0x3c, 0x0b, 0x76, 0x0d, 0x10, 0x67, 0x0f,
    0x2a, 0x20, 0x53, 0xfa, 0x2c, 0x39, 0xcc, 0xc6, 0x4e, 0xc7, 0xfd, 0x77, 0x92, 0xac, 0x03
  ]
  const ORDER_EIGHT_B: bytes := [
    0x26, 0xe8, 0x95, 0x8f, 0xc2, 0xb2, 0x27, 0xb0, 0x45, 0xc3, 0xf4, 0x89, 0xf2, 0xef, 0x98, 0xf0,
    0xd5, 0xdf, 0xac, 0x05, 0xd3, 0xc6, 0x33, 0x39, 0xb1, 0x38, 0x02, 0x88, 0x6d, 0x53, 0xfc
  ]

  /** `le_bytes_less_than`: a scan from the top byte that compares the numbers the bytes denote. */
  method LeBytesLessThan(value: bytes, limit: bytes) returns (r: bool)
    requires |limit| == 32
    ensures r <==> |value| == 32 && LeNat(value) < LeNat(limit)
  {
    if |value| != 32 {
      return false;
    }
    var i := 32;
    assert value[..32] == value && limit[..32] == limit;
    while i > 0
      invariant 0 <= i <= 32
      invariant LeNat(value) < LeNat(limit) <==> LeNat(value[..i]) < LeNat(limit[..i])
    {
      i := i - 1;
      TopByte(value[..i + 1], limit[..i + 1]);
      assert value[..i + 1][..i] == value[..i] && limit[..i + 1][..i] == limit[..i];
      if value[i] < limit[i] {
        return true;
      }
      if value[i] > limit[i] {
        return false;
      }
    }
    r := false;
  }

  lemma {:induction false} TopByte(a: bytes, b: bytes)
    requires |a| == |b| > 0
    ensures var n := |a| - 1;
            LeNat(a) < LeNat(b) <==> a[n] < b[n] || (a[n] == b[n] && LeNat(a[..n]) < LeNat(b[..n]))
    decreases |a|
  {
    var n := |a| - 1;
    if n > 0 {
      TopByte(a[1..], b[1..]);
      assert a[1..][..n - 1] == a[..n][1..] && b[1..][..n - 1] == b[..n][1..];
      assert a[..n][0] == a[0] && b[..n][0] == b[0];
      if a[n] == b[n] {
        SameTop(a[1..], b[1..]);
      } else {
        TopByte(b[1..], a[1..]);
      }
    }
  }

  lemma {:induction false} SameTop(a: bytes, b: bytes)
    requires |a| == |b| > 0 && a[|a| - 1] == b[|b| - 1]
    ensures LeNat(a) == LeNat(b) <==> LeNat(a[..|a| - 1]) == LeNat(b[..|b| - 1])
  {
    var n := |a| - 1;
    if n > 0 {
      SameTop(a[1..], b[1..]);
      assert a[1..][..n - 1] == a[..n][1..] && b[1..][..n - 1] == b[..n][1..];
    }
  }

  /** The encoding with its sign bit cleared. */
  function Unsigned255(b: bytes): bytes
    requires |b| == 32
  {
    b[..31] + [b[31] % 128]
  }

  /** `is_canonical_edwards_y`, on the numbers: y below the field prime, and no sign bit when x is 0. */
  predicate CanonicalY(b: bytes) {
    |b| == 32 && LeNat(Unsigned255(b)) < LeNat(FIELD_P) && !(b[31] >= 128 && ZeroX(Unsigned255(b)))
  }

  predicate ZeroX(y: bytes) {
    y == SMALL_ORDER[0] || y == SMALL_ORDER[4]
  }

  /** `validate_strict_ed25519_inputs`. */
  predicate StrictInputs(pub: bytes, sig: bytes) {
    |pub| == 32 && |sig| == 64 &&
    CanonicalY(pub) && CanonicalY(sig[..32]) && pub !in SMALL_ORDER && sig[..32] !in SMALL_ORDER &&
    LeNat(sig[32..]) < LeNat(SCALAR_L)
  }

  // ----- verification -----

  datatype Verified = Verified(payload: bytes, kid: bytes)

  predicate TopLevelTag18(s: bytes) {
    |s| > 0 && s[0] / 32 == 6 &&
    (s[0] % 32 == 18 || (s[0] % 32 == 24 && |s| > 1 && s[1] == 18)
     || (s[0] % 32 == 25 && |s| > 2 && s[1] == 0 && s[2] == 18))
  }

  /** Decode canonically; with `recheck`, also compare the re-encoding with the input. */
  function ParseChecked(s: bytes, recheck: bool): Result<CborValue, Diag> {
    match ParseExact(s, GENERIC_CANONICAL)
    case Err(e) => Err(FailDiag(e))
    case Ok(v) => if recheck && Encode(v) != s then Err(NonCanonical) else Ok(v)
  }

  datatype HeaderState = HeaderState(algOk: bool, kid: Option<bytes>)

  /** The loop over the protected header: algorithm -19 under 1, a 16-byte key identifier under 4, no more. */
  function ReadHeader(entries: seq<Entry>, h: HeaderState): Option<HeaderState> {
    if |entries| == 0 then Some(h)
    else
      var e := entries[0];
      if e == Entry(Unsigned(1), Negative(-19)) then ReadHeader(entries[1..], h.(algOk := true))
      else if e.key == Unsigned(4) && e.value.Bytes? && |e.value.b| == 16 then
        ReadHeader(entries[1..], h.(kid := Some(e.value.b)))
      else None
  }

  function SigStructure(prot: bytes, payload: bytes): CborValue {
    Array([Text(Ascii("Signature1")), Bytes(prot), Bytes([]), Bytes(payload)])
  }

  function CoseArray(prot: bytes, payload: bytes, sig: bytes): CborValue {
    Array([Bytes(prot), Map([]), Bytes(payload), Bytes(sig)])
  }

  /** `verify_cose_sign1_payload`; `recheck` tells whether its two re-encode comparisons are made. */
  function VerifyWith(c: Crypto, cose: bytes, pub: bytes, aad: bytes, recheck: bool): Result<Verified, Diag> {
    if TopLevelTag18(cose) then Err(CoseTag18Forbidden)
    else
      match ParseChecked(cose, recheck)
      case Err(d) => Err(d)
      case Ok(v) =>
        if !(v.Array? && |v.items| == 4) then Err(CoseProfile)
        else if !v.items[0].Bytes? || v.items[1] != Map([]) || !v.items[2].Bytes? || !v.items[3].Bytes? then Err(CoseProfile)
        else if |aad| > 0 || |v.items[3].b| != 64 then Err(CoseProfile)
        else VerifyParts(c, v.items[0].b, v.items[2].b, v.items[3].b, pub, recheck)
  }

  function VerifyParts(c: Crypto, prot: bytes, payload: bytes, sig: bytes, pub: bytes, recheck: bool): Result<Verified, Diag> {
    match ParseChecked(prot, recheck)
    case Err(d) => Err(d)
    case Ok(p) =>
      if !(p.Map? && |p.entries| == 2) then Err(CoseProfile)
      else
        match ReadHeader(p.entries, HeaderState(false, None))
        case None => Err(CoseProfile)
        case Some(h) =>
          if h.kid.None? || !h.algOk || |pub| != 32 then Err(CoseProfile)
          else if !StrictInputs(pub, sig) || h.kid.value != Kid(c, pub) then Err(CoseProfile)
          else if !c.verify(pub, Encode(SigStructure(prot, payload)), sig) then Err(CoseProfile)
          else Ok(Verified(payload, h.kid.value))
  }

  /** Verification as its callers use it, without external data. */
  function Verify(c: Crypto, cose: bytes, pub: bytes): Result<Verified, Diag> {
    VerifyWith(c, cose, pub, [], true)
  }

  /** The imperative form: the header loop sets `algOk` and `kid` as it goes. */
  method VerifyCose(c: Crypto, cose: bytes, pub: bytes, aad: bytes) returns (r: Result<Verified, Diag>)
    ensures r == VerifyWith(c, cose, pub, aad, true)
  {
    hide ParseChecked, StrictInputs, Encode, TopLevelTag18;
    if TopLevelTag18(cose) {
      return Err(CoseTag18Forbidden);
    }
    var value := ParseChecked(cose, true);
    if value.Err? {
      return Err(value.error);
    }
    var v := value.value;
    if !v.Array? || |v.items| != 4 || !v.items[0].Bytes? || v.items[1] != Map([]) || |aad| > 0 {
      return Err(CoseProfile);
    }
    if !v.items[2].Bytes? || !v.items[3].Bytes? || |v.items[3].b| != 64 {
      return Err(CoseProfile);
    }
    var prot, payload, sig := v.items[0].b, v.items[2].b, v.items[3].b;
    var header := ParseChecked(prot, true);
    if header.Err? {
      return Err(header.error);
    }
    if !header.value.Map? || |header.value.entries| != 2 {
      return Err(CoseProfile);
    }
    var entries := header.value.entries;
    var algOk := false;
    var kid: Option<bytes> := None;
    assert entries[0..] == entries;
    for i := 0 to |entries|
      invariant ReadHeader(entries[i..], HeaderState(algOk, kid)) == ReadHeader(entries, HeaderState(false, None))
    {
      assert entries[i..][1..] == entries[i + 1..];
      if entries[i] == Entry(Unsigned(1), Negative(-19)) {
        algOk := true;
      } else if entries[i].key == Unsigned(4) && entries[i].value.Bytes? {
        if |entries[i].value.b| != 16 {
          return Err(CoseProfile);
        }
        kid := Some(entries[i].value.b);
      } else {
        return Err(CoseProfile);
      }
    }
    if kid.None? || !algOk || |pub| != 32 || !StrictInputs(pub, sig) || kid.value != Kid(c, pub) {
      return Err(CoseProfile);
    }
    if !c.verify(pub, Encode(SigStructure(prot, payload)), sig) {
      return Err(CoseProfile);
    }
    r := Ok(Verified(payload, kid.value));
  }

  /** The two re-encode comparisons never reject: leaving them out changes no answer. */
  lemma RecheckIsIdle(c: Crypto, cose: bytes, pub: bytes, aad: bytes)
    ensures VerifyWith(c, cose, pub, aad, true) == VerifyWith(c, cose, pub, aad, false)
  {
    hide VerifyParts, ParseExact, Encode, TopLevelTag18;
    SameParse(cose);
    forall prot, payload, sig ensures VerifyParts(c, prot, payload, sig, pub, true) == VerifyParts(c, prot, payload, sig, pub, false) {
      SameParts(c, prot, payload, sig, pub);
    }
  }

  lemma SameParse(s: bytes)
    ensures ParseChecked(s, true) == ParseChecked(s, false)
  {
    hide ParseExact, Encode, Wf, Ordered;
    if ParseExact(s, GENERIC_CANONICAL).Ok? {
      CanonicalParseExactly(s, GENERIC_CANONICAL, ParseExact(s, GENERIC_CANONICAL).value);
    }
  }

  lemma SameParts(c: Crypto, prot: bytes, payload: bytes, sig: bytes, pub: bytes)
    ensures VerifyParts(c, prot, payload, sig, pub, true) == VerifyParts(c, prot, payload, sig, pub, false)
  {
    hide ParseChecked, Encode, StrictInputs;
    SameParse(prot);
  }

  /** A COSE message accepted under two keys fixes their key identifier. */
  lemma KidIsFixed(c: Crypto, cose: bytes, pub1: bytes, pub2: bytes)
    requires Verify(c, cose, pub1).Ok? && Verify(c, cose, pub2).Ok?
    ensures Kid(c, pub1) == Kid(c, pub2)
  {
    hide ParseChecked, Encode, StrictInputs, ReadHeader, TopLevelTag18;
  }

  // ----- what an honest signer produces is accepted -----

  function ProtectedHeader(kid: bytes): CborValue {
    Map([Entry(Unsigned(1), Negative(-19)), Entry(Unsigned(4), Bytes(kid))])
  }

  lemma HeaderEncoding(kid: bytes)
    requires |kid| == 16
    ensures var h := ProtectedHeader(kid);
            Wf(h, 0, GENERIC_CANONICAL) && Ordered(h) && Encode(h) == [0xa2, 0x01, 0x32, 0x04, 0x50] + kid
  {
    hide Wf, Ordered, Encode;
    HeaderIsOrdered(kid);
    HeaderIsWf(kid);
    HeaderBytes(kid);
  }

  lemma HeaderIsWf(kid: bytes)
    requires |kid| == 16
    ensures Wf(ProtectedHeader(kid), 0, GENERIC_CANONICAL)
  {
    var es := ProtectedHeader(kid).entries;
    assert es[1..][1..] == [];
    assert Wf(Bytes(kid), 1, GENERIC_CANONICAL) && WfEntry(es[1], 1, GENERIC_CANONICAL);
    assert WfEntries(es[1..], 1, GENERIC_CANONICAL);
  }

  lemma HeaderIsOrdered(kid: bytes)
    requires |kid| == 16
    ensures Ordered(ProtectedHeader(kid)) && Ascending(None, ProtectedHeader(kid).entries)
  {
    var es := ProtectedHeader(kid).entries;
    assert es[1..][1..] == [];
    assert Encode(es[0].key) == [1] && Encode(es[1].key) == [4];
    assert Lex.Less([1], [4]);
    assert Ascending(Some([1]), es[1..]);
    assert OrderedEntries(es[1..][1..]);
    assert Ordered(Bytes(kid)) && OrderedEntry(es[1]);
    assert OrderedEntries(es[1..]);
  }

  lemma HeaderBytes(kid: bytes)
    requires |kid| == 16
    ensures Encode(ProtectedHeader(kid)) == [0xa2, 0x01, 0x32, 0x04, 0x50] + kid
  {
    hide Encode, Ordered, Ascending, Flatten, EncodeEntries, StableSort.Sort, Head;
    var es := ProtectedHeader(kid).entries;
    HeaderIsOrdered(kid);
    AscendingIsSorted(None, es);
    StableSort.SortedIsFixed(EncodeEntries(es), EntryLess);
    HeaderEntries(kid);
    FlattenTwo(EncodedEntry([0x01], [0x32]), EncodedEntry([0x04], [0x50] + kid));
    MapOnTheWire(es);
    TwoEntriesHead();
  }

  lemma {:induction false} MapOnTheWire(es: seq<Entry>)
    ensures Encode(Map(es)) == Head(5, |es|) + Flatten(StableSort.Sort(EncodeEntries(es), EntryLess))
  {
    hide Flatten, EncodeEntries, StableSort.Sort, Head;
  }

  lemma TwoEntriesHead()
    ensures Head(5, 2) == [0xa2]
  {
  }

  lemma HeaderEntries(kid: bytes)
    requires |kid| == 16
    ensures EncodeEntries(ProtectedHeader(kid).entries) == [EncodedEntry([0x01], [0x32]), EncodedEntry([0x04], [0x50] + kid)]
  {
    hide StableSort.Sort;
    var es := ProtectedHeader(kid).entries;
    assert es[1..][1..] == [];
    assert Encode(Bytes(kid)) == [0x50] + kid by { assert Head(2, 16) == [0x50]; }
    assert EncodeEntry(es[0]) == EncodedEntry([0x01], [0x32]);
    assert EncodeEntry(es[1]) == EncodedEntry([0x04], [0x50] + kid);
    assert EncodeEntries(es[1..]) == [EncodeEntry(es[1])];
  }

  lemma FlattenTwo(p: EncodedEntry, q: EncodedEntry)
    ensures Flatten([p, q]) == p.key + p.value + (q.key + q.value)
  {
    assert [p, q][1..] == [q] && [q][1..] == [];
    assert Flatten([q]) == q.key + q.value;
  }

  /** The envelope: canonical, and exactly 90 bytes and a length head longer than the payload it carries. */
  lemma EnvelopeEncoding(kid: bytes, payload: bytes, sig: bytes)
    requires |kid| == 16 && |sig| == 64 && |payload| < U64_BOUND
    ensures var v := CoseArray(Encode(ProtectedHeader(kid)), payload, sig);
            Wf(v, 0, GENERIC_CANONICAL) && Ordered(v) && Encode(v)[0] == 0x84 &&
            |Encode(v)| == |payload| + |Head(2, |payload|)| + 90 && (|payload| <= 0xffff ==> |Encode(v)| <= |payload| + 93)
  {
    hide Utf8Valid;
    HeaderBytes(kid);
    var prot := Encode(ProtectedHeader(kid));
    var a, b, c, d := Bytes(prot), Map([]), Bytes(payload), Bytes(sig);
    var v := CoseArray(prot, payload, sig);
    assert v.items == [a, b, c, d];
    FourItems(a, b, c, d, 1);
    EmptyMap();
    assert |Encode(a)| == 22;
    assert |Encode(c)| == |payload| + |Head(2, |payload|)|;
    assert |Encode(d)| == 66;
  }

  // ----- the bytes themselves -----

  /** What is signed (section 4.4 of RFC 9052): the context string, the protected header, no external data, the
      payload. */
  function SignedBytes(prot: bytes, payload: bytes): bytes {
    [0x84, 0x6a] + Utf8("Signature1") + Head(2, |prot|) + prot + [0x40] + Head(2, |payload|) + payload
  }

  /** The protected header: algorithm -19 and the key identifier. */
  function HeaderBytesOf(c: Crypto, pub: bytes): bytes {
    [0xa2, 0x01, 0x32, 0x04, 0x50] + c.sha256(pub)[..16]
  }

  /** The message (section 4.2 of RFC 9052): four items, the unprotected header empty. */
  function MessageBytes(prot: bytes, payload: bytes, sig: bytes): bytes {
    [0x84] + Head(2, |prot|) + prot + [0xa0] + Head(2, |payload|) + payload + Head(2, |sig|) + sig
  }

  /** The bytes signed, one by one. */
  lemma SigStructureBytes(prot: bytes, payload: bytes)
    ensures Encode(SigStructure(prot, payload)) == SignedBytes(prot, payload)
    ensures Encode(SigStructure(prot, payload)) ==
            [0x84, 0x6a] + Utf8("Signature1") + Head(2, |prot|) + prot + [0x40] + Head(2, |payload|) + payload
  {
    hide Encode, Wf, Ordered, Head, Utf8, Ascii, EncodeItems, WfItems, OrderedItems;
    AsciiIsUtf8("Signature1");
    var a, b, c, d := Text(Ascii("Signature1")), Bytes(prot), Bytes([]), Bytes(payload);
    FourItems(a, b, c, d, 1);
    FourItemBytes(a, b, c, d);
    StringBytes(Ascii("Signature1"));
    StringBytes(prot);
    StringBytes([]);
    StringBytes(payload);
    SmallHeads();
    assert SigStructure(prot, payload) == Array([a, b, c, d]);
    assert [0x40] + [] == [0x40];
  }

  lemma StringBytes(b: bytes)
    ensures Encode(Bytes(b)) == Head(2, |b|) + b && Encode(Text(b)) == Head(3, |b|) + b
  {
  }

  lemma SmallHeads()
    ensures Head(3, 10) == [0x6a] && Head(2, 0) == [0x40]
  {
  }

  lemma FourItemBytes(a: CborValue, b: CborValue, c: CborValue, d: CborValue)
    ensures Encode(Array([a, b, c, d])) == [0x84] + EncodeItems([a, b, c, d])
  {
  }

  /** The message, byte by byte. */
  lemma CoseArrayBytes(prot: bytes, payload: bytes, sig: bytes)
    ensures Encode(CoseArray(prot, payload, sig)) == MessageBytes(prot, payload, sig)
    ensures Encode(CoseArray(prot, payload, sig)) ==
            [0x84] + Head(2, |prot|) + prot + [0xa0] + Head(2, |payload|) + payload + Head(2, |sig|) + sig
  {
    hide Encode, Wf, Ordered, Head, EncodeItems, WfItems, OrderedItems;
    var a, b, c, d := Bytes(prot), Map([]), Bytes(payload), Bytes(sig);
    FourItems(a, b, c, d, 1);
    FourItemBytes(a, b, c, d);
    EmptyMap();
    StringBytes(prot);
    StringBytes(payload);
    StringBytes(sig);
    assert CoseArray(prot, payload, sig) == Array([a, b, c, d]);
  }

  lemma HeaderIsBytes(c: Crypto, pub: bytes)
    ensures Encode(ProtectedHeader(Kid(c, pub))) == HeaderBytesOf(c, pub)
  {
    hide Encode;
    HeaderEncoding(Kid(c, pub));
  }

  lemma EmptyMap()
    ensures Encode(Map([])) == [0xa0] && Wf(Map([]), 1, GENERIC_CANONICAL) && Ordered(Map([]))
  {
  }

  lemma FourItems(a: CborValue, b: CborValue, c: CborValue, d: CborValue, depth: nat)
    ensures EncodeItems([a, b, c, d]) == Encode(a) + (Encode(b) + (Encode(c) + Encode(d)))
    ensures Wf(a, depth, GENERIC_CANONICAL) && Wf(b, depth, GENERIC_CANONICAL) && Wf(c, depth, GENERIC_CANONICAL) && Wf(d, depth, GENERIC_CANONICAL)
            ==> WfItems([a, b, c, d], depth, GENERIC_CANONICAL)
    ensures Ordered(a) && Ordered(b) && Ordered(c) && Ordered(d) ==> OrderedItems([a, b, c, d])
  {
    hide Encode, Wf, Ordered, EncodeItems, WfItems, OrderedItems;
    NoItems(depth);
    ConsItems(d, [], depth);
    ConsItems(c, [d], depth);
    ConsItems(b, [c, d], depth);
    ConsItems(a, [b, c, d], depth);
    assert [d] + [] == [d] && [c] + [d] == [c, d] && [b] + [c, d] == [b, c, d] && [a] + [b, c, d] == [a, b, c, d];
    assert Encode(d) + [] == Encode(d);
  }

  lemma NoItems(depth: nat)
    ensures EncodeItems([]) == [] && WfItems([], depth, GENERIC_CANONICAL) && OrderedItems([])
  {
  }

  lemma ConsItems(x: CborValue, rest: seq<CborValue>, depth: nat)
    ensures EncodeItems([x] + rest) == Encode(x) + EncodeItems(rest)
    ensures WfItems([x] + rest, depth, GENERIC_CANONICAL) <==> Wf(x, depth, GENERIC_CANONICAL) && WfItems(rest, depth, GENERIC_CANONICAL)
    ensures OrderedItems([x] + rest) <==> Ordered(x) && OrderedItems(rest)
  {
    hide Encode, Wf, Ordered;
    assert ([x] + rest)[1..] == rest;
  }

  /** A message put together from the signer's own header and a signature that passes the input checks and
      verifies is accepted, and gives back payload and key identifier. */
  lemma HonestMessageVerifies(c: Crypto, pub: bytes, payload: bytes, sig: bytes)
    requires |payload| < U64_BOUND && StrictInputs(pub, sig)
    requires c.verify(pub, Encode(SigStructure(Encode(ProtectedHeader(Kid(c, pub))), payload)), sig)
    ensures var cose := Encode(CoseArray(Encode(ProtectedHeader(Kid(c, pub))), payload, sig));
            Verify(c, cose, pub) == Ok(Verified(payload, Kid(c, pub)))
  {
    hide Encode, StrictInputs, ParseExact, Wf, Ordered;
    var kid := Kid(c, pub);
    var h := ProtectedHeader(kid);
    var prot := Encode(h);
    var v := CoseArray(prot, payload, sig);
    assert |sig| == 64 by { assert StrictInputs(pub, sig); SigLength(pub, sig); }
    EnvelopeEncoding(kid, payload, sig);
    CanonicalParseExactly(Encode(v), GENERIC_CANONICAL, v);
    HeaderEncoding(kid);
    CanonicalParseExactly(prot, GENERIC_CANONICAL, h);
    HeaderReads(kid);
    assert |pub| == 32 by { SigLength(pub, sig); }
  }

  lemma SigLength(pub: bytes, sig: bytes)
    requires StrictInputs(pub, sig)
    ensures |pub| == 32 && |sig| == 64
  {
  }

  lemma HeaderReads(kid: bytes)
    requires |kid| == 16
    ensures ReadHeader(ProtectedHeader(kid).entries, HeaderState(false, None)) == Some(HeaderState(true, Some(kid)))
  {
    var es := ProtectedHeader(kid).entries;
    assert es[1..][1..] == [];
    assert ReadHeader([], HeaderState(true, Some(kid))) == Some(HeaderState(true, Some(kid)));
    assert ReadHeader(es[1..], HeaderState(true, None)) == Some(HeaderState(true, Some(kid)));
  }
}

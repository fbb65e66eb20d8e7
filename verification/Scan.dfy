/** From a scanned QR text to a persistence-ready record: GR1 transport, trust, COSE, payload. */
module Scan {
  import opened Prelude
  import opened Cbor
  import opened Cose
  import opened ServingOffer
  import Base45
  import Hex

  const MAX_GR1_BYTES := 16 * 1024

  /** What a zlib stream yields: the bytes produced, and whether it then broke. */
  datatype Inflated = Inflated(output: bytes, failed: bool)

  /** Base64, zlib and cryptography, left abstract. */
  datatype World = World(
    crypto: Crypto,
    b64Encode: bytes -> string,
    b64Decode: string -> Option<bytes>,
    deflate: bytes -> bytes,
    inflate: bytes -> Inflated)

  predicate White(c: char) {
    var n := c as int;
    9 <= n <= 13 || n == 32 || n == 0x85 || n == 0xa0 || n == 0x1680 || 0x2000 <= n <= 0x200a
    || n == 0x2028 || n == 0x2029 || n == 0x202f || n == 0x205f || n == 0x3000
  }

  predicate Blank(s: string) {
    forall i :: 0 <= i < |s| ==> White(s[i])
  }

  /** No white space at either end. */
  predicate Trimmed(s: string) {
    |s| > 0 ==> !White(s[0]) && !White(s[|s| - 1])
  }

  /** Standard padded Base64 is a bijection onto the texts it accepts; none begins or ends with white space. */
  ghost predicate Base64Laws(w: World) {
    (forall b :: w.b64Decode(w.b64Encode(b)) == Some(b)) &&
    (forall s :: w.b64Decode(s).Some? ==> w.b64Encode(w.b64Decode(s).value) == s) &&
    (forall b :: Trimmed(w.b64Encode(b))) &&
    w.b64Encode([]) == ""
  }

  /** Decompression undoes compression. */
  ghost predicate ZlibLaw(w: World) {
    forall b :: w.inflate(w.deflate(b)) == Inflated(b, false)
  }

  /** `decode_gr1_to_cose`. At most one byte past the limit is read, so a break further on goes unnoticed. */
  function DecodeGr1(w: World, qr: string): Result<bytes, Diag> {
    if !("GR1:" <= qr) then Err(QrPrefix)
    else
      var packed := Base45.Decode(qr[4..]);
      if packed.None? then Err(Schema)
      else
        var z := w.inflate(packed.value);
        if |z.output| > MAX_GR1_BYTES then Err(Limit)
        else if z.failed || |z.output| == 0 then Err(Schema)
        else Ok(z.output)
  }

  datatype ScanError = TrustInvalid | TrustRequired | Core(d: Diag)

  datatype ScanRecord = ScanRecord(scanId: string, coseB64: string, trustPubB64: string)

  function ScanId(w: World, cose: bytes): string {
    "scan-sha256:" + Hex.Encode(w.crypto.sha256(cose))
  }

  /** `decode_trust_pub_b64`. */
  function TrustPub(w: World, trust: string): Option<bytes> {
    if Blank(trust) then None
    else
      var pub := w.b64Decode(trust);
      if pub.None? || |pub.value| == 0 then None else pub
  }

  /** `prepare_accepted_scan`. */
  function Prepare(w: World, cose: bytes, trust: string): Result<ScanRecord, ScanError> {
    var pub := TrustPub(w, trust);
    if pub.None? then Err(TrustInvalid)
    else
      match Verify(w.crypto, cose, pub.value)
      case Err(d) => Err(Core(d))
      case Ok(verified) =>
        match ValidateOffer(verified.payload, verified.kid)
        case Err(d) => Err(Core(d))
        case Ok(_) => Ok(ScanRecord(ScanId(w, cose), w.b64Encode(cose), trust))
  }

  /** `scan_accept_prepare`. */
  function AcceptPrepare(w: World, qr: string, trust: Option<string>): Result<ScanRecord, ScanError> {
    match DecodeGr1(w, qr)
    case Err(d) => Err(Core(d))
    case Ok(cose) => if trust.None? then Err(TrustRequired) else Prepare(w, cose, trust.value)
  }

  /** `validate_accepted_scan_record`. */
  predicate ValidRecord(w: World, r: ScanRecord) {
    var cose := w.b64Decode(r.coseB64);
    cose.Some? &&
    var expected := Prepare(w, cose.value, r.trustPubB64);
    expected.Ok? && r.scanId == expected.value.scanId && r.coseB64 == expected.value.coseB64
  }

  /** A prepared record re-validates. */
  lemma PreparedIsValid(w: World, cose: bytes, trust: string)
    requires Base64Laws(w) && Prepare(w, cose, trust).Ok?
    ensures ValidRecord(w, Prepare(w, cose, trust).value)
  {
    hide Verify, ValidateOffer, TrustPub, ScanId;
  }

  /** The scanned bytes of a valid record. */
  function CoseOf(w: World, r: ScanRecord): bytes {
    var cose := w.b64Decode(r.coseB64);
    if cose.Some? then cose.value else []
  }

  function PubOf(w: World, r: ScanRecord): bytes {
    var pub := w.b64Decode(r.trustPubB64);
    if pub.Some? then pub.value else []
  }

  /** Valid records with one scan identifier are the same record, if the hash does not collide on the
      scanned messages and the key identifiers do not collide on the trusted keys. */
  lemma OneRecordPerScanId(w: World, a: ScanRecord, b: ScanRecord)
    requires Base64Laws(w) && ValidRecord(w, a) && ValidRecord(w, b) && a.scanId == b.scanId
    requires w.crypto.sha256(CoseOf(w, a)) == w.crypto.sha256(CoseOf(w, b)) ==> CoseOf(w, a) == CoseOf(w, b)
    requires Kid(w.crypto, PubOf(w, a)) == Kid(w.crypto, PubOf(w, b)) ==> PubOf(w, a) == PubOf(w, b)
    ensures a == b
  {
    hide Verify, ValidateOffer, Hex.Encode;
    var ca, cb := CoseOf(w, a), CoseOf(w, b);
    assert ScanId(w, ca)[12..] == Hex.Encode(w.crypto.sha256(ca));
    assert ScanId(w, cb)[12..] == Hex.Encode(w.crypto.sha256(cb));
    Hex.Injective(w.crypto.sha256(ca), w.crypto.sha256(cb));
    KidIsFixed(w.crypto, ca, PubOf(w, a), PubOf(w, b));
  }
}

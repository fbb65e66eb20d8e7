/** Payload validation for serving offers: the typed validator of grain-core, the schema-level check of
    `validate_strict_dagcbor`, and the issuer's own combination of the two. */
module ServingOffer {
  import opened Prelude
  import opened Cbor
  import opened CborCanonical
  import opened SetArrays

  const MAX_OBJECT_BYTES := 5_000_000
  const MAX_OFFER_BYTES := 2_048
  const MAX_EXT_BYTES := 65_536

  function Key(v: CborValue, name: string): Option<CborValue> {
    MapGet(v, Ascii(name))
  }

  predicate IsText(v: Option<CborValue>, name: string) {
    v.Some? && v.value == Text(Ascii(name))
  }

  predicate OneOf(key: CborValue, names: seq<string>) {
    exists i :: 0 <= i < |names| && key == Text(Ascii(names[i]))
  }

  // ----- schema registry: top-level keys by object type -----

  const COMMON := ["v", "t", "ext", "crit"]
  const OFFER_KEYS := COMMON + ["issuer_kid", "serving_g", "mean", "var", "nonce"]

  const OTHER_SCHEMAS: seq<(string, seq<string>)> := [
    ("IngredientRef", COMMON + ["ref_type", "ref_id", "ref_version", "name"]),
    ("NutrientProfile", COMMON + ["dataset_snapshot_id", "source", "basis", "nutr", "uncert"]),
    ("CookRun", COMMON + ["inputs", "yield_g", "ts_ms"]),
    ("NutritionComputeResult", COMMON + ["cookrun", "engine_id", "engine_version", "dataset_snapshot_id", "map", "out"]),
    ("IntakeEvent", COMMON + ["source_class", "mean", "var", "mode", "cookrun", "amount_g", "ing", "profile", "servings", "ts_ms"]),
    ("LedgerGenesis", COMMON + ["root_kid", "root_pub"]),
    ("DeviceKeyGrant", COMMON + ["ak", "pub", "caps"]),
    ("DeviceKeyRevoke", COMMON + ["ak"]),
    ("VoidEvent", COMMON + ["target", "reason"]),
    ("CorrectionEvent", COMMON + ["target", "reason"]),
    ("LedgerEvent", COMMON + ["ak", "seq", "ts_ms", "body"]),
    ("EncryptedObject", COMMON + ["alg", "cap_id", "nonce", "ct"]),
    ("ManifestRecord", COMMON + ["ak", "seq", "cid", "op", "cap_id", "chash", "size"])
  ]

  function SchemaFrom(t: CborValue, i: nat): Option<seq<string>>
    requires i <= |OTHER_SCHEMAS|
    decreases |OTHER_SCHEMAS| - i
  {
    if i == |OTHER_SCHEMAS| then None
    else if t == Text(Ascii(OTHER_SCHEMAS[i].0)) then Some(OTHER_SCHEMAS[i].1)
    else SchemaFrom(t, i + 1)
  }

  /** `schema_for_legacy_t`: the names are distinct, so the order of the table does not matter. */
  function SchemaKeys(t: CborValue): Option<seq<string>> {
    if t == Text(Ascii("ServingOffer")) then Some(OFFER_KEYS) else SchemaFrom(t, 0)
  }

  // ----- shared checks -----

  function KeysFault(entries: seq<Entry>, allowed: seq<string>): Option<Diag> {
    if |entries| == 0 then None
    else if !entries[0].key.Text? then Some(NonCanonical)
    else if !OneOf(entries[0].key, allowed) then Some(UnknownTopLevelKey)
    else KeysFault(entries[1..], allowed)
  }

  const CID_PREFIX: bytes := [0x00, 0x01, 0x71, 0x12, 0x20]

  function CidLinkFault(v: CborValue): Option<Diag> {
    if !(v.Tag? && v.tag == 42 && v.inner.Bytes?) then Some(BadCidLink)
    else if |v.inner.b| != 37 || v.inner.b[..5] != CID_PREFIX then Some(BadCidLink)
    else None
  }

  /** `validate_all_cid_links`. */
  function LinksFault(v: CborValue): Option<Diag>
    decreases v, 1
  {
    match v
    case Tag(tag, _) => if tag == 42 then CidLinkFault(v) else Some(TagForbidden)
    case Array(items) => ItemLinksFault(items)
    case Map(entries) => EntryLinksFault(entries)
    case _ => None
  }

  function ItemLinksFault(items: seq<CborValue>): Option<Diag>
    decreases items, 0
  {
    if |items| == 0 then None
    else if LinksFault(items[0]).Some? then LinksFault(items[0])
    else ItemLinksFault(items[1..])
  }

  function EntryLinksFault(entries: seq<Entry>): Option<Diag>
    decreases entries, 1
  {
    if |entries| == 0 then None
    else if EntryLinkFault(entries[0]).Some? then EntryLinkFault(entries[0])
    else EntryLinksFault(entries[1..])
  }

  function EntryLinkFault(e: Entry): Option<Diag>
    decreases e, 0
  {
    if LinksFault(e.key).Some? then LinksFault(e.key) else LinksFault(e.value)
  }

  /** `validate_common_fields`. */
  function CommonFault(v: CborValue): Option<Diag> {
    var ext, crit := Key(v, "ext"), Key(v, "crit");
    if ext.Some? && !ext.value.Map? then Some(Schema)
    else if ext.Some? && |Encode(ext.value)| > MAX_EXT_BYTES then Some(Limit)
    else if crit.Some? then TextSetFault(crit.value, true)
    else None
  }

  function Int64Fault(v: CborValue, nonnegative: bool): Option<Diag> {
    match v
    case Unsigned(n) => if n <= I64_MAX then None else Some(Schema)
    case Negative(i) => if !nonnegative && i >= I64_MIN then None else Some(Schema)
    case _ => Some(Schema)
  }

  function NutrientsFault(entries: seq<Entry>, nonnegative: bool): Option<Diag> {
    if |entries| == 0 then None
    else if !entries[0].key.Text? then Some(NonCanonical)
    else if Int64Fault(entries[0].value, nonnegative).Some? then Some(Schema)
    else NutrientsFault(entries[1..], nonnegative)
  }

  function NutrientMapFault(v: Option<CborValue>, nonnegative: bool): Option<Diag> {
    if v.None? || !v.value.Map? then Some(Schema) else NutrientsFault(v.value.entries, nonnegative)
  }

  /** `validate_serving_offer`. */
  function OfferFault(v: CborValue): Option<Diag> {
    var kid, grams, nonce := Key(v, "issuer_kid"), Key(v, "serving_g"), Key(v, "nonce");
    if kid.None? || !kid.value.Bytes? || |kid.value.b| != 16 then Some(Schema)
    else if grams.None? || Int64Fault(grams.value, true).Some? then Some(Schema)
    else if NutrientMapFault(Key(v, "mean"), false).Some? then NutrientMapFault(Key(v, "mean"), false)
    else if NutrientMapFault(Key(v, "var"), true).Some? then NutrientMapFault(Key(v, "var"), true)
    else if nonce.Some? && !nonce.value.Bytes? then Some(Schema)
    else None
  }

  // ----- validators -----

  /** `parse_strict_dagcbor_encoding`. */
  function ParseStrict(payload: bytes): Result<CborValue, Diag> {
    if |payload| > MAX_OBJECT_BYTES then Err(Limit)
    else match ParseExact(payload, STRICT_DAG_CBOR)
      case Ok(v) => Ok(v)
      case Err(e) => Err(FailDiag(e))
  }

  /** `validate_typed_object_v1` for the production `ServingOffer`, its checks in source order. */
  function ValidateTyped(payload: bytes): Result<CborValue, Diag> {
    if |payload| > MAX_OFFER_BYTES then Err(Limit)
    else
      var parsed := ParseStrict(payload);
      if parsed.Err? then parsed
      else
        var v := parsed.value;
        if LinksFault(v).Some? then Err(LinksFault(v).value)
        else if !v.Map? then Err(Schema)
        else if Key(v, "v") != Some(Unsigned(1)) then Err(Schema)
        else if !IsText(Key(v, "t"), "ServingOffer") then Err(Schema)
        else if KeysFault(v.entries, OFFER_KEYS).Some? then Err(KeysFault(v.entries, OFFER_KEYS).value)
        else if CommonFault(v).Some? then Err(CommonFault(v).value)
        else if OfferFault(v).Some? then Err(OfferFault(v).value)
        else Ok(v)
  }

  /** `validate_serving_offer_payload` of grain-core: the check the scanner makes. */
  function ValidateOffer(payload: bytes, kid: bytes): Result<CborValue, Diag> {
    if |kid| != 16 then Err(Schema)
    else
      var typed := ValidateTyped(payload);
      if typed.Err? then typed
      else if Key(typed.value, "issuer_kid") != Some(Bytes(kid)) then Err(Schema)
      else typed
  }

  /** `validate_schema_level`. */
  function SchemaLevelFault(v: CborValue): Option<Diag> {
    if !v.Map? then None
    else
      var t := Key(v, "t");
      if t.None? || !t.value.Text? then None
      else
        var keys, crit, caps := SchemaKeys(t.value), Key(v, "crit"), Key(v, "caps");
        if keys.Some? && KeysFault(v.entries, keys.value).Some? then KeysFault(v.entries, keys.value)
        else if crit.Some? && TextSetFault(crit.value, true).Some? then TextSetFault(crit.value, true)
        else if IsText(t, "DeviceKeyGrant") && caps.Some? then TextSetFault(caps.value, false)
        else None
  }

  /** `validate_strict_dagcbor`. */
  function ValidateStrict(payload: bytes): Result<CborValue, Diag> {
    var parsed := ParseStrict(payload);
    if parsed.Ok? && SchemaLevelFault(parsed.value).Some? then Err(SchemaLevelFault(parsed.value).value) else parsed
  }

  datatype IssuerError = PayloadRejected(d: Diag) | NotServingOffer | IssuerKidMismatch | IssuerKidMissing

  /** The issuer's `validate_serving_offer_payload`: strict check, type, key identifier, then the core check. */
  function IssuerFault(payload: bytes, kid: bytes): Option<IssuerError> {
    var strict := ValidateStrict(payload);
    if strict.Err? then Some(PayloadRejected(strict.error))
    else if !IsText(Key(strict.value, "t"), "ServingOffer") then Some(NotServingOffer)
    else
      var k := Key(strict.value, "issuer_kid");
      if k.Some? && k.value.Bytes? then
        if k.value.b != kid then Some(IssuerKidMismatch)
        else if ValidateOffer(payload, kid).Err? then Some(PayloadRejected(ValidateOffer(payload, kid).error))
        else None
      else Some(IssuerKidMissing)
  }

  /** The issuer accepts exactly the payloads that the scanner's validator accepts for its key: the checks it
      makes beforehand only choose the error. */
  lemma IssuerAcceptsWhatScannersAccept(payload: bytes, kid: bytes)
    ensures IssuerFault(payload, kid).None? <==> ValidateOffer(payload, kid).Ok?
  {
    hide Encode, ParseExact, TextSetFault, LinksFault, KeysFault, OfferFault;
    if ValidateOffer(payload, kid).Ok? {
      var v := ParseStrict(payload).value;
      var t := Text(Ascii("ServingOffer"));
      assert Key(v, "t") == Some(t);
      assert SchemaKeys(t) == Some(OFFER_KEYS);
      DifferentNames();
      assert !IsText(Key(v, "t"), "DeviceKeyGrant");
      assert SchemaLevelFault(v).None?;
    }
  }

  lemma DifferentNames()
    ensures Ascii("ServingOffer") != Ascii("DeviceKeyGrant")
  {
    assert |Ascii("ServingOffer")| == 12;
    assert |Ascii("DeviceKeyGrant")| == 14;
  }
}

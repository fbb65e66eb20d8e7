/** What a serving offer is, written out on the entries of the decoded map, and which fault is reported
    otherwise (core/rust/grain-core/src/typed_object.rs, serving_offer.rs). */
module ServingOfferTheorems {
  import opened Prelude
  import opened Cbor
  import opened CborCanonical
  import opened CborModes
  import opened SetArrays
  import opened ServingOffer
  import Cid
  import Lex
  import StableSort
  import Texts

  // ----- the fields of an ordered map -----

  function Name(s: string): CborValue { Text(Texts.Utf8(s)) }

  /** The map gives this value to that name. */
  predicate Holds(entries: seq<Entry>, name: string, v: CborValue) {
    Entry(Name(name), v) in entries
  }

  lemma {:induction false} AllAbove(prev: bytes, entries: seq<Entry>, i: nat)
    requires Ascending(Some(prev), entries) && i < |entries|
    ensures Lex.KeyLess(prev, Encode(entries[i].key))
    decreases entries
  {
    hide Encode;
    if i > 0 {
      AllAbove(Encode(entries[0].key), entries[1..], i - 1);
      Lex.KeyTransitive(prev, Encode(entries[0].key), Encode(entries[i].key));
    }
  }

  /** Looking a name up in an ordered map is membership. */
  lemma {:induction false} FindIsMember(prev: Option<bytes>, entries: seq<Entry>, key: bytes, v: CborValue)
    requires Ascending(prev, entries)
    ensures Find(entries, key) == Some(v) <==> Entry(Text(key), v) in entries
    decreases entries
  {
    hide Encode;
    if |entries| > 0 {
      var rest := entries[1..];
      FindIsMember(Some(Encode(entries[0].key)), rest, key, v);
      assert entries == [entries[0]] + rest;
      if entries[0].key == Text(key) && Entry(Text(key), v) in rest {
        var i :| 0 <= i < |rest| && rest[i] == Entry(Text(key), v);
        AllAbove(Encode(entries[0].key), rest, i);
        Lex.KeyTrichotomy(Encode(Text(key)), Encode(Text(key)));
      }
    }
  }

  predicate Plain(s: string) {
    forall i :: 0 <= i < |s| ==> s[i] as int < 0x80
  }

  /** Reading a field of an ordered map. */
  lemma KeyIsField(v: CborValue, name: string)
    requires v.Map? && Ordered(v) && Plain(name)
    ensures Ascii(name) == Texts.Utf8(name)
    ensures Key(v, name).Some? ==> Holds(v.entries, name, Key(v, name).value)
    ensures forall x :: Holds(v.entries, name, x) ==> Key(v, name) == Some(x)
  {
    hide Encode, Ascii, Texts.Utf8, Find;
    Texts.AsciiIsUtf8(name);
    if Key(v, name).Some? {
      FindIsMember(None, v.entries, Ascii(name), Key(v, name).value);
    }
    forall x | Holds(v.entries, name, x) ensures Key(v, name) == Some(x) {
      FindIsMember(None, v.entries, Ascii(name), x);
    }
  }

  // ----- links -----

  /** Every tag in the value is 42 over a CIDv1 link: codec DAG-CBOR, SHA-256, 32 bytes. */
  predicate LinksOk(v: CborValue)
    decreases v
  {
    match v
    case Tag(tag, inner) => tag == 42 && inner.Bytes? && |inner.b| == 37 && [0x00, 0x01, 0x71, 0x12, 0x20] <= inner.b
    case Array(items) => forall i :: 0 <= i < |items| ==> LinksOk(items[i])
    case Map(entries) => forall i :: 0 <= i < |entries| ==> LinksOk(entries[i].key) && LinksOk(entries[i].value)
    case _ => true
  }

  lemma {:induction false} LinksAccepted(v: CborValue)
    ensures LinksFault(v).None? <==> LinksOk(v)
    decreases v, 1
  {
    match v
    case Tag(tag, inner) =>
      if tag == 42 && inner.Bytes? && |inner.b| == 37 { assert inner.b[..5] == CID_PREFIX <==> [0x00, 0x01, 0x71, 0x12, 0x20] <= inner.b; }
    case Array(items) => ItemLinksAccepted(items);
    case Map(entries) => EntryLinksAccepted(entries);
    case _ =>
  }

  lemma {:induction false} ItemLinksAccepted(items: seq<CborValue>)
    ensures ItemLinksFault(items).None? <==> forall i :: 0 <= i < |items| ==> LinksOk(items[i])
    decreases items, 0
  {
    hide LinksFault, LinksOk;
    if |items| > 0 {
      var rest := items[1..];
      LinksAccepted(items[0]);
      ItemLinksAccepted(rest);
      assert forall i :: 0 <= i < |rest| ==> rest[i] == items[i + 1];
      assert forall i :: 1 <= i < |items| ==> items[i] == rest[i - 1];
    }
  }

  lemma {:induction false} EntryLinksAccepted(entries: seq<Entry>)
    ensures EntryLinksFault(entries).None? <==>
            forall i :: 0 <= i < |entries| ==> LinksOk(entries[i].key) && LinksOk(entries[i].value)
    decreases entries, 1
  {
    hide LinksFault, LinksOk;
    if |entries| > 0 {
      var rest := entries[1..];
      EntryLinkAccepted(entries[0]);
      EntryLinksAccepted(rest);
      assert forall i :: 0 <= i < |rest| ==> rest[i] == entries[i + 1];
      assert forall i :: 1 <= i < |entries| ==> entries[i] == rest[i - 1];
    }
  }

  lemma {:induction false} EntryLinkAccepted(e: Entry)
    ensures EntryLinkFault(e).None? <==> LinksOk(e.key) && LinksOk(e.value)
    decreases e, 0
  {
    hide LinksFault, LinksOk;
    LinksAccepted(e.key);
    LinksAccepted(e.value);
  }

  /** In a strictly decoded value the fault is always that of the link: other tags were refused before. */
  lemma {:induction false} OnlyBadLinks(v: CborValue, depth: nat)
    requires Admitted(v, depth, true) && LinksFault(v).Some?
    ensures LinksFault(v) == Some(BadCidLink)
    decreases v, 1
  {
    match v
    case Tag(_, _) =>
    case Array(items) => OnlyBadItemLinks(items, depth + 1);
    case Map(entries) => OnlyBadEntryLinks(entries, depth + 1);
  }

  lemma {:induction false} OnlyBadItemLinks(items: seq<CborValue>, depth: nat)
    requires (forall i :: 0 <= i < |items| ==> Admitted(items[i], depth, true)) && ItemLinksFault(items).Some?
    ensures ItemLinksFault(items) == Some(BadCidLink)
    decreases items, 0
  {
    hide LinksFault, Admitted;
    if LinksFault(items[0]).Some? {
      OnlyBadLinks(items[0], depth);
    } else {
      OnlyBadItemLinks(items[1..], depth);
    }
  }

  lemma {:induction false} OnlyBadEntryLinks(entries: seq<Entry>, depth: nat)
    requires forall i :: 0 <= i < |entries| ==> Admitted(entries[i].key, depth, true) && Admitted(entries[i].value, depth, true)
    requires EntryLinksFault(entries).Some?
    ensures EntryLinksFault(entries) == Some(BadCidLink)
    decreases entries, 1
  {
    hide LinksFault, Admitted;
    if EntryLinkFault(entries[0]).Some? {
      OnlyBadEntryLink(entries[0], depth);
    } else {
      OnlyBadEntryLinks(entries[1..], depth);
    }
  }

  lemma {:induction false} OnlyBadEntryLink(e: Entry, depth: nat)
    requires Admitted(e.key, depth, true) && Admitted(e.value, depth, true) && EntryLinkFault(e).Some?
    ensures EntryLinkFault(e) == Some(BadCidLink)
    decreases e, 0
  {
    hide LinksFault, Admitted;
    if LinksFault(e.key).Some? {
      OnlyBadLinks(e.key, depth);
    } else {
      OnlyBadLinks(e.value, depth);
    }
  }

  // ----- the single conditions -----

  const FIELDS: set<string> := {"v", "t", "ext", "crit", "issuer_kid", "serving_g", "mean", "var", "nonce"}

  predicate Known(key: CborValue, names: set<string>) {
    exists name :: name in names && key == Name(name)
  }

  /** A signed 64-bit number, or one that is not negative. */
  predicate Number(v: CborValue, nonnegative: bool) {
    (v.Unsigned? && v.n <= 0x7fff_ffff_ffff_ffff) || (!nonnegative && v.Negative? && v.i >= -0x8000_0000_0000_0000)
  }

  predicate Nutrients(v: CborValue, nonnegative: bool) {
    v.Map? && forall e :: e in v.entries ==> e.key.Text? && Number(e.value, nonnegative)
  }

  /** At most 64 texts of at most 4096 bytes together, each bytewise above the one before. */
  predicate CritOk(v: CborValue) {
    v.Array? && |v.items| <= 64 && (forall i :: 0 <= i < |v.items| ==> v.items[i].Text?) &&
    (forall i, j :: 0 <= i < j < |v.items| ==> Lex.Less(v.items[i].t, v.items[j].t)) && |Joined(v.items)| <= 4096
  }

  lemma CritAccepted(v: CborValue)
    ensures TextSetFault(v, true).None? <==> CritOk(v)
  {
    hide Joined, TotalBytes, TextSetFault;
    TextSetAccepted(v, true);
    if v.Array? && AllText(v.items) {
      JoinedLength(v.items);
      var ts := SetArrays.Texts(v.items);
      if CritOk(v) {
        forall i, j | 0 <= i < j < |ts| ensures ByteLess(ts[i], ts[j]) {
        }
      }
      if IsTextSet(v, true) {
        forall i, j | 0 <= i < j < |v.items| ensures Lex.Less(v.items[i].t, v.items[j].t) {
          assert ByteLess(ts[i], ts[j]);
        }
      }
    }
  }

  lemma NumberAccepted(v: CborValue, nonnegative: bool)
    ensures Int64Fault(v, nonnegative) == if Number(v, nonnegative) then None else Some(Schema)
  {
  }

  lemma {:induction false} NutrientsAccepted(entries: seq<Entry>, nonnegative: bool)
    requires forall e :: e in entries ==> e.key.Text?
    ensures NutrientsFault(entries, nonnegative) == if Nutrients(Map(entries), nonnegative) then None else Some(Schema)
  {
    hide Int64Fault, Number;
    if |entries| > 0 {
      NumberAccepted(entries[0].value, nonnegative);
      NutrientsAccepted(entries[1..], nonnegative);
      assert entries == [entries[0]] + entries[1..];
    }
  }

  lemma {:induction false} KeysAccepted(entries: seq<Entry>, allowed: seq<string>)
    requires forall e :: e in entries ==> e.key.Text?
    ensures KeysFault(entries, allowed) == if forall e :: e in entries ==> OneOf(e.key, allowed) then None else Some(UnknownTopLevelKey)
  {
    hide OneOf;
    if |entries| > 0 {
      KeysAccepted(entries[1..], allowed);
      assert entries == [entries[0]] + entries[1..];
    }
  }

  lemma OfferNames(key: CborValue)
    ensures OneOf(key, OFFER_KEYS) <==> Known(key, FIELDS)
  {
    hide Ascii, Texts.Utf8;
    assert OFFER_KEYS == ["v", "t", "ext", "crit", "issuer_kid", "serving_g", "mean", "var", "nonce"];
    forall name | name in FIELDS ensures Ascii(name) == Texts.Utf8(name) {
      Texts.AsciiIsUtf8(name);
    }
    if OneOf(key, OFFER_KEYS) {
      var i :| 0 <= i < |OFFER_KEYS| && key == Text(Ascii(OFFER_KEYS[i]));
      assert OFFER_KEYS[i] in FIELDS;
      assert key == Name(OFFER_KEYS[i]);
    }
    if name :| name in FIELDS && key == Name(name) {
      assert name in OFFER_KEYS;
      var i :| 0 <= i < |OFFER_KEYS| && OFFER_KEYS[i] == name;
      assert key == Text(Ascii(OFFER_KEYS[i]));
    }
  }

  // ----- offers -----

  ghost predicate OnlyKnown(entries: seq<Entry>) {
    forall e :: e in entries ==> Known(e.key, FIELDS)
  }

  ghost predicate AmountsOk(entries: seq<Entry>) {
    (exists x :: Holds(entries, "serving_g", x) && Number(x, true)) &&
    (exists x :: Holds(entries, "mean", x) && Nutrients(x, false)) &&
    (exists x :: Holds(entries, "var", x) && Nutrients(x, true)) &&
    (forall x :: Holds(entries, "nonce", x) ==> x.Bytes?)
  }

  ghost predicate ExtensionsOk(entries: seq<Entry>) {
    (forall x :: Holds(entries, "ext", x) ==> x.Map? && |Encode(x)| <= 65_536) &&
    (forall x :: Holds(entries, "crit", x) ==> CritOk(x))
  }

  /** A serving offer for a key identifier. */
  ghost predicate IsOffer(v: CborValue, kid: bytes) {
    v.Map? && LinksOk(v) && OnlyKnown(v.entries) &&
    Holds(v.entries, "v", Unsigned(1)) && Holds(v.entries, "t", Name("ServingOffer")) &&
    |kid| == 16 && Holds(v.entries, "issuer_kid", Bytes(kid)) && AmountsOk(v.entries) && ExtensionsOk(v.entries)
  }

  /** What holds of a field that must, or may, be there. */
  lemma FieldMeets(v: CborValue, name: string, meets: CborValue -> bool)
    requires v.Map? && Ordered(v) && Plain(name)
    ensures Key(v, name).Some? && meets(Key(v, name).value) <==> exists x :: Holds(v.entries, name, x) && meets(x)
    ensures Key(v, name).None? || meets(Key(v, name).value) <==> forall x :: Holds(v.entries, name, x) ==> meets(x)
  {
    hide Key, Holds, Ordered;
    KeyIsField(v, name);
  }

  lemma CommonAccepted(v: CborValue)
    requires v.Map? && Ordered(v)
    ensures var r := CommonFault(v);
            if exists x :: Holds(v.entries, "ext", x) && !x.Map? then r == Some(Schema)
            else if exists x :: Holds(v.entries, "ext", x) && |Encode(x)| > 65_536 then r == Some(Limit)
            else if exists x :: Holds(v.entries, "crit", x) && !CritOk(x) then
              exists x :: Holds(v.entries, "crit", x) && r == TextSetFault(x, true) && r.Some?
            else r == None && ExtensionsOk(v.entries)
  {
    hide Key, Holds, Ordered, Encode, CritOk, TextSetFault;
    KeyIsField(v, "ext");
    KeyIsField(v, "crit");
    var crit := Key(v, "crit");
    if crit.Some? {
      CritAccepted(crit.value);
      assert Holds(v.entries, "crit", crit.value);
    }
  }

  /** Strictly decoded maps have text keys, at every level. */
  lemma TextKeys(v: CborValue, depth: nat, name: string)
    requires v.Map? && Admitted(v, depth, true)
    ensures forall e :: e in v.entries ==> e.key.Text?
    ensures forall x, e :: Holds(v.entries, name, x) && x.Map? && e in x.entries ==> e.key.Text?
  {
    forall x, e | Holds(v.entries, name, x) && x.Map? && e in x.entries ensures e.key.Text? {
      var i :| 0 <= i < |v.entries| && v.entries[i] == Entry(Name(name), x);
      assert Admitted(v.entries[i].value, depth + 1, true);
    }
  }

  lemma NutrientField(v: CborValue, name: string, nonnegative: bool)
    requires v.Map? && Ordered(v) && Admitted(v, 0, true) && Plain(name)
    ensures NutrientMapFault(Key(v, name), nonnegative) ==
            if exists x :: Holds(v.entries, name, x) && Nutrients(x, nonnegative) then None else Some(Schema)
  {
    hide Key, Holds, Ordered, Admitted, Nutrients, NutrientsFault;
    KeyIsField(v, name);
    TextKeys(v, 0, name);
    var x := Key(v, name);
    if x.Some? && x.value.Map? {
      NutrientsAccepted(x.value.entries, nonnegative);
      assert Map(x.value.entries) == x.value;
    }
    forall y | Nutrients(y, nonnegative) ensures y.Map? {
      NutrientsAreMaps(y, nonnegative);
    }
  }

  lemma NutrientsAreMaps(v: CborValue, nonnegative: bool)
    requires Nutrients(v, nonnegative)
    ensures v.Map?
  {
  }

  lemma OwnFieldsAccepted(v: CborValue)
    requires v.Map? && Ordered(v) && Admitted(v, 0, true)
    ensures OfferFault(v) ==
            if (exists x :: Holds(v.entries, "issuer_kid", x) && x.Bytes? && |x.b| == 16) && AmountsOk(v.entries) then None else Some(Schema)
  {
    hide Key, Holds, Ordered, Admitted, Nutrients, NutrientMapFault, Number, Int64Fault;
    FieldMeets(v, "issuer_kid", (x: CborValue) => x.Bytes? && |x.b| == 16);
    FieldMeets(v, "serving_g", (x: CborValue) => Number(x, true));
    FieldMeets(v, "nonce", (x: CborValue) => x.Bytes?);
    if Key(v, "serving_g").Some? {
      NumberAccepted(Key(v, "serving_g").value, true);
    }
    NutrientField(v, "mean", false);
    NutrientField(v, "var", true);
  }

  lemma KnownFields(v: CborValue)
    requires v.Map? && Admitted(v, 0, true)
    ensures KeysFault(v.entries, OFFER_KEYS) ==
            if OnlyKnown(v.entries) then None else Some(UnknownTopLevelKey)
  {
    hide Admitted, OneOf, Known;
    TextKeys(v, 0, "v");
    KeysAccepted(v.entries, OFFER_KEYS);
    forall e | e in v.entries ensures OneOf(e.key, OFFER_KEYS) <==> Known(e.key, FIELDS) {
      OfferNames(e.key);
    }
  }

  lemma TypeFields(v: CborValue)
    requires v.Map? && Ordered(v)
    ensures Key(v, "v") == Some(Unsigned(1)) <==> Holds(v.entries, "v", Unsigned(1))
    ensures ServingOffer.IsText(Key(v, "t"), "ServingOffer") <==> Holds(v.entries, "t", Name("ServingOffer"))
    ensures forall kid :: Key(v, "issuer_kid") == Some(Bytes(kid)) <==> Holds(v.entries, "issuer_kid", Bytes(kid))
  {
    hide Key, Holds, Ordered, Ascii, Texts.Utf8;
    KeyIsField(v, "v");
    KeyIsField(v, "t");
    KeyIsField(v, "issuer_kid");
    Texts.AsciiIsUtf8("ServingOffer");
  }

  /** The fault of a map with good links, in the order of the checks; `None` for an offer. */
  ghost predicate MapFault(v: CborValue, kid: bytes, fault: Option<Diag>)
    requires v.Map?
  {
    if !Holds(v.entries, "v", Unsigned(1)) || !Holds(v.entries, "t", Name("ServingOffer")) then fault == Some(Schema)
    else if !OnlyKnown(v.entries) then fault == Some(UnknownTopLevelKey)
    else if exists x :: Holds(v.entries, "ext", x) && !x.Map? then fault == Some(Schema)
    else if exists x :: Holds(v.entries, "ext", x) && |Encode(x)| > 65_536 then fault == Some(Limit)
    else if exists x :: Holds(v.entries, "crit", x) && !CritOk(x) then
      exists x :: Holds(v.entries, "crit", x) && fault == TextSetFault(x, true) && fault.Some?
    else fault == if IsOffer(v, kid) then None else Some(Schema)
  }

  function FaultOf<T>(r: Result<T, Diag>): Option<Diag> {
    match r
    case Ok(_) => None
    case Err(d) => Some(d)
  }

  /** The verdict on a payload. */
  lemma OfferVerdict(payload: bytes, kid: bytes)
    ensures var r := ValidateOffer(payload, kid);
            if |kid| != 16 then r == Err(Schema)
            else if |payload| > 2_048 then r == Err(Limit)
            else match ParseExact(payload, STRICT_DAG_CBOR)
                 case Err(e) => r == Err(if e.Fail? then e.diag else NonCanonical)
                 case Ok(v) =>
                   if !LinksOk(v) then r == Err(BadCidLink)
                   else if !v.Map? then r == Err(Schema)
                   else MapFault(v, kid, FaultOf(r)) && (r.Ok? ==> r.value == v)
  {
    hide ParseExact, Ordered, Admitted, LinksFault, LinksOk, KeysFault, CommonFault, OfferFault, Key, ServingOffer.IsText, MapFault;
    if ParseExact(payload, STRICT_DAG_CBOR).Ok? {
      var v := ParseExact(payload, STRICT_DAG_CBOR).value;
      StrictAcceptsExactly(payload, v);
      LinksAccepted(v);
      if LinksFault(v).Some? {
        OnlyBadLinks(v, 0);
      }
      if v.Map? && LinksOk(v) && |kid| == 16 {
        MapVerdict(v, kid);
      }
    }
  }

  /** The checks that `ValidateOffer` makes on a map. */
  function MapChecks(v: CborValue, kid: bytes): Option<Diag>
    requires v.Map?
  {
    if Key(v, "v") != Some(Unsigned(1)) then Some(Schema)
    else if !ServingOffer.IsText(Key(v, "t"), "ServingOffer") then Some(Schema)
    else if KeysFault(v.entries, OFFER_KEYS).Some? then KeysFault(v.entries, OFFER_KEYS)
    else if CommonFault(v).Some? then CommonFault(v)
    else if OfferFault(v).Some? then OfferFault(v)
    else if Key(v, "issuer_kid") != Some(Bytes(kid)) then Some(Schema)
    else None
  }

  lemma MapVerdict(v: CborValue, kid: bytes)
    requires v.Map? && Ordered(v) && Admitted(v, 0, true) && LinksOk(v) && |kid| == 16
    ensures MapFault(v, kid, MapChecks(v, kid))
  {
    hide Encode, Ordered, Admitted, LinksOk, KeysFault, CommonFault, OfferFault, TextSetFault, CritOk, Holds, Known,
         Key, ServingOffer.IsText, OnlyKnown, AmountsOk, ExtensionsOk, Name, LinksFault;
    TypeFields(v);
    KnownFields(v);
    CommonAccepted(v);
    OwnFieldsAccepted(v);
  }

  lemma OfferHasNoFault(v: CborValue, kid: bytes)
    ensures IsOffer(v, kid) ==> v.Map? && LinksOk(v) && |kid| == 16
    ensures v.Map? && LinksOk(v) && |kid| == 16 ==> forall fault :: MapFault(v, kid, fault) ==> (fault == None <==> IsOffer(v, kid))
  {
    hide Encode, LinksOk, OnlyKnown, AmountsOk, Holds, TextSetFault, CritOk, Name;
  }

  /** Acceptance, exactly: at most 2048 bytes of strict DAG-CBOR that hold an offer for the key identifier. */
  lemma OfferAcceptedExactly(payload: bytes, kid: bytes, v: CborValue)
    ensures ValidateOffer(payload, kid) == Ok(v) <==>
            |payload| <= 2_048 && ParseExact(payload, STRICT_DAG_CBOR) == Ok(v) && IsOffer(v, kid)
  {
    hide ParseExact, LinksOk, MapFault, IsOffer, ValidateOffer;
    OfferVerdict(payload, kid);
    OfferHasNoFault(v, kid);
  }

  /** The issuer's own verdict: strict decoding and the schema first, then type and key identifier, then the
      scanner's check. */
  lemma IssuerVerdict(payload: bytes, kid: bytes)
    ensures var r := IssuerFault(payload, kid);
            if |payload| > 5_000_000 then r == Some(PayloadRejected(Limit))
            else match ParseExact(payload, STRICT_DAG_CBOR)
                 case Err(e) => r == Some(PayloadRejected(if e.Fail? then e.diag else NonCanonical))
                 case Ok(v) =>
                   if v.Map? && Holds(v.entries, "t", Name("ServingOffer")) then OfferIssuerFault(v, kid, ValidateOffer(payload, kid), r)
                   else r == Some(if SchemaLevelFault(v).Some? then PayloadRejected(SchemaLevelFault(v).value) else NotServingOffer)
  {
    hide ParseExact, Encode, ValidateOffer, SchemaLevelFault, Ordered, Admitted, Key, ServingOffer.IsText, Holds, Name, OfferIssuerFault;
    if ParseExact(payload, STRICT_DAG_CBOR).Ok? {
      var v := ParseExact(payload, STRICT_DAG_CBOR).value;
      StrictAcceptsExactly(payload, v);
      if v.Map? {
        TypeFields(v);
        if Holds(v.entries, "t", Name("ServingOffer")) {
          OfferIssuerVerdict(v, kid, ValidateOffer(payload, kid));
        }
      } else {
        NoFields(v);
      }
    }
  }

  /** What the issuer answers to a map of the right type, given the scanner's verdict. */
  ghost predicate OfferIssuerFault(v: CborValue, kid: bytes, scanner: Result<CborValue, Diag>, r: Option<IssuerError>)
    requires v.Map?
  {
    if !OnlyKnown(v.entries) then r == Some(PayloadRejected(UnknownTopLevelKey))
    else if exists x :: Holds(v.entries, "crit", x) && !CritOk(x) then
      exists x :: Holds(v.entries, "crit", x) && TextSetFault(x, true).Some? && r == Some(PayloadRejected(TextSetFault(x, true).value))
    else if forall x :: Holds(v.entries, "issuer_kid", x) ==> !x.Bytes? then r == Some(IssuerKidMissing)
    else if !Holds(v.entries, "issuer_kid", Bytes(kid)) then r == Some(IssuerKidMismatch)
    else match scanner
         case Ok(_) => r == None
         case Err(d) => r == Some(PayloadRejected(d))
  }

  function IssuerChecks(v: CborValue, kid: bytes, scanner: Result<CborValue, Diag>): Option<IssuerError> {
    if SchemaLevelFault(v).Some? then Some(PayloadRejected(SchemaLevelFault(v).value))
    else
      var k := Key(v, "issuer_kid");
      if k.None? || !k.value.Bytes? then Some(IssuerKidMissing)
      else if k.value.b != kid then Some(IssuerKidMismatch)
      else match scanner
        case Ok(_) => None
        case Err(d) => Some(PayloadRejected(d))
  }

  lemma OfferIssuerVerdict(v: CborValue, kid: bytes, scanner: Result<CborValue, Diag>)
    requires v.Map? && Ordered(v) && Admitted(v, 0, true) && Holds(v.entries, "t", Name("ServingOffer"))
    ensures OfferIssuerFault(v, kid, scanner, IssuerChecks(v, kid, scanner))
  {
    hide Encode, Ordered, Admitted, Key, ServingOffer.IsText, Holds, Name, SchemaLevelFault, OnlyKnown, TextSetFault, CritOk, Texts.Utf8, Ascii;
    OfferSchemaLevel(v);
    KeyIsField(v, "issuer_kid");
  }

  lemma OfferSchemaLevel(v: CborValue)
    requires v.Map? && Ordered(v) && Admitted(v, 0, true) && Holds(v.entries, "t", Name("ServingOffer"))
    ensures var r := SchemaLevelFault(v);
            if !OnlyKnown(v.entries) then r == Some(UnknownTopLevelKey)
            else if exists x :: Holds(v.entries, "crit", x) && !CritOk(x) then
              exists x :: Holds(v.entries, "crit", x) && TextSetFault(x, true).Some? && r == TextSetFault(x, true)
            else r == None
  {
    hide Encode, Ordered, Admitted, Key, Holds, OnlyKnown, TextSetFault, CritOk, KeysFault, SchemaFrom, Ascii, Texts.Utf8;
    TypeFields(v);
    KnownFields(v);
    KeyIsField(v, "crit");
    if Key(v, "crit").Some? {
      CritAccepted(Key(v, "crit").value);
      assert Holds(v.entries, "crit", Key(v, "crit").value);
    }
    DifferentNames();
  }

  lemma NoFields(v: CborValue)
    requires !v.Map?
    ensures !ServingOffer.IsText(Key(v, "t"), "ServingOffer")
  {
  }

  /** The links that pass are those of the identifiers that `Cid.DeriveCid` makes: a zero byte and the identifier's
      bytes, for a digest of 32 bytes. */
  lemma LinksAreCids(inner: bytes)
    ensures LinksOk(Tag(42, Bytes(inner))) <==> exists digest: bytes :: |digest| == 32 && inner == [0x00] + Cid.CidBytes(digest)
  {
    if LinksOk(Tag(42, Bytes(inner))) {
      var digest := inner[5..];
      assert inner == [0x00] + Cid.CidBytes(digest);
    }
    if digest: bytes :| |digest| == 32 && inner == [0x00] + Cid.CidBytes(digest) {
      assert [0x00, 0x01, 0x71, 0x12, 0x20] + digest == inner;
    }
  }
}

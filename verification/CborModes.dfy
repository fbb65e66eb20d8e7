/** The three modes of the decoder, spelled out: which values strict DAG-CBOR and generic canonical mode admit,
    and what else lenient mode reads (core/rust/grain-core/src/cbor.rs:69-98, 189-355). */
module CborModes {
  import opened Prelude
  import opened Cbor
  import opened CborCanonical
  import opened CborText
  import opened Texts
  import StableSort

  predicate Tag42Content(v: CborValue) {
    v.Bytes? && |v.b| > 0 && v.b[0] == 0
  }

  // ----- canonical modes -----

  ghost predicate IsText(b: bytes) {
    exists s :: Utf8(s) == b
  }

  /** Strict: text keys, tag 42 over a CID with its leading zero, no undefined and no simple values. Generic: any
      keys and tags, simple values outside 20 to 31. Both: 32 levels, 4096 entries or items, 1024 bytes of text. */
  ghost predicate Admitted(v: CborValue, depth: nat, strict: bool)
    decreases v
  {
    depth <= 32 &&
    match v
    case Unsigned(_) => true
    case Negative(i) => -0x1_0000_0000_0000_0000 <= i <= -1
    case Bytes(b) => |b| < 0x1_0000_0000_0000_0000
    case Text(t) => |t| <= 1024 && IsText(t)
    case Array(items) => |items| <= 4096 && forall i :: 0 <= i < |items| ==> Admitted(items[i], depth + 1, strict)
    case Map(entries) =>
      |entries| <= 4096 &&
      forall i :: 0 <= i < |entries| ==>
        (strict ==> entries[i].key.Text?) && Admitted(entries[i].key, depth + 1, strict) && Admitted(entries[i].value, depth + 1, strict)
    case Tag(tag, inner) => Admitted(inner, depth + 1, strict) && (strict ==> tag == 42 && Tag42Content(inner))
    case Bool(_) => true
    case Null => true
    case Undefined => !strict
    case Simple(s) => !strict && (s < 20 || s >= 32)
  }

  function ModeOf(strict: bool): Options {
    if strict then STRICT_DAG_CBOR else GENERIC_CANONICAL
  }

  lemma {:induction false} AdmittedIsWf(v: CborValue, depth: nat, strict: bool)
    ensures Wf(v, depth, ModeOf(strict)) <==> Admitted(v, depth, strict)
    decreases v, 1
  {
    hide Utf8Valid, IsText;
    match v
    case Text(t) => TextIsValid(t);
    case Array(items) => AdmittedItems(items, depth + 1, strict);
    case Map(entries) => AdmittedEntries(entries, depth + 1, strict);
    case Tag(_, inner) => AdmittedIsWf(inner, depth + 1, strict);
    case _ =>
  }

  lemma TextIsValid(t: bytes)
    ensures Utf8Valid(t) <==> IsText(t)
  {
    hide Utf8Valid;
    if Utf8Valid(t) {
      var s := ValidIsString(t);
    }
    if s :| Utf8(s) == t {
      StringsAreValid(s);
    }
  }

  lemma {:induction false} AdmittedItems(items: seq<CborValue>, depth: nat, strict: bool)
    ensures WfItems(items, depth, ModeOf(strict)) <==> forall i :: 0 <= i < |items| ==> Admitted(items[i], depth, strict)
    decreases items, 0
  {
    hide Wf, Admitted, ModeOf;
    if |items| > 0 {
      var rest := items[1..];
      AdmittedIsWf(items[0], depth, strict);
      AdmittedItems(rest, depth, strict);
      assert forall i :: 0 <= i < |rest| ==> rest[i] == items[i + 1];
      assert forall i :: 1 <= i < |items| ==> items[i] == rest[i - 1];
    }
  }

  ghost predicate AdmittedEntry(e: Entry, depth: nat, strict: bool) {
    (strict ==> e.key.Text?) && Admitted(e.key, depth, strict) && Admitted(e.value, depth, strict)
  }

  lemma {:induction false} AdmittedEntries(entries: seq<Entry>, depth: nat, strict: bool)
    ensures WfEntries(entries, depth, ModeOf(strict)) <==>
            forall i :: 0 <= i < |entries| ==> AdmittedEntry(entries[i], depth, strict)
    decreases entries, 0
  {
    hide Wf, Admitted, AdmittedEntry, WfEntry;
    if |entries| > 0 {
      var rest := entries[1..];
      AdmittedEntryIsWf(entries[0], depth, strict);
      AdmittedEntries(rest, depth, strict);
      assert forall i :: 0 <= i < |rest| ==> rest[i] == entries[i + 1];
      assert forall i :: 1 <= i < |entries| ==> entries[i] == rest[i - 1];
    }
  }

  lemma {:induction false} AdmittedEntryIsWf(e: Entry, depth: nat, strict: bool)
    ensures WfEntry(e, depth, ModeOf(strict)) <==> AdmittedEntry(e, depth, strict)
    decreases e, 0
  {
    hide Wf, Admitted;
    AdmittedIsWf(e.key, depth, strict);
    AdmittedIsWf(e.value, depth, strict);
  }

  /** Strict DAG-CBOR, exactly. */
  lemma StrictAcceptsExactly(s: bytes, v: CborValue)
    ensures ParseExact(s, STRICT_DAG_CBOR) == Ok(v) <==> Admitted(v, 0, true) && Ordered(v) && s == Encode(v)
  {
    hide ParseExact, Wf, Ordered, Encode, Admitted;
    CanonicalParseExactly(s, STRICT_DAG_CBOR, v);
    AdmittedIsWf(v, 0, true);
  }

  /** Generic canonical CBOR, exactly. */
  lemma GenericAcceptsExactly(s: bytes, v: CborValue)
    ensures ParseExact(s, GENERIC_CANONICAL) == Ok(v) <==> Admitted(v, 0, false) && Ordered(v) && s == Encode(v)
  {
    hide ParseExact, Wf, Ordered, Encode, Admitted;
    CanonicalParseExactly(s, GENERIC_CANONICAL, v);
    AdmittedIsWf(v, 0, false);
  }

  // ----- lenient mode -----

  /** A value together with the width chosen for each head: 0 for an argument in the first byte, else the number
      of bytes that follow. */
  datatype Spelling =
    | SUnsigned(n: u64, w: nat)
    | SNegative(n: u64, w: nat)
    | SBytes(b: bytes, w: nat)
    | SText(t: bytes, w: nat)
    | SArray(items: seq<Spelling>, w: nat)
    | SMap(entries: seq<SpelledEntry>, w: nat)
    | STag(tag: u64, inner: Spelling, w: nat)
    | SSimple(v: CborValue)

  datatype SpelledEntry = SpelledEntry(key: Spelling, value: Spelling)

  predicate FitsIn(n: nat, w: nat) {
    if w == 0 then n < 24 else w in {1, 2, 4, 8} && n < Pow256(w)
  }

  function HeadOfWidth(major: nat, n: nat, w: nat): (h: bytes)
    requires major < 8 && FitsIn(n, w)
    ensures |h| == 1 + w
  {
    if w == 0 then [major * 32 + n]
    else [major * 32 + if w == 1 then 24 else if w == 2 then 25 else if w == 4 then 26 else 27] + ToBe(n, w)
  }

  function Meaning(p: Spelling): CborValue
    decreases p, 1
  {
    match p
    case SUnsigned(n, _) => Unsigned(n)
    case SNegative(n, _) => Negative(-1 - n)
    case SBytes(b, _) => Bytes(b)
    case SText(t, _) => Text(t)
    case SArray(items, _) => Array(Meanings(items))
    case SMap(entries, _) => Map(EntryMeanings(entries))
    case STag(tag, inner, _) => Tag(tag, Meaning(inner))
    case SSimple(v) => v
  }

  function Meanings(ps: seq<Spelling>): (r: seq<CborValue>)
    ensures |r| == |ps|
    decreases ps, 0
  {
    if |ps| == 0 then [] else [Meaning(ps[0])] + Meanings(ps[1..])
  }

  function EntryMeanings(es: seq<SpelledEntry>): (r: seq<Entry>)
    ensures |r| == |es|
    decreases es, 0
  {
    if |es| == 0 then [] else [EntryMeaning(es[0])] + EntryMeanings(es[1..])
  }

  function EntryMeaning(e: SpelledEntry): Entry
    decreases e, 0
  {
    Entry(Meaning(e.key), Meaning(e.value))
  }

  /** What lenient mode admits: any width that fits, any tag, any key, keys of one map spelled differently. */
  ghost predicate Spells(p: Spelling, depth: nat)
    decreases p, 1
  {
    depth <= 32 &&
    match p
    case SUnsigned(n, w) => FitsIn(n, w)
    case SNegative(n, w) => FitsIn(n, w)
    case SBytes(b, w) => FitsIn(|b|, w)
    case SText(t, w) => FitsIn(|t|, w) && |t| <= 1024 && IsText(t)
    case SArray(items, w) => FitsIn(|items|, w) && |items| <= 4096 && AllSpell(items, depth + 1)
    case SMap(entries, w) => FitsIn(|entries|, w) && |entries| <= 4096 && EntriesSpell(entries, depth + 1, {})
    case STag(tag, inner, w) => FitsIn(tag, w) && Spells(inner, depth + 1)
    case SSimple(v) => v.Bool? || v.Null? || v.Undefined? || (v.Simple? && (v.s < 20 || v.s >= 32))
  }

  ghost predicate AllSpell(ps: seq<Spelling>, depth: nat)
    decreases ps, 0
  {
    |ps| > 0 ==> Spells(ps[0], depth) && AllSpell(ps[1..], depth)
  }

  ghost predicate EntriesSpell(es: seq<SpelledEntry>, depth: nat, seen: set<bytes>)
    decreases es, 0
  {
    |es| > 0 ==> EntrySpells(es[0], depth, seen) && EntriesSpell(es[1..], depth, seen + {Written(es[0].key)})
  }

  ghost predicate EntrySpells(e: SpelledEntry, depth: nat, seen: set<bytes>)
    decreases e, 0
  {
    Spells(e.key, depth) && Spells(e.value, depth) && Written(e.key) !in seen
  }

  /** The bytes of a spelling. */
  function Written(p: Spelling): bytes
    decreases p, 1
  {
    match p
    case SUnsigned(n, w) => HeadOrNothing(0, n, w)
    case SNegative(n, w) => HeadOrNothing(1, n, w)
    case SBytes(b, w) => HeadOrNothing(2, |b|, w) + b
    case SText(t, w) => HeadOrNothing(3, |t|, w) + t
    case SArray(items, w) => HeadOrNothing(4, |items|, w) + AllWritten(items)
    case SMap(entries, w) => HeadOrNothing(5, |entries|, w) + EntriesWritten(entries)
    case STag(tag, inner, w) => HeadOrNothing(6, tag, w) + Written(inner)
    case SSimple(v) => Encode(v)
  }

  function HeadOrNothing(major: nat, n: nat, w: nat): bytes
    requires major < 8
  {
    if FitsIn(n, w) then HeadOfWidth(major, n, w) else []
  }

  function AllWritten(ps: seq<Spelling>): bytes
    decreases ps, 0
  {
    if |ps| == 0 then [] else Written(ps[0]) + AllWritten(ps[1..])
  }

  function EntriesWritten(es: seq<SpelledEntry>): bytes
    decreases es, 0
  {
    if |es| == 0 then [] else EntryWritten(es[0]) + EntriesWritten(es[1..])
  }

  function EntryWritten(e: SpelledEntry): bytes
    decreases e, 0
  {
    Written(e.key) + Written(e.value)
  }

  // ----- reading a spelling -----

  lemma ArgOfWidth(major: nat, n: u64, w: nat, t: bytes)
    requires major < 8 && FitsIn(n, w)
    ensures var s := HeadOfWidth(major, n, w) + t;
            s[0] / 32 == major && UintArg(s[1..], s[0] % 32, false) == Parsed(n, w) && s[1..][w..] == t
  {
    var h := HeadOfWidth(major, n, w);
    assert (h + t)[1..] == h[1..] + t;
    if w > 0 {
      assert h[1..] == ToBe(n, w);
      BeOfToBe(n, w);
      assert (ToBe(n, w) + t)[..w] == ToBe(n, w);
    } else {
      assert h[1..] == [];
    }
  }

  lemma SpelledItem(v: CborValue, major: nat, n: u64, w: nat, content: bytes, t: bytes, depth: nat)
    requires major < 7 && depth <= 32 && FitsIn(n, w)
    requires Body(content + t, major, n, depth, GENERIC_LENIENT) == Parsed(v, |content|)
    ensures Item(HeadOfWidth(major, n, w) + content + t, depth, GENERIC_LENIENT) == Parsed(v, |HeadOfWidth(major, n, w) + content|)
  {
    hide Body, UintArg, HeadOfWidth, FitsIn;
    ArgOfWidth(major, n, w, content + t);
    assert HeadOfWidth(major, n, w) + content + t == HeadOfWidth(major, n, w) + (content + t);
  }

  /** Lenient mode reads every admitted spelling as what it means, whatever follows. */
  lemma {:induction false} SpellingIsRead(p: Spelling, t: bytes, depth: nat)
    requires Spells(p, depth)
    ensures Item(Written(p) + t, depth, GENERIC_LENIENT) == Parsed(Meaning(p), |Written(p)|)
    decreases p, 1
  {
    hide Item, UintArg, HeadOfWidth, FitsIn, Utf8Valid, Items, Pairs, IsText;
    match p
    case SUnsigned(n, w) =>
      SpelledItem(Unsigned(n), 0, n, w, [], t, depth);
      assert HeadOfWidth(0, n, w) + [] == HeadOfWidth(0, n, w);
    case SNegative(n, w) =>
      SpelledItem(Negative(-1 - n), 1, n, w, [], t, depth);
      assert HeadOfWidth(1, n, w) + [] == HeadOfWidth(1, n, w);
    case SBytes(b, w) =>
      assert (b + t)[..|b|] == b;
      FitsU64(|b|, w);
      SpelledItem(Bytes(b), 2, |b|, w, b, t, depth);
    case SText(x, w) =>
      assert (x + t)[..|x|] == x;
      TextIsValid(x);
      SpelledItem(Text(x), 3, |x|, w, x, t, depth);
    case SArray(items, w) =>
      SpellingsAreRead(items, t, depth + 1);
      SpelledItem(Array(Meanings(items)), 4, |items|, w, AllWritten(items), t, depth);
    case SMap(entries, w) =>
      EntriesAreRead(entries, t, depth + 1, {});
      SpelledItem(Map(EntryMeanings(entries)), 5, |entries|, w, EntriesWritten(entries), t, depth);
    case STag(tag, inner, w) =>
      SpellingIsRead(inner, t, depth + 1);
      SpelledItem(Tag(tag, Meaning(inner)), 6, tag, w, Written(inner), t, depth);
    case SSimple(v) => SimpleIsRead(v, t, depth);
  }

  lemma FitsU64(n: nat, w: nat)
    requires FitsIn(n, w)
    ensures n < U64_BOUND
  {
    Pow256Values();
  }

  lemma SimpleIsRead(v: CborValue, t: bytes, depth: nat)
    requires depth <= 32 && (v.Bool? || v.Null? || v.Undefined? || (v.Simple? && (v.s < 20 || v.s >= 32)))
    ensures Item(Encode(v) + t, depth, GENERIC_LENIENT) == Parsed(v, |Encode(v)|)
  {
    hide Body, UintArg, Head, StableSort.Sort;
    var b := Encode(v)[0];
    assert b / 32 == 7 && b == 224 + b % 32;
    assert (Encode(v) + t)[1..] == Encode(v)[1..] + t;
  }

  lemma {:induction false} SpellingsAreRead(ps: seq<Spelling>, t: bytes, depth: nat)
    requires AllSpell(ps, depth)
    ensures Items(AllWritten(ps) + t, |ps|, depth, GENERIC_LENIENT) == Parsed(Meanings(ps), |AllWritten(ps)|)
    decreases ps, 0
  {
    hide Item, Written, Meaning, Spells;
    if |ps| == 0 {
      assert AllWritten(ps) + t == t;
    } else {
      var e, rest := Written(ps[0]), AllWritten(ps[1..]);
      SpellingIsRead(ps[0], rest + t, depth);
      SpellingsAreRead(ps[1..], t, depth);
      assert AllWritten(ps) + t == e + (rest + t);
      assert (e + (rest + t))[|e|..] == rest + t;
    }
  }

  lemma {:induction false} EntriesAreRead(es: seq<SpelledEntry>, t: bytes, depth: nat, seen: set<bytes>)
    requires EntriesSpell(es, depth, seen)
    ensures Pairs(EntriesWritten(es) + t, |es|, depth, seen, None, GENERIC_LENIENT) == Parsed(EntryMeanings(es), |EntriesWritten(es)|)
    decreases es, 0
  {
    hide Pair, Written, Meaning, Spells;
    if |es| == 0 {
      assert EntriesWritten(es) + t == t;
    } else {
      var e, rest := EntryWritten(es[0]), EntriesWritten(es[1..]);
      EntryIsRead(es[0], rest + t, depth, seen);
      EntriesAreRead(es[1..], t, depth, seen + {Written(es[0].key)});
      assert EntriesWritten(es) + t == e + (rest + t);
      assert (e + (rest + t))[|e|..] == rest + t;
    }
  }

  lemma {:induction false} EntryIsRead(e: SpelledEntry, t: bytes, depth: nat, seen: set<bytes>)
    requires EntrySpells(e, depth, seen)
    ensures Pair(EntryWritten(e) + t, depth, seen, None, GENERIC_LENIENT)
            == Parsed(KeyedEntry(EntryMeaning(e), Written(e.key)), |EntryWritten(e)|)
    decreases e, 0
  {
    hide Item, Written, Meaning, Spells;
    var k, v := Written(e.key), Written(e.value);
    var s := EntryWritten(e) + t;
    assert s == k + (v + t);
    SpellingIsRead(e.key, v + t, depth);
    SpellingIsRead(e.value, t, depth);
    assert s[..|k|] == k && s[|k|..] == v + t;
  }

  // ----- every accepted item has a spelling -----

  lemma WidthOfArg(s: bytes, major: nat, ai: nat) returns (w: nat)
    requires major < 8 && ai < 32 && UintArg(s, ai, false).Parsed?
    ensures var a := UintArg(s, ai, false); FitsIn(a.value, w) && a.used == w && HeadOfWidth(major, a.value, w) == [major * 32 + ai] + s[..w]
  {
    hide ToBe, WideArg, Pow256, BeNat;
    w := UintArg(s, ai, false).used;
    if ai >= 24 {
      WideArgIsAsWritten(s, if ai == 24 then 1 else if ai == 25 then 2 else if ai == 26 then 4 else 8,
                         if ai == 24 then 24 else if ai == 25 then 0x100 else if ai == 26 then 0x1_0000 else 0x1_0000_0000);
    } else {
      assert s[..0] == [];
    }
  }

  lemma WideArgIsAsWritten(s: bytes, width: nat, least: nat)
    requires width <= 8 && WideArg(s, width, least, false).Parsed?
    ensures var a := WideArg(s, width, least, false); a.used == width && a.value < Pow256(width) && ToBe(a.value, width) == s[..width]
  {
    ToBeOfBe(s[..width]);
  }

  /** What the head of an accepted item says. */
  lemma ItemParts(s: bytes, depth: nat)
    requires Item(s, depth, GENERIC_LENIENT).Parsed?
    ensures depth <= 32 && |s| > 0
    ensures var r, t := Item(s, depth, GENERIC_LENIENT), s[1..];
            s[0] / 32 == 7 ==>
              var q := SimpleOrFloat(t, s[0] % 32, GENERIC_LENIENT);
              q.Parsed? && r == Parsed(q.value, 1 + q.used)
    ensures var r, t, major := Item(s, depth, GENERIC_LENIENT), s[1..], s[0] / 32;
            major != 7 ==>
              var a := UintArg(t, s[0] % 32, false);
              a.Parsed? && var b := Body(t[a.used..], major, a.value, depth, GENERIC_LENIENT);
              b.Parsed? && r == Parsed(b.value, 1 + a.used + b.used)
  {
    hide Body, SimpleOrFloat, UintArg;
  }

  /** Every item that lenient mode accepts is an admitted spelling of the value it gives. */
  lemma {:induction false} ReadIsSpelling(s: bytes, depth: nat) returns (p: Spelling)
    requires Item(s, depth, GENERIC_LENIENT).Parsed?
    ensures Spells(p, depth) && Meaning(p) == Item(s, depth, GENERIC_LENIENT).value
    ensures Written(p) == s[..Item(s, depth, GENERIC_LENIENT).used]
    decreases |s|, 1
  {
    hide Item, Body, SimpleOrFloat, UintArg, HeadOfWidth, FitsIn;
    ItemParts(s, depth);
    var r := Item(s, depth, GENERIC_LENIENT);
    var major, ai, t := s[0] / 32, s[0] % 32, s[1..];
    if major == 7 {
      hide Encode;
      p := SSimple(r.value);
      SimpleIsEncoded(t, ai);
      assert s[..r.used] == [s[0]] + t[..r.used - 1];
    } else {
      hide Spells, Meaning, Written;
      var a := UintArg(t, ai, false);
      var w := WidthOfArg(t, major, ai);
      var b := Body(t[w..], major, a.value, depth, GENERIC_LENIENT);
      p := BodyIsSpelling(t[w..], major, a.value, depth, w);
      assert s[..r.used] == [s[0]] + t[..w] + t[w..][..b.used];
    }
  }

  lemma SimpleIsEncoded(t: bytes, ai: nat)
    requires ai < 32 && SimpleOrFloat(t, ai, GENERIC_LENIENT).Parsed?
    ensures var r := SimpleOrFloat(t, ai, GENERIC_LENIENT); var v := r.value;
            (v.Bool? || v.Null? || v.Undefined? || (v.Simple? && (v.s < 20 || v.s >= 32))) && Encode(v) == [224 + ai] + t[..r.used]
  {
  }

  lemma {:induction false} BodyIsSpelling(s: bytes, major: nat, n: u64, depth: nat, w: nat) returns (p: Spelling)
    requires major < 7 && depth <= 32 && FitsIn(n, w) && Body(s, major, n, depth, GENERIC_LENIENT).Parsed?
    ensures Spells(p, depth) && Meaning(p) == Body(s, major, n, depth, GENERIC_LENIENT).value
    ensures Written(p) == HeadOfWidth(major, n, w) + s[..Body(s, major, n, depth, GENERIC_LENIENT).used]
    decreases |s|, 4
  {
    hide Item, Items, Pairs, FitsIn, HeadOfWidth, Utf8Valid, IsText;
    if major == 0 {
      p := SUnsigned(n, w);
      assert HeadOfWidth(0, n, w) + s[..0] == HeadOfWidth(0, n, w);
    } else if major == 1 {
      p := SNegative(n, w);
      assert HeadOfWidth(1, n, w) + s[..0] == HeadOfWidth(1, n, w);
    } else if major == 2 {
      p := SBytes(s[..n], w);
    } else if major == 3 {
      TextIsValid(s[..n]);
      p := SText(s[..n], w);
    } else if major == 4 {
      var items := ItemsAreSpellings(s, n, depth + 1);
      p := SArray(items, w);
    } else if major == 5 {
      var entries := PairsAreSpellings(s, n, depth + 1, {});
      p := SMap(entries, w);
    } else {
      var inner := ReadIsSpelling(s, depth + 1);
      p := STag(n, inner, w);
    }
  }

  lemma {:induction false} ItemsAreSpellings(s: bytes, n: nat, depth: nat) returns (ps: seq<Spelling>)
    requires Items(s, n, depth, GENERIC_LENIENT).Parsed?
    ensures |ps| == n && AllSpell(ps, depth) && Meanings(ps) == Items(s, n, depth, GENERIC_LENIENT).value
    ensures AllWritten(ps) == s[..Items(s, n, depth, GENERIC_LENIENT).used]
    decreases |s|, 2, n
  {
    hide Item, Spells, Meaning, Written;
    ps := [];
    if n > 0 {
      var r := Items(s, n, depth, GENERIC_LENIENT);
      var u := Item(s, depth, GENERIC_LENIENT).used;
      var p := ReadIsSpelling(s, depth);
      var rest := ItemsAreSpellings(s[u..], n - 1, depth);
      ps := [p] + rest;
      assert ps[1..] == rest;
      assert s[..r.used] == s[..u] + s[u..][..r.used - u];
    }
  }

  lemma {:induction false} PairsAreSpellings(s: bytes, n: nat, depth: nat, seen: set<bytes>) returns (es: seq<SpelledEntry>)
    requires Pairs(s, n, depth, seen, None, GENERIC_LENIENT).Parsed?
    ensures |es| == n && EntriesSpell(es, depth, seen) && EntryMeanings(es) == Pairs(s, n, depth, seen, None, GENERIC_LENIENT).value
    ensures EntriesWritten(es) == s[..Pairs(s, n, depth, seen, None, GENERIC_LENIENT).used]
    decreases |s|, 3, n
  {
    hide Pair, Spells, Meaning, Written;
    es := [];
    if n > 0 {
      var r := Pairs(s, n, depth, seen, None, GENERIC_LENIENT);
      var q := Pair(s, depth, seen, None, GENERIC_LENIENT);
      var e := PairIsSpelling(s, depth, seen);
      var rest := PairsAreSpellings(s[q.used..], n - 1, depth, seen + {q.value.encodedKey});
      es := [e] + rest;
      assert es[1..] == rest;
      assert s[..r.used] == s[..q.used] + s[q.used..][..r.used - q.used];
    }
  }

  lemma {:induction false} PairIsSpelling(s: bytes, depth: nat, seen: set<bytes>) returns (e: SpelledEntry)
    requires Pair(s, depth, seen, None, GENERIC_LENIENT).Parsed?
    ensures var q := Pair(s, depth, seen, None, GENERIC_LENIENT);
            EntrySpells(e, depth, seen) && EntryMeaning(e) == q.value.entry && Written(e.key) == q.value.encodedKey &&
            EntryWritten(e) == s[..q.used]
    decreases |s|, 2
  {
    hide Item, Spells, Meaning, Written;
    var q := Pair(s, depth, seen, None, GENERIC_LENIENT);
    var u := Item(s, depth, GENERIC_LENIENT).used;
    var k := ReadIsSpelling(s, depth);
    var v := ReadIsSpelling(s[u..], depth);
    e := SpelledEntry(k, v);
    assert s[..q.used] == s[..u] + s[u..][..q.used - u];
  }

  /** Lenient mode, exactly: an item is accepted as `v` with `u` bytes consumed if and only if those bytes are an
      admitted spelling of `v`. */
  lemma LenientAcceptsExactly(s: bytes, depth: nat, v: CborValue, u: nat)
    ensures Item(s, depth, GENERIC_LENIENT) == Parsed(v, u) <==>
            u <= |s| && exists p :: Spells(p, depth) && Meaning(p) == v && Written(p) == s[..u]
  {
    hide Item, Spells, Meaning, Written;
    if Item(s, depth, GENERIC_LENIENT) == Parsed(v, u) {
      var p := ReadIsSpelling(s, depth);
    }
    if p :| u <= |s| && Spells(p, depth) && Meaning(p) == v && Written(p) == s[..u] {
      SpellingIsRead(p, s[u..], depth);
      assert s == s[..u] + s[u..];
    }
  }

  // ----- heads, byte by byte -----

  /** The shortest head: the argument in the first byte, or in one, two, four or eight bytes after it, most
      significant byte first. */
  lemma HeadForms(major: nat, n: u64)
    requires major < 8
    ensures Head(major, n) ==
            if n < 24 then [major * 32 + n]
            else if n < 0x100 then [major * 32 + 24, n]
            else if n < 0x1_0000 then [major * 32 + 25, n / 0x100, n % 0x100]
            else if n < 0x1_0000_0000 then [major * 32 + 26, n / 0x100_0000, n / 0x1_0000 % 0x100, n / 0x100 % 0x100, n % 0x100]
            else [major * 32 + 27, n / 0x100_0000_0000_0000, n / 0x1_0000_0000_0000 % 0x100, n / 0x100_0000_0000 % 0x100, n / 0x1_0000_0000 % 0x100,
                  n / 0x100_0000 % 0x100, n / 0x1_0000 % 0x100, n / 0x100 % 0x100, n % 0x100]
  {
    hide ToBe;
    OneByte(n);
    TwoBytesBe(n);
    FourBytesBe(n);
    EightBytesBe(n);
    TopBytes(n);
  }

  lemma TopBytes(n: u64)
    ensures n < 0x1_0000 ==> n / 0x100 % 0x100 == n / 0x100
    ensures n < 0x1_0000_0000 ==> n / 0x100_0000 % 0x100 == n / 0x100_0000
    ensures n / 0x100_0000_0000_0000 % 0x100 == n / 0x100_0000_0000_0000
  {
  }

  lemma OneByte(n: nat)
    ensures n < 0x100 ==> ToBe(n, 1) == [n]
  {
  }

  lemma TwoBytesBe(n: nat)
    ensures ToBe(n, 2) == [n / 0x100 % 0x100, n % 0x100]
  {
    assert ToBe(n / 0x100, 1) == [n / 0x100 % 0x100];
  }

  lemma FourBytesBe(n: nat)
    ensures ToBe(n, 4) == [n / 0x100_0000 % 0x100, n / 0x1_0000 % 0x100, n / 0x100 % 0x100, n % 0x100]
  {
    hide ToBe;
    TwoMore(n, 2);
    TwoBytesBe(n / 0x1_0000);
    Shorter(n, 0x1_0000, 0x100);
  }

  lemma EightBytesBe(n: nat)
    ensures ToBe(n, 8) == [n / 0x100_0000_0000_0000 % 0x100, n / 0x1_0000_0000_0000 % 0x100, n / 0x100_0000_0000 % 0x100, n / 0x1_0000_0000 % 0x100,
                           n / 0x100_0000 % 0x100, n / 0x1_0000 % 0x100, n / 0x100 % 0x100, n % 0x100]
  {
    hide ToBe;
    var top := n / 0x1_0000_0000;
    TwoMore(n, 6);
    TwoMore(n / 0x1_0000, 4);
    FourBytesBe(top);
    Shorter(n, 0x1_0000, 0x1_0000);
    Shorter(n, 0x1_0000, 0x100);
    Shorter(n, 0x1_0000_0000, 0x100);
    Shorter(n, 0x1_0000_0000, 0x1_0000);
    Shorter(n, 0x1_0000_0000, 0x100_0000);
  }

  lemma TwoMore(n: nat, k: nat)
    ensures ToBe(n, k + 2) == ToBe(n / 0x1_0000, k) + [n / 0x100 % 0x100, n % 0x100]
  {
    assert ToBe(n, k + 2) == ToBe(n / 0x100, k + 1) + [n % 0x100];
    assert ToBe(n / 0x100, k + 1) == ToBe(n / 0x100 / 0x100, k) + [n / 0x100 % 0x100];
    assert n / 0x100 / 0x100 == n / 0x1_0000;
  }

  lemma Shorter(n: nat, a: nat, b: nat)
    requires a in {0x1_0000, 0x1_0000_0000} && b in {0x100, 0x1_0000, 0x100_0000}
    ensures n / a / b == n / (a * b)
  {
    var q, r := n / a, n % a;
    assert n == q * a + r;
  }

  /** The major types on the wire. */
  lemma MajorTypes(n: u64, v: CborValue)
    ensures Encode(Unsigned(n)) == Head(0, n) && Encode(Negative(-1 - n)) == Head(1, n)
    ensures Encode(Tag(n, v)) == Head(6, n) + Encode(v) && Encode(Array([v])) == [0x81] + Encode(v)
  {
    hide Head;
    OneItem(v);
    SmallArrays();
  }

  lemma OneItem(v: CborValue)
    ensures EncodeItems([v]) == Encode(v)
  {
    assert EncodeItems([v]) == Encode(v) + [];
  }

  lemma SmallArrays()
    ensures Head(4, 0) == [0x80] && Head(4, 1) == [0x81] && Head(2, 0) == [0x40] && Head(3, 0) == [0x60] && Head(5, 0) == [0xa0]
  {
  }

  lemma EmptyOnTheWire()
    ensures Encode(Bytes([])) == [0x40] && Encode(Text([])) == [0x60] && Encode(Array([])) == [0x80] && Encode(Map([])) == [0xa0]
    ensures Encode(Bool(false)) == [0xf4] && Encode(Bool(true)) == [0xf5] && Encode(Null) == [0xf6] && Encode(Undefined) == [0xf7]
  {
    hide Head;
    SmallArrays();
  }
}

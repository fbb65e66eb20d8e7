/** In canonical mode the decoder accepts exactly the encoder's output: decoding and encoding are
    inverse to each other, with the accepted values described by `Wf` and `Ordered`. */
module CborCanonical {
  import opened Prelude
  import opened Cbor
  import Lex
  import StableSort

  // ----- which values are accepted -----

  /** Values that can stand at the given depth under the given options, map order aside. */
  ghost predicate Wf(v: CborValue, depth: nat, o: Options)
    decreases v, 1
  {
    depth <= o.limits.maxDepth &&
    match v
    case Unsigned(_) => true
    case Negative(i) => -U64_BOUND <= i <= -1
    case Bytes(b) => |b| < U64_BOUND
    case Text(t) => |t| <= o.limits.maxText && Utf8Valid(t)
    case Array(items) => |items| <= o.limits.maxArray && WfItems(items, depth + 1, o)
    case Map(entries) => |entries| <= o.limits.maxMapPairs && WfEntries(entries, depth + 1, o)
    case Tag(tag, inner) => (o.onlyTag42 ==> tag == 42) && Wf(inner, depth + 1, o) && TagContentOk(tag, inner, o)
    case Bool(_) => true
    case Null => true
    case Undefined => !o.dagStrict
    case Simple(s) => !o.dagStrict && !(20 <= s <= 31)
  }

  ghost predicate WfItems(items: seq<CborValue>, depth: nat, o: Options)
    decreases items, 0
  {
    |items| > 0 ==> Wf(items[0], depth, o) && WfItems(items[1..], depth, o)
  }

  ghost predicate WfEntries(entries: seq<Entry>, depth: nat, o: Options)
    decreases entries, 0
  {
    |entries| > 0 ==> WfEntry(entries[0], depth, o) && WfEntries(entries[1..], depth, o)
  }

  ghost predicate WfEntry(e: Entry, depth: nat, o: Options)
    decreases e, 0
  {
    (o.dagStrict ==> e.key.Text?) && Wf(e.key, depth, o) && Wf(e.value, depth, o)
  }

  /** Every map, at every level, lists its entries by strictly ascending encoded key. */
  ghost predicate Ordered(v: CborValue)
    decreases v, 1
  {
    match v
    case Array(items) => OrderedItems(items)
    case Map(entries) => Ascending(None, entries) && OrderedEntries(entries)
    case Tag(_, inner) => Ordered(inner)
    case _ => true
  }

  ghost predicate OrderedItems(items: seq<CborValue>)
    decreases items, 0
  {
    |items| > 0 ==> Ordered(items[0]) && OrderedItems(items[1..])
  }

  ghost predicate OrderedEntries(entries: seq<Entry>)
    decreases entries, 0
  {
    |entries| > 0 ==> OrderedEntry(entries[0]) && OrderedEntries(entries[1..])
  }

  ghost predicate OrderedEntry(e: Entry)
    decreases e, 0
  {
    Ordered(e.key) && Ordered(e.value)
  }

  /** Encoded keys ascend strictly, starting above `prev`. */
  ghost predicate Ascending(prev: Option<bytes>, entries: seq<Entry>)
    decreases entries
  {
    |entries| > 0 ==>
      (prev.Some? ==> Lex.KeyLess(prev.value, Encode(entries[0].key))) &&
      Ascending(Some(Encode(entries[0].key)), entries[1..])
  }

  // ----- heads -----

  lemma {:induction false} BeOfToBe(n: nat, k: nat)
    requires n < Pow256(k)
    ensures BeNat(ToBe(n, k)) == n
  {
    if k > 0 {
      BeOfToBe(n / 256, k - 1);
      var s := ToBe(n, k);
      assert s[..|s| - 1] == ToBe(n / 256, k - 1);
    }
  }

  lemma {:induction false} ToBeOfBe(s: bytes)
    ensures ToBe(BeNat(s), |s|) == s
  {
    if |s| > 0 {
      var p, d := s[..|s| - 1], s[|s| - 1];
      ToBeOfBe(p);
      assert s == p + [d];
      assert BeNat(s) / 256 == BeNat(p) && BeNat(s) % 256 == d;
    }
  }

  lemma Pow256Values()
    ensures Pow256(1) == 0x100 && Pow256(2) == 0x1_0000 && Pow256(4) == 0x1_0000_0000 && Pow256(8) == U64_BOUND
  {
    assert Pow256(4) == 0x1_0000_0000;
    assert Pow256(8) == Pow256(4) * 256 * 256 * 256 * 256;
  }

  lemma WideArgIsShortest(s: bytes, width: nat, least: nat)
    requires width <= 8 && WideArg(s, width, least, true).Parsed?
    ensures var a := WideArg(s, width, least, true);
            a.used == width && ToBe(a.value, width) == s[..width] && least <= a.value < Pow256(width)
  {
    ToBeOfBe(s[..width]);
  }

  lemma WideArgOfToBe(n: u64, width: nat, least: nat, t: bytes)
    requires width <= 8 && least <= n < Pow256(width)
    ensures WideArg(ToBe(n, width) + t, width, least, true) == Parsed(n, width)
  {
    BeOfToBe(n, width);
    assert (ToBe(n, width) + t)[..width] == ToBe(n, width);
  }

  /** A canonically read argument is re-encoded by the same head. */
  lemma HeadOfArg(s: bytes, major: nat, ai: nat)
    requires major < 8 && ai < 32 && UintArg(s, ai, true).Parsed?
    ensures var a := UintArg(s, ai, true); Head(major, a.value) == [major * 32 + ai] + s[..a.used]
  {
    hide ToBe, WideArg, Pow256;
    Pow256Values();
    if ai == 24 { WideArgIsShortest(s, 1, 24); }
    else if ai == 25 { WideArgIsShortest(s, 2, 0x100); }
    else if ai == 26 { WideArgIsShortest(s, 4, 0x1_0000); }
    else if ai == 27 { WideArgIsShortest(s, 8, 0x1_0000_0000); }
  }

  /** The head of `n` reads back as `n`, consuming the head and no more. */
  lemma ArgOfHead(major: nat, n: u64, t: bytes)
    requires major < 8
    ensures var s := Head(major, n) + t;
            s[0] / 32 == major &&
            UintArg(s[1..], s[0] % 32, true) == Parsed(n, |Head(major, n)| - 1) &&
            s[1..][|Head(major, n)| - 1..] == t
  {
    hide ToBe, WideArg, Pow256;
    Pow256Values();
    var h := Head(major, n);
    assert (h + t)[1..] == h[1..] + t;
    if n > 23 {
      var w, least := ArgWidth(n);
      assert h[1..] == ToBe(n, w);
      WideArgOfToBe(n, w, least, t);
    }
  }

  lemma ArgWidth(n: u64) returns (w: nat, least: nat)
    requires n > 23
    ensures least <= n < Pow256(w)
    ensures (w == 1 && least == 24 && n <= 0xff) || (w == 2 && least == 0x100 && 0xff < n <= 0xffff) ||
            (w == 4 && least == 0x1_0000 && 0xffff < n <= 0xffff_ffff) || (w == 8 && least == 0x1_0000_0000 && 0xffff_ffff < n)
  {
    Pow256Values();
    w, least := if n <= 0xff then 1 else if n <= 0xffff then 2 else if n <= 0xffff_ffff then 4 else 8,
      if n <= 0xff then 24 else if n <= 0xffff then 0x100 else if n <= 0xffff_ffff then 0x1_0000 else 0x1_0000_0000;
  }

  // ----- accepted input is what the encoder writes -----

  lemma {:induction false} ItemIsEncoding(s: bytes, depth: nat, o: Options)
    requires o.canonical && Item(s, depth, o).Parsed?
    ensures var p := Item(s, depth, o);
            Encode(p.value) == s[..p.used] && Wf(p.value, depth, o) && Ordered(p.value)
    decreases |s|, 1
  {
    hide Body;
    var p := Item(s, depth, o);
    var major, ai, t := s[0] / 32, s[0] % 32, s[1..];
    assert s[0] == major * 32 + ai;
    if major == 7 {
      hide Wf, Ordered, Encode;
      SimpleIsEncoding(t, ai, depth, o);
      assert s[..p.used] == [s[0]] + t[..p.used - 1];
    } else {
      hide Encode, Wf, Ordered, UintArg, Head;
      var a := UintArg(t, ai, true);
      var r := t[a.used..];
      HeadOfArg(t, major, ai);
      BodyIsEncoding(r, major, a.value, depth, o);
      var b := Body(r, major, a.value, depth, o);
      assert s[..p.used] == [s[0]] + t[..a.used] + r[..b.used];
    }
  }

  lemma SimpleIsEncoding(t: bytes, ai: nat, depth: nat, o: Options)
    requires o.canonical && depth <= o.limits.maxDepth && ai < 32 && SimpleOrFloat(t, ai, o).Parsed?
    ensures var p := SimpleOrFloat(t, ai, o);
            Encode(p.value) == [224 + ai] + t[..p.used] && Wf(p.value, depth, o) && Ordered(p.value)
  {
  }

  lemma {:induction false} BodyIsEncoding(s: bytes, major: nat, arg: u64, depth: nat, o: Options)
    requires o.canonical && depth <= o.limits.maxDepth && major < 7 && Body(s, major, arg, depth, o).Parsed?
    ensures var p := Body(s, major, arg, depth, o);
            Encode(p.value) == Head(major, arg) + s[..p.used] && Wf(p.value, depth, o) && Ordered(p.value)
    decreases |s|, 4
  {
    hide Item, Items, Pairs, Head, Utf8Valid, StableSort.Sort, Flatten, EncodeItems, EncodeEntries, WfItems, WfEntries, OrderedItems, OrderedEntries, Ascending;
    var p := Body(s, major, arg, depth, o);
    if major == 4 {
      ItemsAreEncodings(s, arg, depth + 1, o);
    } else if major == 5 {
      PairsAreEncodings(s, arg, depth + 1, {}, None, o);
      AscendingIsSorted(None, p.value.entries);
      StableSort.SortedIsFixed(EncodeEntries(p.value.entries), EntryLess);
    } else if major == 6 {
      ItemIsEncoding(s, depth + 1, o);
    }
  }

  lemma {:induction false} ItemsAreEncodings(s: bytes, n: nat, depth: nat, o: Options)
    requires o.canonical && Items(s, n, depth, o).Parsed?
    ensures var p := Items(s, n, depth, o);
            EncodeItems(p.value) == s[..p.used] && WfItems(p.value, depth, o) && OrderedItems(p.value)
    decreases |s|, 2, n
  {
    hide Item, Encode, Wf, Ordered;
    if n > 0 {
      ItemIsEncoding(s, depth, o);
      var p := Items(s, n, depth, o);
      var u := Item(s, depth, o).used;
      ItemsAreEncodings(s[u..], n - 1, depth, o);
      assert p.value[1..] == Items(s[u..], n - 1, depth, o).value;
      assert s[..p.used] == s[..u] + s[u..][..p.used - u];
    }
  }

  lemma {:induction false} PairsAreEncodings(s: bytes, n: nat, depth: nat, seen: set<bytes>, prev: Option<bytes>, o: Options)
    requires o.canonical && Pairs(s, n, depth, seen, prev, o).Parsed?
    ensures var p := Pairs(s, n, depth, seen, prev, o);
            Flatten(EncodeEntries(p.value)) == s[..p.used] &&
            WfEntries(p.value, depth, o) && OrderedEntries(p.value) && Ascending(prev, p.value)
    decreases |s|, 3, n
  {
    hide Pair, Encode, Wf, Ordered;
    if n > 0 {
      var p := Pairs(s, n, depth, seen, prev, o);
      var q := Pair(s, depth, seen, prev, o);
      PairIsEncoding(s, depth, seen, prev, o);
      var key := q.value.encodedKey;
      PairsAreEncodings(s[q.used..], n - 1, depth, seen + {key}, NextKey(prev, key, o), o);
      assert p.value[1..] == Pairs(s[q.used..], n - 1, depth, seen + {key}, NextKey(prev, key, o), o).value;
      assert s[..p.used] == s[..q.used] + s[q.used..][..p.used - q.used];
      assert EncodeEntries(p.value)[1..] == EncodeEntries(p.value[1..]);
    }
  }

  lemma {:induction false} PairIsEncoding(s: bytes, depth: nat, seen: set<bytes>, prev: Option<bytes>, o: Options)
    requires o.canonical && Pair(s, depth, seen, prev, o).Parsed?
    ensures var p := Pair(s, depth, seen, prev, o); var e := p.value.entry;
            Encode(e.key) + Encode(e.value) == s[..p.used] && p.value.encodedKey == Encode(e.key) &&
            WfEntry(e, depth, o) && OrderedEntry(e) &&
            (prev.Some? ==> Lex.KeyLess(prev.value, Encode(e.key)))
    decreases |s|, 2
  {
    hide Item, Encode, Wf, Ordered;
    var p := Pair(s, depth, seen, prev, o);
    var u := Item(s, depth, o).used;
    ItemIsEncoding(s, depth, o);
    ItemIsEncoding(s[u..], depth, o);
    assert s[..p.used] == s[..u] + s[u..][..p.used - u];
    if prev.Some? {
      Lex.KeyTrichotomy(prev.value, s[..u]);
    }
  }

  /** Strictly ascending keys are a sorted sequence, so the encoder's sort leaves them alone. */
  lemma {:induction false} AscendingIsSorted(prev: Option<bytes>, entries: seq<Entry>)
    requires Ascending(prev, entries)
    ensures var es := EncodeEntries(entries);
            StableSort.StrictlySorted(es, EntryLess) && StableSort.Sorted(es, EntryLess) &&
            (forall i :: 0 <= i < |es| ==> es[i].key == Encode(entries[i].key)) &&
            (prev.Some? ==> forall i :: 0 <= i < |es| ==> Lex.KeyLess(prev.value, es[i].key))
    decreases entries
  {
    hide Encode;
    var es := EncodeEntries(entries);
    if |entries| > 0 {
      var k := Encode(entries[0].key);
      var rest := EncodeEntries(entries[1..]);
      AscendingIsSorted(Some(k), entries[1..]);
      forall i | 0 <= i < |es| ensures es[i].key == Encode(entries[i].key) && (prev.Some? ==> Lex.KeyLess(prev.value, es[i].key)) {
        if i == 0 {
          assert es[0] == EncodeEntry(entries[0]);
        } else {
          assert es[i] == rest[i - 1] && entries[i] == entries[1..][i - 1];
          if prev.Some? { Lex.KeyTransitive(prev.value, k, es[i].key); }
        }
      }
      forall i, j | 0 <= i < j < |es| ensures EntryLess(es[i], es[j]) && !EntryLess(es[j], es[i]) {
        assert es[j] == rest[j - 1];
        if i > 0 { assert es[i] == rest[i - 1]; }
        Lex.KeyTrichotomy(es[i].key, es[j].key);
      }
    }
  }

  // ----- the encoder's output is accepted -----

  lemma {:induction false} EncodingIsItem(v: CborValue, t: bytes, depth: nat, o: Options)
    requires o.canonical && Wf(v, depth, o) && Ordered(v)
    ensures Item(Encode(v) + t, depth, o) == Parsed(v, |Encode(v)|)
    decreases v, 1
  {
    hide Item, UintArg, Head, Utf8Valid;
    match v
    case Unsigned(n) =>
      HeadThenBody(v, 0, n, [], t, depth, o);
      assert Encode(v) == Head(0, n) + [];
    case Negative(i) =>
      assert (-1 - i) % U64_BOUND == -1 - i;
      HeadThenBody(v, 1, -1 - i, [], t, depth, o);
      assert Encode(v) == Head(1, -1 - i) + [];
    case Bytes(b) =>
      assert (b + t)[..|b|] == b;
      HeadThenBody(v, 2, |b|, b, t, depth, o);
    case Text(b) =>
      assert (b + t)[..|b|] == b;
      HeadThenBody(v, 3, |b|, b, t, depth, o);
    case Array(items) =>
      EncodingsAreItems(items, t, depth + 1, o);
      HeadThenBody(v, 4, |items|, EncodeItems(items), t, depth, o);
    case Map(entries) =>
      AscendingIsSorted(None, entries);
      StableSort.SortedIsFixed(EncodeEntries(entries), EntryLess);
      EncodingsArePairs(entries, t, depth + 1, {}, None, o);
      HeadThenBody(v, 5, |entries|, Flatten(EncodeEntries(entries)), t, depth, o);
    case Tag(tag, inner) =>
      EncodingIsItem(inner, t, depth + 1, o);
      HeadThenBody(v, 6, tag, Encode(inner), t, depth, o);
    case _ => SimpleEncodingIsItem(v, t, depth, o);
  }

  lemma SimpleEncodingIsItem(v: CborValue, t: bytes, depth: nat, o: Options)
    requires v.Bool? || v.Null? || v.Undefined? || v.Simple?
    requires o.canonical && Wf(v, depth, o)
    ensures Item(Encode(v) + t, depth, o) == Parsed(v, |Encode(v)|)
  {
    hide Body, UintArg;
    assert (Encode(v) + t)[1..] == Encode(v)[1..] + t;
  }

  /** An item is read by reading its head and then its content. */
  lemma HeadThenBody(v: CborValue, major: nat, arg: u64, content: bytes, t: bytes, depth: nat, o: Options)
    requires o.canonical && major < 7 && depth <= o.limits.maxDepth
    requires Body(content + t, major, arg, depth, o) == Parsed(v, |content|)
    ensures Item(Head(major, arg) + content + t, depth, o) == Parsed(v, |Head(major, arg) + content|)
  {
    hide Body, UintArg, Head;
    ArgOfHead(major, arg, content + t);
    assert Head(major, arg) + content + t == Head(major, arg) + (content + t);
  }

  lemma {:induction false} EncodingsAreItems(items: seq<CborValue>, t: bytes, depth: nat, o: Options)
    requires o.canonical && WfItems(items, depth, o) && OrderedItems(items)
    ensures Items(EncodeItems(items) + t, |items|, depth, o) == Parsed(items, |EncodeItems(items)|)
    decreases items, 0
  {
    hide Item, Encode, Wf, Ordered;
    if |items| > 0 {
      var e, rest := Encode(items[0]), EncodeItems(items[1..]);
      assert EncodeItems(items) + t == e + (rest + t);
      EncodingIsItem(items[0], rest + t, depth, o);
      EncodingsAreItems(items[1..], t, depth, o);
      assert (e + (rest + t))[|e|..] == rest + t;
      assert items == [items[0]] + items[1..];
    } else {
      assert EncodeItems(items) + t == t;
    }
  }

  ghost predicate SeenBelow(seen: set<bytes>, prev: Option<bytes>) {
    forall k :: k in seen ==> prev.Some? && (k == prev.value || Lex.KeyLess(k, prev.value))
  }

  lemma {:induction false} EncodingsArePairs(entries: seq<Entry>, t: bytes, depth: nat, seen: set<bytes>, prev: Option<bytes>, o: Options)
    requires o.canonical && WfEntries(entries, depth, o) && OrderedEntries(entries)
    requires Ascending(prev, entries) && SeenBelow(seen, prev)
    ensures var enc := Flatten(EncodeEntries(entries));
            Pairs(enc + t, |entries|, depth, seen, prev, o) == Parsed(entries, |enc|)
    decreases entries, 0
  {
    hide Pair, Encode, Wf, Ordered;
    var enc := Flatten(EncodeEntries(entries));
    if |entries| > 0 {
      var e := entries[0];
      var k, v, rest := Encode(e.key), Encode(e.value), Flatten(EncodeEntries(entries[1..]));
      assert EncodeEntries(entries)[0] == EncodeEntry(e);
      assert EncodeEntries(entries)[1..] == EncodeEntries(entries[1..]);
      assert enc == k + v + rest;
      assert enc + t == k + v + (rest + t);
      EncodingIsPair(e, rest + t, depth, seen, prev, o);
      forall k' | k' in seen + {k} ensures k' == k || Lex.KeyLess(k', k) {
        if k' in seen && k' != prev.value { Lex.KeyTransitive(k', prev.value, k); }
      }
      EncodingsArePairs(entries[1..], t, depth, seen + {k}, Some(k), o);
      assert (k + v + (rest + t))[|k + v|..] == rest + t;
      assert entries == [e] + entries[1..];
    } else {
      assert enc + t == t;
    }
  }

  lemma {:induction false} EncodingIsPair(e: Entry, t: bytes, depth: nat, seen: set<bytes>, prev: Option<bytes>, o: Options)
    requires o.canonical && WfEntry(e, depth, o) && OrderedEntry(e) && SeenBelow(seen, prev)
    requires prev.Some? ==> Lex.KeyLess(prev.value, Encode(e.key))
    ensures Pair(Encode(e.key) + Encode(e.value) + t, depth, seen, prev, o)
            == Parsed(KeyedEntry(e, Encode(e.key)), |Encode(e.key)| + |Encode(e.value)|)
    decreases e, 0
  {
    hide Item, Encode, Wf, Ordered;
    var k, v := Encode(e.key), Encode(e.value);
    var s := k + v + t;
    assert s == k + (v + t);
    EncodingIsItem(e.key, v + t, depth, o);
    EncodingIsItem(e.value, t, depth, o);
    assert s[..|k|] == k && s[|k|..] == v + t;
    if prev.Some? {
      Lex.KeyTrichotomy(prev.value, k);
    }
    forall k' | k' in seen ensures k' != k {
      if k' != prev.value { Lex.KeyTransitive(k', prev.value, k); }
      Lex.KeyTrichotomy(k', k);
    }
  }

  // ----- main theorems -----

  /** Canonical decoding, characterised: an item is accepted as `v` exactly when `v` is well formed for
      the mode, its maps are in key order, and the input starts with the encoding of `v`. */
  lemma CanonicalItems(s: bytes, depth: nat, o: Options, v: CborValue, u: nat)
    requires o.canonical
    ensures Item(s, depth, o) == Parsed(v, u)
            <==> Wf(v, depth, o) && Ordered(v) && u == |Encode(v)| && u <= |s| && s[..u] == Encode(v)
  {
    hide Item, Wf, Ordered, Encode;
    if Item(s, depth, o) == Parsed(v, u) {
      ItemIsEncoding(s, depth, o);
    }
    if Wf(v, depth, o) && Ordered(v) && u == |Encode(v)| && u <= |s| && s[..u] == Encode(v) {
      EncodingIsItem(v, s[u..], depth, o);
      assert s == s[..u] + s[u..];
    }
  }

  /** `parse_exact` in strict DAG-CBOR or generic canonical mode accepts exactly the encodings of
      ordered well-formed values, and gives that value back. */
  lemma CanonicalParseExactly(s: bytes, o: Options, v: CborValue)
    requires o.canonical
    ensures ParseExact(s, o) == Ok(v) <==> Wf(v, 0, o) && Ordered(v) && s == Encode(v)
  {
    hide Item, Wf, Ordered, Encode;
    var u := |Encode(v)|;
    CanonicalItems(s, 0, o, v, u);
    if ParseExact(s, o) == Ok(v) {
      CanonicalItems(s, 0, o, v, ParseOne(s, o).used);
      assert s[..|s|] == s;
    }
    if s == Encode(v) {
      assert s[..u] == s;
    }
  }

  /** Two accepted inputs with the same value are the same bytes. */
  lemma OneEncodingPerValue(s: bytes, t: bytes, o: Options)
    requires o.canonical && ParseExact(s, o).Ok? && ParseExact(s, o) == ParseExact(t, o)
    ensures s == t
  {
    hide ParseExact, Wf, Ordered, Encode;
    var v := ParseExact(s, o).value;
    CanonicalParseExactly(s, o, v);
    CanonicalParseExactly(t, o, v);
  }

  // ----- sorting maps -----

  predicate EntryKeyLess(a: Entry, b: Entry) {
    Lex.KeyLess(Encode(a.key), Encode(b.key))
  }

  /** The same value with every map listed in key order. */
  ghost function Canon(v: CborValue): CborValue
    decreases v, 1
  {
    match v
    case Array(items) => Array(CanonItems(items))
    case Map(entries) => Map(StableSort.Sort(CanonEntries(entries), EntryKeyLess))
    case Tag(tag, inner) => Tag(tag, Canon(inner))
    case _ => v
  }

  ghost function CanonItems(items: seq<CborValue>): (r: seq<CborValue>)
    ensures |r| == |items|
    decreases items, 0
  {
    if |items| == 0 then [] else [Canon(items[0])] + CanonItems(items[1..])
  }

  ghost function CanonEntries(entries: seq<Entry>): (r: seq<Entry>)
    ensures |r| == |entries|
    decreases entries, 0
  {
    if |entries| == 0 then [] else [CanonEntry(entries[0])] + CanonEntries(entries[1..])
  }

  ghost function CanonEntry(e: Entry): Entry
    decreases e, 0
  {
    Entry(Canon(e.key), Canon(e.value))
  }

  /** No map, at any level, holds two keys with the same encoding. */
  ghost predicate DistinctKeys(v: CborValue)
    decreases v, 1
  {
    match v
    case Array(items) => DistinctItems(items)
    case Map(entries) => NoTwoKeysAlike(entries) && DistinctEntries(entries)
    case Tag(_, inner) => DistinctKeys(inner)
    case _ => true
  }

  ghost predicate DistinctItems(items: seq<CborValue>)
    decreases items, 0
  {
    |items| > 0 ==> DistinctKeys(items[0]) && DistinctItems(items[1..])
  }

  ghost predicate DistinctEntries(entries: seq<Entry>)
    decreases entries, 0
  {
    |entries| > 0 ==> DistinctEntry(entries[0]) && DistinctEntries(entries[1..])
  }

  ghost predicate DistinctEntry(e: Entry)
    decreases e, 0
  {
    DistinctKeys(e.key) && DistinctKeys(e.value)
  }

  ghost predicate NoTwoKeysAlike(entries: seq<Entry>) {
    forall i, j :: 0 <= i < j < |entries| ==> Encode(entries[i].key) != Encode(entries[j].key)
  }

  lemma EntryOrders()
    ensures StableSort.WeakOrder(EntryLess)
    ensures StableSort.WeakOrder(EntryKeyLess)
  {
    forall a: EncodedEntry, b: EncodedEntry ensures EntryLess(a, b) ==> !EntryLess(b, a) {
      Lex.KeyTrichotomy(a.key, b.key);
    }
    forall a: EncodedEntry, b: EncodedEntry, c: EncodedEntry | !EntryLess(a, b) && !EntryLess(b, c) ensures !EntryLess(a, c) {
      NotLessTransitive(a.key, b.key, c.key);
    }
    forall a: Entry, b: Entry ensures EntryKeyLess(a, b) ==> !EntryKeyLess(b, a) {
      Lex.KeyTrichotomy(Encode(a.key), Encode(b.key));
    }
    forall a: Entry, b: Entry, c: Entry | !EntryKeyLess(a, b) && !EntryKeyLess(b, c) ensures !EntryKeyLess(a, c) {
      NotLessTransitive(Encode(a.key), Encode(b.key), Encode(c.key));
    }
  }

  lemma NotLessTransitive(a: bytes, b: bytes, c: bytes)
    requires !Lex.KeyLess(a, b) && !Lex.KeyLess(b, c)
    ensures !Lex.KeyLess(a, c)
  {
    Lex.KeyTrichotomy(a, b);
    Lex.KeyTrichotomy(b, c);
    Lex.KeyTrichotomy(a, c);
    if a != b && b != c {
      Lex.KeyTransitive(c, b, a);
    }
  }

  lemma {:induction false} EncodeEntriesIsMap(entries: seq<Entry>)
    ensures EncodeEntries(entries) == StableSort.Map(EncodeEntry, entries)
  {
    hide EncodeEntry;
    if |entries| > 0 { EncodeEntriesIsMap(entries[1..]); }
  }

  /** The encoder does not see the order in which a map lists its entries. */
  lemma {:induction false} CanonSameEncoding(v: CborValue)
    ensures Encode(Canon(v)) == Encode(v)
    decreases v, 1
  {
    hide Head;
    match v
    case Array(items) => CanonItemsSameEncoding(items);
    case Tag(_, inner) => CanonSameEncoding(inner);
    case Map(entries) =>
      hide Encode, Canon;
      var cs := CanonEntries(entries);
      CanonEntriesSameEncoding(entries);
      SortEncodes(cs);
      CanonMapEncoding(entries);
    case _ =>
  }

  lemma SortEncodes(cs: seq<Entry>)
    ensures EncodeEntries(StableSort.Sort(cs, EntryKeyLess)) == StableSort.Sort(EncodeEntries(cs), EntryLess)
    ensures StableSort.Sort(EncodeEntries(StableSort.Sort(cs, EntryKeyLess)), EntryLess) == StableSort.Sort(EncodeEntries(cs), EntryLess)
  {
    hide Encode;
    EncodeEntriesIsMap(cs);
    EncodeEntriesIsMap(StableSort.Sort(cs, EntryKeyLess));
    StableSort.SortCommutes(cs, EntryKeyLess, EncodeEntry, EntryLess);
    EntryOrders();
    StableSort.SortSorted(EncodeEntries(cs), EntryLess);
    StableSort.SortedIsFixed(StableSort.Sort(EncodeEntries(cs), EntryLess), EntryLess);
  }

  lemma CanonMapEncoding(entries: seq<Entry>)
    requires StableSort.Sort(EncodeEntries(StableSort.Sort(CanonEntries(entries), EntryKeyLess)), EntryLess)
             == StableSort.Sort(EncodeEntries(entries), EntryLess)
    ensures Encode(Canon(Map(entries))) == Encode(Map(entries))
  {
    hide StableSort.Sort, Head;
  }

  lemma {:induction false} CanonItemsSameEncoding(items: seq<CborValue>)
    ensures EncodeItems(CanonItems(items)) == EncodeItems(items)
    decreases items, 0
  {
    hide Encode, Canon;
    if |items| > 0 {
      CanonSameEncoding(items[0]);
      CanonItemsSameEncoding(items[1..]);
      assert CanonItems(items)[1..] == CanonItems(items[1..]);
    }
  }

  lemma {:induction false} CanonEntriesSameEncoding(entries: seq<Entry>)
    ensures EncodeEntries(CanonEntries(entries)) == EncodeEntries(entries)
    decreases entries, 0
  {
    hide Encode, Canon;
    if |entries| > 0 {
      CanonEntrySameEncoding(entries[0]);
      CanonEntriesSameEncoding(entries[1..]);
      assert CanonEntries(entries)[1..] == CanonEntries(entries[1..]);
    }
  }

  lemma {:induction false} CanonEntrySameEncoding(e: Entry)
    ensures EncodeEntry(CanonEntry(e)) == EncodeEntry(e)
    decreases e, 0
  {
    hide Encode, Canon;
    CanonSameEncoding(e.key);
    CanonSameEncoding(e.value);
  }

  lemma {:induction false} EachEntry(entries: seq<Entry>, depth: nat, o: Options)
    ensures WfEntries(entries, depth, o) <==> forall i :: 0 <= i < |entries| ==> WfEntry(entries[i], depth, o)
    ensures OrderedEntries(entries) <==> forall i :: 0 <= i < |entries| ==> OrderedEntry(entries[i])
    decreases entries
  {
    if |entries| > 0 {
      var rest := entries[1..];
      EachEntry(rest, depth, o);
      assert forall i :: 0 <= i < |rest| ==> rest[i] == entries[i + 1];
      assert forall i :: 1 <= i < |entries| ==> entries[i] == rest[i - 1];
    }
  }

  lemma {:induction false} StrictIsAscending(prev: Option<bytes>, entries: seq<Entry>)
    requires StableSort.StrictlySorted(entries, EntryKeyLess)
    requires prev.Some? && |entries| > 0 ==> Lex.KeyLess(prev.value, Encode(entries[0].key))
    ensures Ascending(prev, entries)
    decreases entries
  {
    hide Encode;
    if |entries| > 0 {
      if |entries| > 1 { assert EntryKeyLess(entries[0], entries[1]); }
      StrictIsAscending(Some(Encode(entries[0].key)), entries[1..]);
    }
  }

  /** Sorting the maps of a well-formed value whose keys are distinct gives an accepted value. */
  lemma {:induction false} CanonIsAccepted(v: CborValue, depth: nat, o: Options)
    requires Wf(v, depth, o) && DistinctKeys(v)
    ensures Wf(Canon(v), depth, o) && Ordered(Canon(v))
    decreases v, 1
  {
    match v
    case Array(items) => CanonItemsAccepted(items, depth + 1, o);
    case Tag(_, inner) => CanonIsAccepted(inner, depth + 1, o);
    case Map(entries) =>
      hide Encode;
      CanonEntriesAccepted(entries, depth + 1, o);
      var cs := CanonEntries(entries);
      var r := StableSort.Sort(cs, EntryKeyLess);
      CanonEntriesSameEncoding(entries);
      SortedCanonIsAscending(entries);
      EachEntry(cs, depth + 1, o);
      EachEntry(r, depth + 1, o);
      forall i | 0 <= i < |r| ensures WfEntry(r[i], depth + 1, o) && OrderedEntry(r[i]) {
        StableSort.SameElements(cs, EntryKeyLess, r[i]);
      }
    case _ =>
  }

  lemma SortedCanonIsAscending(entries: seq<Entry>)
    requires NoTwoKeysAlike(entries)
    ensures Ascending(None, StableSort.Sort(CanonEntries(entries), EntryKeyLess))
  {
    hide Encode, Canon;
    var cs := CanonEntries(entries);
    forall i, j | 0 <= i < j < |cs| ensures EntryKeyLess(cs[i], cs[j]) || EntryKeyLess(cs[j], cs[i]) {
      CanonEntryAt(entries, i);
      CanonEntryAt(entries, j);
      Lex.KeyTrichotomy(Encode(cs[i].key), Encode(cs[j].key));
    }
    EntryOrders();
    StableSort.SortStrict(cs, EntryKeyLess);
    StrictIsAscending(None, StableSort.Sort(cs, EntryKeyLess));
  }

  lemma {:induction false} CanonEntryAt(entries: seq<Entry>, i: nat)
    requires i < |entries|
    ensures CanonEntries(entries)[i] == CanonEntry(entries[i])
    ensures Encode(CanonEntries(entries)[i].key) == Encode(entries[i].key)
    decreases entries
  {
    hide Encode, Canon;
    if i > 0 { CanonEntryAt(entries[1..], i - 1); }
    CanonSameEncoding(entries[i].key);
  }

  lemma {:induction false} CanonItemsAccepted(items: seq<CborValue>, depth: nat, o: Options)
    requires WfItems(items, depth, o) && DistinctItems(items)
    ensures WfItems(CanonItems(items), depth, o) && OrderedItems(CanonItems(items))
    decreases items, 0
  {
    hide Canon, Wf, Ordered, DistinctKeys;
    if |items| > 0 {
      CanonIsAccepted(items[0], depth, o);
      CanonItemsAccepted(items[1..], depth, o);
      assert CanonItems(items)[1..] == CanonItems(items[1..]);
    }
  }

  lemma {:induction false} CanonEntriesAccepted(entries: seq<Entry>, depth: nat, o: Options)
    requires WfEntries(entries, depth, o) && DistinctEntries(entries)
    ensures WfEntries(CanonEntries(entries), depth, o) && OrderedEntries(CanonEntries(entries))
    decreases entries, 0
  {
    hide WfEntry, OrderedEntry, CanonEntry, DistinctEntry;
    if |entries| > 0 {
      CanonEntryAccepted(entries[0], depth, o);
      CanonEntriesAccepted(entries[1..], depth, o);
      assert CanonEntries(entries)[1..] == CanonEntries(entries[1..]);
    }
  }

  lemma {:induction false} CanonEntryAccepted(e: Entry, depth: nat, o: Options)
    requires WfEntry(e, depth, o) && DistinctEntry(e)
    ensures WfEntry(CanonEntry(e), depth, o) && OrderedEntry(CanonEntry(e))
    decreases e, 0
  {
    hide Wf, Ordered, DistinctKeys;
    CanonIsAccepted(e.key, depth, o);
    CanonIsAccepted(e.value, depth, o);
  }

  /** Round trip: what the encoder writes for a well-formed value, whatever follows it, is read back as
      that value with its maps sorted, consuming exactly the encoding. */
  lemma RoundTrip(v: CborValue, t: bytes, depth: nat, o: Options)
    requires o.canonical && Wf(v, depth, o) && DistinctKeys(v)
    ensures Item(Encode(v) + t, depth, o) == Parsed(Canon(v), |Encode(v)|)
  {
    hide Wf, Ordered, Encode, Canon, DistinctKeys, Item;
    CanonIsAccepted(v, depth, o);
    CanonSameEncoding(v);
    EncodingIsItem(Canon(v), t, depth, o);
  }

  /** No encoding is a proper prefix of another, and equal encodings mean equal values up to map order. */
  lemma PrefixFree(a: CborValue, b: CborValue, o: Options)
    requires o.canonical && Wf(a, 0, o) && DistinctKeys(a) && Wf(b, 0, o) && DistinctKeys(b)
    ensures Encode(a) <= Encode(b) <==> Canon(a) == Canon(b)
    ensures Canon(a) == Canon(b) <==> Encode(a) == Encode(b)
  {
    hide Wf, Ordered, Encode, Canon, DistinctKeys, Item;
    RoundTrip(a, [], 0, o);
    RoundTrip(b, [], 0, o);
    CanonSameEncoding(a);
    CanonSameEncoding(b);
    assert Encode(a) + [] == Encode(a) && Encode(b) + [] == Encode(b);
    if Encode(a) <= Encode(b) {
      RoundTrip(a, Encode(b)[|Encode(a)|..], 0, o);
      assert Encode(b) == Encode(a) + Encode(b)[|Encode(a)|..];
    }
  }

  /** On ordered values the encoder is injective. */
  lemma OrderedInjective(a: CborValue, b: CborValue, depth: nat, o: Options)
    requires o.canonical && Wf(a, depth, o) && Ordered(a) && Wf(b, depth, o) && Ordered(b) && Encode(a) == Encode(b)
    ensures a == b
  {
    hide Wf, Ordered, Encode, Item;
    EncodingIsItem(a, [], depth, o);
    EncodingIsItem(b, [], depth, o);
  }
}

/** Which failure the decoder reports, input by input (core/rust/grain-core/src/cbor.rs:150-355). */
module CborErrors {
  import opened Prelude
  import opened Cbor
  import opened CborCanonical
  import opened CborText
  import opened CborModes
  import opened Texts
  import Lex
  import StableSort

  /** Behind a head, in every mode. */
  lemma AfterHead(major: nat, n: u64, t: bytes, depth: nat, o: Options)
    requires major < 7 && depth <= o.limits.maxDepth
    ensures Item(Head(major, n) + t, depth, o) == Advance(Body(t, major, n, depth, o), |Head(major, n)|)
  {
    hide Body, UintArg, Head;
    ArgOfHead(major, n, t);
    var s := Head(major, n) + t;
    ArgInAnyMode(s[1..], s[0] % 32, o.canonical);
  }

  /** Reserved and indefinite lengths, for every major type that takes an argument. */
  lemma ReservedHeads(major: nat, ai: nat, t: bytes, depth: nat, o: Options)
    requires major < 7 && 28 <= ai < 32 && depth <= o.limits.maxDepth
    ensures Item([major * 32 + ai] + t, depth, o) == Failed(if ai == 31 then Fail(NonCanonical) else InvalidInitial)
  {
  }

  /** An argument in a wider form than it needs is refused exactly in canonical modes. */
  lemma WiderThanNeeded(major: nat, n: u64, w: nat, t: bytes, depth: nat, o: Options)
    requires major < 7 && depth <= o.limits.maxDepth && FitsIn(n, w) && HeadOfWidth(major, n, w) != Head(major, n)
    ensures Item(HeadOfWidth(major, n, w) + t, depth, o) ==
            if o.canonical then Failed(Fail(NonCanonical)) else Advance(Body(t, major, n, depth, o), 1 + w)
  {
    hide Body;
    ArgOfWidth(major, n, w, t);
    var s := HeadOfWidth(major, n, w) + t;
    WideIsNotShortest(major, n, w, s);
  }

  lemma WideIsNotShortest(major: nat, n: u64, w: nat, s: bytes)
    requires major < 8 && FitsIn(n, w) && HeadOfWidth(major, n, w) != Head(major, n) && |s| > 0
    requires s[0] == HeadOfWidth(major, n, w)[0] && UintArg(s[1..], s[0] % 32, false) == Parsed(n, w)
    ensures UintArg(s[1..], s[0] % 32, true) == Failed(Fail(NonCanonical))
  {
    hide ToBe, BeNat;
    Pow256Values();
  }

  /** Nesting below the limit is refused before anything is read. */
  lemma TooDeep(s: bytes, depth: nat, o: Options)
    requires depth > o.limits.maxDepth
    ensures Item(s, depth, o) == Failed(Fail(Limit))
  {
  }

  /** Arrays of arrays, opened past the limit: refused whatever follows. */
  lemma {:induction false} DeepArrays(k: nat, t: bytes, depth: nat, o: Options)
    requires depth + k > o.limits.maxDepth && o.limits.maxArray >= 1
    ensures Item(Fill(0x81, k) + t, depth, o) == Failed(Fail(Limit))
    decreases k
  {
    hide Item;
    if depth > o.limits.maxDepth {
      TooDeep(Fill(0x81, k) + t, depth, o);
    } else {
      var rest := Fill(0x81, k - 1) + t;
      assert Head(4, 1) == [0x81];
      assert Fill(0x81, k) + t == Head(4, 1) + rest;
      AfterHead(4, 1, rest, depth, o);
      DeepArrays(k - 1, t, depth + 1, o);
    }
  }

  /** Counts and text lengths past the limit, refused before the content is looked at. */
  lemma TooMany(major: nat, n: u64, t: bytes, depth: nat, o: Options)
    requires depth <= o.limits.maxDepth
    requires (major == 3 && n > o.limits.maxText) || (major == 4 && n > o.limits.maxArray) || (major == 5 && n > o.limits.maxMapPairs)
    ensures Item(Head(major, n) + t, depth, o) == Failed(Fail(Limit))
  {
    hide Item, Items, Pairs;
    AfterHead(major, n, t, depth, o);
  }

  /** Text that is no string. */
  lemma BadText(b: bytes, t: bytes, depth: nat, o: Options)
    requires depth <= o.limits.maxDepth && |b| <= o.limits.maxText && forall s :: Utf8(s) != b
    ensures Item(Head(3, |b|) + b + t, depth, o) == Failed(Fail(NonCanonical))
  {
    hide Item, Utf8Valid, Utf8;
    if Utf8Valid(b) {
      var s := ValidIsString(b);
      assert false;
    }
    AfterHead(3, |b|, b + t, depth, o);
    assert Head(3, |b|) + b + t == Head(3, |b|) + (b + t);
    assert (b + t)[..|b|] == b;
  }

  /** Byte and text strings that end early. */
  lemma ShortString(major: nat, n: u64, t: bytes, depth: nat, o: Options)
    requires (major == 2 || (major == 3 && n <= o.limits.maxText)) && depth <= o.limits.maxDepth && |t| < n
    ensures Item(Head(major, n) + t, depth, o) == Failed(Truncated)
  {
    hide Item;
    AfterHead(major, n, t, depth, o);
  }

  // ----- tags -----

  /** Tags on an admitted value: only 42 in the modes that say so, and there only over a CID. */
  lemma TagVerdict(tag: u64, v: CborValue, t: bytes, depth: nat, o: Options)
    requires o.canonical && depth <= o.limits.maxDepth && Wf(v, depth + 1, o) && Ordered(v)
    ensures Item(Head(6, tag) + Encode(v) + t, depth, o) ==
            if o.onlyTag42 && tag != 42 then Failed(Fail(TagForbidden))
            else if o.dagStrict && tag == 42 && !Tag42Content(v) then Failed(Fail(BadCidLink))
            else Parsed(Tag(tag, v), |Head(6, tag)| + |Encode(v)|)
  {
    hide Item, Encode, Wf, Ordered;
    AfterHead(6, tag, Encode(v) + t, depth, o);
    EncodingIsItem(v, t, depth + 1, o);
    assert Head(6, tag) + Encode(v) + t == Head(6, tag) + (Encode(v) + t);
  }

  // ----- simple values and floats -----

  /** Major type 7, byte by byte. Floats are read and then refused, except that strict mode refuses them unread. */
  lemma SimpleVerdict(b: byte, t: bytes, depth: nat, o: Options)
    requires 0xe0 <= b && depth <= o.limits.maxDepth
    ensures var r := Item([b] + t, depth, o);
            if b == 0xf4 then r == Parsed(Bool(false), 1)
            else if b == 0xf5 then r == Parsed(Bool(true), 1)
            else if b == 0xf6 then r == Parsed(Null, 1)
            else if b == 0xf8 && t == [] then r == Failed(Truncated)
            else if o.dagStrict then r == Failed(Fail(NonCanonical))
            else if b == 0xf7 then r == Parsed(Undefined, 1)
            else if b == 0xf8 then r == (if t[0] < 32 then Failed(Fail(NonCanonical)) else Parsed(Simple(t[0]), 2))
            else if b < 0xf4 then r == Parsed(Simple(b - 0xe0), 1)
            else if b < 0xfc then r == (if |t| < (if b == 0xf9 then 2 else if b == 0xfa then 4 else 8) then Failed(Truncated) else Failed(Fail(NonCanonical)))
            else r == Failed(Fail(NonCanonical))
  {
    hide Body, UintArg;
    assert ([b] + t)[1..] == t;
  }

  // ----- maps -----

  /** The first key that is not above its predecessor, and what is wrong with it: seen before, or out of order. */
  ghost function KeyFault(entries: seq<Entry>, seen: set<bytes>, prev: Option<bytes>): Option<Diag>
    decreases |entries|
  {
    if |entries| == 0 then None
    else
      var k := Encode(entries[0].key);
      if k in seen then Some(DupMapKey)
      else if prev.Some? && !Lex.KeyLess(prev.value, k) then Some(NonCanonical)
      else KeyFault(entries[1..], seen + {k}, Some(k))
  }

  /** Entries written in any order, in a canonical mode: the map if the keys ascend, else the fault of the first
      key that does not. */
  lemma MapVerdict(entries: seq<Entry>, t: bytes, depth: nat, o: Options)
    requires o.canonical && depth <= o.limits.maxDepth && |entries| <= o.limits.maxMapPairs
    requires WfEntries(entries, depth + 1, o) && OrderedEntries(entries)
    ensures var body := Flatten(EncodeEntries(entries));
            Item(Head(5, |entries|) + body + t, depth, o) ==
            match KeyFault(entries, {}, None)
            case None => Parsed(Map(entries), |Head(5, |entries|)| + |body|)
            case Some(d) => Failed(Fail(d))
  {
    hide Item, Pairs, Encode, Wf, Ordered, KeyFault;
    var body := Flatten(EncodeEntries(entries));
    AfterHead(5, |entries|, body + t, depth, o);
    PairsVerdict(entries, t, depth + 1, {}, None, o);
    assert Head(5, |entries|) + body + t == Head(5, |entries|) + (body + t);
  }

  lemma {:induction false} PairsVerdict(entries: seq<Entry>, t: bytes, depth: nat, seen: set<bytes>, prev: Option<bytes>, o: Options)
    requires o.canonical && WfEntries(entries, depth, o) && OrderedEntries(entries) && (prev.Some? ==> prev.value in seen)
    ensures var body := Flatten(EncodeEntries(entries));
            Pairs(body + t, |entries|, depth, seen, prev, o) ==
            match KeyFault(entries, seen, prev)
            case None => Parsed(entries, |body|)
            case Some(d) => Failed(Fail(d))
    decreases |entries|
  {
    hide Pair, Encode, Wf, Ordered;
    var body := Flatten(EncodeEntries(entries));
    if |entries| == 0 {
      assert body + t == t;
    } else {
      var e := entries[0];
      var k, v, rest := Encode(e.key), Encode(e.value), Flatten(EncodeEntries(entries[1..]));
      assert EncodeEntries(entries)[0] == EncodeEntry(e) && EncodeEntries(entries)[1..] == EncodeEntries(entries[1..]);
      assert body + t == k + v + (rest + t);
      PairVerdict(e, rest + t, depth, seen, prev, o);
      PairsVerdict(entries[1..], t, depth, seen + {k}, Some(k), o);
      assert (k + v + (rest + t))[|k + v|..] == rest + t;
      assert entries == [e] + entries[1..];
    }
  }

  lemma PairVerdict(e: Entry, t: bytes, depth: nat, seen: set<bytes>, prev: Option<bytes>, o: Options)
    requires o.canonical && WfEntry(e, depth, o) && OrderedEntry(e) && (prev.Some? ==> prev.value in seen)
    ensures var k := Encode(e.key);
            Pair(k + Encode(e.value) + t, depth, seen, prev, o) ==
            if k in seen then Failed(Fail(DupMapKey))
            else if prev.Some? && !Lex.KeyLess(prev.value, k) then Failed(Fail(NonCanonical))
            else Parsed(KeyedEntry(e, k), |k| + |Encode(e.value)|)
  {
    hide Item, Encode, Wf, Ordered;
    var k, v := Encode(e.key), Encode(e.value);
    var s := k + v + t;
    assert s == k + (v + t);
    EncodingIsItem(e.key, v + t, depth, o);
    EncodingIsItem(e.value, t, depth, o);
    assert s[..|k|] == k && s[|k|..] == v + t;
    if prev.Some? {
      Lex.KeyTrichotomy(prev.value, k);
    }
  }

  /** Strict mode refuses a first key that is not text. */
  lemma KeyMustBeText(key: CborValue, n: u64, t: bytes, depth: nat, o: Options)
    requires o.canonical && o.dagStrict && depth <= o.limits.maxDepth && 0 < n <= o.limits.maxMapPairs
    requires Wf(key, depth + 1, o) && Ordered(key) && !key.Text?
    ensures Item(Head(5, n) + Encode(key) + t, depth, o) == Failed(Fail(NonCanonical))
  {
    hide Item, Encode, Wf, Ordered;
    AfterHead(5, n, Encode(key) + t, depth, o);
    EncodingIsItem(key, t, depth + 1, o);
    assert Pair(Encode(key) + t, depth + 1, {}, None, o) == Failed(Fail(NonCanonical));
    assert Pairs(Encode(key) + t, n, depth + 1, {}, None, o) == Failed(Fail(NonCanonical));
    assert Head(5, n) + Encode(key) + t == Head(5, n) + (Encode(key) + t);
  }

  // ----- whole inputs -----

  /** Something behind a whole item, and nothing at all. */
  lemma WholeInput(v: CborValue, t: bytes, o: Options)
    requires o.canonical && Wf(v, 0, o) && Ordered(v)
    ensures ParseExact(Encode(v) + t, o) == if t == [] then Ok(v) else Err(Fail(NonCanonical))
    ensures ParseExact([], o) == Err(Truncated)
  {
    hide Item, Encode, Wf, Ordered;
    EncodingIsItem(v, t, 0, o);
    NothingIsTruncated(o);
  }

  lemma NothingIsTruncated(o: Options)
    ensures Item([], 0, o) == Failed(Truncated)
  {
  }
}

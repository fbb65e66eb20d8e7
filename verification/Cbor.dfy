/** CBOR values, the deterministic encoding and the three-mode decoder of grain-core, as functions.
    `CborParser` gives the cursor-moving implementation that is proved equal to these. */
module Cbor {
  import opened Prelude
  import Lex
  import StableSort

  datatype CborValue =
    | Unsigned(n: u64)
    | Negative(i: int)
    | Bytes(b: bytes)
    | Text(t: bytes)
    | Array(items: seq<CborValue>)
    | Map(entries: seq<Entry>)
    | Tag(tag: u64, inner: CborValue)
    | Bool(v: bool)
    | Null
    | Undefined
    | Simple(s: byte)

  datatype Entry = Entry(key: CborValue, value: CborValue)

  /** `map_get`: the value of the first entry whose key is that text. */
  function Find(entries: seq<Entry>, key: bytes): Option<CborValue> {
    if |entries| == 0 then None
    else if entries[0].key == Text(key) then Some(entries[0].value)
    else Find(entries[1..], key)
  }

  function MapGet(v: CborValue, key: bytes): Option<CborValue> {
    if v.Map? then Find(v.entries, key) else None
  }

  /** Size limits that the parser itself enforces. */
  datatype Limits = Limits(maxDepth: nat, maxMapPairs: u64, maxArray: u64, maxText: u64)

  const STRICT_BASELINE := Limits(32, 4096, 4096, 1024)

  datatype Options = Options(canonical: bool, dagStrict: bool, onlyTag42: bool, limits: Limits)

  const STRICT_DAG_CBOR := Options(true, true, true, STRICT_BASELINE)
  const GENERIC_CANONICAL := Options(true, false, false, STRICT_BASELINE)
  const GENERIC_LENIENT := Options(false, false, false, STRICT_BASELINE)

  datatype ParseFail = Truncated | InvalidInitial | Fail(diag: Diag)

  /** Outcome of a parse: the value with the number of bytes consumed, or the failure. */
  datatype Parsed<+T> = Parsed(value: T, used: nat) | Failed(fail: ParseFail)

  // ----- big-endian integers -----

  function BeNat(s: bytes): (r: nat)
    ensures r < Pow256(|s|)
  {
    if |s| == 0 then 0 else BeNat(s[..|s| - 1]) * 256 + s[|s| - 1]
  }

  function ToBe(n: nat, k: nat): (r: bytes)
    ensures |r| == k
  {
    if k == 0 then [] else ToBe(n / 256, k - 1) + [n % 256]
  }

  function Pow256(k: nat): (r: nat)
    ensures r > 0
  {
    if k == 0 then 1 else Pow256(k - 1) * 256
  }

  // ----- UTF-8 well-formedness (the check of std::str::from_utf8) -----

  predicate Cont(b: byte) { 0x80 <= b <= 0xbf }

  /** Length of the well-formed character at the head of `s`, 0 if there is none. */
  function Utf8Width(s: bytes): (w: nat)
    ensures w <= |s|
  {
    if |s| == 0 then 0
    else if s[0] < 0x80 then 1
    else if |s| >= 2 && 0xc2 <= s[0] <= 0xdf && Cont(s[1]) then 2
    else if |s| >= 3 && 0xe0 <= s[0] <= 0xef && Cont(s[1]) && Cont(s[2])
      && (s[0] == 0xe0 ==> s[1] >= 0xa0) && (s[0] == 0xed ==> s[1] <= 0x9f) then 3
    else if |s| >= 4 && 0xf0 <= s[0] <= 0xf4 && Cont(s[1]) && Cont(s[2]) && Cont(s[3])
      && (s[0] == 0xf0 ==> s[1] >= 0x90) && (s[0] == 0xf4 ==> s[1] <= 0x8f) then 4
    else 0
  }

  predicate Utf8Valid(s: bytes) {
    |s| == 0 || (Utf8Width(s) > 0 && Utf8Valid(s[Utf8Width(s)..]))
  }

  // ----- encoder -----

  /** `encode_major_u64`: the shortest head for a major type and argument. */
  function Head(major: nat, n: nat): (r: bytes)
    requires major < 8
    ensures 1 <= |r| <= 9
  {
    if n <= 23 then [major * 32 + n]
    else if n <= 0xff then [major * 32 + 24] + ToBe(n, 1)
    else if n <= 0xffff then [major * 32 + 25] + ToBe(n, 2)
    else if n <= 0xffff_ffff then [major * 32 + 26] + ToBe(n, 4)
    else [major * 32 + 27] + ToBe(n, 8)
  }

  datatype EncodedEntry = EncodedEntry(key: bytes, value: bytes)

  predicate EntryLess(a: EncodedEntry, b: EncodedEntry) {
    Lex.KeyLess(a.key, b.key)
  }

  function Encode(v: CborValue): (r: bytes)
    ensures |r| > 0
    decreases v, 1
  {
    match v
    case Unsigned(n) => Head(0, n)
    case Negative(i) => Head(1, (-1 - i) % U64_BOUND)
    case Bytes(b) => Head(2, |b|) + b
    case Text(t) => Head(3, |t|) + t
    case Array(items) => Head(4, |items|) + EncodeItems(items)
    case Map(entries) => Head(5, |entries|) + Flatten(StableSort.Sort(EncodeEntries(entries), EntryLess))
    case Tag(tag, inner) => Head(6, tag) + Encode(inner)
    case Bool(b) => [if b then 0xf5 else 0xf4]
    case Null => [0xf6]
    case Undefined => [0xf7]
    case Simple(s) => if s < 24 then [0xe0 + s] else [0xf8, s]
  }

  function EncodeItems(items: seq<CborValue>): bytes
    decreases items, 0
  {
    if |items| == 0 then [] else Encode(items[0]) + EncodeItems(items[1..])
  }

  function EncodeEntries(entries: seq<Entry>): (r: seq<EncodedEntry>)
    ensures |r| == |entries|
    decreases entries, 0
  {
    if |entries| == 0 then []
    else [EncodeEntry(entries[0])] + EncodeEntries(entries[1..])
  }

  function EncodeEntry(e: Entry): EncodedEntry
    decreases e, 0
  {
    EncodedEntry(Encode(e.key), Encode(e.value))
  }

  function Flatten(es: seq<EncodedEntry>): bytes {
    if |es| == 0 then [] else es[0].key + es[0].value + Flatten(es[1..])
  }

  // ----- decoder -----

  /** `parse_uint_arg` on the bytes after the initial byte. */
  function UintArg(s: bytes, ai: nat, canonical: bool): (r: Parsed<u64>)
    ensures r.Parsed? ==> r.used <= |s|
  {
    if ai <= 23 then Parsed(ai, 0)
    else if ai == 24 then WideArg(s, 1, 24, canonical)
    else if ai == 25 then WideArg(s, 2, 0x100, canonical)
    else if ai == 26 then WideArg(s, 4, 0x1_0000, canonical)
    else if ai == 27 then WideArg(s, 8, 0x1_0000_0000, canonical)
    else if ai == 31 then Failed(Fail(NonCanonical))
    else Failed(InvalidInitial)
  }

  function WideArg(s: bytes, width: nat, least: nat, canonical: bool): (r: Parsed<u64>)
    requires width <= 8
    ensures r.Parsed? ==> r.used <= |s|
  {
    if |s| < width then Failed(Truncated)
    else
      var v := BeNat(s[..width]);
      Pow256Bound(width);
      if canonical && v < least then Failed(Fail(NonCanonical)) else Parsed(v, width)
  }

  lemma {:induction false} Pow256Bound(k: nat)
    requires k <= 8
    ensures Pow256(k) <= U64_BOUND
    decreases 8 - k
  {
    if k == 8 {
      assert Pow256(4) == 0x1_0000_0000;
      assert Pow256(8) == Pow256(4) * 256 * 256 * 256 * 256;
    } else {
      Pow256Bound(k + 1);
    }
  }

  /** `parse_item` at the given nesting depth. */
  function Item(s: bytes, depth: nat, o: Options): (r: Parsed<CborValue>)
    ensures r.Parsed? ==> 0 < r.used <= |s|
    decreases |s|, 1
  {
    if depth > o.limits.maxDepth then Failed(Fail(Limit))
    else if |s| == 0 then Failed(Truncated)
    else
      var major, ai, t := s[0] / 32, s[0] % 32, s[1..];
      if major == 7 then Advance(SimpleOrFloat(t, ai, o), 1)
      else
        match UintArg(t, ai, o.canonical)
        case Failed(e) => Failed(e)
        case Parsed(arg, w) => Advance(Body(t[w..], major, arg, depth, o), 1 + w)
  }

  function Advance<T>(p: Parsed<T>, k: nat): Parsed<T> {
    match p
    case Failed(e) => Failed(e)
    case Parsed(v, u) => Parsed(v, k + u)
  }

  /** Major type 7. */
  function SimpleOrFloat(s: bytes, ai: nat, o: Options): (r: Parsed<CborValue>)
    requires ai < 32
    ensures r.Parsed? ==> r.used <= |s|
  {
    if ai == 20 then Parsed(Bool(false), 0)
    else if ai == 21 then Parsed(Bool(true), 0)
    else if ai == 22 then Parsed(Null, 0)
    else if ai == 23 then
      if o.dagStrict then Failed(Fail(NonCanonical)) else Parsed(Undefined, 0)
    else if ai == 24 then
      if |s| == 0 then Failed(Truncated)
      else if s[0] < 32 || o.dagStrict then Failed(Fail(NonCanonical))
      else Parsed(Simple(s[0]), 1)
    else if 25 <= ai <= 27 then
      var n := if ai == 25 then 2 else if ai == 26 then 4 else 8;
      if o.dagStrict then Failed(Fail(NonCanonical))
      else if |s| < n then Failed(Truncated)
      else Failed(Fail(NonCanonical))
    else if ai >= 28 then Failed(Fail(NonCanonical))
    else if o.dagStrict then Failed(Fail(NonCanonical))
    else Parsed(Simple(ai), 0)
  }

  /** What follows the head, for major types 0 to 6. */
  function Body(s: bytes, major: nat, arg: u64, depth: nat, o: Options): (r: Parsed<CborValue>)
    requires major < 7
    ensures r.Parsed? ==> r.used <= |s|
    decreases |s|, 4
  {
    if major == 0 then Parsed(Unsigned(arg), 0)
    else if major == 1 then Parsed(Negative(-1 - arg), 0)
    else if major == 2 then
      if |s| < arg then Failed(Truncated) else Parsed(Bytes(s[..arg]), arg)
    else if major == 3 then
      if arg > o.limits.maxText then Failed(Fail(Limit))
      else if |s| < arg then Failed(Truncated)
      else if !Utf8Valid(s[..arg]) then Failed(Fail(NonCanonical))
      else Parsed(Text(s[..arg]), arg)
    else if major == 4 then
      if arg > o.limits.maxArray then Failed(Fail(Limit))
      else
        match Items(s, arg, depth + 1, o)
        case Failed(e) => Failed(e)
        case Parsed(vs, u) => Parsed(Array(vs), u)
    else if major == 5 then
      if arg > o.limits.maxMapPairs then Failed(Fail(Limit))
      else
        match Pairs(s, arg, depth + 1, {}, None, o)
        case Failed(e) => Failed(e)
        case Parsed(es, u) => Parsed(Map(es), u)
    else if o.onlyTag42 && arg != 42 then Failed(Fail(TagForbidden))
    else
      match Item(s, depth + 1, o)
      case Failed(e) => Failed(e)
      case Parsed(v, u) =>
        if TagContentOk(arg, v, o) then Parsed(Tag(arg, v), u) else Failed(Fail(BadCidLink))
  }

  predicate TagContentOk(tag: u64, inner: CborValue, o: Options) {
    o.dagStrict && tag == 42 ==> inner.Bytes? && |inner.b| > 0 && inner.b[0] == 0
  }

  function Items(s: bytes, n: nat, depth: nat, o: Options): (r: Parsed<seq<CborValue>>)
    ensures r.Parsed? ==> r.used <= |s| && |r.value| == n
    decreases |s|, 2, n
  {
    if n == 0 then Parsed([], 0)
    else
      match Item(s, depth, o)
      case Failed(e) => Failed(e)
      case Parsed(v, u) =>
        match Items(s[u..], n - 1, depth, o)
        case Failed(e) => Failed(e)
        case Parsed(vs, w) => Parsed([v] + vs, u + w)
  }

  /** The per-key checks of the map loop, in source order. */
  function KeyCheck(key: CborValue, encoded: bytes, seen: set<bytes>, prev: Option<bytes>, o: Options): Option<Diag> {
    if o.dagStrict && !key.Text? then Some(NonCanonical)
    else if encoded in seen then Some(DupMapKey)
    else if o.canonical && prev.Some? && Lex.KeyLess(encoded, prev.value) then Some(NonCanonical)
    else if o.canonical && prev.Some? && encoded == prev.value then Some(DupMapKey)
    else None
  }

  datatype KeyedEntry = KeyedEntry(entry: Entry, encodedKey: bytes)

  /** One round of the map loop: key, key checks, value. */
  function Pair(s: bytes, depth: nat, seen: set<bytes>, prev: Option<bytes>, o: Options): (r: Parsed<KeyedEntry>)
    ensures r.Parsed? ==> 0 < r.used <= |s|
    decreases |s|, 2
  {
    match Item(s, depth, o)
    case Failed(e) => Failed(e)
    case Parsed(k, u) =>
      match KeyCheck(k, s[..u], seen, prev, o)
      case Some(d) => Failed(Fail(d))
      case None =>
        match Item(s[u..], depth, o)
        case Failed(e) => Failed(e)
        case Parsed(v, w) => Parsed(KeyedEntry(Entry(k, v), s[..u]), u + w)
  }

  function Pairs(s: bytes, n: nat, depth: nat, seen: set<bytes>, prev: Option<bytes>, o: Options): (r: Parsed<seq<Entry>>)
    ensures r.Parsed? ==> r.used <= |s| && |r.value| == n
    decreases |s|, 3, n
  {
    if n == 0 then Parsed([], 0)
    else
      match Pair(s, depth, seen, prev, o)
      case Failed(e) => Failed(e)
      case Parsed(p, u) =>
        match Pairs(s[u..], n - 1, depth, seen + {p.encodedKey}, NextKey(prev, p.encodedKey, o), o)
        case Failed(e) => Failed(e)
        case Parsed(es, w) => Parsed([p.entry] + es, u + w)
  }

  function NextKey(prev: Option<bytes>, encoded: bytes, o: Options): Option<bytes> {
    if o.canonical then Some(encoded) else prev
  }

  /** `parse_one`: one item at the front of the input. */
  function ParseOne(s: bytes, o: Options): Parsed<CborValue> {
    Item(s, 0, o)
  }

  /** `parse_exact`: one item and nothing else. */
  function ParseExact(s: bytes, o: Options): Result<CborValue, ParseFail> {
    match ParseOne(s, o)
    case Failed(e) => Err(e)
    case Parsed(v, u) => if u != |s| then Err(Fail(NonCanonical)) else Ok(v)
  }

  /** `parse_fail_to_error`. */
  function FailDiag(e: ParseFail): Diag {
    if e.Fail? then e.diag else NonCanonical
  }
}

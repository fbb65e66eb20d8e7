/** The parser object and the encoder as grain-core writes them: a cursor that methods advance, and an
    output buffer that methods append to. Each method is tied to the functions of `Cbor`. */
module CborParser {
  import opened Prelude
  import opened Cbor
  import Lex
  import StableSort

  class Parser {
    const input: bytes
    const opts: Options
    var pos: nat

    ghost predicate Valid()
      reads this
    {
      pos <= |input|
    }

    constructor (input: bytes, opts: Options)
      ensures Valid() && pos == 0 && this.input == input && this.opts == opts
    {
      this.input := input;
      this.opts := opts;
      this.pos := 0;
    }

    method ReadU8() returns (r: Result<byte, ParseFail>)
      requires Valid()
      modifies this
      ensures Valid()
      ensures if old(pos) < |input| then r == Ok(input[old(pos)]) && pos == old(pos) + 1
              else r == Err(Truncated) && pos == old(pos)
    {
      if pos >= |input| {
        return Err(Truncated);
      }
      r := Ok(input[pos]);
      pos := pos + 1;
    }

    method ReadExact(n: nat) returns (r: Result<bytes, ParseFail>)
      requires Valid()
      modifies this
      ensures Valid()
      ensures if n <= |input| - old(pos) then r == Ok(input[old(pos)..old(pos) + n]) && pos == old(pos) + n
              else r == Err(Truncated) && pos == old(pos)
    {
      if |input| - pos < n {
        return Err(Truncated);
      }
      r := Ok(input[pos..pos + n]);
      pos := pos + n;
    }

    method ParseUintArg(ai: nat) returns (r: Result<u64, ParseFail>)
      requires Valid() && ai < 32
      modifies this
      ensures Valid() && pos >= old(pos)
      ensures match UintArg(input[old(pos)..], ai, opts.canonical)
              case Parsed(v, u) => r == Ok(v) && pos == old(pos) + u
              case Failed(e) => r == Err(e)
    {
      if ai <= 23 {
        return Ok(ai);
      } else if ai == 24 {
        r := ReadWide(1, 24);
      } else if ai == 25 {
        r := ReadWide(2, 0x100);
      } else if ai == 26 {
        r := ReadWide(4, 0x1_0000);
      } else if ai == 27 {
        r := ReadWide(8, 0x1_0000_0000);
      } else if ai == 31 {
        return Err(Fail(NonCanonical));
      } else {
        return Err(InvalidInitial);
      }
    }

    /** The four wide branches of `parse_uint_arg`: read the big-endian bytes, then refuse a value that a
        shorter form could hold. */
    method ReadWide(width: nat, least: nat) returns (r: Result<u64, ParseFail>)
      requires Valid() && width <= 8
      modifies this
      ensures Valid() && pos >= old(pos)
      ensures match WideArg(input[old(pos)..], width, least, opts.canonical)
              case Parsed(v, u) => r == Ok(v) && pos == old(pos) + u
              case Failed(e) => r == Err(e)
    {
      assert pos + width <= |input| ==> input[pos..pos + width] == input[pos..][..width];
      var b := ReadExact(width);
      if b.Err? {
        return Err(b.error);
      }
      var v := BeNat(b.value);
      Pow256Bound(width);
      if opts.canonical && v < least {
        return Err(Fail(NonCanonical));
      }
      r := Ok(v);
    }

    method ParseItem(depth: nat) returns (r: Result<CborValue, ParseFail>)
      requires Valid()
      modifies this
      ensures Valid() && pos >= old(pos)
      ensures match Item(input[old(pos)..], depth, opts)
              case Parsed(v, u) => r == Ok(v) && pos == old(pos) + u
              case Failed(e) => r == Err(e)
      decreases |input| - pos, 1
    {
      hide Body, UintArg;
      if depth > opts.limits.maxDepth {
        return Err(Fail(Limit));
      }
      if pos >= |input| {
        return Err(Truncated);
      }
      ghost var start := pos;
      var initial := ReadU8();
      var major, ai := initial.value / 32, initial.value % 32;
      assert input[start..][1..] == input[pos..];
      if major == 7 {
        r := ParseSimple(ai);
      } else {
        ghost var argStart := pos;
        var arg := ParseUintArg(ai);
        if arg.Err? {
          return Err(arg.error);
        }
        assert input[argStart..][pos - argStart..] == input[pos..];
        r := ParseBody(major, arg.value, depth);
      }
    }

    method ParseSimple(ai: nat) returns (r: Result<CborValue, ParseFail>)
      requires Valid() && ai < 32
      modifies this
      ensures Valid() && pos >= old(pos)
      ensures match SimpleOrFloat(input[old(pos)..], ai, opts)
              case Parsed(v, u) => r == Ok(v) && pos == old(pos) + u
              case Failed(e) => r == Err(e)
    {
      match ai
      case 20 => return Ok(Bool(false));
      case 21 => return Ok(Bool(true));
      case 22 => return Ok(Null);
      case 23 =>
        if opts.dagStrict { return Err(Fail(NonCanonical)); }
        return Ok(Undefined);
      case 24 =>
        var v := ReadU8();
        if v.Err? { return Err(v.error); }
        if v.value < 32 || opts.dagStrict { return Err(Fail(NonCanonical)); }
        return Ok(Simple(v.value));
      case _ =>
        if 25 <= ai <= 27 {
          if opts.dagStrict { return Err(Fail(NonCanonical)); }
          var skipped := ReadExact(if ai == 25 then 2 else if ai == 26 then 4 else 8);
          if skipped.Err? { return Err(skipped.error); }
          return Err(Fail(NonCanonical));
        }
        if ai >= 28 || opts.dagStrict { return Err(Fail(NonCanonical)); }
        return Ok(Simple(ai));
    }

    method ParseBody(major: nat, arg: u64, depth: nat) returns (r: Result<CborValue, ParseFail>)
      requires Valid() && major < 7
      modifies this
      ensures Valid() && pos >= old(pos)
      ensures match Body(input[old(pos)..], major, arg, depth, opts)
              case Parsed(v, u) => r == Ok(v) && pos == old(pos) + u
              case Failed(e) => r == Err(e)
      decreases |input| - pos, 4
    {
      hide Item, Items, Pairs, Utf8Valid;
      if major == 0 {
        r := Ok(Unsigned(arg));
      } else if major == 1 {
        r := Ok(Negative(-1 - arg));
      } else if major == 2 {
        assert arg <= |input| - pos ==> input[pos..pos + arg] == input[pos..][..arg];
        var b := ReadExact(arg);
        if b.Err? { return Err(b.error); }
        r := Ok(Bytes(b.value));
      } else if major == 3 {
        if arg > opts.limits.maxText { return Err(Fail(Limit)); }
        assert arg <= |input| - pos ==> input[pos..pos + arg] == input[pos..][..arg];
        var b := ReadExact(arg);
        if b.Err? { return Err(b.error); }
        if !Utf8Valid(b.value) { return Err(Fail(NonCanonical)); }
        r := Ok(Text(b.value));
      } else if major == 4 {
        if arg > opts.limits.maxArray { return Err(Fail(Limit)); }
        var items := ParseArray(arg, depth + 1);
        if items.Err? { return Err(items.error); }
        r := Ok(Array(items.value));
      } else if major == 5 {
        if arg > opts.limits.maxMapPairs { return Err(Fail(Limit)); }
        var entries := ParseMap(arg, depth + 1);
        if entries.Err? { return Err(entries.error); }
        r := Ok(Map(entries.value));
      } else {
        if opts.onlyTag42 && arg != 42 { return Err(Fail(TagForbidden)); }
        var inner := ParseItem(depth + 1);
        if inner.Err? { return Err(inner.error); }
        if opts.dagStrict && arg == 42 {
          if !inner.value.Bytes? { return Err(Fail(BadCidLink)); }
          if |inner.value.b| == 0 || inner.value.b[0] != 0 { return Err(Fail(BadCidLink)); }
        }
        r := Ok(Tag(arg, inner.value));
      }
    }

    /** The array loop: the items read so far, followed by what is still to come, are the whole array. */
    method ParseArray(len: nat, depth: nat) returns (r: Result<seq<CborValue>, ParseFail>)
      requires Valid()
      modifies this
      ensures Valid() && pos >= old(pos)
      ensures match Items(input[old(pos)..], len, depth, opts)
              case Parsed(v, u) => r == Ok(v) && pos == old(pos) + u
              case Failed(e) => r == Err(e)
      decreases |input| - pos, 2, len
    {
      hide Item;
      var out: seq<CborValue> := [];
      ghost var whole := Items(input[pos..], len, depth, opts);
      ghost var start := pos;
      PrependNothing(whole);
      for i := 0 to len
        invariant Valid() && start <= pos
        invariant whole == Prepend(out, pos - start, Items(input[pos..], len - i, depth, opts))
      {
        ghost var at := pos;
        var item := ParseItem(depth);
        if item.Err? {
          return Err(item.error);
        }
        assert input[at..][pos - at..] == input[pos..];
        PrependOne(out, at - start, item.value, pos - at, Items(input[pos..], len - i - 1, depth, opts));
        out := out + [item.value];
      }
      assert out + [] == out;
      r := Ok(out);
    }

    /** The map loop, with the set of keys seen and the previous key. */
    method ParseMap(len: nat, depth: nat) returns (r: Result<seq<Entry>, ParseFail>)
      requires Valid()
      modifies this
      ensures Valid() && pos >= old(pos)
      ensures match Pairs(input[old(pos)..], len, depth, {}, None, opts)
              case Parsed(v, u) => r == Ok(v) && pos == old(pos) + u
              case Failed(e) => r == Err(e)
      decreases |input| - pos, 3, len
    {
      hide Pair;
      var out: seq<Entry> := [];
      var seen: set<bytes> := {};
      var prev: Option<bytes> := None;
      ghost var whole := Pairs(input[pos..], len, depth, {}, None, opts);
      ghost var start := pos;
      PrependNothing(whole);
      for i := 0 to len
        invariant Valid() && start <= pos
        invariant whole == Prepend(out, pos - start, Pairs(input[pos..], len - i, depth, seen, prev, opts))
      {
        ghost var at := pos;
        var pair := ParsePair(depth, seen, prev);
        if pair.Err? {
          return Err(pair.error);
        }
        assert input[at..][pos - at..] == input[pos..];
        seen := seen + {pair.value.encodedKey};
        prev := NextKey(prev, pair.value.encodedKey, opts);
        PrependOne(out, at - start, pair.value.entry, pos - at, Pairs(input[pos..], len - i - 1, depth, seen, prev, opts));
        out := out + [pair.value.entry];
      }
      assert out + [] == out;
      r := Ok(out);
    }

    /** The body of the map loop: the key and its raw bytes, the checks on them, the value. */
    method ParsePair(depth: nat, seen: set<bytes>, prev: Option<bytes>) returns (r: Result<KeyedEntry, ParseFail>)
      requires Valid()
      modifies this
      ensures Valid() && pos >= old(pos)
      ensures match Pair(input[old(pos)..], depth, seen, prev, opts)
              case Parsed(v, u) => r == Ok(v) && pos == old(pos) + u
              case Failed(e) => r == Err(e)
      decreases |input| - pos, 2
    {
      hide Item;
      var keyStart := pos;
      var key := ParseItem(depth);
      if key.Err? {
        return Err(key.error);
      }
      var encoded := input[keyStart..pos];
      assert encoded == input[keyStart..][..pos - keyStart];
      if opts.dagStrict && !key.value.Text? {
        return Err(Fail(NonCanonical));
      }
      if encoded in seen {
        return Err(Fail(DupMapKey));
      }
      if opts.canonical && prev.Some? {
        if Lex.KeyLess(encoded, prev.value) {
          return Err(Fail(NonCanonical));
        }
        if encoded == prev.value {
          return Err(Fail(DupMapKey));
        }
      }
      assert input[keyStart..][pos - keyStart..] == input[pos..];
      var value := ParseItem(depth);
      if value.Err? {
        return Err(value.error);
      }
      r := Ok(KeyedEntry(Entry(key.value, value.value), encoded));
    }
  }

  ghost function Prepend<T>(done: seq<T>, used: nat, rest: Parsed<seq<T>>): Parsed<seq<T>> {
    match rest
    case Failed(e) => Failed(e)
    case Parsed(vs, u) => Parsed(done + vs, used + u)
  }

  lemma PrependOne<T>(done: seq<T>, used: nat, x: T, u: nat, rest: Parsed<seq<T>>)
    ensures Prepend(done, used, Prepend([x], u, rest)) == Prepend(done + [x], used + u, rest)
  {
    if rest.Parsed? {
      assert done + ([x] + rest.value) == (done + [x]) + rest.value;
    }
  }

  lemma PrependNothing<T>(rest: Parsed<seq<T>>)
    ensures Prepend([], 0, rest) == rest
  {
    if rest.Parsed? {
      assert [] + rest.value == rest.value;
    }
  }

  /** `parse_one`. */
  method RunParseOne(s: bytes, o: Options) returns (r: Parsed<CborValue>)
    ensures r == ParseOne(s, o)
  {
    var p := new Parser(s, o);
    assert p.input[0..] == s;
    var v := p.ParseItem(0);
    match v
    case Ok(value) => r := Parsed(value, p.pos);
    case Err(e) => r := Failed(e);
  }

  /** The `Vec<u8>` the encoder writes to. */
  class Buffer {
    var data: bytes

    constructor ()
      ensures data == []
    {
      data := [];
    }

    method Extend(b: bytes)
      modifies this
      ensures data == old(data) + b
    {
      data := data + b;
    }
  }

  /** `encode_major_u64`. */
  method WriteHead(major: nat, n: nat, out: Buffer)
    requires major < 8
    modifies out
    ensures out.data == old(out.data) + Head(major, n)
  {
    if n <= 23 {
      out.Extend([major * 32 + n]);
    } else if n <= 0xff {
      out.Extend([major * 32 + 24]);
      out.Extend(ToBe(n, 1));
    } else if n <= 0xffff {
      out.Extend([major * 32 + 25]);
      out.Extend(ToBe(n, 2));
    } else if n <= 0xffff_ffff {
      out.Extend([major * 32 + 26]);
      out.Extend(ToBe(n, 4));
    } else {
      out.Extend([major * 32 + 27]);
      out.Extend(ToBe(n, 8));
    }
  }

  /** `encode_canonical`: appends the encoding to `out`; map entries go through buffers of their own and
      are sorted before they are appended. */
  method WriteCanonical(v: CborValue, out: Buffer)
    modifies out
    ensures out.data == old(out.data) + Encode(v)
    decreases v, 1
  {
    hide Head, StableSort.Sort;
    match v
    case Unsigned(n) => WriteHead(0, n, out);
    case Negative(i) => WriteHead(1, (-1 - i) % U64_BOUND, out);
    case Bytes(b) =>
      WriteHead(2, |b|, out);
      out.Extend(b);
    case Text(t) =>
      WriteHead(3, |t|, out);
      out.Extend(t);
    case Array(items) =>
      WriteHead(4, |items|, out);
      WriteItems(items, out);
    case Map(entries) =>
      WriteHead(5, |entries|, out);
      WriteEntries(entries, out);
    case Tag(tag, inner) =>
      WriteHead(6, tag, out);
      WriteCanonical(inner, out);
    case Bool(b) => out.Extend([if b then 0xf5 else 0xf4]);
    case Null => out.Extend([0xf6]);
    case Undefined => out.Extend([0xf7]);
    case Simple(s) =>
      if s < 24 {
        out.Extend([0xe0 + s]);
      } else {
        out.Extend([0xf8]);
        out.Extend([s]);
      }
  }

  method WriteItems(items: seq<CborValue>, out: Buffer)
    modifies out
    ensures out.data == old(out.data) + EncodeItems(items)
    decreases items, 0
  {
    hide Encode;
    ghost var before := out.data;
    for i := 0 to |items|
      invariant before + EncodeItems(items) == out.data + EncodeItems(items[i..])
    {
      assert items[i..][0] == items[i] && items[i..][1..] == items[i + 1..];
      WriteCanonical(items[i], out);
    }
  }

  method WriteEntries(entries: seq<Entry>, out: Buffer)
    modifies out
    ensures out.data == old(out.data) + Flatten(StableSort.Sort(EncodeEntries(entries), EntryLess))
    decreases entries, 1
  {
    hide EncodeEntries, StableSort.Sort;
    var tmp := EncodeEach(entries);
    tmp := StableSort.Sort(tmp, EntryLess);
    ghost var before := out.data;
    for i := 0 to |tmp|
      invariant before + Flatten(tmp) == out.data + Flatten(tmp[i..])
    {
      assert tmp[i..][0] == tmp[i] && tmp[i..][1..] == tmp[i + 1..];
      out.Extend(tmp[i].key);
      out.Extend(tmp[i].value);
    }
  }

  /** The first loop over a map: every key and value encoded into its own buffer. */
  method EncodeEach(entries: seq<Entry>) returns (tmp: seq<EncodedEntry>)
    ensures tmp == EncodeEntries(entries)
    decreases entries, 0
  {
    hide Encode;
    tmp := [];
    for i := 0 to |entries|
      invariant EncodeEntries(entries) == tmp + EncodeEntries(entries[i..])
    {
      assert entries[i..][0] == entries[i] && entries[i..][1..] == entries[i + 1..];
      assert entries[i] in entries;
      var pair := WriteEntry(entries[i]);
      tmp := tmp + [pair];
    }
  }

  method WriteEntry(e: Entry) returns (r: EncodedEntry)
    ensures r == EncodeEntry(e)
    decreases e, 0
  {
    var kb := new Buffer();
    var vb := new Buffer();
    WriteCanonical(e.key, kb);
    WriteCanonical(e.value, vb);
    r := EncodedEntry(kb.data, vb.data);
  }
}

/** CBOR sequences (section 2 of RFC 8742): the stream splitter, and what its answers mean. */
module CborSeq {
  import opened Prelude
  import opened Cbor
  import opened CborLocality
  import StableSort

  const MAX_SEGMENT_BYTES := 64_000_000
  const MAX_SEGMENT_ITEMS := 1_000_000

  /** The items cut off the front of a stream, and why cutting stopped. */
  datatype Cut = Cut(items: seq<bytes>, stop: Option<ParseFail>)

  ghost function CutItems(s: bytes): (c: Cut)
    ensures |c.items| <= |s|
    decreases |s|
  {
    if |s| == 0 then Cut([], None)
    else
      match ParseOne(s, GENERIC_LENIENT)
      case Failed(e) => Cut([], Some(e))
      case Parsed(_, u) =>
        var rest := CutItems(s[u..]);
        Cut([s[..u]] + rest.items, rest.stop)
  }

  /** What `parse_cborseq_stream` answers. */
  ghost function Stream(s: bytes, hash: bytes -> string): Result<seq<string>, Diag> {
    if |s| > MAX_SEGMENT_BYTES then Err(Limit)
    else
      var c := CutItems(s);
      if |c.items| > MAX_SEGMENT_ITEMS then Err(Limit)
      else if c.stop.None? then Ok(StableSort.Map(hash, c.items))
      else if c.stop.value.Truncated? then Err(CborseqTruncated)
      else if |c.items| == 0 then Err(CborseqInvalidInitialByte)
      else Err(CborseqGarbageTail)
  }

  method ParseStream(s: bytes, hash: bytes -> string) returns (r: Result<seq<string>, Diag>)
    ensures r == Stream(s, hash)
  {
    hide Item;
    if |s| > MAX_SEGMENT_BYTES {
      return Err(Limit);
    }
    if |s| == 0 {
      return Ok([]);
    }
    var pos := 0;
    var out: seq<string> := [];
    ghost var items: seq<bytes> := [];
    ghost var whole := CutItems(s);
    assert s[0..] == s && [] + whole.items == whole.items;
    while pos < |s|
      invariant 0 <= pos <= |s| && |out| == |items| <= MAX_SEGMENT_ITEMS
      invariant (pos == 0) == (|items| == 0)
      invariant out == StableSort.Map(hash, items)
      invariant whole == Cut(items + CutItems(s[pos..]).items, CutItems(s[pos..]).stop)
      decreases |s| - pos
    {
      var rem := s[pos..];
      match ParseOne(rem, GENERIC_LENIENT) {
        case Parsed(_, used) =>
          ItemConsumes(rem, 0, GENERIC_LENIENT);
          if used == 0 { assert false; }
          var item := s[pos..pos + used];
          assert item == rem[..used] && rem[used..] == s[pos + used..];
          assert items + ([item] + CutItems(rem[used..]).items) == (items + [item]) + CutItems(rem[used..]).items;
          MapConcat(hash, items, [item]);
          out := out + [hash(item)];
          items := items + [item];
          pos := pos + used;
          if |out| > MAX_SEGMENT_ITEMS {
            return Err(Limit);
          }
        case Failed(e) =>
          assert CutItems(rem) == Cut([], Some(e));
          if e.Truncated? {
            return Err(CborseqTruncated);
          }
          return Err(if pos == 0 then CborseqInvalidInitialByte else CborseqGarbageTail);
      }
    }
    assert items + [] == items;
    r := Ok(out);
  }

  /** Every accepted item, in every mode and at every depth, consumes input; the parser's loop advances. */
  lemma ItemConsumes(s: bytes, depth: nat, o: Options)
    ensures Item(s, depth, o).Parsed? ==> 0 < Item(s, depth, o).used <= |s|
  {
    hide Body;
  }

  // ----- splits -----

  ghost predicate IsItem(p: bytes) {
    ParseOne(p, GENERIC_LENIENT).Parsed? && ParseOne(p, GENERIC_LENIENT).used == |p|
  }

  ghost function Concat(parts: seq<bytes>): bytes {
    if |parts| == 0 then [] else parts[0] + Concat(parts[1..])
  }

  /** `parts` is a division of `s` into items each consumed whole. */
  ghost predicate IsSplit(s: bytes, parts: seq<bytes>) {
    Concat(parts) == s && forall i :: 0 <= i < |parts| ==> IsItem(parts[i])
  }

  lemma {:induction false} CutIsSplit(s: bytes)
    requires CutItems(s).stop.None?
    ensures IsSplit(s, CutItems(s).items)
    decreases |s|
  {
    hide Item;
    if |s| > 0 {
      var u := ParseOne(s, GENERIC_LENIENT).used;
      var parts := CutItems(s).items;
      CutIsSplit(s[u..]);
      ItemCut(s, 0, GENERIC_LENIENT, u);
      assert IsItem(parts[0]);
      assert parts[1..] == CutItems(s[u..]).items;
      forall i | 0 <= i < |parts| ensures IsItem(parts[i]) {
        if i > 0 { assert parts[i] == parts[1..][i - 1]; }
      }
      assert s == s[..u] + s[u..];
    }
  }

  /** Splits are unique, and whatever follows them is cut off after them. */
  lemma {:induction false} SplitIsCut(parts: seq<bytes>, t: bytes)
    requires forall i :: 0 <= i < |parts| ==> IsItem(parts[i])
    ensures CutItems(Concat(parts) + t) == Cut(parts + CutItems(t).items, CutItems(t).stop)
  {
    hide Item;
    if |parts| == 0 {
      assert Concat(parts) + t == t && parts + CutItems(t).items == CutItems(t).items;
    } else {
      var p, rest := parts[0], Concat(parts[1..]);
      assert IsItem(parts[0]);
      ItemConsumes(p, 0, GENERIC_LENIENT);
      var s := Concat(parts) + t;
      assert s == p + (rest + t);
      ItemExtends(p, rest + t, 0, GENERIC_LENIENT);
      assert s[..|p|] == p && s[|p|..] == rest + t;
      forall i | 0 <= i < |parts[1..]| ensures IsItem(parts[1..][i]) { assert IsItem(parts[i + 1]); }
      SplitIsCut(parts[1..], t);
      assert [p] + (parts[1..] + CutItems(t).items) == parts + CutItems(t).items;
    }
  }

  /** A stream within limits is accepted exactly when it divides into whole items, at most a million of
      them; there is then one such division, and the answer is one hash per item in order. */
  lemma AcceptedIffSplit(s: bytes, hash: bytes -> string, parts: seq<bytes>)
    ensures Stream(s, hash).Ok? <==>
            |s| <= MAX_SEGMENT_BYTES && exists q :: IsSplit(s, q) && |q| <= MAX_SEGMENT_ITEMS
    ensures Stream(s, hash).Ok? && IsSplit(s, parts) ==>
            Stream(s, hash) == Ok(StableSort.Map(hash, parts)) && parts == CutItems(s).items
  {
    hide IsItem, Item;
    if Stream(s, hash).Ok? {
      CutIsSplit(s);
    }
    forall q | IsSplit(s, q) ensures CutItems(s) == Cut(q, None) {
      SplitIsCut(q, []);
      assert Concat(q) + [] == s && q + [] == q;
    }
  }

  /** Two accepted streams in a row give the two answers in a row, limits permitting. */
  lemma StreamsConcatenate(a: bytes, b: bytes, hash: bytes -> string)
    requires Stream(a, hash).Ok? && Stream(b, hash).Ok?
    ensures Stream(a + b, hash) ==
            if |a + b| > MAX_SEGMENT_BYTES || |Stream(a, hash).value + Stream(b, hash).value| > MAX_SEGMENT_ITEMS
            then Err(Limit)
            else Ok(Stream(a, hash).value + Stream(b, hash).value)
  {
    hide IsItem, Item;
    CutIsSplit(a);
    SplitIsCut(CutItems(a).items, b);
    MapConcat(hash, CutItems(a).items, CutItems(b).items);
  }

  lemma MapConcat(hash: bytes -> string, p: seq<bytes>, q: seq<bytes>)
    ensures StableSort.Map(hash, p + q) == StableSort.Map(hash, p) + StableSort.Map(hash, q)
  {
    hide StableSort.Map;
    var l, r := StableSort.Map(hash, p + q), StableSort.Map(hash, p) + StableSort.Map(hash, q);
    forall i | 0 <= i < |l| ensures l[i] == r[i] {
      assert l[i] == hash((p + q)[i]);
    }
    assert l == r;
  }

  // ----- prefixes -----

  /** Offset `k` falls between two parts (or at either end). */
  ghost predicate IsBoundary(parts: seq<bytes>, k: int) {
    exists j :: 0 <= j <= |parts| && k == |Concat(parts[..j])|
  }

  lemma {:induction false} PrefixCut(parts: seq<bytes>, k: nat)
    requires forall i :: 0 <= i < |parts| ==> IsItem(parts[i])
    requires k <= |Concat(parts)|
    ensures var c := CutItems(Concat(parts)[..k]);
            |c.items| <= |parts| && c.stop == (if IsBoundary(parts, k) then None else Some(Truncated))
    decreases |parts|
  {
    hide Item;
    var s := Concat(parts)[..k];
    if k == 0 {
      assert Concat(parts[..0]) == [];
      assert IsBoundary(parts, 0);
    } else {
      var p, rest := parts[0], parts[1..];
      assert IsItem(p);
      ItemConsumes(p, 0, GENERIC_LENIENT);
      forall i | 0 <= i < |rest| ensures IsItem(rest[i]) { assert IsItem(parts[i + 1]); }
      BoundaryStep(parts, k);
      if k < |p| {
        PrefixIsTruncated(p, 0, GENERIC_LENIENT, k);
        assert s == p[..k];
      } else {
        assert s == p + Concat(rest)[..k - |p|];
        ItemExtends(p, Concat(rest)[..k - |p|], 0, GENERIC_LENIENT);
        PrefixCut(rest, k - |p|);
        assert s[|p|..] == Concat(rest)[..k - |p|];
      }
    }
  }

  lemma BoundaryStep(parts: seq<bytes>, k: nat)
    requires |parts| > 0 && k > 0
    ensures IsBoundary(parts, k) <==> k >= |parts[0]| && (k == |parts[0]| || IsBoundary(parts[1..], k - |parts[0]|))
    ensures k == |parts[0]| ==> IsBoundary(parts[1..], 0)
  {
    var p, rest := parts[0], parts[1..];
    forall j | 1 <= j <= |parts| ensures |Concat(parts[..j])| == |p| + |Concat(rest[..j - 1])| {
      assert parts[..j][1..] == rest[..j - 1];
    }
    assert Concat(parts[..0]) == [];
    assert Concat(rest[..0]) == [];
    if IsBoundary(rest, k - |p|) {
      var j :| 0 <= j <= |rest| && k - |p| == |Concat(rest[..j])|;
      assert parts[..j + 1][1..] == rest[..j];
      assert k == |Concat(parts[..j + 1])|;
    }
    if IsBoundary(parts, k) {
      var j :| 0 <= j <= |parts| && k == |Concat(parts[..j])|;
      assert j > 0;
      assert k - |p| == |Concat(rest[..j - 1])|;
    }
    if k == |p| {
      assert |Concat(rest[..0])| == 0;
    }
  }

  /** Cutting an accepted stream short is accepted exactly at item boundaries; anywhere else the answer is
      `CborseqTruncated`. */
  lemma PrefixesOfAccepted(s: bytes, hash: bytes -> string, k: nat)
    requires Stream(s, hash).Ok? && k <= |s|
    ensures Stream(s[..k], hash).Ok? <==> IsBoundary(CutItems(s).items, k)
    ensures Stream(s[..k], hash).Err? ==> Stream(s[..k], hash) == Err(CborseqTruncated)
  {
    hide IsItem, IsBoundary, Item, StableSort.Map;
    CutIsSplit(s);
    PrefixCut(CutItems(s).items, k);
  }

  // ----- every verdict -----

  /** The verdict on any stream, whole items followed by what is no item: the limits, 64 million bytes and a million
      items; then the end of the items, or why there is no further one: it is cut short, or it is malformed, at
      the very start or later. */
  lemma StreamVerdict(parts: seq<bytes>, rest: bytes, hash: bytes -> string)
    requires (forall i :: 0 <= i < |parts| ==> IsItem(parts[i])) && (rest != [] ==> ParseOne(rest, GENERIC_LENIENT).Failed?)
    ensures var r := Stream(Concat(parts) + rest, hash);
            if |Concat(parts) + rest| > 64_000_000 || |parts| > 1_000_000 then r == Err(Limit)
            else if rest == [] then r.Ok? && |r.value| == |parts| && forall i :: 0 <= i < |parts| ==> r.value[i] == hash(parts[i])
            else if ParseOne(rest, GENERIC_LENIENT).fail.Truncated? then r == Err(CborseqTruncated)
            else if parts == [] then r == Err(CborseqInvalidInitialByte)
            else r == Err(CborseqGarbageTail)
  {
    hide Item, IsItem;
    SplitIsCut(parts, rest);
    assert parts + [] == parts;
  }

  /** Every stream is of this form. */
  lemma {:induction false} EveryStream(s: bytes) returns (parts: seq<bytes>, rest: bytes)
    ensures s == Concat(parts) + rest && (forall i :: 0 <= i < |parts| ==> IsItem(parts[i]))
    ensures rest != [] ==> ParseOne(rest, GENERIC_LENIENT).Failed?
    decreases |s|
  {
    hide Item;
    parts, rest := [], s;
    if |s| > 0 && ParseOne(s, GENERIC_LENIENT).Parsed? {
      var u := ParseOne(s, GENERIC_LENIENT).used;
      ItemConsumes(s, 0, GENERIC_LENIENT);
      ItemCut(s, 0, GENERIC_LENIENT, u);
      var tail;
      tail, rest := EveryStream(s[u..]);
      parts := [s[..u]] + tail;
      assert parts[1..] == tail;
      assert s == s[..u] + s[u..];
    }
  }
}

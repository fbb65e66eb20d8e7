/** The decoder looks only at the item it is reading: a verdict other than "truncated" survives any
    continuation of the input. Everything that depends on prefixes and concatenation rests on this. */
module CborLocality {
  import opened Prelude
  import opened Cbor

  lemma WideArgExtends(s: bytes, t: bytes, width: nat, least: nat, canonical: bool)
    requires width <= 8 && WideArg(s, width, least, canonical) != Failed(Truncated)
    ensures WideArg(s + t, width, least, canonical) == WideArg(s, width, least, canonical)
  {
    assert (s + t)[..width] == s[..width];
  }

  lemma UintArgExtends(s: bytes, t: bytes, ai: nat, canonical: bool)
    requires UintArg(s, ai, canonical) != Failed(Truncated)
    ensures UintArg(s + t, ai, canonical) == UintArg(s, ai, canonical)
  {
    if ai == 24 { WideArgExtends(s, t, 1, 24, canonical); }
    else if ai == 25 { WideArgExtends(s, t, 2, 0x100, canonical); }
    else if ai == 26 { WideArgExtends(s, t, 4, 0x1_0000, canonical); }
    else if ai == 27 { WideArgExtends(s, t, 8, 0x1_0000_0000, canonical); }
  }

  lemma {:induction false} ItemExtends(s: bytes, t: bytes, depth: nat, o: Options)
    requires Item(s, depth, o) != Failed(Truncated)
    ensures Item(s + t, depth, o) == Item(s, depth, o)
    decreases |s|, 1
  {
    hide Body, UintArg;
    if depth <= o.limits.maxDepth {
      var major, ai, r := s[0] / 32, s[0] % 32, s[1..];
      assert (s + t)[1..] == r + t;
      if major != 7 {
        UintArgExtends(r, t, ai, o.canonical);
        var a := UintArg(r, ai, o.canonical);
        if a.Parsed? {
          assert (r + t)[a.used..] == r[a.used..] + t;
          BodyExtends(r[a.used..], t, major, a.value, depth, o);
        }
      }
    }
  }

  lemma {:induction false} BodyExtends(s: bytes, t: bytes, major: nat, arg: u64, depth: nat, o: Options)
    requires major < 7 && Body(s, major, arg, depth, o) != Failed(Truncated)
    ensures Body(s + t, major, arg, depth, o) == Body(s, major, arg, depth, o)
    decreases |s|, 4
  {
    hide Item, Items, Pairs;
    if (major == 2 || major == 3) && |s| >= arg {
      assert (s + t)[..arg] == s[..arg];
    } else if major == 4 && arg <= o.limits.maxArray {
      ItemsExtend(s, t, arg, depth + 1, o);
    } else if major == 5 && arg <= o.limits.maxMapPairs {
      PairsExtend(s, t, arg, depth + 1, {}, None, o);
    } else if major == 6 && (o.onlyTag42 ==> arg == 42) {
      ItemExtends(s, t, depth + 1, o);
    }
  }

  lemma {:induction false} ItemsExtend(s: bytes, t: bytes, n: nat, depth: nat, o: Options)
    requires Items(s, n, depth, o) != Failed(Truncated)
    ensures Items(s + t, n, depth, o) == Items(s, n, depth, o)
    decreases |s|, 2, n
  {
    hide Item;
    if n > 0 {
      ItemExtends(s, t, depth, o);
      var p := Item(s, depth, o);
      if p.Parsed? {
        assert (s + t)[p.used..] == s[p.used..] + t;
        ItemsExtend(s[p.used..], t, n - 1, depth, o);
      }
    }
  }

  lemma {:induction false} PairExtends(s: bytes, t: bytes, depth: nat, seen: set<bytes>, prev: Option<bytes>, o: Options)
    requires Pair(s, depth, seen, prev, o) != Failed(Truncated)
    ensures Pair(s + t, depth, seen, prev, o) == Pair(s, depth, seen, prev, o)
    decreases |s|, 2
  {
    hide Item;
    ItemExtends(s, t, depth, o);
    var p := Item(s, depth, o);
    if p.Parsed? {
      var u := p.used;
      assert (s + t)[..u] == s[..u];
      assert (s + t)[u..] == s[u..] + t;
      if KeyCheck(p.value, s[..u], seen, prev, o).None? {
        ItemExtends(s[u..], t, depth, o);
      }
    }
  }

  lemma {:induction false} PairsExtend(s: bytes, t: bytes, n: nat, depth: nat, seen: set<bytes>, prev: Option<bytes>, o: Options)
    requires Pairs(s, n, depth, seen, prev, o) != Failed(Truncated)
    ensures Pairs(s + t, n, depth, seen, prev, o) == Pairs(s, n, depth, seen, prev, o)
    decreases |s|, 3, n
  {
    hide Pair;
    if n > 0 {
      PairExtends(s, t, depth, seen, prev, o);
      var p := Pair(s, depth, seen, prev, o);
      if p.Parsed? {
        var k := p.value.encodedKey;
        assert (s + t)[p.used..] == s[p.used..] + t;
        PairsExtend(s[p.used..], t, n - 1, depth, seen + {k}, NextKey(prev, k, o), o);
      }
    }
  }

  /** Cutting an accepted item short always reports truncation, in every mode. */
  lemma PrefixIsTruncated(s: bytes, depth: nat, o: Options, k: nat)
    requires Item(s, depth, o).Parsed? && k < Item(s, depth, o).used
    ensures Item(s[..k], depth, o) == Failed(Truncated)
  {
    hide Item;
    assert s[..k] + s[k..] == s;
    if Item(s[..k], depth, o) != Failed(Truncated) {
      ItemExtends(s[..k], s[k..], depth, o);
    }
  }

  // ----- dropping bytes behind an accepted item -----

  lemma UintArgCut(s: bytes, ai: nat, canonical: bool, k: nat)
    requires UintArg(s, ai, canonical).Parsed?
    requires UintArg(s, ai, canonical).used <= k <= |s|
    ensures UintArg(s[..k], ai, canonical) == UintArg(s, ai, canonical)
  {
    var w := UintArg(s, ai, canonical).used;
    assert s[..k][..w] == s[..w];
  }

  lemma {:induction false} ItemCut(s: bytes, depth: nat, o: Options, k: nat)
    requires Item(s, depth, o).Parsed?
    requires Item(s, depth, o).used <= k <= |s|
    ensures Item(s[..k], depth, o) == Item(s, depth, o)
    decreases |s|, 1
  {
    hide Body, UintArg;
    var major, ai, r := s[0] / 32, s[0] % 32, s[1..];
    assert s[..k][1..] == r[..k - 1];
    if major != 7 {
      var a := UintArg(r, ai, o.canonical);
      UintArgCut(r, ai, o.canonical, k - 1);
      assert r[..k - 1][a.used..] == r[a.used..][..k - 1 - a.used];
      BodyCut(r[a.used..], major, a.value, depth, o, k - 1 - a.used);
    }
  }

  lemma {:induction false} BodyCut(s: bytes, major: nat, arg: u64, depth: nat, o: Options, k: nat)
    requires major < 7 && Body(s, major, arg, depth, o).Parsed?
    requires Body(s, major, arg, depth, o).used <= k <= |s|
    ensures Body(s[..k], major, arg, depth, o) == Body(s, major, arg, depth, o)
    decreases |s|, 4
  {
    hide Item, Items, Pairs;
    if major == 2 || major == 3 {
      assert s[..k][..arg] == s[..arg];
    } else if major == 4 {
      ItemsCut(s, arg, depth + 1, o, k);
    } else if major == 5 {
      PairsCut(s, arg, depth + 1, {}, None, o, k);
    } else if major == 6 {
      ItemCut(s, depth + 1, o, k);
    }
  }

  lemma {:induction false} ItemsCut(s: bytes, n: nat, depth: nat, o: Options, k: nat)
    requires Items(s, n, depth, o).Parsed?
    requires Items(s, n, depth, o).used <= k <= |s|
    ensures Items(s[..k], n, depth, o) == Items(s, n, depth, o)
    decreases |s|, 2, n
  {
    hide Item;
    if n > 0 {
      var u := Item(s, depth, o).used;
      ItemCut(s, depth, o, k);
      assert s[..k][u..] == s[u..][..k - u];
      ItemsCut(s[u..], n - 1, depth, o, k - u);
    }
  }

  lemma {:induction false} PairCut(s: bytes, depth: nat, seen: set<bytes>, prev: Option<bytes>, o: Options, k: nat)
    requires Pair(s, depth, seen, prev, o).Parsed?
    requires Pair(s, depth, seen, prev, o).used <= k <= |s|
    ensures Pair(s[..k], depth, seen, prev, o) == Pair(s, depth, seen, prev, o)
    decreases |s|, 2
  {
    hide Item;
    var u := Item(s, depth, o).used;
    ItemCut(s, depth, o, k);
    assert s[..k][..u] == s[..u];
    assert s[..k][u..] == s[u..][..k - u];
    ItemCut(s[u..], depth, o, k - u);
  }

  lemma {:induction false} PairsCut(s: bytes, n: nat, depth: nat, seen: set<bytes>, prev: Option<bytes>, o: Options, k: nat)
    requires Pairs(s, n, depth, seen, prev, o).Parsed?
    requires Pairs(s, n, depth, seen, prev, o).used <= k <= |s|
    ensures Pairs(s[..k], n, depth, seen, prev, o) == Pairs(s, n, depth, seen, prev, o)
    decreases |s|, 3, n
  {
    hide Pair;
    if n > 0 {
      var p := Pair(s, depth, seen, prev, o);
      var key := p.value.encodedKey;
      PairCut(s, depth, seen, prev, o, k);
      assert s[..k][p.used..] == s[p.used..][..k - p.used];
      PairsCut(s[p.used..], n - 1, depth, seen + {key}, NextKey(prev, key, o), o, k - p.used);
    }
  }

  /** Whether an item is accepted, and as what, depends only on the bytes it consumes. */
  lemma SuffixIsIrrelevant(s: bytes, depth: nat, o: Options, t: bytes)
    requires Item(s, depth, o).Parsed?
    ensures Item(s[..Item(s, depth, o).used] + t, depth, o) == Item(s, depth, o)
  {
    hide Item;
    var u := Item(s, depth, o).used;
    ItemCut(s, depth, o, u);
    ItemExtends(s[..u], t, depth, o);
  }
}

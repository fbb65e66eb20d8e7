/** Maps of records kept under a key the record itself carries, as the client store keeps scans and
    lifecycle events (core/rust/grain-client-core/src/memory_store.rs). */
module Keyed {
  import opened Prelude
  import Lex
  import StableSort

  /** Put one record: nothing on a conflict, else the new map and whether it grew. */
  function Put<T(==)>(m: map<string, T>, k: string, x: T): Option<(map<string, T>, bool)> {
    if k !in m then Some((m[k := x], true))
    else if m[k] == x then Some((m, false))
    else None
  }

  function PutAll<T(==)>(m: map<string, T>, xs: seq<T>, key: T -> string): Option<(map<string, T>, bool)>
    decreases |xs|
  {
    if |xs| == 0 then Some((m, false))
    else
      match Put(m, key(xs[0]), xs[0])
      case None => None
      case Some(first) =>
        match PutAll(first.0, xs[1..], key)
        case None => None
        case Some(rest) => Some((rest.0, first.1 || rest.1))
  }

  ghost predicate IsKeyed<T>(m: map<string, T>, key: T -> string) {
    forall k :: k in m ==> key(m[k]) == k
  }

  ghost predicate Distinct<T>(xs: seq<T>, key: T -> string) {
    forall i, j :: 0 <= i < j < |xs| ==> key(xs[i]) != key(xs[j])
  }

  function Index<T>(xs: seq<T>, key: T -> string): map<string, T> {
    if |xs| == 0 then map[] else Index(xs[..|xs| - 1], key)[key(xs[|xs| - 1]) := xs[|xs| - 1]]
  }

  /** The values of a map in the order of their keys. */
  ghost predicate IsListing<T>(m: map<string, T>, xs: seq<T>) {
    exists ks: seq<string> :: ListedBy(m, ks, xs)
  }

  ghost predicate ListedBy<T>(m: map<string, T>, ks: seq<string>, xs: seq<T>) {
    |ks| == |xs| && StableSort.StrictlySorted(ks, Lex.StrLess) &&
    (forall k :: k in ks <==> k in m) &&
    forall i :: 0 <= i < |ks| ==> ks[i] in m && xs[i] == m[ks[i]]
  }

  /** Nothing in `xs` contradicts the map or another record of `xs`. */
  ghost predicate Agreeing<T(!new)>(m: map<string, T>, xs: seq<T>, key: T -> string) {
    (forall x :: x in xs && key(x) in m ==> m[key(x)] == x) &&
    forall x, y :: x in xs && y in xs && key(x) == key(y) ==> x == y
  }

  /** What putting a list does: it fails exactly on a contradiction, otherwise adds the missing records. */
  lemma {:induction false} PutAllAdds<T(!new)>(m: map<string, T>, xs: seq<T>, key: T -> string)
    ensures PutAll(m, xs, key).Some? <==> Agreeing(m, xs, key)
    ensures PutAll(m, xs, key).Some? ==>
              var (r, grew) := PutAll(m, xs, key).value;
              (forall k :: k in r <==> k in m || exists x :: x in xs && key(x) == k) &&
              (forall k :: k in m ==> r[k] == m[k]) &&
              (forall x :: x in xs ==> r[key(x)] == x) &&
              (grew <==> exists x :: x in xs && key(x) !in m)
    decreases |xs|
  {
    if |xs| > 0 {
      var x, rest := xs[0], xs[1..];
      assert xs == [x] + rest;
      assert x in xs;
      var first := Put(m, key(x), x);
      if first.Some? {
        PutAllAdds(first.value.0, rest, key);
        AgreeingTail(m, xs, key);
      }
    }
  }

  lemma AgreeingTail<T(!new)>(m: map<string, T>, xs: seq<T>, key: T -> string)
    requires |xs| > 0 && Put(m, key(xs[0]), xs[0]).Some?
    ensures Agreeing(m, xs, key) <==> Agreeing(Put(m, key(xs[0]), xs[0]).value.0, xs[1..], key)
  {
    var x, rest := xs[0], xs[1..];
    assert xs == [x] + rest;
    var m' := Put(m, key(x), x).value.0;
    if Agreeing(m', rest, key) {
      forall y, z | y in xs && z in xs && key(y) == key(z) ensures y == z {
        assert m'[key(x)] == x;
      }
    }
  }

  lemma {:induction false} IndexHas<T(!new)>(xs: seq<T>, key: T -> string, x: T)
    requires Distinct(xs, key) && x in xs
    ensures key(x) in Index(xs, key) && Index(xs, key)[key(x)] == x
  {
    var last := xs[|xs| - 1];
    assert xs == xs[..|xs| - 1] + [last];
    if x != last {
      IndexHas(xs[..|xs| - 1], key, x);
      var i :| 0 <= i < |xs| - 1 && xs[i] == x;
    }
  }

  lemma {:induction false} IndexFrom<T(!new)>(xs: seq<T>, key: T -> string, k: string)
    requires k in Index(xs, key)
    ensures Index(xs, key)[k] in xs && key(Index(xs, key)[k]) == k
  {
    var last := xs[|xs| - 1];
    assert xs == xs[..|xs| - 1] + [last];
    if k != key(last) {
      IndexFrom(xs[..|xs| - 1], key, k);
    }
  }

  lemma ListedKey<T>(m: map<string, T>, ks: seq<string>, xs: seq<T>, key: T -> string, i: nat)
    requires ListedBy(m, ks, xs) && IsKeyed(m, key) && i < |xs|
    ensures key(xs[i]) == ks[i]
  {
  }

  lemma ListingElements<T(!new)>(m: map<string, T>, xs: seq<T>, key: T -> string)
    requires IsKeyed(m, key) && IsListing(m, xs)
    ensures Distinct(xs, key)
    ensures forall x :: x in xs <==> key(x) in m && m[key(x)] == x
  {
    var ks :| ListedBy(m, ks, xs);
    forall i, j | 0 <= i < j < |xs| ensures key(xs[i]) != key(xs[j]) {
      ListedKey(m, ks, xs, key, i);
      ListedKey(m, ks, xs, key, j);
      assert Lex.StrLess(ks[i], ks[j]);
      Lex.StrTrichotomy(ks[i], ks[j]);
    }
    forall x | key(x) in m && m[key(x)] == x ensures x in xs {
      var i :| 0 <= i < |ks| && ks[i] == key(x);
      assert xs[i] == x;
    }
  }

  /** Indexing a listing gives the map back. */
  lemma ListingIndex<T(!new)>(m: map<string, T>, xs: seq<T>, key: T -> string)
    requires IsKeyed(m, key) && IsListing(m, xs)
    ensures Distinct(xs, key) && Index(xs, key) == m
  {
    hide IsListing, Index, Distinct;
    ListingElements(m, xs, key);
    forall k | k in m ensures k in Index(xs, key) && Index(xs, key)[k] == m[k] {
      IndexHas(xs, key, m[k]);
    }
    forall k | k in Index(xs, key) ensures k in m {
      IndexFrom(xs, key, k);
    }
    assert Index(xs, key) == m;
  }

  /** Putting the listing of one map into another is their union. */
  lemma PutListing<T(!new)>(m: map<string, T>, n: map<string, T>, xs: seq<T>, key: T -> string)
    requires IsKeyed(m, key) && IsKeyed(n, key) && IsListing(n, xs)
    ensures PutAll(m, xs, key).Some? <==> forall k :: k in m && k in n ==> m[k] == n[k]
    ensures PutAll(m, xs, key).Some? ==>
              PutAll(m, xs, key).value.0 == m + n && (PutAll(m, xs, key).value.1 <==> !(n.Keys <= m.Keys))
  {
    hide IsListing, PutAll, Distinct;
    ListingElements(n, xs, key);
    PutAllAdds(m, xs, key);
    assert forall k :: k in n ==> n[k] in xs;
    if forall k :: k in m && k in n ==> m[k] == n[k] {
      assert Agreeing(m, xs, key);
    }
    if PutAll(m, xs, key).Some? {
      assert Agreeing(m, xs, key);
      var r := PutAll(m, xs, key).value.0;
      assert forall k :: k in r <==> k in m || k in n;
      assert r == m + n;
    }
  }

  // ----- listing a map -----

  /** The keys in order, by removing them one at a time and sorting. */
  method List<T>(m: map<string, T>) returns (xs: seq<T>)
    ensures IsListing(m, xs)
  {
    hide StableSort.Sort, Lex.StrLess, StableSort.StrictlySorted;
    var ks := KeysOf(m.Keys);
    SortKeys(ks);
    ks := StableSort.Sort(ks, Lex.StrLess);
    xs := [];
    for i := 0 to |ks|
      invariant |xs| == i
      invariant forall j :: 0 <= j < i ==> ks[j] in m && xs[j] == m[ks[j]]
    {
      assert ks[i] in ks;
      xs := xs + [m[ks[i]]];
    }
    assert ListedBy(m, ks, xs);
  }

  method KeysOf(s: set<string>) returns (ks: seq<string>)
    ensures (forall k :: k in ks <==> k in s) && forall i, j :: 0 <= i < j < |ks| ==> ks[i] != ks[j]
  {
    ks := [];
    var rest := s;
    while rest != {}
      invariant rest <= s && (forall k :: k in ks <==> k in s && k !in rest)
      invariant forall i, j :: 0 <= i < j < |ks| ==> ks[i] != ks[j]
      decreases |rest|
    {
      var k :| k in rest;
      ks := ks + [k];
      rest := rest - {k};
    }
  }

  lemma NotLessTransitive(a: string, b: string, c: string)
    ensures !Lex.StrLess(a, b) && !Lex.StrLess(b, c) ==> !Lex.StrLess(a, c)
  {
    hide Lex.StrLess;
    Lex.StrTrichotomy(a, b);
    Lex.StrTrichotomy(b, c);
    Lex.StrTrichotomy(a, c);
    if Lex.StrLess(c, b) && Lex.StrLess(b, a) {
      Lex.StrTransitive(c, b, a);
    }
  }

  lemma StrLessIsWeakOrder()
    ensures StableSort.WeakOrder(Lex.StrLess)
  {
    forall a, b ensures Lex.StrLess(a, b) ==> !Lex.StrLess(b, a) {
      Lex.StrTrichotomy(a, b);
    }
    forall a, b, c ensures !Lex.StrLess(a, b) && !Lex.StrLess(b, c) ==> !Lex.StrLess(a, c) {
      NotLessTransitive(a, b, c);
    }
  }

  lemma SortKeys(ks: seq<string>)
    requires forall i, j :: 0 <= i < j < |ks| ==> ks[i] != ks[j]
    ensures StableSort.StrictlySorted(StableSort.Sort(ks, Lex.StrLess), Lex.StrLess)
    ensures forall k :: k in StableSort.Sort(ks, Lex.StrLess) <==> k in ks
  {
    hide StableSort.Sort, Lex.StrLess;
    StrLessIsWeakOrder();
    forall i, j | 0 <= i < j < |ks| ensures Lex.StrLess(ks[i], ks[j]) || Lex.StrLess(ks[j], ks[i]) {
      Lex.StrTrichotomy(ks[i], ks[j]);
    }
    StableSort.SortStrict(ks, Lex.StrLess);
    forall k ensures k in StableSort.Sort(ks, Lex.StrLess) <==> k in ks {
      StableSort.SameElements(ks, Lex.StrLess, k);
    }
  }

  // ----- filling a map from a list -----

  /** Check records one by one and index them, refusing a repeated key. */
  method IndexChecked<T(==)>(xs: seq<T>, key: T -> string, good: T -> bool) returns (r: Option<map<string, T>>)
    ensures r == if (forall x :: x in xs ==> good(x)) && Distinct(xs, key) then Some(Index(xs, key)) else None
  {
    var out: map<string, T> := map[];
    for i := 0 to |xs|
      invariant forall j :: 0 <= j < i ==> good(xs[j])
      invariant Distinct(xs[..i], key) && out == Index(xs[..i], key)
      invariant forall k :: k in out <==> exists j :: 0 <= j < i && key(xs[j]) == k
    {
      if !good(xs[i]) {
        assert xs[i] in xs;
        return None;
      }
      if key(xs[i]) in out {
        return None;
      }
      assert xs[..i + 1][..i] == xs[..i];
      out := out[key(xs[i]) := xs[i]];
    }
    assert xs[..|xs|] == xs;
    r := Some(out);
  }
}

/** The contract of the standard library's stable sort, written as insertion sort over a strict order. */
module StableSort {

  /** `less` is a strict weak order: irreflexive, and incomparability-aware transitivity. */
  ghost predicate WeakOrder<T(!new)>(less: (T, T) -> bool) {
    (forall a, b :: less(a, b) ==> !less(b, a)) &&
    (forall a, b, c :: !less(a, b) && !less(b, c) ==> !less(a, c))
  }

  ghost predicate Sorted<T>(xs: seq<T>, less: (T, T) -> bool) {
    forall i, j :: 0 <= i < j < |xs| ==> !less(xs[j], xs[i])
  }

  ghost predicate StrictlySorted<T>(xs: seq<T>, less: (T, T) -> bool) {
    forall i, j :: 0 <= i < j < |xs| ==> less(xs[i], xs[j])
  }

  function Insert<T>(x: T, ys: seq<T>, less: (T, T) -> bool): (r: seq<T>)
    ensures multiset(r) == multiset{x} + multiset(ys) && |r| == |ys| + 1
  {
    if |ys| == 0 || !less(ys[0], x) then
      [x] + ys
    else
      assert ys == [ys[0]] + ys[1..];
      [ys[0]] + Insert(x, ys[1..], less)
  }

  function Sort<T>(xs: seq<T>, less: (T, T) -> bool): (r: seq<T>)
    ensures multiset(r) == multiset(xs) && |r| == |xs|
  {
    if |xs| == 0 then [] else
    assert xs == [xs[0]] + xs[1..];
    Insert(xs[0], Sort(xs[1..], less), less)
  }

  lemma SameElements<T>(xs: seq<T>, less: (T, T) -> bool, x: T)
    ensures x in Sort(xs, less) <==> x in xs
  {
    assert x in Sort(xs, less) <==> x in multiset(Sort(xs, less));
    assert x in xs <==> x in multiset(xs);
  }

  lemma {:induction false} InsertSorted<T(!new)>(x: T, ys: seq<T>, less: (T, T) -> bool)
    requires WeakOrder(less) && Sorted(ys, less)
    ensures Sorted(Insert(x, ys, less), less)
  {
    var r := Insert(x, ys, less);
    if |ys| == 0 || !less(ys[0], x) {
      forall i, j | 0 <= i < j < |r| ensures !less(r[j], r[i]) {
        if i == 0 && j > 1 {
          assert !less(r[j], ys[0]);
          assert !less(r[j], x);
        }
      }
    } else {
      InsertSorted(x, ys[1..], less);
      var t := Insert(x, ys[1..], less);
      forall i, j | 0 <= i < j < |r| ensures !less(r[j], r[i]) {
        if i == 0 {
          assert t[j - 1] in multiset(t);
          assert t[j - 1] in multiset{x} + multiset(ys[1..]);
          if t[j - 1] != x {
            assert t[j - 1] in ys[1..];
          }
        } else {
          assert !less(t[j - 1], t[i - 1]);
        }
      }
    }
  }

  lemma {:induction false} SortSorted<T(!new)>(xs: seq<T>, less: (T, T) -> bool)
    requires WeakOrder(less)
    ensures Sorted(Sort(xs, less), less)
  {
    if |xs| > 0 {
      SortSorted(xs[1..], less);
      InsertSorted(xs[0], Sort(xs[1..], less), less);
    }
  }

  /** Sorting a sorted sequence changes nothing; stability makes this hold for equal keys too. */
  lemma {:induction false} SortedIsFixed<T>(xs: seq<T>, less: (T, T) -> bool)
    requires Sorted(xs, less)
    ensures Sort(xs, less) == xs
  {
    if |xs| > 0 {
      SortedIsFixed(xs[1..], less);
      assert xs == [xs[0]] + xs[1..];
    }
  }

  /** Elements equivalent to `x`, in order of appearance. */
  ghost function Ties<T>(xs: seq<T>, x: T, less: (T, T) -> bool): seq<T> {
    if |xs| == 0 then []
    else (if !less(xs[0], x) && !less(x, xs[0]) then [xs[0]] else []) + Ties(xs[1..], x, less)
  }

  /** Stability: elements with equal keys keep their relative order. */
  lemma {:induction false} SortStable<T(!new)>(xs: seq<T>, x: T, less: (T, T) -> bool)
    requires WeakOrder(less)
    ensures Ties(Sort(xs, less), x, less) == Ties(xs, x, less)
  {
    if |xs| > 0 {
      SortStable(xs[1..], x, less);
      InsertStable(xs[0], Sort(xs[1..], less), x, less);
    }
  }

  lemma {:induction false} InsertStable<T(!new)>(y: T, ys: seq<T>, x: T, less: (T, T) -> bool)
    requires WeakOrder(less)
    ensures Ties(Insert(y, ys, less), x, less) == Ties([y], x, less) + Ties(ys, x, less)
  {
    if |ys| == 0 || !less(ys[0], y) {
      assert ([y] + ys)[1..] == ys;
      assert [y][1..] == [];
    } else {
      InsertStable(y, ys[1..], x, less);
      assert ([ys[0]] + Insert(y, ys[1..], less))[1..] == Insert(y, ys[1..], less);
      assert [y][1..] == [];
    }
  }

  /** Sorting commutes with a map that keeps the order of keys. */
  lemma {:induction false} SortCommutes<A, B>(xs: seq<A>, lessA: (A, A) -> bool, f: A -> B, lessB: (B, B) -> bool)
    requires forall x, y :: x in xs && y in xs ==> lessA(x, y) == lessB(f(x), f(y))
    ensures Map(f, Sort(xs, lessA)) == Sort(Map(f, xs), lessB)
  {
    if |xs| > 0 {
      assert xs == [xs[0]] + xs[1..];
      SortCommutes(xs[1..], lessA, f, lessB);
      forall y | y in Sort(xs[1..], lessA) ensures y in xs {
        SameElements(xs[1..], lessA, y);
      }
      InsertCommutes(xs[0], Sort(xs[1..], lessA), lessA, f, lessB);
    }
  }

  lemma {:induction false} InsertCommutes<A, B>(x: A, ys: seq<A>, lessA: (A, A) -> bool, f: A -> B, lessB: (B, B) -> bool)
    requires forall y :: y in ys ==> lessA(y, x) == lessB(f(y), f(x))
    ensures Map(f, Insert(x, ys, lessA)) == Insert(f(x), Map(f, ys), lessB)
  {
    if |ys| > 0 {
      assert ys == [ys[0]] + ys[1..];
      if lessA(ys[0], x) {
        InsertCommutes(x, ys[1..], lessA, f, lessB);
      } else {
        assert ([x] + ys)[1..] == ys;
      }
    }
  }

  function Map<A, B>(f: A -> B, xs: seq<A>): (r: seq<B>)
    ensures |r| == |xs|
    ensures forall i :: 0 <= i < |xs| ==> r[i] == f(xs[i])
  {
    if |xs| == 0 then [] else [f(xs[0])] + Map(f, xs[1..])
  }

  lemma HeadIsLeast<T>(xs: seq<T>, x: T, less: (T, T) -> bool)
    requires StrictlySorted(xs, less) && x in xs
    ensures xs[0] == x || less(xs[0], x)
  {
    var i :| 0 <= i < |xs| && xs[i] == x;
    assert i == 0 || less(xs[0], xs[i]);
  }

  /** A strictly sorted sequence is determined by its set of elements. */
  lemma {:induction false} StrictlySortedUnique<T(!new)>(xs: seq<T>, ys: seq<T>, less: (T, T) -> bool)
    requires WeakOrder(less)
    requires StrictlySorted(xs, less) && StrictlySorted(ys, less)
    requires forall x :: x in xs <==> x in ys
    ensures xs == ys
  {
    assert |xs| > 0 ==> xs[0] in xs;
    assert |ys| > 0 ==> ys[0] in ys;
    if |xs| > 0 {
      HeadIsLeast(xs, ys[0], less);
      HeadIsLeast(ys, xs[0], less);
      assert xs == [xs[0]] + xs[1..] && ys == [ys[0]] + ys[1..];
      forall x ensures x in xs[1..] <==> x in ys[1..] {
        TailMembership(xs, x, less);
        TailMembership(ys, x, less);
      }
      StrictlySortedUnique(xs[1..], ys[1..], less);
    }
  }

  lemma TailMembership<T(!new)>(xs: seq<T>, x: T, less: (T, T) -> bool)
    requires WeakOrder(less) && StrictlySorted(xs, less) && |xs| > 0
    ensures x in xs[1..] <==> x in xs && x != xs[0]
  {
    forall k | 1 <= k < |xs| ensures xs[k] != xs[0] {
      assert less(xs[0], xs[k]);
    }
    assert xs == [xs[0]] + xs[1..];
    if x in xs[1..] {
      var k :| 0 <= k < |xs[1..]| && xs[1..][k] == x;
      assert xs[k + 1] == x;
    }
  }

  /** Sorting distinct keys gives a strictly sorted sequence. */
  lemma SortStrict<T(!new)>(xs: seq<T>, less: (T, T) -> bool)
    requires WeakOrder(less)
    requires forall i, j :: 0 <= i < j < |xs| ==> less(xs[i], xs[j]) || less(xs[j], xs[i])
    ensures StrictlySorted(Sort(xs, less), less)
  {
    SortSorted(xs, less);
    var r := Sort(xs, less);
    forall i, j | 0 <= i < j < |r| ensures less(r[i], r[j]) {
      SortStable(xs, r[i], less);
      AtMostOneTie(xs, r[i], less);
      TwoTies(r, i, j, r[i], less);
    }
  }

  lemma {:induction false} TwoTies<T>(r: seq<T>, i: nat, j: nat, x: T, less: (T, T) -> bool)
    requires i < j < |r|
    requires !less(r[i], x) && !less(x, r[i])
    ensures !less(r[j], x) && !less(x, r[j]) ==> |Ties(r, x, less)| >= 2
  {
    if i > 0 {
      TwoTies(r[1..], i - 1, j - 1, x, less);
    } else {
      OneTie(r[1..], j - 1, x, less);
    }
  }

  lemma {:induction false} OneTie<T>(r: seq<T>, j: nat, x: T, less: (T, T) -> bool)
    requires j < |r|
    ensures !less(r[j], x) && !less(x, r[j]) ==> |Ties(r, x, less)| >= 1
  {
    if j > 0 {
      OneTie(r[1..], j - 1, x, less);
    }
  }

  lemma {:induction false} AtMostOneTie<T(!new)>(xs: seq<T>, x: T, less: (T, T) -> bool)
    requires WeakOrder(less)
    requires forall i, j :: 0 <= i < j < |xs| ==> less(xs[i], xs[j]) || less(xs[j], xs[i])
    ensures |Ties(xs, x, less)| <= 1
  {
    if |xs| > 0 {
      AtMostOneTie(xs[1..], x, less);
      if !less(xs[0], x) && !less(x, xs[0]) {
        forall k | 1 <= k < |xs| ensures less(xs[k], x) || less(x, xs[k]) {
          assert less(xs[0], xs[k]) || less(xs[k], xs[0]);
        }
        NoTies(xs[1..], x, less);
      }
    }
  }

  lemma {:induction false} NoTies<T>(xs: seq<T>, x: T, less: (T, T) -> bool)
    requires forall k :: 0 <= k < |xs| ==> less(xs[k], x) || less(x, xs[k])
    ensures Ties(xs, x, less) == []
  {
    if |xs| > 0 {
      NoTies(xs[1..], x, less);
    }
  }
}

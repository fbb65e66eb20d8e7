/** Lexicographic order, the order Rust derives for Vec<u8> and String, and the length-first order
    that the CBOR codec uses for map keys. */
module Lex {
  import opened Prelude

  predicate Less(a: seq<int>, b: seq<int>) {
    |b| > 0 && (|a| == 0 || a[0] < b[0] || (a[0] == b[0] && Less(a[1..], b[1..])))
  }

  lemma {:induction false} Irreflexive(a: seq<int>)
    ensures !Less(a, a)
  {
    if |a| > 0 {
      Irreflexive(a[1..]);
    }
  }

  lemma {:induction false} Trichotomy(a: seq<int>, b: seq<int>)
    ensures Less(a, b) || Less(b, a) || a == b
  {
    if |a| > 0 && |b| > 0 && a[0] == b[0] {
      Trichotomy(a[1..], b[1..]);
      if a[1..] == b[1..] {
        assert a == [a[0]] + a[1..] && b == [b[0]] + b[1..];
      }
    }
  }

  lemma {:induction false} Transitive(a: seq<int>, b: seq<int>, c: seq<int>)
    requires Less(a, b) && Less(b, c)
    ensures Less(a, c)
  {
    if |a| > 0 && a[0] == b[0] && b[0] == c[0] {
      Transitive(a[1..], b[1..], c[1..]);
    }
  }

  lemma Asymmetric(a: seq<int>, b: seq<int>)
    requires Less(a, b)
    ensures !Less(b, a)
  {
    if Less(b, a) {
      Transitive(a, b, a);
      Irreflexive(a);
    }
  }

  /** A common prefix does not affect the order. */
  lemma {:induction false} CommonPrefix(p: seq<int>, a: seq<int>, b: seq<int>)
    ensures Less(p + a, p + b) == Less(a, b)
  {
    if |p| == 0 {
      assert p + a == a && p + b == b;
    } else {
      assert (p + a)[1..] == p[1..] + a && (p + b)[1..] == p[1..] + b;
      CommonPrefix(p[1..], a, b);
    }
  }

  /** Two strings of equal length that already differ are ordered by that part alone. */
  lemma {:induction false} DecidedEarly(p: seq<int>, q: seq<int>, a: seq<int>, b: seq<int>)
    requires |p| == |q| && p != q
    ensures Less(p + a, q + b) == Less(p, q)
  {
    if p[0] == q[0] {
      assert p == [p[0]] + p[1..] && q == [q[0]] + q[1..];
      assert (p + a)[1..] == p[1..] + a && (q + b)[1..] == q[1..] + b;
      DecidedEarly(p[1..], q[1..], a, b);
    }
  }

  /** `compare_canonical_map_key`: shorter first, then bytewise. */
  predicate KeyLess(a: bytes, b: bytes) {
    |a| < |b| || (|a| == |b| && Less(a, b))
  }

  lemma KeyTrichotomy(a: bytes, b: bytes)
    ensures KeyLess(a, b) || KeyLess(b, a) || a == b
    ensures !(KeyLess(a, b) && KeyLess(b, a))
    ensures !KeyLess(a, a)
  {
    Trichotomy(a, b);
    Irreflexive(a);
    if Less(a, b) {
      Asymmetric(a, b);
    }
  }

  lemma KeyTransitive(a: bytes, b: bytes, c: bytes)
    requires KeyLess(a, b) && KeyLess(b, c)
    ensures KeyLess(a, c)
  {
    if |a| == |b| == |c| {
      Transitive(a, b, c);
    }
  }

  function Codes(s: string): (r: seq<int>)
    ensures |r| == |s|
    ensures forall i :: 0 <= i < |s| ==> r[i] == s[i] as int
  {
    seq(|s|, i requires 0 <= i < |s| => s[i] as int)
  }

  /** Order of Rust strings. UTF-8 keeps code-point order, so comparing code points is comparing bytes. */
  predicate StrLess(a: string, b: string) {
    Less(Codes(a), Codes(b))
  }

  lemma StrTrichotomy(a: string, b: string)
    ensures StrLess(a, b) || StrLess(b, a) || a == b
    ensures !(StrLess(a, b) && StrLess(b, a))
    ensures !StrLess(a, a)
  {
    Trichotomy(Codes(a), Codes(b));
    Irreflexive(Codes(a));
    if Less(Codes(a), Codes(b)) {
      Asymmetric(Codes(a), Codes(b));
    }
    if Codes(a) == Codes(b) {
      assert |a| == |b|;
      forall i | 0 <= i < |a| ensures a[i] == b[i] {
        assert Codes(a)[i] == Codes(b)[i];
      }
      assert a == b;
    }
  }

  lemma StrTransitive(a: string, b: string, c: string)
    requires StrLess(a, b) && StrLess(b, c)
    ensures StrLess(a, c)
  {
    Transitive(Codes(a), Codes(b), Codes(c));
  }
}

/** Map keys are compared length-first (section 4.2.3 of RFC 8949). On text keys, the only keys strict
    DAG-CBOR allows, this is the plain bytewise order of section 4.2.1 and the length-first order of the
    raw text; on keys of mixed types the two RFC orders differ. */
module CborKeyOrder {
  import opened Prelude
  import opened Cbor
  import opened CborCanonical
  import opened Lex

  lemma {:induction false} BigEndianOrder(m: nat, n: nat, k: nat)
    requires m < n < Pow256(k)
    ensures Less(ToBe(m, k), ToBe(n, k))
  {
    var p, q := ToBe(m / 256, k - 1), ToBe(n / 256, k - 1);
    if m / 256 < n / 256 {
      BigEndianOrder(m / 256, n / 256, k - 1);
      Irreflexive(p);
      DecidedEarly(p, q, [m % 256], [n % 256]);
    } else {
      CommonPrefix(p, [m % 256], [n % 256]);
    }
  }

  /** The additional information in the first byte of a head, and the width of the argument after it. */
  function Info(n: u64): nat {
    if n <= 23 then n else if n <= 0xff then 24 else if n <= 0xffff then 25 else if n <= 0xffff_ffff then 26 else 27
  }

  function Width(info: nat): nat {
    if info < 24 then 0 else if info == 24 then 1 else if info == 25 then 2 else if info == 26 then 4 else 8
  }

  lemma HeadParts(major: nat, n: u64)
    requires major < 8
    ensures Head(major, n) == [major * 32 + Info(n)] + if n <= 23 then [] else ToBe(n, Width(Info(n)))
    ensures n > 23 ==> n < Pow256(Width(Info(n)))
  {
    hide ToBe, Pow256;
    Pow256Values();
  }

  lemma InfoOrder(m: u64, n: u64)
    requires m < n
    ensures Info(m) < Info(n) < 28 || 24 <= Info(m) == Info(n) < 28
    ensures Width(Info(m)) <= Width(Info(n)) && (n > 23 <==> Info(n) >= 24) && (m > 23 <==> Info(m) >= 24)
  {
  }

  /** A smaller argument gives a head that is no longer and bytewise smaller, whatever follows. */
  lemma HeadOrder(major: nat, m: u64, n: u64, x: bytes, y: bytes)
    requires major < 8 && m < n
    ensures |Head(major, m)| <= |Head(major, n)|
    ensures Less(Head(major, m) + x, Head(major, n) + y)
  {
    hide Head, ToBe, Pow256, Less, Info, Width;
    HeadParts(major, m);
    HeadParts(major, n);
    InfoOrder(m, n);
    var p, q := [major * 32 + Info(m)], [major * 32 + Info(n)];
    var s, t := Head(major, m)[1..] + x, Head(major, n)[1..] + y;
    assert Head(major, m) + x == p + s && Head(major, n) + y == q + t;
    if Info(m) < Info(n) {
      FirstByte(p[0], q[0]);
      DecidedEarly(p, q, s, t);
    } else {
      var w := Width(Info(n));
      BigEndianOrder(m, n, w);
      Irreflexive(ToBe(m, w));
      DecidedEarly(ToBe(m, w), ToBe(n, w), x, y);
      CommonPrefix(p, s, t);
    }
  }

  lemma FirstByte(a: int, b: int)
    ensures Less([a], [b]) <==> a < b
  {
  }

  /** On text keys three orders agree: length-first and bytewise on encodings, length-first on raw text. */
  lemma TextKeyOrders(a: bytes, b: bytes)
    requires |a| < U64_BOUND && |b| < U64_BOUND
    ensures KeyLess(Encode(Text(a)), Encode(Text(b))) == KeyLess(a, b)
    ensures Less(Encode(Text(a)), Encode(Text(b))) == KeyLess(a, b)
  {
    hide Head, Less;
    if |a| < |b| {
      HeadOrder(3, |a|, |b|, a, b);
    } else if |b| < |a| {
      HeadOrder(3, |b|, |a|, b, a);
      Asymmetric(Encode(Text(b)), Encode(Text(a)));
    } else {
      CommonPrefix(Head(3, |a|), a, b);
    }
  }

  /** The major type of a number or string, the types whose values can stand as simple keys. */
  function Rank(v: CborValue): nat {
    match v
    case Unsigned(_) => 0
    case Negative(_) => 1
    case Bytes(_) => 2
    case Text(_) => 3
    case _ => 4
  }

  function Arg(v: CborValue): int {
    match v
    case Unsigned(n) => n
    case Negative(i) => -1 - i
    case Bytes(b) => |b|
    case Text(t) => |t|
    case _ => 0
  }

  function Content(v: CborValue): bytes {
    match v
    case Bytes(b) => b
    case Text(t) => t
    case _ => []
  }

  predicate SimpleKey(v: CborValue) {
    Rank(v) < 4 && 0 <= Arg(v) < U64_BOUND
  }

  lemma SimpleKeyBytes(v: CborValue)
    requires SimpleKey(v)
    ensures Encode(v) == Head(Rank(v), Arg(v)) + Content(v)
  {
    hide Head;
    assert forall h: bytes :: h + [] == h;
  }

  /** When the two RFC orders agree on keys that are numbers or strings, exactly: always within one type, and
      across types when the key of the lower type is encoded no longer than the other. */
  lemma KeyOrdersAgreeIff(a: CborValue, b: CborValue)
    requires SimpleKey(a) && SimpleKey(b) && Rank(a) <= Rank(b)
    ensures KeyLess(Encode(a), Encode(b)) == Less(Encode(a), Encode(b)) <==> Rank(a) == Rank(b) || |Encode(a)| <= |Encode(b)|
  {
    hide Head, Less, Content, Rank, Arg;
    SimpleKeyBytes(a);
    SimpleKeyBytes(b);
    if Rank(a) == Rank(b) {
      SameTypeOrders(a, b);
    } else {
      FirstBytes(a, b);
    }
  }

  lemma SameTypeOrders(a: CborValue, b: CborValue)
    requires SimpleKey(a) && SimpleKey(b) && Rank(a) == Rank(b)
    ensures KeyLess(Encode(a), Encode(b)) == Less(Encode(a), Encode(b))
  {
    hide Head, Less;
    SimpleKeyBytes(a);
    SimpleKeyBytes(b);
    if Arg(a) < Arg(b) {
      HeadOrder(Rank(a), Arg(a), Arg(b), Content(a), Content(b));
    } else if Arg(b) < Arg(a) {
      HeadOrder(Rank(a), Arg(b), Arg(a), Content(b), Content(a));
      Asymmetric(Encode(b), Encode(a));
    }
  }

  lemma FirstBytes(a: CborValue, b: CborValue)
    requires SimpleKey(a) && SimpleKey(b) && Rank(a) < Rank(b)
    ensures Less(Encode(a), Encode(b))
  {
    hide ToBe;
    SimpleKeyBytes(a);
    SimpleKeyBytes(b);
    assert Encode(a)[0] / 32 == Rank(a) && Encode(b)[0] / 32 == Rank(b);
  }

  /** With non-text keys (generic mode) the orders part ways: 24 encodes to 18 18 and -1 to 20, so -1 goes
      first by length although 24 is bytewise smaller. */
  lemma MixedKeyOrdersDiffer()
    ensures var a, b := Unsigned(24), Negative(-1);
            KeyLess(Encode(b), Encode(a)) && Less(Encode(a), Encode(b))
  {
    assert ToBe(24, 1) == [24];
    assert Encode(Unsigned(24)) == [24, 24];
    assert Encode(Negative(-1)) == [32];
  }
}

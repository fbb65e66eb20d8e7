/** Set-valued arrays: text sets (`validate_tstr_set_array`) and sets of structured items
    (`validate_structured_set_array`). Both accept exactly strictly increasing item byte strings. */
module SetArrays {
  import opened Prelude
  import opened Cbor
  import opened CborCanonical
  import opened CborParser
  import Lex
  import StableSort

  const MAX_CRIT_ENTRIES := 64
  const MAX_CRIT_BYTES := 4096

  predicate ByteLess(a: bytes, b: bytes) {
    Lex.Less(a, b)
  }

  lemma ByteLessIsWeakOrder()
    ensures StableSort.WeakOrder(ByteLess)
  {
    forall a: bytes, b: bytes ensures ByteLess(a, b) ==> !ByteLess(b, a) {
      if Lex.Less(a, b) { Lex.Asymmetric(a, b); }
    }
    forall a: bytes, b: bytes, c: bytes | !ByteLess(a, b) && !ByteLess(b, c) ensures !ByteLess(a, c) {
      Lex.Trichotomy(a, b);
      Lex.Trichotomy(b, c);
      if ByteLess(a, c) {
        if b != c { Lex.Transitive(a, c, b); }
      }
    }
  }

  /** The text items of an array. */
  function Texts(items: seq<CborValue>): (r: seq<bytes>)
    requires forall i :: 0 <= i < |items| ==> items[i].Text?
    ensures |r| == |items|
    ensures forall i :: 0 <= i < |items| ==> r[i] == items[i].t
  {
    seq(|items|, i requires 0 <= i < |items| => items[i].t)
  }

  predicate AllText(items: seq<CborValue>) {
    forall i :: 0 <= i < |items| ==> items[i].Text?
  }

  function TotalBytes(items: seq<CborValue>): nat
    requires AllText(items)
  {
    if |items| == 0 then 0 else |items[0].t| + TotalBytes(items[1..])
  }

  /** The fault of the first item that is not a text above its predecessor. */
  function RunFault(prev: Option<bytes>, items: seq<CborValue>): Option<Diag>
    decreases items
  {
    if |items| == 0 then None
    else if !items[0].Text? then Some(Schema)
    else if prev.Some? && Lex.Less(items[0].t, prev.value) then Some(SetArrayOrder)
    else if prev.Some? && prev.value == items[0].t then Some(SetArrayDup)
    else RunFault(Some(items[0].t), items[1..])
  }

  /** `validate_tstr_set_array`: no fault, or the diagnostic. */
  function TextSetFault(v: CborValue, isCrit: bool): Option<Diag> {
    if !v.Array? then Some(Schema)
    else if isCrit && |v.items| > MAX_CRIT_ENTRIES then Some(Limit)
    else if isCrit && !AllText(v.items) then Some(Schema)
    else if isCrit && TotalBytes(v.items) > MAX_CRIT_BYTES then Some(Limit)
    else RunFault(None, v.items)
  }

  method ValidateTextSet(v: CborValue, isCrit: bool) returns (r: Option<Diag>)
    ensures r == TextSetFault(v, isCrit)
  {
    if !v.Array? {
      return Some(Schema);
    }
    var items := v.items;
    assert items[0..] == items;
    if isCrit {
      if |items| > MAX_CRIT_ENTRIES {
        return Some(Limit);
      }
      var total := 0;
      for i := 0 to |items|
        invariant AllText(items[..i])
        invariant AllText(items) ==> total + TotalBytes(items[i..]) == TotalBytes(items)
      {
        if !items[i].Text? {
          return Some(Schema);
        }
        assert items[i..][1..] == items[i + 1..];
        total := total + |items[i].t|;
      }
      if total > MAX_CRIT_BYTES {
        return Some(Limit);
      }
    }

    var prev: Option<bytes> := None;
    var seen: set<bytes> := {};
    for i := 0 to |items|
      invariant RunFault(prev, items[i..]) == RunFault(None, items)
      invariant forall k :: k in seen ==> prev.Some? && (k == prev.value || Lex.Less(k, prev.value))
    {
      assert items[i..][1..] == items[i + 1..];
      if !items[i].Text? {
        return Some(Schema);
      }
      var cur := items[i].t;
      if prev.Some? {
        if Lex.Less(cur, prev.value) {
          return Some(SetArrayOrder);
        }
        if prev.value == cur {
          return Some(SetArrayDup);
        }
        Lex.Trichotomy(prev.value, cur);
      }
      forall k | k in seen ensures k != cur && Lex.Less(k, cur) {
        if k != prev.value { Lex.Transitive(k, prev.value, cur); }
        Lex.Irreflexive(cur);
      }
      if cur in seen { assert false; }
      seen := seen + {cur};
      prev := Some(cur);
    }
    return None;
  }

  /** Acceptance of a text set, stated on the whole array. */
  ghost predicate IsTextSet(v: CborValue, isCrit: bool) {
    v.Array? && AllText(v.items) &&
    StableSort.StrictlySorted(Texts(v.items), ByteLess) &&
    (isCrit ==> |v.items| <= MAX_CRIT_ENTRIES && TotalBytes(v.items) <= MAX_CRIT_BYTES)
  }

  /** The check accepts exactly strictly increasing arrays of texts within the limits. */
  lemma TextSetAccepted(v: CborValue, isCrit: bool)
    ensures TextSetFault(v, isCrit).None? <==> IsTextSet(v, isCrit)
  {
    if v.Array? {
      RunFaultFree(None, v.items);
    }
  }

  lemma {:induction false} RunFaultFree(prev: Option<bytes>, items: seq<CborValue>)
    ensures RunFault(prev, items).None? <==>
            AllText(items) && StableSort.StrictlySorted(Texts(items), ByteLess) &&
            (prev.Some? && |items| > 0 ==> Lex.Less(prev.value, items[0].t))
    decreases items
  {
    if |items| > 0 && items[0].Text? {
      var rest := items[1..];
      if prev.Some? {
        Lex.Trichotomy(prev.value, items[0].t);
        Lex.Irreflexive(items[0].t);
        if Lex.Less(prev.value, items[0].t) { Lex.Asymmetric(prev.value, items[0].t); }
      }
      RunFaultFree(Some(items[0].t), rest);
      assert AllText(items) <==> AllText(rest) by {
        assert forall i :: 0 <= i < |rest| ==> rest[i] == items[i + 1];
        assert forall i :: 1 <= i < |items| ==> items[i] == rest[i - 1];
      }
      if AllText(items) {
        assert Texts(items)[1..] == Texts(rest);
        SortedCons(Texts(items));
      }
    }
  }

  lemma SortedCons(ts: seq<bytes>)
    requires |ts| > 0
    ensures StableSort.StrictlySorted(ts, ByteLess) <==>
            StableSort.StrictlySorted(ts[1..], ByteLess) && (|ts| > 1 ==> ByteLess(ts[0], ts[1]))
  {
    var r := ts[1..];
    if StableSort.StrictlySorted(ts, ByteLess) {
      forall i, j | 0 <= i < j < |r| ensures ByteLess(r[i], r[j]) { assert ByteLess(ts[i + 1], ts[j + 1]); }
    }
    if StableSort.StrictlySorted(r, ByteLess) && (|ts| > 1 ==> ByteLess(ts[0], ts[1])) {
      forall i, j | 0 <= i < j < |ts| ensures ByteLess(ts[i], ts[j]) {
        assert ts[j] == r[j - 1];
        if i > 0 {
          assert ts[i] == r[i - 1];
        } else if j > 1 {
          assert ByteLess(r[0], r[j - 1]);
          Lex.Transitive(ts[0], ts[1], ts[j]);
        }
      }
    }
  }

  /** A set of texts has one accepted arrangement: two accepted arrays with the same members are equal. */
  lemma TextSetUnique(a: CborValue, b: CborValue, isCrit: bool)
    requires IsTextSet(a, isCrit) && IsTextSet(b, isCrit)
    requires forall t :: t in Texts(a.items) <==> t in Texts(b.items)
    ensures a == b
  {
    ByteLessIsWeakOrder();
    StableSort.StrictlySortedUnique(Texts(a.items), Texts(b.items), ByteLess);
    forall i | 0 <= i < |a.items| ensures a.items[i] == b.items[i] {
      assert Texts(a.items)[i] == Texts(b.items)[i];
    }
  }

  /** and there is one: sorting distinct texts gives an accepted array with those members. */
  lemma TextSetExists(ts: seq<bytes>)
    requires forall i, j :: 0 <= i < j < |ts| ==> ts[i] != ts[j]
    ensures var sorted := StableSort.Sort(ts, ByteLess);
            var v := Array(seq(|sorted|, i requires 0 <= i < |sorted| => Text(sorted[i])));
            IsTextSet(v, false) && (forall t :: t in Texts(v.items) <==> t in ts)
  {
    ByteLessIsWeakOrder();
    forall i, j | 0 <= i < j < |ts| ensures ByteLess(ts[i], ts[j]) || ByteLess(ts[j], ts[i]) {
      Lex.Trichotomy(ts[i], ts[j]);
    }
    StableSort.SortStrict(ts, ByteLess);
    var sorted := StableSort.Sort(ts, ByteLess);
    var v := Array(seq(|sorted|, i requires 0 <= i < |sorted| => Text(sorted[i])));
    assert Texts(v.items) == sorted;
    forall t ensures t in sorted <==> t in ts { StableSort.SameElements(ts, ByteLess, t); }
  }

  // ----- which fault -----

  /** The texts of an array, one after the other. */
  function Joined(items: seq<CborValue>): bytes {
    if |items| == 0 then [] else (if items[0].Text? then items[0].t else []) + Joined(items[1..])
  }

  lemma {:induction false} JoinedLength(items: seq<CborValue>)
    requires AllText(items)
    ensures |Joined(items)| == TotalBytes(items)
  {
    if |items| > 0 {
      JoinedLength(items[1..]);
    }
  }

  /** Position `i` holds a text above the one before it. */
  predicate InPlace(items: seq<CborValue>, i: int)
    requires 0 <= i < |items|
  {
    items[i].Text? && (i > 0 && items[i - 1].Text? ==> Lex.Less(items[i - 1].t, items[i].t))
  }

  ghost predicate FirstOutOfPlace(items: seq<CborValue>, k: int) {
    0 <= k < |items| && !InPlace(items, k) && forall i :: 0 <= i < k ==> InPlace(items, i)
  }

  /** The fault that the first item out of place gives. */
  ghost predicate RunVerdict(items: seq<CborValue>, r: Option<Diag>) {
    if forall i :: 0 <= i < |items| ==> InPlace(items, i) then r == None
    else exists k :: FirstOutOfPlace(items, k) &&
           r == Some(if !items[k].Text? then Schema else if items[k - 1] == items[k] then SetArrayDup else SetArrayOrder)
  }

  lemma {:induction false} RunFaultFrom(items: seq<CborValue>, k: nat)
    requires k <= |items| && forall i :: 0 <= i < k ==> items[i].Text? && InPlace(items, i)
    ensures RunVerdict(items, RunFault(if k == 0 then None else Some(items[k - 1].t), items[k..]))
    decreases |items| - k
  {
    if k < |items| {
      if InPlace(items, k) {
        assert items[k..][1..] == items[k + 1..];
        if k > 0 {
          Lex.Asymmetric(items[k - 1].t, items[k].t);
          Lex.Irreflexive(items[k].t);
        }
        RunFaultFrom(items, k + 1);
      } else {
        assert FirstOutOfPlace(items, k);
        if items[k].Text? {
          Lex.Trichotomy(items[k - 1].t, items[k].t);
          Lex.Irreflexive(items[k].t);
        }
      }
    }
  }

  /** The verdict on a text set: shape; for critical fields at most 64 texts of at most 4096 bytes together; then
      the first text not above its predecessor. */
  lemma TextSetVerdict(v: CborValue, isCrit: bool)
    ensures var r := TextSetFault(v, isCrit);
            if !v.Array? then r == Some(Schema)
            else if isCrit && |v.items| > 64 then r == Some(Limit)
            else if isCrit && exists i :: 0 <= i < |v.items| && !v.items[i].Text? then r == Some(Schema)
            else if isCrit && |Joined(v.items)| > 4096 then r == Some(Limit)
            else RunVerdict(v.items, r)
  {
    hide RunFault, RunVerdict, Joined, TotalBytes;
    if v.Array? {
      if AllText(v.items) {
        JoinedLength(v.items);
      }
      RunFaultFrom(v.items, 0);
      assert v.items[0..] == v.items;
    }
  }

  // ----- structured items -----

  ghost function Encodings(items: seq<CborValue>): seq<bytes> {
    StableSort.Map(Encode, items)
  }

  ghost predicate IsItemSet(v: CborValue, validate: CborValue -> Option<Diag>) {
    v.Array? && (forall i :: 0 <= i < |v.items| ==> validate(v.items[i]).None?) &&
    StableSort.StrictlySorted(Encodings(v.items), ByteLess)
  }

  function FirstItemFault(items: seq<CborValue>, validate: CborValue -> Option<Diag>): Option<Diag> {
    if |items| == 0 then None
    else if validate(items[0]).Some? then validate(items[0])
    else FirstItemFault(items[1..], validate)
  }

  function AdjacentFault(es: seq<bytes>): Option<Diag> {
    if |es| < 2 then None
    else if es[0] == es[1] then Some(SetArrayDup)
    else if Lex.Less(es[1], es[0]) then Some(SetArrayOrder)
    else AdjacentFault(es[1..])
  }

  /** `validate_structured_set_array`: item faults first, in item order, then adjacent encodings. */
  ghost function ItemSetFault(v: CborValue, validate: CborValue -> Option<Diag>): Option<Diag> {
    if !v.Array? then Some(Schema)
    else if FirstItemFault(v.items, validate).Some? then FirstItemFault(v.items, validate)
    else AdjacentFault(Encodings(v.items))
  }

  method ValidateItemSet(v: CborValue, validate: CborValue -> Option<Diag>) returns (r: Option<Diag>)
    ensures r == ItemSetFault(v, validate)
  {
    hide Encode;
    if !v.Array? {
      return Some(Schema);
    }
    var items := v.items;
    var encoded: seq<bytes> := [];
    assert items[0..] == items;
    for i := 0 to |items|
      invariant FirstItemFault(items[i..], validate) == FirstItemFault(items, validate)
      invariant |encoded| == i
      invariant forall k :: 0 <= k < i ==> encoded[k] == Encode(items[k])
    {
      assert items[i..][1..] == items[i + 1..];
      var fault := validate(items[i]);
      if fault.Some? {
        return fault;
      }
      var buf := new Buffer();
      WriteCanonical(items[i], buf);
      encoded := encoded + [buf.data];
    }
    assert encoded == Encodings(items);
    assert encoded[0..] == encoded;
    var k := 0;
    while k + 1 < |encoded|
      invariant 0 <= k <= |encoded|
      invariant AdjacentFault(encoded[k..]) == AdjacentFault(encoded)
    {
      assert encoded[k..][1..] == encoded[k + 1..];
      if encoded[k] == encoded[k + 1] {
        return Some(SetArrayDup);
      }
      if Lex.Less(encoded[k + 1], encoded[k]) {
        return Some(SetArrayOrder);
      }
      k := k + 1;
    }
    return None;
  }

  /** The check accepts exactly arrays of valid items whose encodings strictly increase. */
  lemma ItemSetAccepted(v: CborValue, validate: CborValue -> Option<Diag>)
    ensures ItemSetFault(v, validate).None? <==> IsItemSet(v, validate)
  {
    hide Encode;
    if v.Array? {
      NoItemFault(v.items, validate);
      NoAdjacentFault(Encodings(v.items));
    }
  }

  lemma {:induction false} NoItemFault(items: seq<CborValue>, validate: CborValue -> Option<Diag>)
    ensures FirstItemFault(items, validate).None? <==> forall i :: 0 <= i < |items| ==> validate(items[i]).None?
  {
    if |items| > 0 {
      var rest := items[1..];
      NoItemFault(rest, validate);
      assert forall i :: 0 <= i < |rest| ==> rest[i] == items[i + 1];
      assert forall i :: 1 <= i < |items| ==> items[i] == rest[i - 1];
    }
  }

  lemma {:induction false} NoAdjacentFault(es: seq<bytes>)
    ensures AdjacentFault(es).None? <==> StableSort.StrictlySorted(es, ByteLess)
  {
    if |es| > 1 {
      Lex.Trichotomy(es[0], es[1]);
      Lex.Irreflexive(es[0]);
      if Lex.Less(es[0], es[1]) { Lex.Asymmetric(es[0], es[1]); }
      NoAdjacentFault(es[1..]);
      SortedCons(es);
    }
  }

  /** The verdict on a set of structured items: the fault of the first faulty item; else the first encoding not
      above its predecessor. */
  lemma ItemSetVerdict(v: CborValue, validate: CborValue -> Option<Diag>)
    ensures var r := ItemSetFault(v, validate);
            if !v.Array? then r == Some(Schema)
            else if exists i :: 0 <= i < |v.items| && validate(v.items[i]).Some? then
              exists k :: 0 <= k < |v.items| && r == validate(v.items[k]) && r.Some? && forall i :: 0 <= i < k ==> validate(v.items[i]).None?
            else if forall i :: 0 < i < |v.items| ==> ByteLess(Encode(v.items[i - 1]), Encode(v.items[i])) then r == None
            else exists k :: 0 < k < |v.items| && FirstNotAbove(v.items, k) &&
                   r == Some(if Encode(v.items[k - 1]) == Encode(v.items[k]) then SetArrayDup else SetArrayOrder)
  {
    hide Encode, FirstNotAbove;
    if v.Array? {
      NoItemFault(v.items, validate);
      if FirstItemFault(v.items, validate).Some? {
        var k := FirstFaulty(v.items, validate);
      } else {
        AdjacentFrom(v.items, 1);
        StartOfAdjacent(v.items);
      }
    }
  }

  ghost predicate FirstNotAbove(items: seq<CborValue>, k: int) {
    0 < k < |items| && !ByteLess(Encode(items[k - 1]), Encode(items[k])) &&
    forall i :: 0 < i < k ==> ByteLess(Encode(items[i - 1]), Encode(items[i]))
  }

  lemma {:induction false} FirstFaulty(items: seq<CborValue>, validate: CborValue -> Option<Diag>) returns (k: nat)
    requires FirstItemFault(items, validate).Some?
    ensures k < |items| && FirstItemFault(items, validate) == validate(items[k]) && forall i :: 0 <= i < k ==> validate(items[i]).None?
  {
    if validate(items[0]).Some? {
      k := 0;
    } else {
      k := FirstFaulty(items[1..], validate);
      assert forall i :: 1 <= i < |items| ==> items[i] == items[1..][i - 1];
      k := k + 1;
    }
  }

  lemma StartOfAdjacent(items: seq<CborValue>)
    ensures AdjacentFault(Encodings(items)) == if |items| == 0 then None else AdjacentFault(Encodings(items)[0..])
  {
    hide Encode;
    assert Encodings(items)[0..] == Encodings(items);
  }

  lemma {:induction false} AdjacentFrom(items: seq<CborValue>, k: nat)
    requires 1 <= k && forall i :: 0 < i < k && i < |items| ==> ByteLess(Encode(items[i - 1]), Encode(items[i]))
    ensures var r := if k <= |items| then AdjacentFault(Encodings(items)[k - 1..]) else None;
            if forall i :: 0 < i < |items| ==> ByteLess(Encode(items[i - 1]), Encode(items[i])) then r == None
            else exists j :: 0 < j < |items| && FirstNotAbove(items, j) &&
                   r == Some(if Encode(items[j - 1]) == Encode(items[j]) then SetArrayDup else SetArrayOrder)
    decreases |items| - k
  {
    hide Encode;
    if k < |items| {
      var es := Encodings(items);
      assert es[k - 1] == Encode(items[k - 1]) && es[k] == Encode(items[k]);
      assert es[k - 1..][0] == es[k - 1] && es[k - 1..][1] == es[k] && es[k - 1..][1..] == es[k..];
      Lex.Trichotomy(es[k - 1], es[k]);
      Lex.Irreflexive(es[k]);
      if Lex.Less(es[k - 1], es[k]) {
        Lex.Asymmetric(es[k - 1], es[k]);
        AdjacentFrom(items, k + 1);
      } else {
        assert FirstNotAbove(items, k);
      }
    }
  }

  /** Items as the strict decoder delivers them. */
  ghost predicate Decoded(items: seq<CborValue>, depth: nat, o: Options) {
    o.canonical && forall i :: 0 <= i < |items| ==> Wf(items[i], depth, o) && Ordered(items[i])
  }

  /** A set of structured items has one accepted arrangement; this rests on the encoder being injective. */
  lemma ItemSetUnique(a: CborValue, b: CborValue, validate: CborValue -> Option<Diag>, depth: nat, o: Options)
    requires IsItemSet(a, validate) && IsItemSet(b, validate)
    requires Decoded(a.items, depth, o) && Decoded(b.items, depth, o)
    requires forall x :: x in a.items <==> x in b.items
    ensures a == b
  {
    hide Encode, Wf, Ordered;
    var ea, eb := Encodings(a.items), Encodings(b.items);
    SameMembers(a.items, b.items);
    SameMembers(b.items, a.items);
    ByteLessIsWeakOrder();
    StableSort.StrictlySortedUnique(ea, eb, ByteLess);
    forall i | 0 <= i < |a.items| ensures a.items[i] == b.items[i] {
      assert ea[i] == eb[i];
      OrderedInjective(a.items[i], b.items[i], depth, o);
    }
  }

  lemma SameMembers(xs: seq<CborValue>, ys: seq<CborValue>)
    requires forall x :: x in xs ==> x in ys
    ensures forall e :: e in Encodings(xs) ==> e in Encodings(ys)
  {
    hide Encode;
    forall e | e in Encodings(xs) ensures e in Encodings(ys) {
      var i :| 0 <= i < |xs| && Encodings(xs)[i] == e;
      assert xs[i] in ys;
      var j :| 0 <= j < |ys| && ys[j] == xs[i];
      assert Encodings(ys)[j] == e;
    }
  }

  /** and there is one: distinct decoded valid items, sorted by encoding, are accepted. */
  lemma ItemSetExists(items: seq<CborValue>, validate: CborValue -> Option<Diag>, depth: nat, o: Options)
    requires Decoded(items, depth, o) && (forall x :: x in items ==> validate(x).None?)
    requires forall i, j :: 0 <= i < j < |items| ==> items[i] != items[j]
    ensures exists sorted :: IsItemSet(Array(sorted), validate) && multiset(sorted) == multiset(items)
  {
    hide Encode, Wf, Ordered;
    EncodingLessIsWeakOrder();
    forall i, j | 0 <= i < j < |items| ensures EncodingLess(items[i], items[j]) || EncodingLess(items[j], items[i]) {
      Lex.Trichotomy(Encode(items[i]), Encode(items[j]));
      if Encode(items[i]) == Encode(items[j]) { OrderedInjective(items[i], items[j], depth, o); }
    }
    StableSort.SortStrict(items, EncodingLess);
    var sorted := StableSort.Sort(items, EncodingLess);
    forall i | 0 <= i < |sorted| ensures validate(sorted[i]).None? {
      StableSort.SameElements(items, EncodingLess, sorted[i]);
    }
    forall i, j | 0 <= i < j < |sorted| ensures ByteLess(Encodings(sorted)[i], Encodings(sorted)[j]) {
      assert EncodingLess(sorted[i], sorted[j]);
    }
    assert IsItemSet(Array(sorted), validate);
  }

  predicate EncodingLess(a: CborValue, b: CborValue) {
    ByteLess(Encode(a), Encode(b))
  }

  lemma EncodingLessIsWeakOrder()
    ensures StableSort.WeakOrder(EncodingLess)
  {
    hide Encode;
    ByteLessIsWeakOrder();
    forall a, b ensures EncodingLess(a, b) ==> !EncodingLess(b, a) {
      assert ByteLess(Encode(a), Encode(b)) ==> !ByteLess(Encode(b), Encode(a));
    }
    forall a, b, c | !EncodingLess(a, b) && !EncodingLess(b, c) ensures !EncodingLess(a, c) {
      assert !ByteLess(Encode(a), Encode(b)) && !ByteLess(Encode(b), Encode(c));
    }
  }
}

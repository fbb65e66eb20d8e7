/** When the order of the list has no part in what the reducer adds up: the exact condition
    (core/rust/grain-core/src/ledger.rs:82-116). */
module LedgerOrder {
  import opened Prelude
  import opened Ledger
  import opened LedgerTheorems

  type EventKey = (string, u64, string)

  /** Counted events of one identity contribute alike. Content addressing is one way to meet this. */
  ghost predicate Agreeing(root: string, es: set<Event>) {
    forall e, f :: Counts(root, es, e) && Counts(root, es, f) && Id(e) == Id(f) ==> Contribution(e) == Contribution(f)
  }

  ghost predicate AlwaysMisshapen(root: string, es: set<Event>, x: Event) {
    Counts(root, es, x) && forall f :: Counts(root, es, f) && Id(f) == Id(x) ==> Contribution(f).None?
  }

  /** Some identity has misshapen counted events only, so that no order can be added up. */
  ghost predicate Hopeless(root: string, es: set<Event>) {
    exists x :: AlwaysMisshapen(root, es, x)
  }

  /** Every two lists that hold the events of `es`, reordered or repeated at will, add up alike. */
  ghost predicate SameSums(root: string, es: set<Event>) {
    forall a: seq<Event>, b: seq<Event> :: SetOf(a) == es && SetOf(b) == es ==> AddUp(root, es, a, {}) == AddUp(root, es, b, {})
  }

  // ----- sums over identities -----

  ghost function Worth(root: string, es: set<Event>, id: EventKey): Option<(int, int)> {
    if exists e :: Counts(root, es, e) && Id(e) == id then
      var e :| Counts(root, es, e) && Id(e) == id;
      Contribution(e)
    else Some((0, 0))
  }

  ghost function SumIds(root: string, es: set<Event>, ids: set<EventKey>): Option<(int, int)> {
    if ids == {} then Some((0, 0)) else var id :| id in ids; Plus(Worth(root, es, id), SumIds(root, es, ids - {id}))
  }

  lemma {:induction false} SumPickId(root: string, es: set<Event>, ids: set<EventKey>, x: EventKey)
    requires x in ids
    ensures SumIds(root, es, ids) == Plus(Worth(root, es, x), SumIds(root, es, ids - {x}))
  {
    hide Worth;
    var id :| id in ids && SumIds(root, es, ids) == Plus(Worth(root, es, id), SumIds(root, es, ids - {id}));
    if id != x {
      SumPickId(root, es, ids - {id}, x);
      SumPickId(root, es, ids - {x}, id);
      var rest := ids - {id} - {x};
      assert rest == ids - {x} - {id};
      PlusSwap(Worth(root, es, id), Worth(root, es, x), SumIds(root, es, rest));
    }
  }

  lemma PlusSwap(a: Option<(int, int)>, b: Option<(int, int)>, c: Option<(int, int)>)
    ensures Plus(a, Plus(b, c)) == Plus(b, Plus(a, c))
  {
  }

  ghost function Left(root: string, es: set<Event>, todo: seq<Event>, seen: set<EventKey>): set<EventKey> {
    set e | e in todo && Counts(root, es, e) && Id(e) !in seen :: Id(e)
  }

  /** Where counted events of one identity contribute alike, adding up a list is adding up its identities. */
  lemma {:induction false} AgreeingSum(root: string, es: set<Event>, todo: seq<Event>, seen: set<EventKey>)
    requires Agreeing(root, es)
    ensures AddUp(root, es, todo, seen) == SumIds(root, es, Left(root, es, todo, seen))
    decreases |todo|
  {
    hide Counts, Contribution, AddUp, SumIds, Worth;
    if |todo| == 0 {
      AddUpNothing(root, es, seen);
      assert Left(root, es, todo, seen) == {};
      NoIds(root, es);
    } else {
      var e, rest := todo[0], todo[1..];
      assert todo == [e] + rest;
      AddUpHead(root, es, e, rest, seen);
      var left := Left(root, es, todo, seen);
      if !Counts(root, es, e) || Id(e) in seen {
        AgreeingSum(root, es, rest, seen);
        assert left == Left(root, es, rest, seen);
      } else {
        AgreeingSum(root, es, rest, seen + {Id(e)});
        assert Id(e) in left;
        assert left - {Id(e)} == Left(root, es, rest, seen + {Id(e)});
        SumPickId(root, es, left, Id(e));
        WorthOf(root, es, e);
      }
    }
  }

  lemma NoIds(root: string, es: set<Event>)
    ensures SumIds(root, es, {}) == Some((0, 0))
  {
  }

  lemma WorthOf(root: string, es: set<Event>, e: Event)
    requires Agreeing(root, es) && Counts(root, es, e)
    ensures Worth(root, es, Id(e)) == Contribution(e)
  {
    hide Counts, Contribution;
  }

  /** A list that holds a hopeless identity cannot be added up. */
  lemma {:induction false} NoSumOfHopeless(root: string, es: set<Event>, todo: seq<Event>, seen: set<EventKey>, x: Event)
    requires AlwaysMisshapen(root, es, x) && x in todo && Id(x) !in seen
    ensures AddUp(root, es, todo, seen) == None
    decreases |todo|
  {
    hide Counts, Contribution, AddUp;
    var e, rest := todo[0], todo[1..];
    assert todo == [e] + rest;
    AddUpHead(root, es, e, rest, seen);
    if e != x {
      if !Counts(root, es, e) || Id(e) in seen {
        NoSumOfHopeless(root, es, rest, seen, x);
      } else if Id(e) != Id(x) {
        NoSumOfHopeless(root, es, rest, seen + {Id(e)}, x);
      }
    }
  }

  // ----- the condition suffices -----

  lemma SameMembersSameSums(root: string, es: set<Event>, a: seq<Event>, b: seq<Event>)
    requires (Agreeing(root, es) || Hopeless(root, es)) && SetOf(a) == es && SetOf(b) == es
    ensures AddUp(root, es, a, {}) == AddUp(root, es, b, {})
  {
    hide Counts, Contribution, AddUp, Agreeing, SumIds, AlwaysMisshapen;
    assert forall e :: e in es <==> e in a;
    assert forall e :: e in es <==> e in b;
    if Agreeing(root, es) {
      AgreeingSum(root, es, a, {});
      AgreeingSum(root, es, b, {});
      assert Left(root, es, a, {}) == Left(root, es, b, {});
    } else {
      var x :| AlwaysMisshapen(root, es, x);
      CountedIsMember(root, es, x);
      NoSumOfHopeless(root, es, a, {}, x);
      NoSumOfHopeless(root, es, b, {}, x);
    }
  }

  lemma CountedIsMember(root: string, es: set<Event>, x: Event)
    requires AlwaysMisshapen(root, es, x)
    ensures x in es
  {
    hide Contribution, Authorized, Conflicted;
  }

  /** Any permutation or repetition of the list gives the same totals, diagnostics or error. */
  lemma OrderAndRepetitionIrrelevant(root: string, a: seq<Event>, b: seq<Event>)
    requires forall e :: e in a <==> e in b
    requires Agreeing(root, SetOf(a)) || Hopeless(root, SetOf(a))
    ensures Reduce(root, a) == Reduce(root, b)
  {
    hide Agreeing, Hopeless, AddUp, Diagnostics;
    assert SetOf(a) == SetOf(b);
    SameMembersSameSums(root, SetOf(a), a, b);
  }

  /** Content addressing is enough. */
  lemma ContentAddressedAgrees(root: string, es: set<Event>)
    requires ContentAddressed(es)
    ensures Agreeing(root, es)
  {
    hide Contribution, Authorized, Conflicted;
  }

  // ----- and is needed -----

  lemma {:induction false} Listed(s: set<Event>) returns (l: seq<Event>)
    ensures forall e :: e in l <==> e in s
    decreases s
  {
    l := [];
    if s != {} {
      var e :| e in s;
      l := Listed(s - {e});
      l := [e] + l;
    }
  }

  lemma {:induction false} NothingLeft(root: string, es: set<Event>, todo: seq<Event>, seen: set<EventKey>)
    requires forall e :: e in todo && Counts(root, es, e) ==> Id(e) in seen
    ensures AddUp(root, es, todo, seen) == Some((0, 0))
    decreases |todo|
  {
    hide Counts, Contribution, AddUp;
    if |todo| == 0 {
      AddUpNothing(root, es, seen);
    } else {
      assert todo == [todo[0]] + todo[1..];
      AddUpHead(root, es, todo[0], todo[1..], seen);
      NothingLeft(root, es, todo[1..], seen);
    }
  }

  /** Well-shaped events first: if between them they have every identity, the whole can be added up. */
  lemma {:induction false} GoodOnesFirst(root: string, es: set<Event>, good: seq<Event>, rest: seq<Event>, seen: set<EventKey>)
    requires forall g :: g in good ==> Contribution(g).Some?
    requires forall e :: e in rest && Counts(root, es, e) ==> Id(e) in seen || exists g :: g in good && Counts(root, es, g) && Id(g) == Id(e)
    ensures AddUp(root, es, good + rest, seen).Some?
    decreases |good|
  {
    hide Counts, Contribution, AddUp;
    if |good| == 0 {
      assert good + rest == rest;
      NothingLeft(root, es, rest, seen);
    } else {
      var g, more := good[0], good[1..];
      assert good == [g] + more && good + rest == [g] + (more + rest);
      AddUpHead(root, es, g, more + rest, seen);
      if !Counts(root, es, g) || Id(g) in seen {
        GoodOnesFirst(root, es, more, rest, seen);
      } else {
        GoodOnesFirst(root, es, more, rest, seen + {Id(g)});
      }
    }
  }

  /** All events in an order that can be added up: the well-shaped ones first. */
  lemma Addable(root: string, es: set<Event>, seen: set<EventKey>) returns (l: seq<Event>)
    requires !Hopeless(root, es)
    ensures SetOf(l) == es && AddUp(root, es, l, seen).Some?
  {
    hide Counts, Contribution, AddUp;
    var full := Listed(es);
    var good := Listed(set g | g in es && Counts(root, es, g) && Contribution(g).Some?);
    CountedAreMembers(root, es);
    forall x | x in full && Counts(root, es, x) ensures exists g :: g in good && Counts(root, es, g) && Id(g) == Id(x) {
      assert !AlwaysMisshapen(root, es, x);
      var g :| Counts(root, es, g) && Id(g) == Id(x) && Contribution(g).Some?;
      assert g in good;
    }
    GoodOnesFirst(root, es, good, full, seen);
    l := good + full;
    assert forall x :: x in l <==> x in es;
  }

  /** Without the condition two orders of one list add up to different things. */
  lemma OrderShows(root: string, es: set<Event>) returns (a: seq<Event>, b: seq<Event>)
    requires !Agreeing(root, es) && !Hopeless(root, es)
    ensures SetOf(a) == es && SetOf(b) == es && multiset(a) == multiset(b)
    ensures AddUp(root, es, a, {}) != AddUp(root, es, b, {})
  {
    hide Counts, Contribution, AddUp, Hopeless, SetOf;
    var e, f :| Counts(root, es, e) && Counts(root, es, f) && Id(e) == Id(f) && Contribution(e) != Contribution(f);
    CountedAreMembers(root, es);
    var rest := Addable(root, es, {Id(e)});
    a := [e] + ([f] + rest);
    b := [f] + ([e] + rest);
    TwoFirst(root, es, e, f, rest);
    TwoFirst(root, es, f, e, rest);
    TwoMore(es, e, f, rest);
    TwoMore(es, f, e, rest);
    PlusTells(Contribution(e), Contribution(f), AddUp(root, es, rest, {Id(e)}));
  }

  lemma TwoMore(es: set<Event>, e: Event, f: Event, rest: seq<Event>)
    requires e in es && f in es && SetOf(rest) == es
    ensures SetOf([e] + ([f] + rest)) == es
    ensures multiset([e] + ([f] + rest)) == multiset{e, f} + multiset(rest)
  {
    assert forall x :: x in es <==> x in rest;
    assert forall x :: x in [e] + ([f] + rest) <==> x == e || x == f || x in rest;
  }

  lemma PlusTells(a: Option<(int, int)>, b: Option<(int, int)>, c: Option<(int, int)>)
    requires a != b && c.Some?
    ensures Plus(a, c) != Plus(b, c)
  {
  }

  lemma CountedAreMembers(root: string, es: set<Event>)
    ensures forall e :: Counts(root, es, e) ==> e in es
  {
    hide Authorized, Conflicted;
  }

  /** Of two counted events with one identity the first is added and the second passed over. */
  lemma TwoFirst(root: string, es: set<Event>, e: Event, f: Event, rest: seq<Event>)
    requires Counts(root, es, e) && Counts(root, es, f) && Id(e) == Id(f)
    ensures AddUp(root, es, [e] + ([f] + rest), {}) == Plus(Contribution(e), AddUp(root, es, rest, {Id(e)}))
  {
    hide Counts, Contribution, AddUp;
    AddUpHead(root, es, e, [f] + rest, {});
    AddUpHead(root, es, f, rest, {Id(e)});
    assert {} + {Id(e)} == {Id(e)};
  }

  /** The exact condition: order and repetition have no part in the sums if and only if counted events of one
      identity contribute alike, or some identity is misshapen throughout. */
  lemma SameSumsIff(root: string, es: set<Event>)
    ensures SameSums(root, es) <==> Agreeing(root, es) || Hopeless(root, es)
  {
    hide Agreeing, Hopeless, AddUp;
    if Agreeing(root, es) || Hopeless(root, es) {
      forall a: seq<Event>, b: seq<Event> | SetOf(a) == es && SetOf(b) == es ensures AddUp(root, es, a, {}) == AddUp(root, es, b, {}) {
        SameMembersSameSums(root, es, a, b);
      }
    } else {
      var a, b := OrderShows(root, es);
    }
  }

  ghost predicate SameAnswers(root: string, es: set<Event>) {
    forall a: seq<Event>, b: seq<Event> :: SetOf(a) == es && SetOf(b) == es ==> Reduce(root, a) == Reduce(root, b)
  }

  ghost predicate NeverOverflows(root: string, es: set<Event>) {
    forall a: seq<Event> :: SetOf(a) == es ==> Reduce(root, a) != Err(Overflow)
  }

  /** The same condition decides the answers themselves wherever no order overflows; where one does, two
      different sums can both be refused for their size. */
  lemma SameAnswersIff(root: string, es: set<Event>)
    ensures Agreeing(root, es) || Hopeless(root, es) ==> SameAnswers(root, es)
    ensures NeverOverflows(root, es) && SameAnswers(root, es) ==> Agreeing(root, es) || Hopeless(root, es)
  {
    hide Agreeing, Hopeless, AddUp, Diagnostics;
    if Agreeing(root, es) || Hopeless(root, es) {
      forall a: seq<Event>, b: seq<Event> | SetOf(a) == es && SetOf(b) == es ensures Reduce(root, a) == Reduce(root, b) {
        SameMembersSameSums(root, es, a, b);
      }
    } else {
      var a, b := OrderShows(root, es);
      assert NeverOverflows(root, es) ==> Reduce(root, a) != Err(Overflow) && Reduce(root, b) != Err(Overflow);
      CloseTells(AddUp(root, es, a, {}), AddUp(root, es, b, {}), Diagnostics(root, es));
    }
  }

  lemma CloseTells(a: Option<(int, int)>, b: Option<(int, int)>, diags: seq<Diag>)
    requires a != b
    ensures Close(a, diags) == Close(b, diags) ==> Close(a, diags) == Err(Overflow)
  {
    assert forall m: int, n: int :: map["kcal" := m] == map["kcal" := n] ==> m == n by {
      forall m: int, n: int | map["kcal" := m] == map["kcal" := n] ensures m == n {
        assert map["kcal" := m]["kcal"] == map["kcal" := n]["kcal"];
      }
    }
  }

  /** Two orders that differ in their totals: the first of two bodies under one identity wins. */
  lemma OrderMattersOtherwise()
    ensures exists a: Event, b: Event :: Id(a) == Id(b) && Reduce("root", [a, b]) != Reduce("root", [b, a])
  {
    var a := Event("IntakeEvent", "root", 1, "cid", Body(1));
    var b := Event("IntakeEvent", "root", 1, "cid", Body(2));
    hide Reduce;
    FirstBodyWins(a, b, 1);
    FirstBodyWins(b, a, 2);
    assert map["kcal" := 1]["kcal"] != map["kcal" := 2]["kcal"];
    assert Reduce("root", [a, b]) != Reduce("root", [b, a]);
  }

  function Body(mean: int): Json {
    JObj(map["mean" := JObj(map["kcal" := JInt(mean)]), "var" := JObj(map["kcal" := JInt(0)])])
  }

  lemma FirstBodyWins(a: Event, b: Event, n: nat)
    requires a.t == b.t == "IntakeEvent" && a.ak == b.ak == "root" && Id(a) == Id(b)
    requires n <= 2 && a.body == Body(n)
    ensures Reduce("root", [a, b]).Ok? && Reduce("root", [a, b]).value.sumMean == map["kcal" := n]
  {
    hide Diagnostics;
    var es := SetOf([a, b]);
    assert a in [a, b] && b in [a, b];
    assert forall e :: e in es ==> e.payloadCid == a.payloadCid;
    assert Conflicted(es) == {};
    assert Counts("root", es, a) && Counts("root", es, b);
    assert Reading(a) == Some((n, 0));
    assert [a, b][1..] == [b] && [b][1..] == [];
    assert AddUp("root", es, [], {Id(a)}) == Some((0, 0));
    assert AddUp("root", es, [b], {Id(a)}) == Some((0, 0));
    assert {} + {Id(a)} == {Id(a)};
    assert AddUp("root", es, [a, b], {}) == Some((n + 0, 0 + 0));
  }
}

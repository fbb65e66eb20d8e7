/** What the reducer adds up: the first counted event of each identity; under content addressing, the set of
    counted events. Errors and retroactive revocation, for every list. */
module LedgerTheorems {
  import opened Prelude
  import opened Ledger

  /** Events that agree on (ak, seq, payload_cid) carry the same content. */
  ghost predicate ContentAddressed(es: set<Event>) {
    forall e, f :: e in es && f in es && Id(e) == Id(f) ==> e == f
  }

  // ----- sums over sets -----

  ghost function SumOver(s: set<Event>, f: Event -> int): int {
    if s == {} then 0 else var e :| e in s; f(e) + SumOver(s - {e}, f)
  }

  lemma {:induction false} SumPick(s: set<Event>, f: Event -> int, x: Event)
    requires x in s
    ensures SumOver(s, f) == f(x) + SumOver(s - {x}, f)
  {
    var e :| e in s && SumOver(s, f) == f(e) + SumOver(s - {e}, f);
    if e != x {
      SumPick(s - {e}, f, x);
      SumPick(s - {x}, f, e);
      assert s - {e} - {x} == s - {x} - {e};
    }
  }

  function Mean(e: Event): int { if Reading(e).Some? then Reading(e).value.0 else 0 }

  function Variance(e: Event): int { if Reading(e).Some? then Reading(e).value.1 else 0 }

  /** The distinct intake events that count: unconflicted, by the root or by a key granted and not revoked. */
  ghost function Intakes(root: string, es: set<Event>): set<Event> {
    set e | e in es && Counts(root, es, e) && e.t == "IntakeEvent"
  }

  ghost function SumsOf(s: set<Event>): Option<(int, int)> {
    if exists e :: e in s && Reading(e).None? then None else Some((SumOver(s, Mean), SumOver(s, Variance)))
  }

  /** What a counted event adds: its reading if it is an intake event, nothing otherwise. */
  function Contribution(e: Event): Option<(int, int)> {
    if e.t == "IntakeEvent" then Reading(e) else Some((0, 0))
  }

  /** A misshapen part makes the whole misshapen. */
  function Plus(a: Option<(int, int)>, b: Option<(int, int)>): Option<(int, int)> {
    if a.None? || b.None? then None else Some((a.value.0 + b.value.0, a.value.1 + b.value.1))
  }

  // ----- first occurrences -----

  /** Position `i` holds a counted event whose identity no counted event before it has. */
  ghost predicate IsFirst(root: string, es: set<Event>, todo: seq<Event>, i: int) {
    0 <= i < |todo| && Counts(root, es, todo[i]) &&
    forall j :: 0 <= j < i && Counts(root, es, todo[j]) ==> Id(todo[j]) != Id(todo[i])
  }

  /** The intake events that are the first counted ones of their identity. */
  ghost function FirstIntakes(root: string, events: seq<Event>): set<Event> {
    set e | e in events && e.t == "IntakeEvent" && exists i :: IsFirst(root, SetOf(events), events, i) && events[i] == e
  }

  /** The same, collected along the list, past the identities already seen. */
  ghost function Firsts(root: string, es: set<Event>, todo: seq<Event>, seen: set<(string, u64, string)>): set<Event>
    decreases |todo|
  {
    if |todo| == 0 then {}
    else
      var e, rest := todo[0], todo[1..];
      if !Counts(root, es, e) || Id(e) in seen then Firsts(root, es, rest, seen)
      else (if e.t == "IntakeEvent" then {e} else {}) + Firsts(root, es, rest, seen + {Id(e)})
  }

  lemma FirstInTail(root: string, es: set<Event>, todo: seq<Event>, i: nat)
    requires |todo| > 0 && i < |todo[1..]|
    ensures IsFirst(root, es, todo, i + 1) <==>
            IsFirst(root, es, todo[1..], i) && (Counts(root, es, todo[0]) ==> Id(todo[0]) != Id(todo[1..][i]))
  {
    hide Counts;
    var rest := todo[1..];
    if IsFirst(root, es, todo, i + 1) {
      forall j | 0 <= j < i && Counts(root, es, rest[j]) ensures Id(rest[j]) != Id(rest[i]) {
        assert rest[j] == todo[j + 1];
      }
    }
    if IsFirst(root, es, rest, i) && (Counts(root, es, todo[0]) ==> Id(todo[0]) != Id(rest[i])) {
      forall j | 0 <= j < i + 1 && Counts(root, es, todo[j]) ensures Id(todo[j]) != Id(todo[i + 1]) {
        if j > 0 { assert todo[j] == rest[j - 1]; }
      }
    }
  }

  lemma {:induction false} FirstsAre(root: string, es: set<Event>, todo: seq<Event>, seen: set<(string, u64, string)>, e: Event)
    ensures e in Firsts(root, es, todo, seen) <==>
            e.t == "IntakeEvent" && Id(e) !in seen && exists i :: IsFirst(root, es, todo, i) && todo[i] == e
    decreases |todo|
  {
    hide Counts;
    if |todo| > 0 {
      var d, rest := todo[0], todo[1..];
      var here := Counts(root, es, d) && Id(d) !in seen;
      var seen' := if here then seen + {Id(d)} else seen;
      FirstsAre(root, es, rest, seen', e);
      if e in Firsts(root, es, rest, seen') {
        var i :| IsFirst(root, es, rest, i) && rest[i] == e;
        FirstInTail(root, es, todo, i);
        assert IsFirst(root, es, todo, i + 1) && todo[i + 1] == e;
      } else if here && d == e {
        assert IsFirst(root, es, todo, 0);
      }
      if i :| e.t == "IntakeEvent" && Id(e) !in seen && IsFirst(root, es, todo, i) && todo[i] == e {
        if i > 0 {
          FirstInTail(root, es, todo, i - 1);
          assert IsFirst(root, es, rest, i - 1) && rest[i - 1] == e;
        }
      }
    }
  }

  lemma {:induction false} AddUpIsSum(root: string, es: set<Event>, todo: seq<Event>, seen: set<(string, u64, string)>)
    ensures AddUp(root, es, todo, seen) == SumsOf(Firsts(root, es, todo, seen))
    decreases |todo|
  {
    hide Counts, Reading, SumOver, SumsOf;
    if |todo| > 0 {
      var e, rest := todo[0], todo[1..];
      if !Counts(root, es, e) || Id(e) in seen {
        AddUpIsSum(root, es, rest, seen);
      } else {
        AddUpIsSum(root, es, rest, seen + {Id(e)});
        var later := Firsts(root, es, rest, seen + {Id(e)});
        FirstsAre(root, es, rest, seen + {Id(e)}, e);
        if e.t == "IntakeEvent" {
          AddOne(later, e);
          assert {e} + later == later + {e};
        } else {
          assert {} + later == later;
        }
      }
    } else {
      NoSum();
    }
  }

  lemma NoSum()
    ensures SumsOf({}) == Some((0, 0))
  {
  }

  lemma AddOne(s: set<Event>, e: Event)
    requires e !in s
    ensures SumsOf(s + {e}) ==
            if Reading(e).None? then None
            else match SumsOf(s)
                 case None => None
                 case Some(sums) => Some((Reading(e).value.0 + sums.0, Reading(e).value.1 + sums.1))
  {
    hide Reading, SumOver;
    assert s + {e} - {e} == s;
    assert e in s + {e};
    SumPick(s + {e}, Mean, e);
    SumPick(s + {e}, Variance, e);
    if x :| x in s && Reading(x).None? {
      assert x in s + {e};
    }
  }

  // ----- main theorems -----

  /** `r` is the answer that adds up `s`: Schema if a reading of it is misshapen, Overflow if an exact sum leaves the
      signed 64-bit range, else the sums of means and of variances, each under "kcal", and the diagnostics. */
  ghost predicate Totalled(r: Result<Totals, Diag>, s: set<Event>, diags: seq<Diag>) {
    if exists e :: e in s && Reading(e).None? then r == Err(Schema)
    else if !(-0x8000_0000_0000_0000 <= SumOver(s, Mean) <= 0x7fff_ffff_ffff_ffff) || SumOver(s, Variance) > 0x7fff_ffff_ffff_ffff
    then r == Err(Overflow)
    else r == Ok(Totals(map["kcal" := SumOver(s, Mean)], map["kcal" := SumOver(s, Variance)], diags))
  }

  lemma ClosedSums(s: set<Event>, diags: seq<Diag>)
    ensures Totalled(Close(SumsOf(s), diags), s, diags)
  {
    hide Reading, SumOver;
    VarianceNotNegative(s);
  }

  /** Closed form for every list: the sum over the first counted intake event of each identity, with the
      diagnostics of the event set. */
  lemma ReduceIsSumOfFirsts(root: string, events: seq<Event>)
    ensures Totalled(Reduce(root, events), FirstIntakes(root, events), Diagnostics(root, SetOf(events)))
  {
    hide Counts, Firsts, SumsOf, Totalled, Diagnostics, Close;
    var es := SetOf(events);
    AddUpIsSum(root, es, events, {});
    forall e ensures e in Firsts(root, es, events, {}) <==> e in FirstIntakes(root, events) {
      FirstsAre(root, es, events, {}, e);
    }
    assert Firsts(root, es, events, {}) == FirstIntakes(root, events);
    ClosedSums(FirstIntakes(root, events), Diagnostics(root, es));
  }

  lemma {:induction false} SomeFirst(root: string, es: set<Event>, todo: seq<Event>, e: Event) returns (i: nat)
    requires e in todo && Counts(root, es, e)
    ensures IsFirst(root, es, todo, i) && Id(todo[i]) == Id(e)
    decreases |todo|
  {
    hide Counts;
    if Counts(root, es, todo[0]) && Id(todo[0]) == Id(e) {
      i := 0;
    } else {
      assert todo == [todo[0]] + todo[1..];
      i := SomeFirst(root, es, todo[1..], e);
      FirstInTail(root, es, todo, i);
      i := i + 1;
    }
  }

  /** Closed form under content addressing: the sum over the set of counted intake events; list order and
      repetition have no part in it. */
  lemma ReduceIsClosedForm(root: string, events: seq<Event>)
    requires ContentAddressed(SetOf(events))
    ensures var es := SetOf(events);
            Totalled(Reduce(root, events), Intakes(root, es), Diagnostics(root, es))
  {
    hide Counts, SumsOf, Diagnostics, Reduce, Totalled;
    var es := SetOf(events);
    ReduceIsSumOfFirsts(root, events);
    forall e ensures e in Intakes(root, es) <==> e in FirstIntakes(root, events) {
      if e in Intakes(root, es) {
        var i := SomeFirst(root, es, events, e);
        assert events[i] in es;
        assert events[i] == e;
      }
    }
    assert Intakes(root, es) == FirstIntakes(root, events);
  }

  /** Errors, exactly, for every list: a misshapen reading that is added up, else an exact sum outside the
      signed 64-bit range. */
  lemma ErrorsExactly(root: string, events: seq<Event>)
    ensures var s := FirstIntakes(root, events);
            var misshapen := exists e :: e in s && Reading(e).None?;
            var inRange := I64_MIN <= SumOver(s, Mean) <= I64_MAX && SumOver(s, Variance) <= I64_MAX;
            (Reduce(root, events) == Err(Schema) <==> misshapen) &&
            (Reduce(root, events) == Err(Overflow) <==> !misshapen && !inRange) &&
            (Reduce(root, events).Ok? <==> !misshapen && inRange)
  {
    hide Counts, Reading, Diagnostics, SumOver, Reduce, FirstIntakes;
    ReduceIsSumOfFirsts(root, events);
  }

  lemma {:induction false} VarianceNotNegative(s: set<Event>)
    ensures SumOver(s, Variance) >= 0
    decreases s
  {
    if s != {} {
      var e :| e in s;
      SumPick(s, Variance, e);
      VarianceNotNegative(s - {e});
    }
  }

  // ----- retroactive revocation -----

  function Without(events: seq<Event>, device: string): (r: seq<Event>)
    ensures forall e :: e in r <==> e in events && e.ak != device
  {
    if |events| == 0 then []
    else (if events[0].ak != device then [events[0]] else []) + Without(events[1..], device)
  }

  ghost predicate SameTotals(a: Result<Totals, Diag>, b: Result<Totals, Diag>) {
    match (a, b)
    case (Ok(x), Ok(y)) => x.sumMean == y.sumMean && x.sumVar == y.sumVar
    case (Err(x), Err(y)) => x == y
    case _ => false
  }

  /** A revoke of a non-root device by the root, at a root sequence number not otherwise used and anywhere
      in the list, gives the totals of deleting all that device's events. */
  lemma RetroactiveRevoke(root: string, events: seq<Event>, at: nat, revoke: Event, device: string)
    requires at <= |events| && device != root
    requires revoke.t == "DeviceKeyRevoke" && revoke.ak == root && RevokeAk(revoke) == Some(device)
    requires forall e :: e in events ==> Slot(e) != Slot(revoke)
    ensures SameTotals(Reduce(root, events[..at] + [revoke] + events[at..]), Reduce(root, Without(events, device)))
  {
    hide AddUp, Diagnostics, Without, Counts;
    var es := SetOf(events);
    var more := es + {revoke};
    InsertedSet(events, at, revoke);
    assert SetOf(Without(events, device)) == Others(es, device);
    assert events == events[..at] + events[at..];
    forall e | e in events ensures Id(e) != Id(revoke) {
      assert Slot(e) != Slot(revoke);
    }
    InsertedUncounted(root, more, events[..at], events[at..], revoke, {});
    SkipRevoked(root, es, events, {}, revoke, device);
  }

  /** The events of other devices. */
  ghost function Others(es: set<Event>, device: string): set<Event> {
    set e | e in es && e.ak != device
  }

  /** An event that is no intake and whose identity occurs nowhere else adds nothing, wherever it stands. */
  lemma {:induction false} InsertedUncounted(root: string, es: set<Event>, a: seq<Event>, b: seq<Event>, x: Event, seen: set<(string, u64, string)>)
    requires x.t != "IntakeEvent" && forall e :: e in a || e in b ==> Id(e) != Id(x)
    ensures AddUp(root, es, a + [x] + b, seen) == AddUp(root, es, a + b, seen)
    decreases |a|
  {
    hide Counts, Reading;
    if |a| == 0 {
      assert a + [x] + b == [x] + b && a + b == b && ([x] + b)[1..] == b;
      UnusedIdentity(root, es, b, seen, Id(x));
    } else {
      var d, rest := a[0], a[1..];
      assert a == [d] + rest;
      assert (a + [x] + b)[1..] == rest + [x] + b && (a + b)[1..] == rest + b;
      InsertedUncounted(root, es, rest, b, x, seen);
      InsertedUncounted(root, es, rest, b, x, seen + {Id(d)});
    }
  }

  lemma {:induction false} UnusedIdentity(root: string, es: set<Event>, todo: seq<Event>, seen: set<(string, u64, string)>, id: (string, u64, string))
    requires forall e :: e in todo ==> Id(e) != id
    ensures AddUp(root, es, todo, seen + {id}) == AddUp(root, es, todo, seen)
    decreases |todo|
  {
    hide Counts, Reading;
    if |todo| > 0 {
      var e, rest := todo[0], todo[1..];
      assert todo == [e] + rest;
      UnusedIdentity(root, es, rest, seen, id);
      UnusedIdentity(root, es, rest, seen + {Id(e)}, id);
      assert seen + {id} + {Id(e)} == seen + {Id(e)} + {id};
    }
  }

  /** With the revoke in the set, the device's events are passed over and all others count as they did. */
  lemma {:induction false} SkipRevoked(root: string, es: set<Event>, todo: seq<Event>, seen: set<(string, u64, string)>, revoke: Event, device: string)
    requires device != root && revoke.t == "DeviceKeyRevoke" && revoke.ak == root && RevokeAk(revoke) == Some(device)
    requires (forall e :: e in es ==> Slot(e) != Slot(revoke)) && forall e :: e in todo ==> e in es
    ensures AddUp(root, es + {revoke}, todo, seen) == AddUp(root, Others(es, device), Without(todo, device), seen)
    decreases |todo|
  {
    hide Counts, Reading, Others, AddUp, Without;
    if |todo| == 0 {
      AddUpNothing(root, es + {revoke}, seen);
      AddUpNothing(root, Others(es, device), seen);
      WithoutNothing(device);
    } else {
      var e, rest := todo[0], todo[1..];
      assert todo == [e] + rest;
      CountsAfterRevoke(root, es, revoke, device, e);
      SkipRevoked(root, es, rest, seen, revoke, device);
      SkipRevoked(root, es, rest, seen + {Id(e)}, revoke, device);
      WithoutHead(e, rest, device);
      AddUpHead(root, es + {revoke}, e, rest, seen);
      AddUpHead(root, Others(es, device), e, Without(rest, device), seen);
    }
  }

  lemma WithoutNothing(device: string)
    ensures Without([], device) == []
  {
  }

  lemma WithoutHead(e: Event, rest: seq<Event>, device: string)
    ensures Without([e] + rest, device) == if e.ak != device then [e] + Without(rest, device) else Without(rest, device)
  {
    assert ([e] + rest)[1..] == rest;
    assert [] + Without(rest, device) == Without(rest, device);
  }

  lemma AddUpNothing(root: string, es: set<Event>, seen: set<(string, u64, string)>)
    ensures AddUp(root, es, [], seen) == Some((0, 0))
  {
  }

  /** One step of adding up. */
  lemma AddUpHead(root: string, es: set<Event>, e: Event, rest: seq<Event>, seen: set<(string, u64, string)>)
    ensures AddUp(root, es, [e] + rest, seen) ==
            if !Counts(root, es, e) || Id(e) in seen then AddUp(root, es, rest, seen)
            else Plus(Contribution(e), AddUp(root, es, rest, seen + {Id(e)}))
  {
    hide Counts, Reading;
    assert ([e] + rest)[1..] == rest;
  }

  lemma CountsAfterRevoke(root: string, es: set<Event>, revoke: Event, device: string, e: Event)
    requires device != root && revoke.t == "DeviceKeyRevoke" && revoke.ak == root && RevokeAk(revoke) == Some(device)
    requires (forall f :: f in es ==> Slot(f) != Slot(revoke)) && e in es
    ensures e.ak == device ==> !Counts(root, es + {revoke}, e)
    ensures e.ak != device ==> (Counts(root, es + {revoke}, e) <==> Counts(root, Others(es, device), e))
  {
    hide Grants, Revokes, Conflicted;
    if e.ak == device {
      RevokeIsClean(es, revoke);
      assert RevokesKey(root, es + {revoke}, revoke, device);
    } else {
      SameConflicts(es, revoke, device, e);
      SameKeys(root, es, revoke, device, e.ak);
    }
  }

  lemma InsertedSet(events: seq<Event>, at: nat, x: Event)
    requires at <= |events|
    ensures SetOf(events[..at] + [x] + events[at..]) == SetOf(events) + {x}
  {
    assert events == events[..at] + events[at..];
    assert forall e :: e in events <==> e in events[..at] || e in events[at..];
  }

  lemma SameConflicts(es: set<Event>, revoke: Event, device: string, e: Event)
    requires forall f :: f in es ==> Slot(f) != Slot(revoke)
    requires e in es && e.ak != device
    ensures var less := Others(es, device); Clean(es + {revoke}, e) <==> Clean(less, e)
  {
    var less := Others(es, device);
    if Slot(e) in Conflicted(es + {revoke}) {
      var f, g :| f in es + {revoke} && g in es + {revoke} && Slot(f) == Slot(g) == Slot(e) && f.payloadCid != g.payloadCid;
      assert f in less && g in less;
    }
  }

  lemma RevokeIsClean(es: set<Event>, revoke: Event)
    requires forall f :: f in es ==> Slot(f) != Slot(revoke)
    ensures Clean(es + {revoke}, revoke)
  {
  }

  lemma SameKeys(root: string, es: set<Event>, revoke: Event, device: string, ak: string)
    requires device != root && ak != device && revoke.ak == root && revoke.t == "DeviceKeyRevoke" && RevokeAk(revoke) == Some(device)
    requires forall f :: f in es ==> Slot(f) != Slot(revoke)
    ensures var less := Others(es, device);
            (ak in Grants(root, es + {revoke}) <==> ak in Grants(root, less)) &&
            (ak in Revokes(root, es + {revoke}) <==> ak in Revokes(root, less))
  {
    hide Grants, Revokes, Clean;
    var more := es + {revoke};
    var less := Others(es, device);
    forall e | e in less ensures Clean(more, e) <==> Clean(less, e) { SameConflicts(es, revoke, device, e); }
    if e :| e in more && GrantsKey(root, more, e, ak) { assert e in less && GrantsKey(root, less, e, ak); }
    if e :| e in less && GrantsKey(root, less, e, ak) { assert e in more && GrantsKey(root, more, e, ak); }
    if e :| e in more && RevokesKey(root, more, e, ak) { assert e in less && RevokesKey(root, less, e, ak); }
    if e :| e in less && RevokesKey(root, less, e, ak) { assert e in more && RevokesKey(root, more, e, ak); }
  }
}

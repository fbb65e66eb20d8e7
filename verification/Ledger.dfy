/** The ledger reducer: sequence conflicts, grants, retroactive revokes, wide sums with a final range check
    (core/rust/grain-core/src/ledger.rs). */
module Ledger {
  import opened Prelude

  /** The part of a JSON value that the reducer can observe. */
  datatype Json = JNull | JBool(b: bool) | JInt(n: int) | JFloat | JStr(s: string) | JArr(items: seq<Json>) | JObj(fields: map<string, Json>)

  function Get(v: Json, key: string): Option<Json> {
    if v.JObj? && key in v.fields then Some(v.fields[key]) else None
  }

  function AsStr(v: Option<Json>): Option<string> {
    if v.Some? && v.value.JStr? then Some(v.value.s) else None
  }

  function AsI64(v: Option<Json>): (r: Option<int>)
    ensures r.Some? ==> I64_MIN <= r.value <= I64_MAX
  {
    if v.Some? && v.value.JInt? && I64_MIN <= v.value.n <= I64_MAX then Some(v.value.n) else None
  }

  datatype Event = Event(t: string, ak: string, seqNo: u64, payloadCid: string, body: Json)

  datatype Totals = Totals(sumMean: map<string, int>, sumVar: map<string, int>, diags: seq<Diag>)

  function Slot(e: Event): (string, u64) { (e.ak, e.seqNo) }

  function Id(e: Event): (string, u64, string) { (e.ak, e.seqNo, e.payloadCid) }

  function GrantAk(e: Event): Option<string> { AsStr(Get(e.body, "grant_ak")) }

  function RevokeAk(e: Event): Option<string> { AsStr(Get(e.body, "revoke_ak")) }

  function Kcal(e: Event, field: string): Option<int> {
    var m := Get(e.body, field);
    if m.None? then None else AsI64(Get(m.value, "kcal"))
  }

  /** The two readings of an intake event, if its body has the right shape. */
  function Reading(e: Event): (r: Option<(int, int)>)
    ensures r.Some? ==> I64_MIN <= r.value.0 <= I64_MAX && 0 <= r.value.1 <= I64_MAX
  {
    var mean, variance := Kcal(e, "mean"), Kcal(e, "var");
    if mean.None? || variance.None? || variance.value < 0 then None else Some((mean.value, variance.value))
  }

  // ----- what a set of events means -----

  ghost function SetOf(events: seq<Event>): set<Event> {
    set e | e in events
  }

  /** Sequence numbers that carry more than one payload. */
  ghost function Conflicted(es: set<Event>): set<(string, u64)> {
    set e, f | e in es && f in es && Slot(e) == Slot(f) && e.payloadCid != f.payloadCid :: Slot(e)
  }

  ghost predicate Clean(es: set<Event>, e: Event) {
    e in es && Slot(e) !in Conflicted(es)
  }

  ghost predicate GrantsKey(root: string, es: set<Event>, e: Event, ak: string) {
    Clean(es, e) && e.t == "DeviceKeyGrant" && e.ak == root && GrantAk(e) == Some(ak)
  }

  ghost predicate RevokesKey(root: string, es: set<Event>, e: Event, ak: string) {
    Clean(es, e) && e.t == "DeviceKeyRevoke" && e.ak == root && RevokeAk(e) == Some(ak)
  }

  ghost function Grants(root: string, es: set<Event>): (r: set<string>)
    ensures forall ak :: ak in r <==> exists e :: e in es && GrantsKey(root, es, e, ak)
  {
    set e | e in es && GrantAk(e).Some? && GrantsKey(root, es, e, GrantAk(e).value) :: GrantAk(e).value
  }

  ghost function Revokes(root: string, es: set<Event>): (r: set<string>)
    ensures forall ak :: ak in r <==> exists e :: e in es && RevokesKey(root, es, e, ak)
  {
    set e | e in es && RevokeAk(e).Some? && RevokesKey(root, es, e, RevokeAk(e).value) :: RevokeAk(e).value
  }

  ghost predicate Authorized(root: string, es: set<Event>, ak: string) {
    ak == root || (ak in Grants(root, es) && ak !in Revokes(root, es))
  }

  /** Events whose readings count. */
  ghost predicate Counts(root: string, es: set<Event>, e: Event) {
    Clean(es, e) && Authorized(root, es, e.ak)
  }

  predicate IsControl(e: Event) {
    e.t == "DeviceKeyGrant" || e.t == "DeviceKeyRevoke"
  }

  ghost predicate DroppedAsRevoked(root: string, es: set<Event>, e: Event) {
    Clean(es, e) && !Authorized(root, es, e.ak) && e.ak in Revokes(root, es)
  }

  ghost predicate ForeignControl(root: string, es: set<Event>, e: Event) {
    Clean(es, e) && IsControl(e) && e.ak != root
  }

  ghost function Diagnostics(root: string, es: set<Event>): seq<Diag> {
    DiagList(Conflicted(es) != {},
             exists e :: e in es && DroppedAsRevoked(root, es, e),
             exists e :: e in es && ForeignControl(root, es, e))
  }

  /** The diagnostic set in the order of the `Diag` enumeration. */
  function DiagList(conflict: bool, revoked: bool, unauthorized: bool): seq<Diag> {
    (if conflict then [SeqConflict] else []) + (if revoked then [AkRevoked] else [])
    + (if unauthorized then [UnauthorizedGrantIgnored] else [])
  }

  // ----- the reducer, event by event -----

  /** Adding up counted events in list order, each (ak, seq, cid) once; a misshapen reading ends it. */
  ghost function AddUp(root: string, es: set<Event>, todo: seq<Event>, seen: set<(string, u64, string)>): Option<(int, int)>
    decreases |todo|
  {
    if |todo| == 0 then Some((0, 0))
    else
      var e, rest := todo[0], todo[1..];
      if !Counts(root, es, e) || Id(e) in seen then AddUp(root, es, rest, seen)
      else if e.t != "IntakeEvent" then AddUp(root, es, rest, seen + {Id(e)})
      else if Reading(e).None? then None
      else
        var (mean, variance) := Reading(e).value;
        match AddUp(root, es, rest, seen + {Id(e)})
        case None => None
        case Some(sums) => Some((mean + sums.0, variance + sums.1))
  }

  function Close(sums: Option<(int, int)>, diags: seq<Diag>): Result<Totals, Diag> {
    match sums
    case None => Err(Schema)
    case Some((mean, variance)) =>
      if mean > I64_MAX || mean < I64_MIN then Err(Overflow)
      else if variance > I64_MAX || variance < 0 then Err(Overflow)
      else Ok(Totals(map["kcal" := mean], map["kcal" := variance], diags))
  }

  ghost function Reduce(root: string, events: seq<Event>): Result<Totals, Diag> {
    var es := SetOf(events);
    Close(AddUp(root, es, events, {}), Diagnostics(root, es))
  }

  newtype i128 = x: int | -0x8000_0000_0000_0000_0000_0000_0000_0000 <= x <= 0x7fff_ffff_ffff_ffff_ffff_ffff_ffff_ffff

  /** `collect_conflicted_sequences`. */
  method CollectConflicted(events: seq<Event>) returns (conflicted: set<(string, u64)>)
    ensures conflicted == Conflicted(SetOf(events))
  {
    var payloads: map<(string, u64), set<string>> := map[];
    for i := 0 to |events|
      invariant forall k :: k in payloads <==> exists j :: 0 <= j < i && Slot(events[j]) == k
      invariant forall k, p :: k in payloads ==> (p in payloads[k] <==> exists j :: 0 <= j < i && Slot(events[j]) == k && events[j].payloadCid == p)
    {
      var k := Slot(events[i]);
      payloads := payloads[k := (if k in payloads then payloads[k] else {}) + {events[i].payloadCid}];
    }
    conflicted := set k | k in payloads && |payloads[k]| > 1;
    SeveralPayloads(events, payloads);
  }

  lemma SeveralPayloads(events: seq<Event>, payloads: map<(string, u64), set<string>>)
    requires forall k :: k in payloads <==> exists j :: 0 <= j < |events| && Slot(events[j]) == k
    requires forall k, p :: k in payloads ==> (p in payloads[k] <==> exists j :: 0 <= j < |events| && Slot(events[j]) == k && events[j].payloadCid == p)
    ensures (set k | k in payloads && |payloads[k]| > 1) == Conflicted(SetOf(events))
  {
    forall k ensures k in payloads && |payloads[k]| > 1 <==> k in Conflicted(SetOf(events)) {
      if k in payloads {
        SeveralElements(payloads[k]);
        if p, q :| p in payloads[k] && q in payloads[k] && p != q {
          var i :| 0 <= i < |events| && Slot(events[i]) == k && events[i].payloadCid == p;
          var j :| 0 <= j < |events| && Slot(events[j]) == k && events[j].payloadCid == q;
          assert events[i] in SetOf(events) && events[j] in SetOf(events);
        }
      }
      if k in Conflicted(SetOf(events)) {
        var e, f :| e in SetOf(events) && f in SetOf(events) && Slot(e) == Slot(f) == k && e.payloadCid != f.payloadCid;
        var i :| 0 <= i < |events| && events[i] == e;
        var j :| 0 <= j < |events| && events[j] == f;
        assert e.payloadCid in payloads[k] && f.payloadCid in payloads[k];
      }
    }
  }

  lemma SeveralElements<T>(s: set<T>)
    ensures |s| > 1 <==> exists p, q :: p in s && q in s && p != q
  {
    if |s| > 0 {
      var p :| p in s;
      var rest := s - {p};
      assert |s| == |rest| + 1;
      if |rest| > 0 {
        var q :| q in rest;
        assert p in s && q in s && p != q;
      }
    }
  }

  /** `reduce_ledger`. A Vec holds fewer than 2^63 elements; the 128-bit sums then never overflow. */
  method ReduceLedger(root: string, events: seq<Event>) returns (r: Result<Totals, Diag>)
    requires |events| < 0x8000_0000_0000_0000
    ensures r == Reduce(root, events)
  {
    hide Conflicted, Grants, Revokes, AddUp;
    ghost var es := SetOf(events);
    var conflicted := CollectConflicted(events);
    var grants, revokes, unauthorized := CollectKeys(root, events, conflicted);
    var authorized, revoked := SelectAuthorized(root, events, conflicted, grants, revokes);
    KeptAddUp(root, es, events, {});
    var sums := SumReadings(root, events, authorized);
    if sums.None? {
      return Err(Schema);
    }
    var (mean, variance) := sums.value;
    if mean as int > I64_MAX || (mean as int) < I64_MIN {
      return Err(Overflow);
    }
    if variance as int > I64_MAX || variance < 0 {
      return Err(Overflow);
    }
    var diags := DiagList(conflicted != {}, revoked, unauthorized);
    assert diags == Diagnostics(root, es);
    r := Ok(Totals(map["kcal" := mean as int], map["kcal" := variance as int], diags));
  }

  /** First pass: grants and revokes by the root, and whether someone else tried. */
  method CollectKeys(root: string, events: seq<Event>, conflicted: set<(string, u64)>)
    returns (grants: set<string>, revokes: set<string>, unauthorized: bool)
    requires conflicted == Conflicted(SetOf(events))
    ensures var es := SetOf(events);
            grants == Grants(root, es) && revokes == Revokes(root, es) &&
            (unauthorized <==> exists e :: e in es && ForeignControl(root, es, e))
  {
    hide Conflicted, Grants, Revokes;
    grants, revokes, unauthorized := {}, {}, false;
    ghost var es := SetOf(events);
    for i := 0 to |events|
      invariant forall k :: k in grants <==> exists j :: 0 <= j < i && GrantsKey(root, es, events[j], k)
      invariant forall k :: k in revokes <==> exists j :: 0 <= j < i && RevokesKey(root, es, events[j], k)
      invariant unauthorized <==> exists j :: 0 <= j < i && ForeignControl(root, es, events[j])
    {
      var ev := events[i];
      assert ev in es;
      if Slot(ev) !in conflicted {
        if ev.t == "DeviceKeyGrant" {
          if ev.ak == root {
            if GrantAk(ev).Some? { grants := grants + {GrantAk(ev).value}; }
          } else {
            unauthorized := true;
          }
        } else if ev.t == "DeviceKeyRevoke" {
          if ev.ak == root {
            if RevokeAk(ev).Some? { revokes := revokes + {RevokeAk(ev).value}; }
          } else {
            unauthorized := true;
          }
        }
      }
    }
    SomewhereInList(events, e => ForeignControl(root, es, e));
    forall k ensures (k in grants <==> k in Grants(root, es)) && (k in revokes <==> k in Revokes(root, es)) {
      SomewhereInList(events, e => GrantsKey(root, es, e, k));
      SomewhereInList(events, e => RevokesKey(root, es, e, k));
    }
  }

  lemma SomewhereInList(events: seq<Event>, p: Event -> bool)
    ensures (exists e :: e in SetOf(events) && p(e)) <==> exists j :: 0 <= j < |events| && p(events[j])
  {
    if j :| 0 <= j < |events| && p(events[j]) {
      assert events[j] in SetOf(events);
    }
    if e :| e in SetOf(events) && p(e) {
      var j :| 0 <= j < |events| && events[j] == e;
      assert p(events[j]);
    }
  }

  /** The counted events, in order. */
  ghost function Kept(root: string, es: set<Event>, events: seq<Event>): (r: seq<Event>)
    ensures |r| <= |events| && forall e :: e in r ==> Counts(root, es, e)
  {
    if |events| == 0 then []
    else (if Counts(root, es, events[0]) then [events[0]] else []) + Kept(root, es, events[1..])
  }

  lemma {:induction false} KeptAddUp(root: string, es: set<Event>, events: seq<Event>, seen: set<(string, u64, string)>)
    ensures AddUp(root, es, Kept(root, es, events), seen) == AddUp(root, es, events, seen)
    decreases |events|
  {
    hide Counts, Reading;
    if |events| > 0 {
      var e, rest := events[0], events[1..];
      KeptAddUp(root, es, rest, seen);
      KeptAddUp(root, es, rest, seen + {Id(e)});
      assert ([e] + Kept(root, es, rest))[1..] == Kept(root, es, rest);
      assert [] + Kept(root, es, rest) == Kept(root, es, rest);
    }
  }

  /** Second pass: the counted events in order, and whether a revoked key had events dropped. */
  method SelectAuthorized(root: string, events: seq<Event>, conflicted: set<(string, u64)>, grants: set<string>, revokes: set<string>)
    returns (authorized: seq<Event>, revoked: bool)
    requires var es := SetOf(events); conflicted == Conflicted(es) && grants == Grants(root, es) && revokes == Revokes(root, es)
    ensures var es := SetOf(events);
            authorized == Kept(root, es, events) && (revoked <==> exists e :: e in es && DroppedAsRevoked(root, es, e))
  {
    hide Conflicted, Grants, Revokes, Kept, Counts, DroppedAsRevoked;
    authorized, revoked := [], false;
    ghost var es := SetOf(events);
    assert authorized + Kept(root, es, events[0..]) == Kept(root, es, events);
    for i := 0 to |events|
      invariant authorized + Kept(root, es, events[i..]) == Kept(root, es, events)
      invariant revoked <==> exists j :: 0 <= j < i && DroppedAsRevoked(root, es, events[j])
    {
      var ev := events[i];
      assert ev in es;
      Status(root, es, ev);
      KeptStep(root, es, authorized, events, i);
      if Slot(ev) in conflicted {
        continue;
      }
      if !(ev.ak == root || (ev.ak in grants && ev.ak !in revokes)) {
        if ev.ak in revokes {
          revoked := true;
        }
        continue;
      }
      authorized := authorized + [ev];
    }
    KeptNothing(root, es);
    assert events[|events|..] == [] && authorized + [] == authorized;
    SomewhereInList(events, e => DroppedAsRevoked(root, es, e));
  }

  lemma Status(root: string, es: set<Event>, ev: Event)
    requires ev in es
    ensures Counts(root, es, ev) <==>
            Slot(ev) !in Conflicted(es) && (ev.ak == root || (ev.ak in Grants(root, es) && ev.ak !in Revokes(root, es)))
    ensures DroppedAsRevoked(root, es, ev) <==>
            Slot(ev) !in Conflicted(es) && ev.ak in Revokes(root, es) && !(ev.ak == root || (ev.ak in Grants(root, es) && ev.ak !in Revokes(root, es)))
  {
    hide Conflicted, Grants, Revokes;
  }

  lemma KeptNothing(root: string, es: set<Event>)
    ensures Kept(root, es, []) == []
  {
  }

  lemma KeptStep(root: string, es: set<Event>, front: seq<Event>, events: seq<Event>, i: nat)
    requires i < |events|
    ensures front + Kept(root, es, events[i..]) ==
            (if Counts(root, es, events[i]) then front + [events[i]] else front) + Kept(root, es, events[i + 1..])
  {
    hide Counts;
    assert events[i..][1..] == events[i + 1..];
  }

  /** Third pass: the sums, exact duplicates counted once. */
  method SumReadings(root: string, events: seq<Event>, authorized: seq<Event>) returns (r: Option<(i128, i128)>)
    requires |authorized| < 0x8000_0000_0000_0000
    requires forall e :: e in authorized ==> Counts(root, SetOf(events), e)
    ensures match AddUp(root, SetOf(events), authorized, {})
            case None => r.None?
            case Some(sums) => r.Some? && (r.value.0 as int, r.value.1 as int) == sums
  {
    hide Counts, Reading;
    ghost var es := SetOf(events);
    var sumMean: i128, sumVar: i128 := 0, 0;
    var seen: set<(string, u64, string)> := {};
    ghost var whole := AddUp(root, es, authorized, {});
    assert authorized[0..] == authorized;
    for i := 0 to |authorized|
      invariant -(i * 0x8000_0000_0000_0000) <= sumMean as int <= i * 0x8000_0000_0000_0000
      invariant 0 <= sumVar as int <= i * 0x8000_0000_0000_0000
      invariant match AddUp(root, es, authorized[i..], seen)
                case None => whole == None
                case Some(rest) => whole == Some((sumMean as int + rest.0, sumVar as int + rest.1))
    {
      var ev := authorized[i];
      assert authorized[i..][1..] == authorized[i + 1..];
      if Id(ev) !in seen {
        seen := seen + {Id(ev)};
        if ev.t == "IntakeEvent" {
          var reading := Reading(ev);
          if reading.None? {
            return None;
          }
          ReadingRange(ev);
          sumMean := sumMean + reading.value.0 as i128;
          sumVar := sumVar + reading.value.1 as i128;
        }
      }
    }
    return Some((sumMean, sumVar));
  }

  lemma ReadingRange(e: Event)
    requires Reading(e).Some?
    ensures I64_MIN <= Reading(e).value.0 <= I64_MAX && 0 <= Reading(e).value.1 <= I64_MAX
  {
  }
}

/** The reducer's answer spelled out on the events themselves: which fields of a body are read, which events
    count, what the totals and the diagnostics are (core/rust/grain-core/src/ledger.rs). */
module LedgerReadings {
  import opened Prelude
  import opened Ledger
  import opened LedgerTheorems

  // ----- bodies -----

  predicate HasField(v: Json, name: string, field: Json) {
    v.JObj? && name in v.fields && v.fields[name] == field
  }

  /** The body has an object under this name whose "kcal" is this number. */
  predicate HasKcal(body: Json, name: string, n: int) {
    body.JObj? && name in body.fields && HasField(body.fields[name], "kcal", JInt(n))
  }

  /** A reading: two numbers, the mean a signed 64-bit one, the variance one that is not negative. */
  lemma ReadingExactly(e: Event, mean: int, variance: int)
    ensures Reading(e) == Some((mean, variance)) <==>
            HasKcal(e.body, "mean", mean) && -0x8000_0000_0000_0000 <= mean <= 0x7fff_ffff_ffff_ffff &&
            HasKcal(e.body, "var", variance) && 0 <= variance <= 0x7fff_ffff_ffff_ffff
  {
  }

  lemma GrantedKeyExactly(e: Event, ak: string)
    ensures GrantAk(e) == Some(ak) <==> HasField(e.body, "grant_ak", JStr(ak))
  {
  }

  lemma RevokedKeyExactly(e: Event, ak: string)
    ensures RevokeAk(e) == Some(ak) <==> HasField(e.body, "revoke_ak", JStr(ak))
  {
  }

  // ----- which events count -----

  /** Another event has the same key and number, but a different payload. */
  ghost predicate InConflict(es: set<Event>, e: Event) {
    exists f :: f in es && f.ak == e.ak && f.seqNo == e.seqNo && f.payloadCid != e.payloadCid
  }

  ghost predicate GrantedByRoot(root: string, es: set<Event>, ak: string) {
    exists e :: e in es && !InConflict(es, e) && e.t == "DeviceKeyGrant" && e.ak == root && HasField(e.body, "grant_ak", JStr(ak))
  }

  ghost predicate RevokedByRoot(root: string, es: set<Event>, ak: string) {
    exists e :: e in es && !InConflict(es, e) && e.t == "DeviceKeyRevoke" && e.ak == root && HasField(e.body, "revoke_ak", JStr(ak))
  }

  /** By the root, or by a key that the root granted and nowhere revoked. */
  ghost predicate MayCount(root: string, es: set<Event>, ak: string) {
    ak == root || (GrantedByRoot(root, es, ak) && !RevokedByRoot(root, es, ak))
  }

  lemma ConflictsAre(es: set<Event>, e: Event)
    requires e in es
    ensures Slot(e) in Conflicted(es) <==> InConflict(es, e)
  {
    if Slot(e) in Conflicted(es) {
      var f, g :| f in es && g in es && Slot(f) == Slot(g) == Slot(e) && f.payloadCid != g.payloadCid;
      assert f.payloadCid != e.payloadCid || g.payloadCid != e.payloadCid;
    }
  }

  lemma GrantsAre(root: string, es: set<Event>, ak: string)
    ensures ak in Grants(root, es) <==> GrantedByRoot(root, es, ak)
    ensures ak in Revokes(root, es) <==> RevokedByRoot(root, es, ak)
  {
    hide Conflicted, InConflict, GrantAk, RevokeAk, HasField;
    forall e | e in es
      ensures GrantsKey(root, es, e, ak) <==> !InConflict(es, e) && e.t == "DeviceKeyGrant" && e.ak == root && HasField(e.body, "grant_ak", JStr(ak))
      ensures RevokesKey(root, es, e, ak) <==> !InConflict(es, e) && e.t == "DeviceKeyRevoke" && e.ak == root && HasField(e.body, "revoke_ak", JStr(ak))
    {
      ConflictsAre(es, e);
      GrantedKeyExactly(e, ak);
      RevokedKeyExactly(e, ak);
    }
  }

  /** Which events count, exactly. */
  lemma CountsExactly(root: string, es: set<Event>, e: Event)
    ensures Counts(root, es, e) <==> e in es && !InConflict(es, e) && MayCount(root, es, e.ak)
  {
    hide Conflicted, InConflict, Grants, Revokes, GrantedByRoot, RevokedByRoot;
    GrantsAre(root, es, e.ak);
    if e in es {
      ConflictsAre(es, e);
    }
  }

  /** Which of them are added up: intake events, each identity at its first counted place. */
  lemma AddedExactly(root: string, events: seq<Event>, e: Event)
    ensures var es := SetOf(events);
            e in FirstIntakes(root, events) <==>
            e.t == "IntakeEvent" && !InConflict(es, e) && MayCount(root, es, e.ak) &&
            exists i :: FirstOfIdentity(root, events, i) && events[i] == e
  {
    hide Counts, InConflict, MayCount;
    var es := SetOf(events);
    forall i ensures IsFirst(root, es, events, i) <==> 0 <= i < |events| && Counts(root, es, events[i]) && FirstOfIdentity(root, events, i) {
      FirstPlaces(root, events, i);
    }
    CountsExactly(root, es, e);
  }

  /** No event before place `i` that counts has the same key, number and payload. */
  ghost predicate FirstOfIdentity(root: string, events: seq<Event>, i: int) {
    var es := SetOf(events);
    0 <= i < |events| &&
    forall j :: 0 <= j < i && !InConflict(es, events[j]) && MayCount(root, es, events[j].ak) ==>
      events[j].ak != events[i].ak || events[j].seqNo != events[i].seqNo || events[j].payloadCid != events[i].payloadCid
  }

  lemma FirstPlaces(root: string, events: seq<Event>, i: int)
    ensures IsFirst(root, SetOf(events), events, i) <==>
            0 <= i < |events| && Counts(root, SetOf(events), events[i]) && FirstOfIdentity(root, events, i)
  {
    hide Counts, InConflict, MayCount;
    var es := SetOf(events);
    forall j | 0 <= j < |events| ensures Counts(root, es, events[j]) <==> !InConflict(es, events[j]) && MayCount(root, es, events[j].ak) {
      CountsExactly(root, es, events[j]);
    }
  }

  // ----- the answer -----

  /** The totals of an accepted list: one number for each of the two sums, under "kcal". */
  lemma TotalsExactly(root: string, events: seq<Event>)
    requires Reduce(root, events).Ok?
    ensures var added := FirstIntakes(root, events);
            Reduce(root, events).value ==
              Totals(map["kcal" := SumOver(added, Mean)], map["kcal" := SumOver(added, Variance)], Diagnostics(root, SetOf(events)))
    ensures forall e :: e in FirstIntakes(root, events) ==> HasKcal(e.body, "mean", Mean(e)) && HasKcal(e.body, "var", Variance(e))
  {
    hide Counts, Reading, Diagnostics, SumOver, Reduce, FirstIntakes, HasKcal;
    ReduceIsSumOfFirsts(root, events);
    ErrorsExactly(root, events);
    forall e | e in FirstIntakes(root, events) ensures HasKcal(e.body, "mean", Mean(e)) && HasKcal(e.body, "var", Variance(e)) {
      ReadingExactly(e, Mean(e), Variance(e));
    }
  }

  /** The diagnostics: a number used twice, an event dropped for a revoked key, a grant or revoke by someone
      other than the root; in this order, each at most once. */
  lemma DiagnosticsExactly(root: string, es: set<Event>)
    ensures Diagnostics(root, es) ==
              (if exists e :: e in es && InConflict(es, e) then [SeqConflict] else []) +
              (if exists e :: e in es && !InConflict(es, e) && !MayCount(root, es, e.ak) && RevokedByRoot(root, es, e.ak) then [AkRevoked] else []) +
              (if exists e :: e in es && !InConflict(es, e) && e.t in {"DeviceKeyGrant", "DeviceKeyRevoke"} && e.ak != root
               then [UnauthorizedGrantIgnored] else [])
  {
    hide Conflicted, InConflict, Grants, Revokes, GrantedByRoot, RevokedByRoot;
    forall e | e in es
      ensures Slot(e) in Conflicted(es) <==> InConflict(es, e)
      ensures DroppedAsRevoked(root, es, e) <==> !InConflict(es, e) && !MayCount(root, es, e.ak) && RevokedByRoot(root, es, e.ak)
      ensures ForeignControl(root, es, e) <==> !InConflict(es, e) && e.t in {"DeviceKeyGrant", "DeviceKeyRevoke"} && e.ak != root
    {
      ConflictsAre(es, e);
      GrantsAre(root, es, e.ak);
    }
    SlotsOfEvents(es);
  }

  lemma SlotsOfEvents(es: set<Event>)
    ensures Conflicted(es) != {} <==> exists e :: e in es && Slot(e) in Conflicted(es)
  {
    if Conflicted(es) != {} {
      var k :| k in Conflicted(es);
      var e, f :| e in es && f in es && Slot(e) == Slot(f) == k && e.payloadCid != f.payloadCid;
    }
  }
}

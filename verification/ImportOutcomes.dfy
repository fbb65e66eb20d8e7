/** What importing an identity, a sync bundle or a snapshot answers and leaves behind
    (core/rust/grain-client-core/src/identity.rs, sync.rs, memory_store.rs). */
module ImportOutcomes {
  import opened Prelude
  import opened Scan
  import opened Identity
  import opened IdentityForms
  import opened IdentityTheorems
  import opened Store
  import opened StoreInvariant
  import opened StoreTheorems
  import opened SyncTheorems
  import Decimal
  import Keyed
  import Lex

  // ----- identities -----

  /** The identity after `b` came in, with the counters it holds. */
  ghost predicate Received(s: State, b: Bundle, t: State) {
    t.identity.Some? && t.seqByAk == Numbers(t.identity.value.seqState) &&
    if s.identity.None? then t.identity == Some(b) else MergedFrom(s.identity.value, b, t.identity.value)
  }

  lemma MergeReceives(w: World, s: State, b: Bundle, invalid: SdkError)
    requires Inv(w, s) && ValidBundle(w, b)
    ensures var r := Merge(w, s.identity, b, invalid);
            if s.identity.Some? && !Compatible(s.identity.value, b) then r == Err(IdentityConflict)
            else r.Ok? && AllEventsValid(w, s.events, r.value) &&
                 var t := State(s.scans, Some(r.value), Counters(r.value.seqState), s.events);
                 Install(s, r.value) == Some((t, s.identity != Some(r.value))) && Received(s, b, t)
  {
    hide ValidBundle, ValidEvent, ScansOk, IdentityOk, Counters, Numbers, MergedFrom, Compatible, Keeps;
    if s.identity.Some? {
      ValidIdentity(w, s);
      MergesIff(w, s.identity.value, b, invalid);
      if Compatible(s.identity.value, b) {
        MergeContents(w, s.identity.value, b, invalid);
      }
    }
    if Merge(w, s.identity, b, invalid).Ok? {
      InstallMergedKeeps(w, s, b, invalid);
      CountersOfInstalled(w, s, Merge(w, s.identity, b, invalid).value);
      NumbersAre(Merge(w, s.identity, b, invalid).value.seqState);
    }
  }

  lemma ValidIdentity(w: World, s: State)
    requires Inv(w, s) && s.identity.Some?
    ensures ValidBundle(w, s.identity.value) && s.seqByAk == Counters(s.identity.value.seqState)
  {
    hide ValidBundle, ValidEvent, ScansOk, Counters;
  }

  lemma CountersOfInstalled(w: World, s: State, m: Bundle)
    requires ValidBundle(w, m)
    ensures Install(s, m) == Some((State(s.scans, Some(m), Counters(m.seqState), s.events), s.identity != Some(m)))
  {
    hide ValidBundle, Counters, CountersParse;
    DevicesAreDistinct(w, m);
  }

  /** Importing an identity: version and validity first, then only incompatible devices or root material can
      refuse it. */
  lemma ImportIdentityOutcome(w: World, s: State, bundle: Option<Bundle>)
    requires Inv(w, s)
    ensures var (t, o) := Apply(w, s, ImportIdentity(bundle));
            if bundle.None? then t == s && o == Err(BundleInvalid)
            else
              var b := bundle.value;
              if b.version != 1 then t == s && o == Err(BundleVersion)
              else if !ValidBundle(w, b) then t == s && o == Err(BundleInvalid)
              else if s.identity.Some? && !Compatible(s.identity.value, b) then t == s && o == Err(IdentityConflict)
              else o == Ok(Imported) && t.scans == s.scans && t.events == s.events && Received(s, b, t)
  {
    hide Inv, ValidBundle, Merge, Install, AllEventsValid, Compatible, Received;
    if bundle.Some? && ValidBundle(w, bundle.value) {
      MergeReceives(w, s, bundle.value, BundleInvalid);
    }
  }

  // ----- sync bundles -----

  /** No scan record contradicts one held or another one of the list. */
  ghost predicate ScansFit(m: map<string, ScanRecord>, rs: seq<ScanRecord>) {
    (forall r :: r in rs && r.scanId in m ==> m[r.scanId] == r) && forall p, q :: p in rs && q in rs && p.scanId == q.scanId ==> p == q
  }

  ghost predicate EventsFit(m: map<string, LifecycleEvent>, es: seq<LifecycleEvent>) {
    (forall e :: e in es && e.eventId in m ==> m[e.eventId] == e) && forall p, q :: p in es && q in es && p.eventId == q.eventId ==> p == q
  }

  /** The map with the records of the list under their identifiers. */
  ghost predicate ScansAdded(m: map<string, ScanRecord>, rs: seq<ScanRecord>, n: map<string, ScanRecord>) {
    (forall id :: id in n <==> id in m || exists r :: r in rs && r.scanId == id) &&
    (forall id :: id in m ==> n[id] == m[id]) && forall r :: r in rs ==> n[r.scanId] == r
  }

  ghost predicate EventsAdded(m: map<string, LifecycleEvent>, es: seq<LifecycleEvent>, n: map<string, LifecycleEvent>) {
    (forall id :: id in n <==> id in m || exists e :: e in es && e.eventId == id) &&
    (forall id :: id in m ==> n[id] == m[id]) && forall e :: e in es ==> n[e.eventId] == e
  }

  lemma ScansPut(m: map<string, ScanRecord>, rs: seq<ScanRecord>)
    ensures var r := Keyed.PutAll(m, rs, ScanKey);
            (r.Some? <==> ScansFit(m, rs)) && (r.Some? ==> ScansAdded(m, rs, r.value.0) && (r.value.1 <==> r.value.0 != m))
  {
    hide Keyed.PutAll;
    Keyed.PutAllAdds(m, rs, ScanKey);
  }

  lemma EventsPut(m: map<string, LifecycleEvent>, es: seq<LifecycleEvent>)
    ensures var r := Keyed.PutAll(m, es, EventKey);
            (r.Some? <==> EventsFit(m, es)) && (r.Some? ==> EventsAdded(m, es, r.value.0) && (r.value.1 <==> r.value.0 != m))
  {
    hide Keyed.PutAll;
    Keyed.PutAllAdds(m, es, EventKey);
  }

  /** The records of a sync bundle or snapshot hold up: scans by themselves, events against its identity. */
  ghost predicate RecordsHold(w: World, identity: Option<Bundle>, scans: seq<ScanRecord>, events: seq<LifecycleEvent>) {
    (forall r :: r in scans ==> ValidRecord(w, r)) &&
    match identity
    case None => events == []
    case Some(b) => ValidBundle(w, b) && forall e :: e in events ==> ValidEvent(w, e, b)
  }

  ghost predicate IsSync(w: World, b: SyncBundle) {
    b.version == 1 && b.custody.version == 1 && b.custody.material == "sync_bundle_v1" && !b.custody.deviceBound &&
    b.custody.storage == "app_encrypted_transfer_required" && RecordsHold(w, b.identity, b.scans, b.events)
  }

  lemma SyncIs(w: World, b: SyncBundle)
    ensures ValidSync(w, b) <==> IsSync(w, b)
  {
    hide ValidBundle, ValidEvent, ValidRecord;
  }

  /** The state after a sync import. */
  ghost predicate Synced(s: State, b: SyncBundle, t: State) {
    ScansAdded(s.scans, b.scans, t.scans) && EventsAdded(s.events, b.events, t.events) &&
    if b.identity.None? then t.identity == s.identity && t.seqByAk == s.seqByAk else Received(s, b.identity.value, t)
  }

  /** Importing a sync bundle: all of it, or nothing; the answer tells whether anything was new. */
  lemma ImportSyncOutcome(w: World, s: State, sync: Option<SyncBundle>)
    requires Inv(w, s)
    ensures var (t, o) := Apply(w, s, ImportSync(sync));
            if sync.None? || !IsSync(w, sync.value) then t == s && o == Err(SyncInvalid)
            else
              var b := sync.value;
              if s.identity.Some? && b.identity.Some? && !Compatible(s.identity.value, b.identity.value) then t == s && o == Err(IdentityConflict)
              else if !ScansFit(s.scans, b.scans) || !EventsFit(s.events, b.events) then t == s && o == Err(StoreConflict)
              else Synced(s, b, t) && o == Ok(if t == s then AlreadyImported else Imported)
  {
    hide Inv, IsSync, ValidSync, SyncIdentity, SyncRecords, Compatible, ScansFit, EventsFit, Synced;
    if sync.Some? {
      SyncIs(w, sync.value);
      if IsSync(w, sync.value) {
        SyncIdentityDoes(w, s, sync.value);
        var first := SyncIdentity(w, s, sync.value.identity);
        if first.Ok? {
          SyncRecordsDo(s, first.value.0, sync.value);
        }
      }
    }
  }

  lemma SyncIdentityDoes(w: World, s: State, b: SyncBundle)
    requires Inv(w, s) && IsSync(w, b)
    ensures var r := SyncIdentity(w, s, b.identity);
            if s.identity.Some? && b.identity.Some? && !Compatible(s.identity.value, b.identity.value) then r == Err(IdentityConflict)
            else r.Ok? && r.value.0.scans == s.scans && r.value.0.events == s.events && (r.value.1 <==> r.value.0 != s) &&
                 if b.identity.None? then r.value.0 == s else Received(s, b.identity.value, r.value.0)
    ensures s.identity.Some? && b.identity.Some? && s.identity.value.rootKid != b.identity.value.rootKid ==>
              !Compatible(s.identity.value, b.identity.value)
  {
    hide Inv, Merge, Install, Received, ValidBundle, ValidEvent, ValidRecord, AllEventsValid, Counters;
    if b.identity.Some? {
      MergeReceives(w, s, b.identity.value, SyncInvalid);
      if s.identity.Some? {
        ValidIdentity(w, s);
      }
    }
  }

  /** The records, put into a state `u` that has the scans and events of `s`. */
  lemma SyncRecordsDo(s: State, u: State, b: SyncBundle)
    requires u.scans == s.scans && u.events == s.events
    ensures var r := SyncRecords(u, b.scans, b.events);
            (r.Some? <==> ScansFit(s.scans, b.scans) && EventsFit(s.events, b.events)) &&
            (r.Some? ==> (r.value.1 <==> r.value.0 != u)) && (r.Some? ==> (r.value.0 == s <==> u == s && r.value.0 == u)) &&
            (r.Some? && (if b.identity.None? then u == s else Received(s, b.identity.value, u)) ==> Synced(s, b, r.value.0))
  {
    hide ScansFit, EventsFit, ScansAdded, EventsAdded, Keyed.PutAll, MergedFrom, Counters;
    ScansPut(s.scans, b.scans);
    EventsPut(s.events, b.events);
  }

  /** A sync export is a sync bundle that holds everything in the store, each record once and in the order of
      the identifiers. */
  lemma ExportedSync(w: World, s: State, b: SyncBundle)
    requires Inv(w, s) && IsSyncOf(s, b)
    ensures IsSync(w, b) && b.identity == s.identity
    ensures ScansAdded(map[], b.scans, s.scans) && EventsAdded(map[], b.events, s.events)
    ensures forall i, j :: 0 <= i < j < |b.scans| ==> Lex.StrLess(b.scans[i].scanId, b.scans[j].scanId)
    ensures forall i, j :: 0 <= i < j < |b.events| ==> Lex.StrLess(b.events[i].eventId, b.events[j].eventId)
  {
    hide Inv, IsSync, ValidSync, Keyed.IsListing, Lex.StrLess;
    ExportIsValidSync(w, s, b);
    SyncIs(w, b);
    EventsAreKeyed(w, s);
    Keyed.ListingElements(s.scans, b.scans, ScanKey);
    Keyed.ListingElements(s.events, b.events, EventKey);
    ListedInOrder(s.scans, b.scans, ScanKey);
    ListedInOrder(s.events, b.events, EventKey);
  }

  lemma ListedInOrder<T(!new)>(m: map<string, T>, xs: seq<T>, key: T -> string)
    requires Keyed.IsKeyed(m, key) && Keyed.IsListing(m, xs)
    ensures forall i, j :: 0 <= i < j < |xs| ==> Lex.StrLess(key(xs[i]), key(xs[j]))
  {
    hide Lex.StrLess;
    var ks :| Keyed.ListedBy(m, ks, xs);
    forall i, j | 0 <= i < j < |xs| ensures Lex.StrLess(key(xs[i]), key(xs[j])) {
      Keyed.ListedKey(m, ks, xs, key, i);
      Keyed.ListedKey(m, ks, xs, key, j);
    }
  }

  // ----- snapshots -----

  ghost predicate IsSnapshot(w: World, p: Snapshot) {
    p.version == 1 && RecordsHold(w, p.identity, p.scans, p.events) &&
    (forall i, j :: 0 <= i < |p.scans| && 0 <= j < |p.scans| && p.scans[i].scanId == p.scans[j].scanId ==> i == j) &&
    (forall i, j :: 0 <= i < |p.events| && 0 <= j < |p.events| && p.events[i].eventId == p.events[j].eventId ==> i == j)
  }

  lemma SnapshotIs(w: World, p: Snapshot)
    ensures ValidSnapshot(w, p) <==> IsSnapshot(w, p)
  {
    hide ValidBundle, ValidEvent, ValidRecord;
  }

  /** Exactly the records of the snapshot. */
  ghost predicate RecordsOf(p: Snapshot, t: State) {
    (forall id :: id in t.scans <==> exists r :: r in p.scans && r.scanId == id) && (forall r :: r in p.scans ==> t.scans[r.scanId] == r) &&
    (forall id :: id in t.events <==> exists e :: e in p.events && e.eventId == id) && (forall e :: e in p.events ==> t.events[e.eventId] == e)
  }

  /** Each counter is the larger of the two, an absent one counting for nothing. */
  predicate LargerOf(a: map<string, u64>, b: map<string, u64>, c: map<string, u64>) {
    c.Keys == a.Keys + b.Keys &&
    forall ak :: ak in c ==> CounterOf(a, ak) <= c[ak] && CounterOf(b, ak) <= c[ak] && (c[ak] == CounterOf(a, ak) || c[ak] == CounterOf(b, ak))
  }

  /** The state after restoring `p` over `s`: the records of the snapshot, and its identity with counters that are
      behind neither the snapshot nor the store. */
  ghost predicate RestoredOver(s: State, p: Snapshot, t: State) {
    RecordsOf(p, t) && LargerOf(SavedCounters(p), s.seqByAk, t.seqByAk) &&
    match p.identity
    case None => t.identity == None
    case Some(b) =>
      t.identity.Some? && t.identity == Some(b.(seqState := t.identity.value.seqState)) &&
      t.identity.value.seqState.Keys == t.seqByAk.Keys &&
      forall ak :: ak in t.seqByAk ==> t.identity.value.seqState[ak] == Decimal.Print(t.seqByAk[ak])
  }

  /** The counters in a snapshot. */
  function SavedCounters(p: Snapshot): map<string, u64> {
    if p.identity.None? then map[] else Numbers(p.identity.value.seqState)
  }

  /** A snapshot export is a snapshot of everything in the store, likewise. */
  lemma ExportedSnapshot(w: World, s: State, p: Snapshot)
    requires Inv(w, s) && IsSnapshotOf(s, p)
    ensures IsSnapshot(w, p) && p.identity == s.identity
    ensures ScansAdded(map[], p.scans, s.scans) && EventsAdded(map[], p.events, s.events)
    ensures forall i, j :: 0 <= i < j < |p.scans| ==> Lex.StrLess(p.scans[i].scanId, p.scans[j].scanId)
    ensures forall i, j :: 0 <= i < j < |p.events| ==> Lex.StrLess(p.events[i].eventId, p.events[j].eventId)
  {
    hide Inv, IsSnapshot, ValidSnapshot, Keyed.IsListing, Lex.StrLess;
    ExportIsValid(w, s, p);
    SnapshotIs(w, p);
    EventsAreKeyed(w, s);
    Keyed.ListingElements(s.scans, p.scans, ScanKey);
    Keyed.ListingElements(s.events, p.events, EventKey);
    ListedInOrder(s.scans, p.scans, ScanKey);
    ListedInOrder(s.events, p.events, EventKey);
  }

  /** Restoring a snapshot: in any store, whatever it holds. */
  lemma RestoreOutcome(w: World, s: State, snapshot: Option<Snapshot>)
    ensures var (t, o) := Apply(w, s, Restore(snapshot));
            if snapshot.None? then t == s && o == Err(SnapshotInvalid)
            else if snapshot.value.version != 1 then t == s && o == Err(SnapshotVersion)
            else if !IsSnapshot(w, snapshot.value) then t == s && o == Err(SnapshotInvalid)
            else o == Ok(Restored) && RestoredOver(s, snapshot.value, t)
  {
    hide ValidSnapshot, IsSnapshot, Replaced, RestoredOver;
    if snapshot.Some? {
      SnapshotIs(w, snapshot.value);
      if IsSnapshot(w, snapshot.value) {
        ReplacedIs(w, s, snapshot.value);
      }
    }
  }

  lemma ReplacedIs(w: World, s: State, p: Snapshot)
    requires IsSnapshot(w, p)
    ensures RestoredOver(s, p, Replaced(s, p))
  {
    hide RecordsHold, Decimal.Print, Counters, Numbers, Keyed.Index, MaxCounters, RecordsOf, LargerOf;
    if p.identity.Some? {
      NumbersAre(p.identity.value.seqState);
    }
    MaxIs(SavedCounters(p), s.seqByAk);
    ReplacedRecords(w, s, p);
  }

  lemma MaxIs(a: map<string, u64>, b: map<string, u64>)
    ensures LargerOf(a, b, MaxCounters(a, b))
  {
  }

  lemma ReplacedRecords(w: World, s: State, p: Snapshot)
    requires IsSnapshot(w, p)
    ensures RecordsOf(p, Replaced(s, p))
  {
    hide RecordsHold, Counters, Keyed.Index, MaxCounters, Printed;
    IndexIs(p.scans, ScanKey);
    IndexIs(p.events, EventKey);
  }

  lemma IndexIs<T(!new)>(xs: seq<T>, key: T -> string)
    requires Keyed.Distinct(xs, key)
    ensures forall k :: k in Keyed.Index(xs, key) <==> exists x :: x in xs && key(x) == k
    ensures forall x :: x in xs ==> key(x) in Keyed.Index(xs, key) && Keyed.Index(xs, key)[key(x)] == x
  {
    hide Keyed.Index, Keyed.Distinct;
    forall x | x in xs ensures key(x) in Keyed.Index(xs, key) && Keyed.Index(xs, key)[key(x)] == x {
      Keyed.IndexHas(xs, key, x);
    }
    forall k | k in Keyed.Index(xs, key) ensures exists x :: x in xs && key(x) == k {
      Keyed.IndexFrom(xs, key, k);
    }
  }
}

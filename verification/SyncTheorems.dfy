/** Exchanging sync bundles: replicas of one identity converge, and importing a bundle twice is
    importing it once (core/rust/grain-client-core/src/sync.rs). */
module SyncTheorems {
  import opened Prelude
  import opened Scan
  import opened Identity
  import opened IdentityTheorems
  import opened Store
  import opened StoreInvariant
  import opened StoreTheorems
  import opened EventIds
  import Cose
  import Decimal
  import Hex
  import Keyed
  import Lex

  // ----- no collisions among the inputs actually hashed -----

  function DeviceBytes(w: World, d: DeviceKey): bytes {
    var pub := DecodeStd(w, d.pubB64);
    if pub.Some? then pub.value else []
  }

  /** What a store has put through SHA-256: device keys, scanned messages, trusted keys, event texts. */
  ghost predicate HashedBy(w: World, s: State, x: bytes) {
    (s.identity.Some? && exists d :: d in s.identity.value.devices && DeviceBytes(w, d) == x) ||
    (exists id :: id in s.scans && (CoseOf(w, s.scans[id]) == x || PubOf(w, s.scans[id]) == x)) ||
    (exists id :: id in s.events && EventBytes(s.events[id]) == x)
  }

  ghost predicate HashedByEither(w: World, s: State, t: State, x: bytes) {
    HashedBy(w, s, x) || HashedBy(w, t, x)
  }

  /** Among the inputs the two stores have hashed, no two agree on the first half of their digests. */
  ghost predicate CollisionFree(w: World, s: State, t: State) {
    forall x: bytes, y: bytes :: HashedByEither(w, s, t, x) && HashedByEither(w, s, t, y) && SameHalf(w, x, y) ==> x == y
  }

  predicate SameHalf(w: World, x: bytes, y: bytes) {
    w.crypto.sha256(x)[..16] == w.crypto.sha256(y)[..16]
  }

  lemma KidOfDigest(w: World, x: bytes, y: bytes)
    requires DeriveKid(w, x) == DeriveKid(w, y)
    ensures SameHalf(w, x, y)
  {
    hide Hex.Encode;
    Hex.Prefix(w.crypto.sha256(x), 16);
    Hex.Prefix(w.crypto.sha256(y), 16);
    Hex.Injective(w.crypto.sha256(x)[..16], w.crypto.sha256(y)[..16]);
  }

  /** One identifier, one key text. */
  lemma OneKeyPerName(w: World, a: Bundle, b: Bundle, d: DeviceKey, e: DeviceKey)
    requires Base64Laws(w) && ValidBundle(w, a) && ValidBundle(w, b) && d in a.devices && e in b.devices && d.ak == e.ak
    requires SameHalf(w, DeviceBytes(w, d), DeviceBytes(w, e)) ==> DeviceBytes(w, d) == DeviceBytes(w, e)
    ensures d.pubB64 == e.pubB64
  {
    hide SameHalf, DeriveKid, CountersParse, DistinctAks, IsAuthorized, Base64Laws, IsDevice, RootMaterialOk;
    var i :| 0 <= i < |a.devices| && a.devices[i] == d;
    var j :| 0 <= j < |b.devices| && b.devices[j] == e;
    assert GoodDevice(w, a, a.devices[i]) && GoodDevice(w, b, b.devices[j]);
    KidOfDigest(w, DeviceBytes(w, d), DeviceBytes(w, e));
    OneText(w, d.pubB64, e.pubB64);
  }

  lemma SameInput(w: World, s: State, t: State, x: bytes, y: bytes)
    requires CollisionFree(w, s, t) && HashedBy(w, s, x) && HashedBy(w, t, y)
    ensures SameHalf(w, x, y) ==> x == y
    ensures w.crypto.sha256(x) == w.crypto.sha256(y) ==> x == y
  {
    hide HashedBy;
    assert HashedByEither(w, s, t, x) && HashedByEither(w, s, t, y);
  }

  lemma OneText(w: World, s: string, t: string)
    requires Base64Laws(w) && DecodeStd(w, s).Some? && DecodeStd(w, s) == DecodeStd(w, t)
    ensures s == t
  {
    assert w.b64Encode(w.b64Decode(s).value) == s;
    assert w.b64Encode(w.b64Decode(t).value) == t;
  }

  lemma NoClashOfKeys(w: World, s: State, t: State)
    requires Base64Laws(w) && Inv(w, s) && Inv(w, t) && s.identity.Some? && t.identity.Some?
    requires CollisionFree(w, s, t)
    ensures NoClash(ViewOf(s.identity.value), ViewOf(t.identity.value))
  {
    hide CollisionFree, ValidBundle, ScansOk, EventsOk, KnownPubs, Counters, CoseOf, PubOf, EventBytes, DeviceBytes, Base64Laws;
    var a, b := s.identity.value, t.identity.value;
    DevicesAreDistinct(w, a);
    DevicesAreDistinct(w, b);
    forall ak | ak in KnownPubs(a.devices) && ak in KnownPubs(b.devices)
      ensures KnownPubs(a.devices)[ak] == KnownPubs(b.devices)[ak]
    {
      var d := KnownFrom(a.devices, ak);
      var e := KnownFrom(b.devices, ak);
      assert HashedBy(w, s, DeviceBytes(w, d)) && HashedBy(w, t, DeviceBytes(w, e));
      SameInput(w, s, t, DeviceBytes(w, d), DeviceBytes(w, e));
      OneKeyPerName(w, a, b, d, e);
    }
  }

  lemma ScansAgree(w: World, s: State, t: State)
    requires Base64Laws(w) && Inv(w, s) && Inv(w, t) && CollisionFree(w, s, t)
    ensures forall id :: id in s.scans && id in t.scans ==> s.scans[id] == t.scans[id]
  {
    hide CollisionFree, IdentityOk, ValidRecord, CoseOf, PubOf, EventBytes, DeviceBytes, Base64Laws, Cose.Kid;
    forall id | id in s.scans && id in t.scans ensures s.scans[id] == t.scans[id] {
      var a, b := s.scans[id], t.scans[id];
      assert HashedBy(w, s, CoseOf(w, a)) && HashedBy(w, s, PubOf(w, a));
      assert HashedBy(w, t, CoseOf(w, b)) && HashedBy(w, t, PubOf(w, b));
      SameInput(w, s, t, CoseOf(w, a), CoseOf(w, b));
      SameInput(w, s, t, PubOf(w, a), PubOf(w, b));
      KidIsHalf(w, PubOf(w, a));
      KidIsHalf(w, PubOf(w, b));
      OneRecordPerScanId(w, a, b);
    }
  }

  lemma KidIsHalf(w: World, pub: bytes)
    ensures Cose.Kid(w.crypto, pub) == w.crypto.sha256(pub)[..16]
  {
  }

  lemma EventsAgree(w: World, s: State, t: State)
    requires Inv(w, s) && Inv(w, t) && CollisionFree(w, s, t)
    requires s.identity.Some? && t.identity.Some? && s.identity.value.rootKid == t.identity.value.rootKid
    ensures forall id :: id in s.events && id in t.events ==> s.events[id] == t.events[id]
  {
    hide CollisionFree, ValidBundle, ValidEvent, ScansOk, Counters, CoseOf, PubOf, EventBytes, DeviceBytes;
    forall id | id in s.events && id in t.events ensures s.events[id] == t.events[id] {
      var e, f := s.events[id], t.events[id];
      assert HashedBy(w, s, EventBytes(e)) && HashedBy(w, t, EventBytes(f));
      SameInput(w, s, t, EventBytes(e), EventBytes(f));
      OneEventPerId(w, e, f, s.identity.value, t.identity.value);
    }
  }

  // ----- what one import does -----

  lemma ExportIsValidSync(w: World, t: State, y: SyncBundle)
    requires Inv(w, t) && IsSyncOf(t, y)
    ensures ValidSync(w, y)
  {
    hide ValidSnapshot, Inv, Keyed.Index;
    var p := Snapshot(1, y.identity, y.scans, y.events);
    ExportIsValid(w, t, p);
    SnapshotMeansSync(w, p, y);
  }

  lemma SnapshotMeansSync(w: World, p: Snapshot, y: SyncBundle)
    requires ValidSnapshot(w, p) && y == SyncBundle(1, PortableFor("sync_bundle_v1"), p.identity, p.scans, p.events)
    ensures ValidSync(w, y)
  {
    hide ValidBundle, ValidEvent, ValidRecord, Keyed.Distinct;
  }

  predicate SameRootIfBoth(s: State, t: State) {
    s.identity.Some? && t.identity.Some? ==> SameRoot(s.identity.value, t.identity.value)
  }

  /** The bundle an import leaves behind. */
  function MergedIdentity(w: World, s: State, t: State): Option<Bundle> {
    if t.identity.None? then s.identity
    else
      match Merge(w, s.identity, t.identity.value, SyncInvalid)
      case Ok(m) => Some(m)
      case Err(_) => s.identity
  }

  lemma SyncRecordsUnion(w: World, s: State, first: State, t: State, y: SyncBundle)
    requires Base64Laws(w) && Inv(w, s) && Inv(w, t) && IsSyncOf(t, y) && SameRootIfBoth(s, t)
    requires CollisionFree(w, s, t)
    requires first.scans == s.scans && first.events == s.events
    ensures SyncRecords(first, y.scans, y.events).Some? &&
            SyncRecords(first, y.scans, y.events).value.0 == first.(scans := s.scans + t.scans, events := s.events + t.events)
  {
    hide CollisionFree, Inv, HashedBy, Base64Laws, Keyed.IsListing, Keyed.IsKeyed, Keyed.PutAll;
    EventsAreKeyed(w, s);
    EventsAreKeyed(w, t);
    ScansAgree(w, s, t);
    SharedEvents(w, s, t);
    Keyed.PutListing(s.scans, t.scans, y.scans, ScanKey);
    Keyed.PutListing(s.events, t.events, y.events, EventKey);
  }

  lemma SharedEvents(w: World, s: State, t: State)
    requires Inv(w, s) && Inv(w, t) && CollisionFree(w, s, t) && SameRootIfBoth(s, t)
    ensures forall id :: id in s.events && id in t.events ==> s.events[id] == t.events[id]
  {
    hide CollisionFree, ValidBundle, EventsOk, ScansOk, Counters;
    if s.identity.Some? && t.identity.Some? {
      EventsAgree(w, s, t);
    }
  }

  /** Importing another store's export succeeds exactly when not both hold an identity with different
      root material, which is the only refusal; it unites scans and events and merges the identities. */
  lemma ImportOfExport(w: World, s: State, t: State, y: SyncBundle)
    requires Base64Laws(w) && Inv(w, s) && Inv(w, t) && IsSyncOf(t, y)
    requires CollisionFree(w, s, t)
    ensures Apply(w, s, ImportSync(Some(y))).1.Ok? <==> SameRootIfBoth(s, t)
    ensures !SameRootIfBoth(s, t) ==> Apply(w, s, ImportSync(Some(y))) == (s, Err(IdentityConflict))
    ensures SameRootIfBoth(s, t) ==>
              var r := Apply(w, s, ImportSync(Some(y))).0;
              r.scans == s.scans + t.scans && r.events == s.events + t.events && r.identity == MergedIdentity(w, s, t) &&
              (t.identity.Some? ==> Merge(w, s.identity, t.identity.value, SyncInvalid).Ok? && r.seqByAk == Counters(r.identity.value.seqState)) &&
              (t.identity.None? ==> r.seqByAk == s.seqByAk)
  {
    hide CollisionFree, Base64Laws, Inv, ValidSync, Keyed.IsListing, SyncRecords, Merge, Counters, ValidBundle, NoClash, ViewOf, Install;
    ExportIsValidSync(w, t, y);
    MergeOfExport(w, s, t);
    if SameRootIfBoth(s, t) {
      var first := SyncIdentity(w, s, y.identity).value.0;
      SyncRecordsUnion(w, s, first, t, y);
    }
  }

  /** The identity part of the import. */
  lemma MergeOfExport(w: World, s: State, t: State)
    requires Base64Laws(w) && Inv(w, s) && Inv(w, t) && CollisionFree(w, s, t)
    ensures var r := SyncIdentity(w, s, t.identity);
            r.Ok? <==> SameRootIfBoth(s, t)
    ensures var r := SyncIdentity(w, s, t.identity);
            !SameRootIfBoth(s, t) ==> r == Err(IdentityConflict)
    ensures var r := SyncIdentity(w, s, t.identity);
            r.Ok? ==>
              r.value.0.scans == s.scans && r.value.0.events == s.events && r.value.0.identity == MergedIdentity(w, s, t) &&
              (t.identity.Some? ==> Merge(w, s.identity, t.identity.value, SyncInvalid).Ok? &&
                                    r.value.0.seqByAk == Counters(r.value.0.identity.value.seqState)) &&
              (t.identity.None? ==> r.value.0.seqByAk == s.seqByAk)
  {
    hide CollisionFree, Base64Laws, ScansOk, EventsOk, Counters, ValidBundle, NoClash, ViewOf, Install, Keeps, CountersParse;
    if t.identity.Some? {
      var b := t.identity.value;
      if s.identity.Some? {
        NoClashOfKeys(w, s, t);
        MergeIsJoin(w, s.identity.value, b, SyncInvalid);
      }
      if Merge(w, s.identity, b, SyncInvalid).Ok? {
        InstallMergedKeeps(w, s, b, SyncInvalid);
      }
    }
  }

  // ----- convergence -----

  /** Equal devices, revocations, counters, scans and lifecycle events. */
  predicate Converged(s: State, t: State) {
    s.identity.Some? && t.identity.Some? && SameRoot(s.identity.value, t.identity.value) &&
    ViewOf(s.identity.value) == ViewOf(t.identity.value) && s.seqByAk == t.seqByAk && s.scans == t.scans && s.events == t.events
  }

  lemma CollisionFreeBothWays(w: World, s: State, t: State)
    requires CollisionFree(w, s, t)
    ensures CollisionFree(w, t, s)
  {
    hide HashedBy, SameHalf;
    forall x: bytes, y: bytes | HashedByEither(w, t, s, x) && HashedByEither(w, t, s, y) && SameHalf(w, x, y) ensures x == y {
      assert HashedByEither(w, s, t, x) && HashedByEither(w, s, t, y);
    }
  }

  /** Two clients of one root that import each other's export both succeed and end up converged. */
  lemma SyncConverges(w: World, s: State, t: State, x: SyncBundle, y: SyncBundle)
    requires Base64Laws(w) && Inv(w, s) && Inv(w, t) && IsSyncOf(s, x) && IsSyncOf(t, y)
    requires s.identity.Some? && t.identity.Some? && SameRoot(s.identity.value, t.identity.value)
    requires CollisionFree(w, s, t)
    ensures Apply(w, s, ImportSync(Some(y))).1.Ok? && Apply(w, t, ImportSync(Some(x))).1.Ok?
    ensures Converged(Apply(w, s, ImportSync(Some(y))).0, Apply(w, t, ImportSync(Some(x))).0)
  {
    hide CollisionFree, Base64Laws, ScansOk, EventsOk, Counters, ValidBundle, NoClash, KnownPubs, Apply, Merge, Join, IsSyncOf;
    ImportOfExport(w, s, t, y);
    CollisionFreeBothWays(w, s, t);
    ImportOfExport(w, t, s, x);
    var a, b := s.identity.value, t.identity.value;
    MergeIsJoin(w, a, b, SyncInvalid);
    MergeIsJoin(w, b, a, SyncInvalid);
    MergeCommutes(w, a, b, SyncInvalid);
    ScansAgree(w, s, t);
    EventsAgree(w, s, t);
    assert s.scans + t.scans == t.scans + s.scans;
    assert s.events + t.events == t.events + s.events;
  }

  /** The same for any two stores grown from nothing by any operations. */
  lemma ReachableReplicasConverge(w: World, ops1: seq<Op>, ops2: seq<Op>, x: SyncBundle, y: SyncBundle)
    requires Base64Laws(w) && IsSyncOf(Run(w, EMPTY, ops1), x) && IsSyncOf(Run(w, EMPTY, ops2), y)
    requires Run(w, EMPTY, ops1).identity.Some? && Run(w, EMPTY, ops2).identity.Some?
    requires SameRoot(Run(w, EMPTY, ops1).identity.value, Run(w, EMPTY, ops2).identity.value)
    requires CollisionFree(w, Run(w, EMPTY, ops1), Run(w, EMPTY, ops2))
    ensures Converged(Run(w, EMPTY, ops1 + [ImportSync(Some(y))]), Run(w, EMPTY, ops2 + [ImportSync(Some(x))]))
  {
    hide Apply, Base64Laws, Inv, CollisionFree, Converged, IsSyncOf;
    ReachableIsValid(w, ops1);
    ReachableIsValid(w, ops2);
    var s, t := Run(w, EMPTY, ops1), Run(w, EMPTY, ops2);
    SyncConverges(w, s, t, x, y);
    RunMore(w, EMPTY, ops1, ImportSync(Some(y)));
    RunMore(w, EMPTY, ops2, ImportSync(Some(x)));
  }

  lemma RunMore(w: World, s: State, ops: seq<Op>, op: Op)
    ensures Run(w, s, ops + [op]) == Apply(w, Run(w, s, ops), op).0
  {
    hide Apply;
    assert (ops + [op])[..|ops|] == ops;
  }

  // ----- importing again -----

  /** Putting the same records a second time finds them all. */
  lemma PutAllAgain<T(!new)>(m: map<string, T>, xs: seq<T>, key: T -> string)
    requires Keyed.PutAll(m, xs, key).Some?
    ensures var r := Keyed.PutAll(m, xs, key).value.0; Keyed.PutAll(r, xs, key) == Some((r, false))
  {
    hide Keyed.PutAll;
    Keyed.PutAllAdds(m, xs, key);
    var r := Keyed.PutAll(m, xs, key).value.0;
    assert Keyed.Agreeing(r, xs, key);
    Keyed.PutAllAdds(r, xs, key);
    var again := Keyed.PutAll(r, xs, key).value.0;
    assert again.Keys == r.Keys;
    assert again == r;
  }

  lemma SyncRecordsAgain(s: State, scans: seq<ScanRecord>, events: seq<LifecycleEvent>)
    requires SyncRecords(s, scans, events).Some?
    ensures var r := SyncRecords(s, scans, events).value.0; SyncRecords(r, scans, events) == Some((r, false))
  {
    hide Keyed.PutAll;
    PutAllAgain(s.scans, scans, ScanKey);
    PutAllAgain(s.events, events, EventKey);
  }

  /** Importing one sync bundle a second time reports that nothing was new, and changes nothing, exactly
      when an identity was held before the first import, the bundle carries none, or its texts are tidy.
      In the remaining case the second import only rewrites the bundle's texts. */
  lemma ImportAgain(w: World, s: State, b: SyncBundle)
    requires Inv(w, s) && Apply(w, s, ImportSync(Some(b))).1.Ok?
    ensures var r := Apply(w, s, ImportSync(Some(b))).0;
            Apply(w, r, ImportSync(Some(b))) == (r, Ok(AlreadyImported)) <==>
            s.identity.Some? || b.identity.None? || Tidy(b.identity.value)
    ensures var r := Apply(w, s, ImportSync(Some(b))).0;
            var again := Apply(w, r, ImportSync(Some(b)));
            again.1.Ok? && again.0 == r.(identity := again.0.identity) &&
            (r.identity.Some? ==> again.0.identity.Some? && ViewOf(again.0.identity.value) == ViewOf(r.identity.value))
  {
    hide Inv, ValidSync, SyncRecords, Merge, SyncIdentity, ViewOf, ValidBundle, Tidy;
    var first := SyncIdentity(w, s, b.identity).value;
    var r := Apply(w, s, ImportSync(Some(b))).0;
    assert SyncRecords(first.0, b.scans, b.events).Some? && SyncRecords(first.0, b.scans, b.events).value.0 == r;
    SyncRecordsAgain(first.0, b.scans, b.events);
    RecordsOnly(first.0, b.scans, b.events);
    IdentityAgain(w, s, r, b.identity, b);
    var second := SyncIdentity(w, r, b.identity).value;
    RecordsOnlyAgain(r, second.0, b.scans, b.events);
  }

  /** A valid bundle that is not tidy: a counter written with a leading zero. */
  function Padded(w: World, pub: bytes, secret: bytes): Bundle {
    RootBundle(w, pub, secret, "").(seqState := map[DeriveKid(w, pub) := "00"])
  }

  lemma PaddedIsUntidy(w: World, pub: key32, secret: key32)
    requires Base64Laws(w)
    ensures ValidBundle(w, Padded(w, pub, secret)) && !Tidy(Padded(w, pub, secret))
  {
    hide ValidBundle, DeriveKid, Base64Laws, Decimal.Print;
    RootBundleIsValid(w, pub, secret, "");
    ZerosParse();
    PrintZero();
    SeqStateFree(w, RootBundle(w, pub, secret, ""), map[DeriveKid(w, pub) := "00"]);
    assert DeriveKid(w, pub) in Padded(w, pub, secret).seqState;
  }

  lemma ZerosParse()
    ensures Decimal.Parse("00") == Some(0)
  {
    assert "00"[..1] == "0" && "0"[..0] == "";
    assert Decimal.AllDigits("0") && Decimal.Value("0") == 0;
  }

  /** So the second import of one bundle does change a fresh store. */
  lemma SecondImportCanChange(w: World, pub: key32, secret: key32)
    requires Base64Laws(w)
    ensures var sync := ImportSync(Some(SyncBundle(1, PortableFor("sync_bundle_v1"), Some(Padded(w, pub, secret)), [], [])));
            var r := Apply(w, EMPTY, sync);
            r.1 == Ok(Imported) && Apply(w, r.0, sync) != (r.0, Ok(AlreadyImported))
  {
    hide ValidBundle, Padded, Base64Laws, Counters, CountersParse, Tidy;
    var i := Padded(w, pub, secret);
    PaddedIsUntidy(w, pub, secret);
    DevicesAreDistinct(w, i);
    var b := SyncBundle(1, PortableFor("sync_bundle_v1"), Some(i), [], []);
    assert Apply(w, EMPTY, ImportSync(Some(b))).1 == Ok(Imported);
    ImportAgain(w, EMPTY, b);
  }

  lemma RecordsOnly(s: State, scans: seq<ScanRecord>, events: seq<LifecycleEvent>)
    requires SyncRecords(s, scans, events).Some?
    ensures var r := SyncRecords(s, scans, events).value.0; r == s.(scans := r.scans, events := r.events)
  {
    hide Keyed.PutAll;
  }

  lemma RecordsOnlyAgain(r: State, q: State, scans: seq<ScanRecord>, events: seq<LifecycleEvent>)
    requires SyncRecords(r, scans, events) == Some((r, false)) && q.scans == r.scans && q.events == r.events
    ensures SyncRecords(q, scans, events) == Some((q, false))
  {
    hide Keyed.PutAll;
  }

  /** The identity part of a second import. */
  lemma IdentityAgain(w: World, s: State, r: State, incoming: Option<Bundle>, b: SyncBundle)
    requires Inv(w, s) && ValidSync(w, b) && b.identity == incoming && SyncIdentity(w, s, incoming).Ok?
    requires r.identity == SyncIdentity(w, s, incoming).value.0.identity && r.seqByAk == SyncIdentity(w, s, incoming).value.0.seqByAk
    ensures var q := SyncIdentity(w, r, incoming);
            q.Ok? && q.value.0 == r.(identity := q.value.0.identity) && (q.value.1 <==> q.value.0 != r)
    ensures var q := SyncIdentity(w, r, incoming);
            q.value.0 == r <==> s.identity.Some? || incoming.None? || Tidy(incoming.value)
    ensures var q := SyncIdentity(w, r, incoming);
            r.identity.Some? ==> q.value.0.identity.Some? && ViewOf(q.value.0.identity.value) == ViewOf(r.identity.value)
    ensures incoming.Some? && r.identity.Some? ==> r.identity.value.rootKid == incoming.value.rootKid
  {
    hide ScansOk, EventsOk, ViewOf, ValidBundle, Tidy, Counters, CountersParse, ValidEvent, ValidRecord;
    if incoming.Some? {
      var i := incoming.value;
      DevicesAreDistinct(w, i);
      if s.identity.Some? {
        MergeAgain(w, s.identity.value, i, SyncInvalid);
        MergeIsJoin(w, s.identity.value, i, SyncInvalid);
        DevicesAreDistinct(w, r.identity.value);
      } else {
        MergeSelf(w, i, SyncInvalid);
        SelfView(w, i);
      }
    }
  }

  lemma SelfView(w: World, b: Bundle)
    requires ValidBundle(w, b)
    ensures Merge(w, Some(b), b, SyncInvalid).Ok?
    ensures var m := Merge(w, Some(b), b, SyncInvalid).value;
            ViewOf(m) == ViewOf(b) && CountersParse(m.seqState) && Counters(m.seqState) == Counters(b.seqState) && m.rootKid == b.rootKid
  {
    hide ValidBundle, KnownPubs, Merge, Counters, NoClash, Join, CountersParse;
    MergeSelf(w, b, SyncInvalid);
    MergeIsJoin(w, b, b, SyncInvalid);
    SelfNoClash(b);
    JoinIsLeastUpperBound(ViewOf(b), ViewOf(b), ViewOf(b));
    DevicesAreDistinct(w, Merge(w, Some(b), b, SyncInvalid).value);
  }

  lemma SelfNoClash(b: Bundle)
    ensures NoClash(ViewOf(b), ViewOf(b))
  {
  }
}

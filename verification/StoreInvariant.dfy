/** What holds in every reachable client store, and that counters only go up while an identity is held
    (core/rust/grain-client-core/src/memory_store.rs, identity.rs, device.rs, pairing.rs, sync.rs). */
module StoreInvariant {
  import opened Prelude
  import opened Scan
  import opened Identity
  import opened Texts
  import opened IdentityTheorems
  import opened Store
  import Decimal
  import Keyed
  import Lex
  import StableSort

  ghost predicate ScansOk(w: World, scans: map<string, ScanRecord>) {
    forall id :: id in scans ==> scans[id].scanId == id && ValidRecord(w, scans[id])
  }

  ghost predicate EventsOk(w: World, events: map<string, LifecycleEvent>, b: Bundle) {
    forall id :: id in events ==> events[id].eventId == id && ValidEvent(w, events[id], b)
  }

  ghost predicate IdentityOk(w: World, s: State) {
    match s.identity
    case None => s.events == map[]
    case Some(b) => ValidBundle(w, b) && s.seqByAk == Counters(b.seqState) && EventsOk(w, s.events, b)
  }

  /** Scans re-validate; the identity validates and is the source of the counters; every lifecycle event
      validates against it, and without an identity there is none. */
  ghost predicate Inv(w: World, s: State) {
    ScansOk(w, s.scans) && IdentityOk(w, s)
  }

  /** No counter is lower in `t`; an absent counter stands for zero. */
  ghost predicate Ahead(s: State, t: State) {
    forall ak :: CounterOf(s.seqByAk, ak) <= CounterOf(t.seqByAk, ak)
  }

  /** What a step from `s` to `t` keeps. */
  ghost predicate Keeps(w: World, s: State, t: State) {
    Inv(w, t) && (s.identity.Some? ==> Ahead(s, t))
  }

  // ----- growing bundles -----

  lemma LeqIsAhead(a: map<string, u64>, b: map<string, u64>, ak: string)
    requires CountersLeq(a, b)
    ensures CounterOf(a, ak) <= CounterOf(b, ak)
  {
  }

  /** Replacing the identity by one that says more keeps the events valid and the counters ahead. */
  lemma Grow(w: World, s: State, a: Bundle, t: State, b: Bundle)
    requires Inv(w, s) && s.identity == Some(a)
    requires ValidBundle(w, b) && a.rootKid == b.rootKid && Leq(ViewOf(a), ViewOf(b))
    requires t == s.(identity := Some(b), seqByAk := Counters(b.seqState))
    ensures Keeps(w, s, t)
  {
    hide ValidBundle, ValidEvent, KnownPubs, Counters, ScansOk, CounterOf, Leq;
    DevicesAreDistinct(w, b);
    forall id | id in s.events ensures ValidEvent(w, s.events[id], b) {
      EventsAreMonotone(w, s.events[id], a, b);
    }
    LeqCounters(a, b);
    forall ak ensures CounterOf(s.seqByAk, ak) <= CounterOf(t.seqByAk, ak) {
      LeqIsAhead(s.seqByAk, t.seqByAk, ak);
    }
  }

  lemma LeqCounters(a: Bundle, b: Bundle)
    requires Leq(ViewOf(a), ViewOf(b))
    ensures CountersLeq(Counters(a.seqState), Counters(b.seqState))
  {
    hide KnownPubs, Counters;
  }

  lemma SeqStateFree(w: World, b: Bundle, m: map<string, string>)
    requires ValidBundle(w, b) && CountersParse(m)
    ensures ValidBundle(w, b.(seqState := m))
  {
    hide DecodeStd, DeriveKid, CountersParse;
    var c := b.(seqState := m);
    assert forall i :: 0 <= i < |c.devices| ==> GoodDevice(w, b, c.devices[i]);
  }

  // ----- keys and fresh bundles -----

  lemma EncodedKey(w: World, key: bytes)
    requires Base64Laws(w) && |key| > 0
    ensures DecodeStd(w, w.b64Encode(key)) == Some(key) && w.b64Encode(key) != ""
  {
    var e := w.b64Encode(key);
    assert w.b64Decode(e) == Some(key);
    assert w.b64Decode(w.b64Encode([])) == Some([]);
  }

  lemma RootBundleIsValid(w: World, pub: bytes, secret: bytes, name: string)
    requires Base64Laws(w) && |pub| > 0 && |secret| > 0
    ensures ValidBundle(w, RootBundle(w, pub, secret, name))
  {
    hide DecodeStd, Decimal.Print, DeriveKid;
    EncodedKey(w, pub);
    EncodedKey(w, secret);
    var b := RootBundle(w, pub, secret, name);
    Decimal.ParseOfPrint(0);
    PrintZero();
    assert b.devices[0].ak == b.rootKid;
  }

  lemma PrintZero()
    ensures Decimal.Print(0) == "0"
  {
  }

  lemma GrantedIsValid(w: World, b: Bundle, key: bytes, name: string)
    requires Base64Laws(w) && ValidBundle(w, b) && |key| > 0 && !IsDevice(b, DeriveKid(w, key))
    ensures ValidBundle(w, Granted(w, b, key, name))
  {
    hide DecodeStd, DeriveKid, CountersParse;
    EncodedKey(w, key);
    var c := Granted(w, b, key, name);
    assert IsDevice(b, b.rootKid);
    forall i | 0 <= i < |c.devices| ensures GoodDevice(w, c, c.devices[i]) {
      if i < |b.devices| {
        assert GoodDevice(w, b, b.devices[i]);
      }
    }
    forall ak | IsDevice(b, ak) ensures IsDevice(c, ak) {
      StillDevice(b, c, ak);
    }
  }

  lemma StillDevice(b: Bundle, c: Bundle, ak: string)
    requires IsDevice(b, ak) && b.devices <= c.devices
    ensures IsDevice(c, ak)
  {
    var i :| 0 <= i < |b.devices| && b.devices[i].ak == ak;
    assert c.devices[i].ak == ak;
  }

  lemma GrantedSaysMore(w: World, b: Bundle, key: bytes, name: string)
    requires !IsDevice(b, DeriveKid(w, key))
    ensures Leq(ViewOf(b), ViewOf(Granted(w, b, key, name)))
  {
    hide Counters, DeriveKid;
    var c := Granted(w, b, key, name);
    assert c.devices[..|c.devices| - 1] == b.devices;
    KnownIsDevice(b, DeriveKid(w, key));
  }

  lemma RevokedSet(b: Bundle, ak: string)
    ensures forall x :: x in RevokedBundle(b, ak).revoked <==> x in b.revoked || x == ak
  {
    hide StableSort.Sort;
    forall x ensures x in RevokedBundle(b, ak).revoked <==> x in b.revoked || x == ak {
      StableSort.SameElements(b.revoked + [ak], Lex.StrLess, x);
    }
  }

  lemma RevokedIsValid(w: World, b: Bundle, ak: string)
    requires ValidBundle(w, b)
    ensures ValidBundle(w, RevokedBundle(b, ak)) && Leq(ViewOf(b), ViewOf(RevokedBundle(b, ak)))
  {
    hide DecodeStd, DeriveKid, CountersParse, StableSort.Sort, KnownPubs, Counters;
    RevokedSet(b, ak);
    var c := RevokedBundle(b, ak);
    assert forall i :: 0 <= i < |c.devices| ==> GoodDevice(w, b, c.devices[i]);
    assert forall x :: IsDevice(b, x) <==> IsDevice(c, x);
  }

  // ----- logging an event -----

  lemma CountersUpdate(m: map<string, string>, k: string, n: u64)
    requires CountersParse(m)
    ensures CountersParse(m[k := Decimal.Print(n)])
    ensures Counters(m[k := Decimal.Print(n)]) == Counters(m)[k := n]
  {
    hide Decimal.Parse, Decimal.Print;
    Decimal.ParseOfPrint(n);
    assert Counters(m[k := Decimal.Print(n)]).Keys == Counters(m).Keys + {k};
  }

  /** A logged bundle: valid, and ahead of the one before. */
  lemma LoggedBundle(w: World, a: Bundle, b: Bundle, n: u64)
    requires ValidBundle(w, b) && a.rootKid == b.rootKid && a.seqState == b.seqState
    requires Leq(ViewOf(a), ViewOf(b)) && n == CounterOf(Counters(b.seqState), b.rootKid) + 1
    ensures var c := b.(seqState := b.seqState[b.rootKid := Decimal.Print(n)]);
            ValidBundle(w, c) && Leq(ViewOf(a), ViewOf(c)) && Counters(c.seqState) == Counters(b.seqState)[b.rootKid := n]
  {
    hide ValidBundle, Decimal.Print, KnownPubs, Counters, CountersParse;
    DevicesAreDistinct(w, b);
    CountersUpdate(b.seqState, b.rootKid, n);
    SeqStateFree(w, b, b.seqState[b.rootKid := Decimal.Print(n)]);
  }

  lemma MadeEventIsValid(w: World, t: string, seqNo: u64, target: string, c: Bundle)
    requires ValidBundle(w, c) && seqNo > 0 && target != "" && target != c.rootKid && IsDevice(c, target)
    requires t == "DeviceKeyGrant" || (t == "DeviceKeyRevoke" && target in c.revoked)
    requires c.rootKid in Counters(c.seqState) && seqNo <= Counters(c.seqState)[c.rootKid]
    ensures ValidEvent(w, MakeEvent(w, t, c.rootKid, seqNo, target), c)
  {
    hide GoodDevice, IsAuthorized, Decimal.Parse, Hex.Encode, Utf8, EventText, DistinctAks, CountersParse, IsDevice;
    var e := MakeEvent(w, t, c.rootKid, seqNo, target);
    assert c.rootKid != "";
    assert e.eventId[0] == 'e';
    assert e.payloadCid[|e.payloadCid| - 1] == target[|target| - 1];
  }

  lemma LogKeeps(w: World, s: State, a: Bundle, b: Bundle, t: string, target: string)
    requires Inv(w, s) && s.identity == Some(a)
    requires ValidBundle(w, b) && a.rootKid == b.rootKid && a.seqState == b.seqState && Leq(ViewOf(a), ViewOf(b))
    requires target != "" && target != b.rootKid && IsDevice(b, target)
    requires t == "DeviceKeyGrant" || (t == "DeviceKeyRevoke" && target in b.revoked)
    ensures Log(w, s, b, t, target).Some? ==> Keeps(w, s, Log(w, s, b, t, target).value)
  {
    hide ValidBundle, Decimal.Print, Counters, CountersParse, ValidEvent, MakeEvent, ViewOf, Leq, IsDevice, ScansOk, EventsOk;
    var r := Log(w, s, b, t, target);
    if r.Some? {
      var n := Reserve(s, b.rootKid).value.1;
      var c := b.(seqState := b.seqState[b.rootKid := Decimal.Print(n)]);
      LoggedBundle(w, a, b, n);
      var grown := s.(identity := Some(c), seqByAk := Counters(c.seqState));
      Grow(w, s, a, grown, c);
      var e := MakeEvent(w, t, b.rootKid, n, target);
      SameDevices(b, c, target);
      MadeEventIsValid(w, t, n, target, c);
      AppendKeeps(w, grown, c, e);
      assert Append(grown, e).Some? && Append(grown, e).value.0 == r.value;
    }
  }

  lemma SameDevices(b: Bundle, c: Bundle, ak: string)
    requires b.devices == c.devices
    ensures IsDevice(b, ak) <==> IsDevice(c, ak)
  {
  }

  lemma AppendKeeps(w: World, s: State, b: Bundle, e: LifecycleEvent)
    requires Inv(w, s) && s.identity == Some(b) && ValidEvent(w, e, b)
    ensures Append(s, e).Some? ==> Inv(w, Append(s, e).value.0) && Append(s, e).value.0.seqByAk == s.seqByAk
  {
    hide ValidBundle, ValidEvent, Counters, ScansOk;
  }

  // ----- one lemma per operation -----

  lemma CreateRootKeeps(w: World, s: State, keys: Option<(key32, key32)>, name: string)
    requires Base64Laws(w) && Inv(w, s)
    ensures DoCreateRoot(w, s, keys, name).Ok? ==> Keeps(w, s, DoCreateRoot(w, s, keys, name).value.0)
  {
    hide ValidBundle, ScansOk, RootBundle, Counters, CountersParse, Base64Laws;
    if s.identity.None? && keys.Some? {
      RootBundleIsValid(w, keys.value.0, keys.value.1, name);
    }
  }

  /** Installing a merge of the held identity with another valid one. */
  lemma InstallMergedKeeps(w: World, s: State, incoming: Bundle, invalid: SdkError)
    requires Inv(w, s) && ValidBundle(w, incoming) && Merge(w, s.identity, incoming, invalid).Ok?
    ensures var m := Merge(w, s.identity, incoming, invalid).value;
            ValidBundle(w, m) && Install(s, m).Some? && Keeps(w, s, Install(s, m).value.0) &&
            Install(s, m).value.0 == s.(identity := Some(m), seqByAk := Counters(m.seqState)) &&
            AllEventsValid(w, s.events, m)
  {
    hide ValidBundle, Counters, CountersParse, ViewOf, Join, ScansOk, ValidEvent, NoClash;
    var m := Merge(w, s.identity, incoming, invalid).value;
    if s.identity.Some? {
      var a := s.identity.value;
      MergeIsJoin(w, a, incoming, invalid);
      JoinIsLeastUpperBound(ViewOf(a), ViewOf(incoming), ViewOf(m));
      Grow(w, s, a, s.(identity := Some(m), seqByAk := Counters(m.seqState)), m);
    }
    DevicesAreDistinct(w, m);
  }

  lemma ImportIdentityKeeps(w: World, s: State, bundle: Option<Bundle>)
    requires Inv(w, s)
    ensures DoImportIdentity(w, s, bundle).Ok? ==> Keeps(w, s, DoImportIdentity(w, s, bundle).value.0)
  {
    hide ValidBundle, Merge, Inv, Keeps, Install, AllEventsValid;
    if bundle.Some? && ValidBundle(w, bundle.value) && Merge(w, s.identity, bundle.value, BundleInvalid).Ok? {
      InstallMergedKeeps(w, s, bundle.value, BundleInvalid);
    }
  }

  lemma AddDeviceKeeps(w: World, s: State, key: Option<key32>, name: string)
    requires Base64Laws(w) && Inv(w, s)
    ensures DoAddDevice(w, s, key, name).Ok? ==> Keeps(w, s, DoAddDevice(w, s, key, name).value.0)
  {
    hide ValidBundle, ViewOf, Leq, Log, ScansOk, EventsOk, DeriveKid, Keeps, Counters;
    if key.Some? && s.identity.Some? {
      var b, ak := s.identity.value, DeriveKid(w, key.value);
      if !IsDevice(b, ak) {
        var c := Granted(w, b, key.value, name);
        GrantedIsValid(w, b, key.value, name);
        GrantedSaysMore(w, b, key.value, name);
        RootIsDevice(w, b);
        assert c.devices[|c.devices| - 1].ak == ak;
        LogKeeps(w, s, b, c, "DeviceKeyGrant", ak);
      }
    }
  }

  lemma RootIsDevice(w: World, b: Bundle)
    requires ValidBundle(w, b)
    ensures IsDevice(b, b.rootKid)
  {
  }

  lemma DeviceNamesAreNotEmpty(w: World, b: Bundle, ak: string)
    requires ValidBundle(w, b) && IsDevice(b, ak)
    ensures ak != ""
  {
    var i :| 0 <= i < |b.devices| && b.devices[i].ak == ak;
    assert GoodDevice(w, b, b.devices[i]);
  }

  lemma RevokeDeviceKeeps(w: World, s: State, ak: string)
    requires Inv(w, s)
    ensures DoRevokeDevice(w, s, ak).Ok? ==> Keeps(w, s, DoRevokeDevice(w, s, ak).value.0)
  {
    hide ValidBundle, ViewOf, Leq, Log, ScansOk, EventsOk, Counters, StableSort.Sort;
    if s.identity.Some? {
      var b := s.identity.value;
      if IsDevice(b, ak) && ak != b.rootKid && ak !in b.revoked {
        var c := RevokedBundle(b, ak);
        RevokedIsValid(w, b, ak);
        RevokedSet(b, ak);
        DeviceNamesAreNotEmpty(w, b, ak);
        SameDevices(b, c, ak);
        LogKeeps(w, s, b, c, "DeviceKeyRevoke", ak);
      }
    }
  }

  lemma ActiveIsFree(w: World, b: Bundle, ak: string)
    requires ValidBundle(w, b) && IsAuthorized(b, ak)
    ensures ValidBundle(w, b.(activeAk := ak)) && Leq(ViewOf(b), ViewOf(b.(activeAk := ak)))
  {
    hide DecodeStd, DeriveKid, CountersParse, KnownPubs, Counters;
    var c := b.(activeAk := ak);
    if ak != b.rootKid {
      DeviceNamesAreNotEmpty(w, b, ak);
    }
    assert forall i :: 0 <= i < |c.devices| ==> GoodDevice(w, b, c.devices[i]);
    SameDevices(b, c, b.rootKid);
    SameDevices(b, c, ak);
  }

  lemma SetActiveKeeps(w: World, s: State, ak: string)
    requires Inv(w, s)
    ensures DoSetActive(s, ak).Ok? ==> Keeps(w, s, DoSetActive(s, ak).value.0)
  {
    hide ValidBundle, ViewOf, Leq, ScansOk, EventsOk, Counters, CountersParse, IsAuthorized;
    if s.identity.Some? && IsAuthorized(s.identity.value, ak) {
      var b := s.identity.value;
      ActiveIsFree(w, b, ak);
      var c := b.(activeAk := ak);
      Grow(w, s, b, s.(identity := Some(c), seqByAk := Counters(c.seqState)), c);
    }
  }

  lemma AcceptPairingKeeps(w: World, s: State, envelope: Option<Envelope>)
    requires Inv(w, s)
    ensures DoAcceptPairing(w, s, envelope).Ok? ==> Keeps(w, s, DoAcceptPairing(w, s, envelope).value.0)
  {
    hide ValidBundle, ScansOk, Counters, CountersParse, PairingId;
  }

  lemma AcceptScanKeeps(w: World, s: State, qr: string, trust: Option<string>)
    requires Base64Laws(w) && Inv(w, s)
    ensures DoAcceptScan(w, s, qr, trust).Ok? ==> Keeps(w, s, DoAcceptScan(w, s, qr, trust).value.0)
  {
    hide IdentityOk, DecodeGr1, Prepare, ValidRecord, Base64Laws, TrustPub;
    if AcceptPrepare(w, qr, trust).Ok? {
      PreparedIsValid(w, DecodeGr1(w, qr).value, trust.value);
      SameIdentity(w, s, DoAcceptScan(w, s, qr, trust));
    }
  }

  lemma SameIdentity(w: World, s: State, a: Attempt)
    requires IdentityOk(w, s)
    ensures a.Ok? && a.value.0 == s.(scans := a.value.0.scans) ==> IdentityOk(w, a.value.0)
  {
    hide ValidBundle, EventsOk, Counters;
  }

  lemma SyncRecordsKeep(w: World, s: State, scans: seq<ScanRecord>, events: seq<LifecycleEvent>)
    requires Inv(w, s)
    requires forall r :: r in scans ==> ValidRecord(w, r)
    requires s.identity.None? ==> events == []
    requires s.identity.Some? ==> forall e :: e in events ==> ValidEvent(w, e, s.identity.value)
    ensures SyncRecords(s, scans, events).Some? ==>
              Inv(w, SyncRecords(s, scans, events).value.0) && SyncRecords(s, scans, events).value.0.seqByAk == s.seqByAk
  {
    hide ValidBundle, ValidEvent, ValidRecord, Counters, Keyed.PutAll, Keyed.Agreeing;
    var r := SyncRecords(s, scans, events);
    if r.Some? {
      Keyed.PutAllAdds(s.scans, scans, ScanKey);
      Keyed.PutAllAdds(s.events, events, EventKey);
      var t := r.value.0;
      if s.identity.None? {
        assert t.events == map[];
      }
    }
  }

  lemma ImportSyncKeeps(w: World, s: State, sync: Option<SyncBundle>)
    requires Inv(w, s)
    ensures DoImportSync(w, s, sync).Ok? ==> Keeps(w, s, DoImportSync(w, s, sync).value.0)
  {
    hide ValidBundle, ValidEvent, ValidRecord, Merge, ScansOk, IdentityOk, SyncRecords, Install, AllEventsValid;
    if DoImportSync(w, s, sync).Ok? {
      var b := sync.value;
      var first := SyncIdentity(w, s, b.identity).value.0;
      if b.identity.Some? {
        InstallMergedKeeps(w, s, b.identity.value, SyncInvalid);
        forall e | e in b.events ensures ValidEvent(w, e, first.identity.value) {
          IncomingEventStaysValid(w, s, b.identity.value, e);
        }
      }
      SyncRecordsKeep(w, first, b.scans, b.events);
    }
  }

  lemma IncomingEventStaysValid(w: World, s: State, incoming: Bundle, e: LifecycleEvent)
    requires Inv(w, s) && ValidBundle(w, incoming) && Merge(w, s.identity, incoming, SyncInvalid).Ok? && ValidEvent(w, e, incoming)
    ensures ValidEvent(w, e, Merge(w, s.identity, incoming, SyncInvalid).value)
  {
    hide ValidBundle, ValidEvent, ScansOk, Counters;
    if s.identity.Some? {
      EventsSurviveMerge(w, e, s.identity.value, incoming, SyncInvalid);
    }
  }

  lemma CountersOfPrinted(m: map<string, u64>)
    ensures CountersParse(Printed(m)) && Counters(Printed(m)) == m
  {
    hide Decimal.Parse, Decimal.Print;
    forall ak | ak in m ensures Decimal.Parse(Printed(m)[ak]) == Some(m[ak]) {
      Decimal.ParseOfPrint(m[ak]);
    }
    assert Counters(Printed(m)).Keys == m.Keys;
  }

  /** A snapshot's identity with the counters it is restored with. */
  lemma RestoredIdentity(w: World, b: Bundle, counters: map<string, u64>)
    requires ValidBundle(w, b) && CountersLeq(Counters(b.seqState), counters)
    ensures var c := b.(seqState := Printed(counters));
            ValidBundle(w, c) && Counters(c.seqState) == counters && Leq(ViewOf(b), ViewOf(c))
  {
    hide ValidBundle, KnownPubs, Counters, CountersParse;
    CountersOfPrinted(counters);
    SeqStateFree(w, b, Printed(counters));
  }

  lemma MaxIsAhead(a: map<string, u64>, b: map<string, u64>)
    ensures CountersLeq(a, MaxCounters(a, b)) && CountersLeq(b, MaxCounters(a, b))
  {
  }

  lemma RestoreKeeps(w: World, s: State, snapshot: Option<Snapshot>)
    requires Inv(w, s)
    ensures DoRestore(w, s, snapshot).Ok? ==>
              Inv(w, DoRestore(w, s, snapshot).value.0) && Ahead(s, DoRestore(w, s, snapshot).value.0)
  {
    hide ValidBundle, ValidEvent, ValidRecord, Counters, Keyed.Index, Keyed.Distinct, MaxCounters, CounterOf, Printed, ViewOf, Leq;
    if DoRestore(w, s, snapshot).Ok? {
      var p := snapshot.value;
      var t := DoRestore(w, s, snapshot).value.0;
      MaxIsAhead(SnapshotCounters(p), s.seqByAk);
      forall ak ensures CounterOf(s.seqByAk, ak) <= CounterOf(t.seqByAk, ak) {
        LeqIsAhead(s.seqByAk, t.seqByAk, ak);
      }
      forall id | id in t.scans ensures t.scans[id].scanId == id && ValidRecord(w, t.scans[id]) {
        Keyed.IndexFrom(p.scans, ScanKey, id);
      }
      RestoredEvents(w, s, p);
    }
  }

  lemma RestoredEvents(w: World, s: State, p: Snapshot)
    requires ValidSnapshot(w, p)
    ensures IdentityOk(w, Replaced(s, p))
  {
    hide ValidBundle, ValidEvent, ValidRecord, Counters, Keyed.Distinct, MaxCounters, Printed, ViewOf, Leq;
    var t := Replaced(s, p);
    if p.identity.Some? {
      var b := p.identity.value;
      MaxIsAhead(SnapshotCounters(p), s.seqByAk);
      RestoredIdentity(w, b, t.seqByAk);
      DevicesAreDistinct(w, t.identity.value);
      forall id | id in t.events ensures t.events[id].eventId == id && ValidEvent(w, t.events[id], t.identity.value) {
        Keyed.IndexFrom(p.events, EventKey, id);
        EventsAreMonotone(w, t.events[id], b, t.identity.value);
      }
    }
  }

  // ----- every run -----

  lemma AttemptKeeps(w: World, s: State, op: Op)
    requires Base64Laws(w) && Inv(w, s)
    ensures Attempted(w, s, op).Ok? ==> Keeps(w, s, Attempted(w, s, op).value.0)
  {
    hide Inv, Ahead, Base64Laws, DoCreateRoot, DoImportIdentity, DoAddDevice, DoRevokeDevice, DoSetActive, DoAcceptPairing,
         DoAcceptScan, DoImportSync, DoRestore;
    match op
    case CreateRoot(keys, name) => CreateRootKeeps(w, s, keys, name);
    case ImportIdentity(bundle) => ImportIdentityKeeps(w, s, bundle);
    case AddDevice(key, name) => AddDeviceKeeps(w, s, key, name);
    case RevokeDevice(ak) => RevokeDeviceKeeps(w, s, ak);
    case SetActive(ak) => SetActiveKeeps(w, s, ak);
    case AcceptPairing(envelope) => AcceptPairingKeeps(w, s, envelope);
    case AcceptScan(qr, trust) => AcceptScanKeeps(w, s, qr, trust);
    case ImportSync(sync) => ImportSyncKeeps(w, s, sync);
    case Restore(snapshot) => RestoreKeeps(w, s, snapshot);
  }

  /** A rejected operation leaves the store as it was; an accepted one keeps the invariant. */
  lemma StepKeeps(w: World, s: State, op: Op)
    requires Base64Laws(w) && Inv(w, s)
    ensures Apply(w, s, op).1.Err? ==> Apply(w, s, op).0 == s
    ensures Keeps(w, s, Apply(w, s, op).0)
  {
    hide Inv, CounterOf, Base64Laws, Attempted;
    AttemptKeeps(w, s, op);
  }

  /** The invariant holds after every run of every length from an empty store. */
  lemma {:induction false} ReachableIsValid(w: World, ops: seq<Op>)
    requires Base64Laws(w)
    ensures Inv(w, Run(w, EMPTY, ops))
  {
    hide Apply, Base64Laws;
    if |ops| > 0 {
      ReachableIsValid(w, ops[..|ops| - 1]);
      StepKeeps(w, Run(w, EMPTY, ops[..|ops| - 1]), ops[|ops| - 1]);
    }
  }
}

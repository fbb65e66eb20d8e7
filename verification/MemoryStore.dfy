/** The in-memory client store, field by field, with its rollback transaction; every operation is proved
    to be the corresponding step of the state machine (core/rust/grain-client-core/src/memory_store.rs,
    identity.rs, device.rs, pairing.rs, scan.rs, sync.rs). */
module MemoryStore {
  import opened Prelude
  import opened Scan
  import opened Identity
  import opened Store
  import Decimal
  import Keyed
  import Lex
  import StableSort

  /** A transaction body came to what the state machine says. */
  predicate Reaches(now: State, r: Outcome, a: Attempt) {
    match a
    case Ok(done) => r == Ok(done.1) && now == done.0
    case Err(e) => r == Err(e)
  }

  class MemoryClientStore {
    var acceptedScans: map<string, ScanRecord>
    var identityBundle: Option<Bundle>
    var seqByAk: map<string, u64>
    var lifecycleEvents: map<string, LifecycleEvent>
    var inAtomic: bool

    function St(): State
      reads this
    {
      State(acceptedScans, identityBundle, seqByAk, lifecycleEvents)
    }

    constructor ()
      ensures St() == EMPTY && !inAtomic
      ensures acceptedScans == map[] && identityBundle == None && seqByAk == map[] && lifecycleEvents == map[]
    {
      acceptedScans, identityBundle, seqByAk, lifecycleEvents, inAtomic := map[], None, map[], map[], false;
    }

    // ----- the transaction -----

    /** The opening of `atomic`: refuse nesting, remember the state. */
    method Begin() returns (r: Result<State, SdkError>)
      modifies `inAtomic
      ensures inAtomic
      ensures r == if old(inAtomic) then Err(AtomicNested) else Ok(old(St()))
    {
      if inAtomic {
        return Err(AtomicNested);
      }
      r := Ok(St());
      inAtomic := true;
    }

    /** The closing of `atomic`: put everything back after a failure. */
    method End(saved: State, failed: bool)
      modifies this
      ensures !inAtomic && St() == if failed then saved else old(St())
    {
      inAtomic := false;
      if failed {
        acceptedScans := saved.scans;
        identityBundle := saved.identity;
        seqByAk := saved.seqByAk;
        lifecycleEvents := saved.events;
      }
    }

    // ----- primitive writes -----

    method PutAcceptedScan(record: ScanRecord) returns (r: Result<bool, SdkError>)
      modifies `acceptedScans
      ensures !inAtomic ==> r == Err(OutsideAtomic) && St() == old(St())
      ensures inAtomic ==>
                match PutScan(old(St()), record)
                case None => r == Err(StoreConflict) && St() == old(St())
                case Some(p) => r == Ok(p.1) && St() == p.0
    {
      if !inAtomic {
        return Err(OutsideAtomic);
      }
      if record.scanId in acceptedScans {
        if acceptedScans[record.scanId] == record {
          return Ok(false);
        }
        return Err(StoreConflict);
      }
      acceptedScans := acceptedScans[record.scanId := record];
      r := Ok(true);
    }

    method AppendLifecycleEvent(event: LifecycleEvent) returns (r: Result<bool, SdkError>)
      modifies `lifecycleEvents
      ensures !inAtomic ==> r == Err(OutsideAtomic) && St() == old(St())
      ensures inAtomic ==>
                match Append(old(St()), event)
                case None => r == Err(StoreConflict) && St() == old(St())
                case Some(p) => r == Ok(p.1) && St() == p.0
    {
      if !inAtomic {
        return Err(OutsideAtomic);
      }
      if event.eventId in lifecycleEvents {
        if lifecycleEvents[event.eventId] == event {
          return Ok(false);
        }
        return Err(StoreConflict);
      }
      lifecycleEvents := lifecycleEvents[event.eventId := event];
      r := Ok(true);
    }

    method ReserveNextSeq(ak: string) returns (r: Result<u64, SdkError>)
      modifies `seqByAk
      ensures !inAtomic ==> r == Err(OutsideAtomic) && St() == old(St())
      ensures inAtomic ==>
                match Reserve(old(St()), ak)
                case None => r == Err(StoreConflict) && St() == old(St())
                case Some(p) => r == Ok(p.1) && St() == p.0
    {
      if !inAtomic {
        return Err(OutsideAtomic);
      }
      var next := if ak in seqByAk then seqByAk[ak] as int + 1 else 1;
      if next >= U64_BOUND {
        return Err(StoreConflict);
      }
      seqByAk := seqByAk[ak := next];
      r := Ok(next);
    }

    /** Clear the counters and read them again; on a malformed one they stay half-read. */
    method ReadCounters(m: map<string, string>) returns (ok: bool)
      modifies `seqByAk
      ensures ok <==> CountersParse(m)
      ensures ok ==> seqByAk == Counters(m)
    {
      hide Decimal.Parse;
      seqByAk := map[];
      var rest := m.Keys;
      while rest != {}
        invariant rest <= m.Keys && seqByAk.Keys == m.Keys - rest
        invariant forall ak :: ak in seqByAk ==> Decimal.Parse(m[ak]) == Some(seqByAk[ak])
        decreases |rest|
      {
        var ak :| ak in rest;
        var parsed := Decimal.Parse(m[ak]);
        if parsed.None? {
          return false;
        }
        seqByAk := seqByAk[ak := parsed.value];
        rest := rest - {ak};
      }
      assert seqByAk == Counters(m);
      ok := true;
    }

    method SaveIdentityBundle(bundle: Bundle) returns (r: Result<bool, SdkError>)
      modifies `identityBundle, `seqByAk
      ensures !inAtomic ==> r == Err(OutsideAtomic) && St() == old(St())
      ensures inAtomic ==>
                match Save(old(St()), bundle)
                case None => r == Err(StoreConflict)
                case Some(p) => r == Ok(p.1) && St() == p.0
    {
      hide CountersParse, Counters;
      if !inAtomic {
        return Err(OutsideAtomic);
      }
      var inserted := identityBundle != Some(bundle);
      var ok := ReadCounters(bundle.seqState);
      if !ok {
        return Err(StoreConflict);
      }
      identityBundle := Some(bundle);
      r := Ok(inserted);
    }

    method ImportSeqState(m: map<string, string>) returns (r: Result<(), SdkError>)
      modifies `seqByAk
      ensures !inAtomic ==> r == Err(OutsideAtomic) && St() == old(St())
      ensures inAtomic ==>
                match ImportSeq(old(St()), m)
                case None => r == Err(StoreConflict)
                case Some(t) => r == Ok(()) && St() == t
    {
      hide CountersParse, Counters;
      if !inAtomic {
        return Err(OutsideAtomic);
      }
      var ok := ReadCounters(m);
      if !ok {
        return Err(StoreConflict);
      }
      r := Ok(());
    }

    method InstallBundle(bundle: Bundle) returns (r: Result<bool, SdkError>)
      requires inAtomic
      modifies `identityBundle, `seqByAk
      ensures match Install(old(St()), bundle)
              case None => r == Err(StoreConflict)
              case Some(p) => r == Ok(p.1) && St() == p.0
    {
      hide CountersParse, Counters;
      var imported := ImportSeqState(bundle.seqState);
      if imported.Err? {
        return Err(imported.error);
      }
      r := SaveIdentityBundle(bundle);
    }

    /** Reserve, write the number into the bundle, save, append. */
    method LogEvent(w: World, bundle: Bundle, t: string, target: string) returns (r: Option<SdkError>)
      requires inAtomic
      modifies `identityBundle, `seqByAk, `lifecycleEvents
      ensures match Log(w, old(St()), bundle, t, target)
              case None => r == Some(StoreConflict)
              case Some(done) => r == None && St() == done
    {
      hide CountersParse, Counters, Decimal.Print, MakeEvent;
      var reserved := ReserveNextSeq(bundle.rootKid);
      if reserved.Err? {
        return Some(reserved.error);
      }
      var numbered := bundle.(seqState := bundle.seqState[bundle.rootKid := Decimal.Print(reserved.value)]);
      var event := MakeEvent(w, t, bundle.rootKid, reserved.value, target);
      var saved := SaveIdentityBundle(numbered);
      if saved.Err? {
        return Some(saved.error);
      }
      var appended := AppendLifecycleEvent(event);
      if appended.Err? {
        return Some(appended.error);
      }
      r := None;
    }

    // ----- operations -----

    /** What every public operation promises: outside a transaction it is one step of the machine, inside
        one it changes nothing. */
    method IdentityCreateRoot(w: World, keys: Option<(key32, key32)>, name: string) returns (o: Outcome)
      modifies this
      ensures !old(inAtomic) ==> !inAtomic && (St(), o) == Apply(w, old(St()), CreateRoot(keys, name))
      ensures old(inAtomic) ==> inAtomic && St() == old(St())
    {
      hide CountersParse, Counters, RootBundle;
      if identityBundle.Some? {
        return Err(IdentityExists);
      }
      if keys.None? {
        return Err(CsprngUnavailable);
      }
      var begun := Begin();
      if begun.Err? {
        return Err(begun.error);
      }
      var saved := SaveIdentityBundle(RootBundle(w, keys.value.0, keys.value.1, name));
      End(begun.value, saved.Err?);
      o := if saved.Ok? then Ok(Created) else Err(saved.error);
    }

    method IdentityImportBundle(w: World, bundle: Option<Bundle>) returns (o: Outcome)
      modifies this
      ensures !old(inAtomic) ==> !inAtomic && (St(), o) == Apply(w, old(St()), ImportIdentity(bundle))
      ensures old(inAtomic) ==> inAtomic && St() == old(St())
    {
      hide ValidBundle, Merge, Install, AllEventsValid;
      if bundle.None? {
        return Err(BundleInvalid);
      }
      var fault := ValidateBundle(w, bundle.value);
      if fault.Some? {
        return Err(fault.value);
      }
      var begun := Begin();
      if begun.Err? {
        return Err(begun.error);
      }
      var r := ImportBundleTx(w, bundle.value);
      End(begun.value, r.Err?);
      o := r;
    }

    method ImportBundleTx(w: World, bundle: Bundle) returns (r: Outcome)
      requires inAtomic && bundle.version == 1 && ValidBundle(w, bundle)
      modifies `identityBundle, `seqByAk
      ensures Reaches(St(), r, DoImportIdentity(w, old(St()), Some(bundle)))
    {
      hide ValidBundle, Merge, Install, AllEventsValid;
      var merged := MergeBundle(w, identityBundle, bundle, BundleInvalid);
      if merged.Err? {
        return Err(merged.error);
      }
      if !AllEventsValid(w, lifecycleEvents, merged.value) {
        return Err(IdentityConflict);
      }
      var done := InstallBundle(merged.value);
      r := if done.Ok? then Ok(Imported) else Err(done.error);
    }

    method DeviceAddKey(w: World, key: Option<key32>, name: string) returns (o: Outcome)
      modifies this
      ensures !old(inAtomic) ==> !inAtomic && (St(), o) == Apply(w, old(St()), AddDevice(key, name))
      ensures old(inAtomic) ==> inAtomic && St() == old(St())
    {
      hide Log, DeriveKid, IsDevice;
      if key.None? {
        return Err(CsprngUnavailable);
      }
      var begun := Begin();
      if begun.Err? {
        return Err(begun.error);
      }
      var r := AddKeyTx(w, key.value, name);
      End(begun.value, r.Err?);
      o := r;
    }

    method AddKeyTx(w: World, key: key32, name: string) returns (r: Outcome)
      requires inAtomic
      modifies `identityBundle, `seqByAk, `lifecycleEvents
      ensures Reaches(St(), r, DoAddDevice(w, old(St()), Some(key), name))
    {
      hide Log, DeriveKid, IsDevice;
      if identityBundle.None? {
        return Err(IdentityMissing);
      }
      var bundle, ak := identityBundle.value, DeriveKid(w, key);
      if IsDevice(bundle, ak) {
        return Err(DeviceExists);
      }
      bundle := bundle.(devices := bundle.devices + [DeviceKey(ak, name, w.b64Encode(key))]);
      var fault := LogEvent(w, bundle, "DeviceKeyGrant", ak);
      r := if fault.None? then Ok(Added) else Err(fault.value);
    }

    method DeviceRevokeKey(w: World, ak: string) returns (o: Outcome)
      modifies this
      ensures !old(inAtomic) ==> !inAtomic && (St(), o) == Apply(w, old(St()), RevokeDevice(ak))
      ensures old(inAtomic) ==> inAtomic && St() == old(St())
    {
      hide Log, IsDevice, StableSort.Sort;
      var begun := Begin();
      if begun.Err? {
        return Err(begun.error);
      }
      var r := RevokeKeyTx(w, ak);
      End(begun.value, r.Err?);
      o := r;
    }

    method RevokeKeyTx(w: World, ak: string) returns (r: Outcome)
      requires inAtomic
      modifies `identityBundle, `seqByAk, `lifecycleEvents
      ensures Reaches(St(), r, DoRevokeDevice(w, old(St()), ak))
    {
      hide Log, IsDevice, StableSort.Sort;
      if identityBundle.None? {
        return Err(IdentityMissing);
      }
      var bundle := identityBundle.value;
      if ak == bundle.rootKid {
        return Err(RevokeRootForbidden);
      }
      if !IsDevice(bundle, ak) {
        return Err(DeviceUnknown);
      }
      if ak in bundle.revoked {
        return Ok(Revoked);
      }
      bundle := bundle.(revoked := StableSort.Sort(bundle.revoked + [ak], Lex.StrLess));
      if bundle.activeAk == ak {
        bundle := bundle.(activeAk := bundle.rootKid);
      }
      var fault := LogEvent(w, bundle, "DeviceKeyRevoke", ak);
      r := if fault.None? then Ok(Revoked) else Err(fault.value);
    }

    method DeviceSetActive(w: World, ak: string) returns (o: Outcome)
      modifies this
      ensures !old(inAtomic) ==> !inAtomic && (St(), o) == Apply(w, old(St()), SetActive(ak))
      ensures old(inAtomic) ==> inAtomic && St() == old(St())
    {
      hide IsAuthorized, Counters, CountersParse;
      var begun := Begin();
      if begun.Err? {
        return Err(begun.error);
      }
      var r := SetActiveTx(ak);
      End(begun.value, r.Err?);
      o := r;
    }

    method SetActiveTx(ak: string) returns (r: Outcome)
      requires inAtomic
      modifies `identityBundle, `seqByAk
      ensures Reaches(St(), r, DoSetActive(old(St()), ak))
    {
      hide IsAuthorized, Counters, CountersParse;
      if identityBundle.None? {
        return Err(IdentityMissing);
      }
      var bundle := identityBundle.value;
      if !IsAuthorized(bundle, ak) {
        return Err(UnauthorizedAk);
      }
      var saved := SaveIdentityBundle(bundle.(activeAk := ak));
      r := if saved.Ok? then Ok(Active) else Err(saved.error);
    }

    method PairingAcceptEnvelope(w: World, envelope: Option<Envelope>) returns (o: Outcome)
      modifies this
      ensures !old(inAtomic) ==> !inAtomic && (St(), o) == Apply(w, old(St()), AcceptPairing(envelope))
      ensures old(inAtomic) ==> inAtomic && St() == old(St())
    {
      hide ValidEnvelope, Install;
      if envelope.None? || !ValidEnvelope(w, envelope.value) {
        return Err(PairingInvalid);
      }
      if identityBundle.Some? {
        if identityBundle.value == envelope.value.bundle {
          return Ok(AlreadyPaired);
        }
        return Err(IdentityConflict);
      }
      var begun := Begin();
      if begun.Err? {
        return Err(begun.error);
      }
      var done := InstallBundle(envelope.value.bundle);
      End(begun.value, done.Err?);
      o := if done.Ok? then Ok(Paired) else Err(done.error);
    }

    method ScanAccept(w: World, qr: string, trust: Option<string>) returns (o: Outcome)
      modifies this
      ensures !old(inAtomic) ==> !inAtomic && (St(), o) == Apply(w, old(St()), AcceptScan(qr, trust))
      ensures old(inAtomic) ==> inAtomic && St() == old(St())
    {
      hide AcceptPrepare;
      var prepared := AcceptPrepare(w, qr, trust);
      if prepared.Err? {
        return Err(ScanRejected(prepared.error));
      }
      var begun := Begin();
      if begun.Err? {
        return Err(begun.error);
      }
      var put := PutAcceptedScan(prepared.value);
      End(begun.value, put.Err?);
      o := if put.Err? then Err(put.error) else if put.value then Ok(Accepted) else Ok(AlreadyAccepted);
    }

    // ----- sync -----

    method SyncImportBundle(w: World, sync: Option<SyncBundle>) returns (o: Outcome)
      modifies this
      ensures !old(inAtomic) ==> !inAtomic && (St(), o) == Apply(w, old(St()), ImportSync(sync))
      ensures old(inAtomic) ==> inAtomic && St() == old(St())
    {
      hide ValidSync, SyncIdentity, SyncRecords;
      if sync.None? {
        return Err(SyncInvalid);
      }
      var ok := CheckSync(w, sync.value);
      if !ok {
        return Err(SyncInvalid);
      }
      var b := sync.value;
      if identityBundle.Some? && b.identity.Some? && identityBundle.value.rootKid != b.identity.value.rootKid {
        return Err(IdentityConflict);
      }
      var begun := Begin();
      if begun.Err? {
        return Err(begun.error);
      }
      var r := ImportSyncTx(w, b);
      End(begun.value, r.Err?);
      o := r;
    }

    /** `decode_sync_bundle`. */
    static method CheckSync(w: World, b: SyncBundle) returns (ok: bool)
      ensures ok <==> ValidSync(w, b)
    {
      hide ValidBundle, ValidRecord, ValidEvent;
      if b.version != 1 || b.custody != PortableFor("sync_bundle_v1") {
        return false;
      }
      if b.identity.Some? && !ValidBundle(w, b.identity.value) {
        return false;
      }
      for i := 0 to |b.scans|
        invariant forall j :: 0 <= j < i ==> ValidRecord(w, b.scans[j])
      {
        if !ValidRecord(w, b.scans[i]) {
          return false;
        }
      }
      if b.identity.None? {
        return |b.events| == 0;
      }
      for i := 0 to |b.events|
        invariant forall j :: 0 <= j < i ==> ValidEvent(w, b.events[j], b.identity.value)
      {
        if !ValidEvent(w, b.events[i], b.identity.value) {
          return false;
        }
      }
      ok := true;
    }

    method ImportSyncTx(w: World, b: SyncBundle) returns (r: Outcome)
      requires inAtomic && ValidSync(w, b)
      requires identityBundle.Some? && b.identity.Some? ==> identityBundle.value.rootKid == b.identity.value.rootKid
      modifies `acceptedScans, `identityBundle, `seqByAk, `lifecycleEvents
      ensures Reaches(St(), r, DoImportSync(w, old(St()), Some(b)))
    {
      hide ValidSync, Merge, Install, Keyed.PutAll;
      var inserted := false;
      if b.identity.Some? {
        var merged := MergeBundle(w, identityBundle, b.identity.value, SyncInvalid);
        if merged.Err? {
          return Err(merged.error);
        }
        var installed := InstallBundle(merged.value);
        if installed.Err? {
          return Err(installed.error);
        }
        inserted := installed.value;
      }
      var scans := PutScans(b.scans);
      if scans.Err? {
        return Err(scans.error);
      }
      var events := PutEvents(b.events);
      if events.Err? {
        return Err(events.error);
      }
      r := Ok(if inserted || scans.value || events.value then Imported else AlreadyImported);
    }

    method PutScans(records: seq<ScanRecord>) returns (r: Result<bool, SdkError>)
      requires inAtomic
      modifies `acceptedScans
      ensures match Keyed.PutAll(old(acceptedScans), records, ScanKey)
              case None => r == Err(StoreConflict)
              case Some(p) => r == Ok(p.1) && acceptedScans == p.0
    {
      var inserted := false;
      ghost var all := Keyed.PutAll(acceptedScans, records, ScanKey);
      assert records[0..] == records;
      for i := 0 to |records|
        invariant inAtomic
        invariant match Keyed.PutAll(acceptedScans, records[i..], ScanKey)
                  case None => all == None
                  case Some(p) => all == Some((p.0, inserted || p.1))
      {
        assert records[i..][1..] == records[i + 1..];
        var put := PutAcceptedScan(records[i]);
        if put.Err? {
          return Err(put.error);
        }
        inserted := inserted || put.value;
      }
      r := Ok(inserted);
    }

    method PutEvents(events: seq<LifecycleEvent>) returns (r: Result<bool, SdkError>)
      requires inAtomic
      modifies `lifecycleEvents
      ensures match Keyed.PutAll(old(lifecycleEvents), events, EventKey)
              case None => r == Err(StoreConflict)
              case Some(p) => r == Ok(p.1) && lifecycleEvents == p.0
    {
      var inserted := false;
      ghost var all := Keyed.PutAll(lifecycleEvents, events, EventKey);
      assert events[0..] == events;
      for i := 0 to |events|
        invariant inAtomic
        invariant match Keyed.PutAll(lifecycleEvents, events[i..], EventKey)
                  case None => all == None
                  case Some(p) => all == Some((p.0, inserted || p.1))
      {
        assert events[i..][1..] == events[i + 1..];
        var put := AppendLifecycleEvent(events[i]);
        if put.Err? {
          return Err(put.error);
        }
        inserted := inserted || put.value;
      }
      r := Ok(inserted);
    }

    /** `sync_export_bundle`; nothing when the store is empty. */
    method SyncExportBundle() returns (r: Option<SyncBundle>)
      ensures r.None? <==> identityBundle.None? && acceptedScans == map[] && lifecycleEvents == map[]
      ensures r.Some? ==> IsSyncOf(St(), r.value)
    {
      hide Keyed.IsListing;
      if identityBundle.None? && acceptedScans == map[] && lifecycleEvents == map[] {
        return None;
      }
      var scans := Keyed.List(acceptedScans);
      var events := Keyed.List(lifecycleEvents);
      r := Some(SyncBundle(1, PortableFor("sync_bundle_v1"), identityBundle, scans, events));
    }

    // ----- snapshots -----

    /** `export_store_snapshot`; nothing when the store is empty. */
    method ExportStoreSnapshot() returns (r: Option<Snapshot>)
      ensures r.None? <==> identityBundle.None? && acceptedScans == map[] && lifecycleEvents == map[]
      ensures r.Some? ==> IsSnapshotOf(St(), r.value)
    {
      hide Keyed.IsListing;
      if identityBundle.None? && acceptedScans == map[] && lifecycleEvents == map[] {
        return None;
      }
      var scans := Keyed.List(acceptedScans);
      var events := Keyed.List(lifecycleEvents);
      r := Some(Snapshot(1, identityBundle, scans, events));
    }

    method RestoreStoreSnapshot(w: World, snapshot: Option<Snapshot>) returns (o: Outcome)
      modifies `acceptedScans, `identityBundle, `seqByAk, `lifecycleEvents
      ensures !inAtomic ==> (St(), o) == Apply(w, old(St()), Restore(snapshot))
      ensures inAtomic ==> o == Err(AtomicNested) && St() == old(St())
    {
      hide ValidBundle, ValidRecord, ValidEvent, Keyed.Distinct, Keyed.Index, MaxCounters, Counters, Printed;
      if inAtomic {
        return Err(AtomicNested);
      }
      if snapshot.None? {
        return Err(SnapshotInvalid);
      }
      var p := snapshot.value;
      if p.version != 1 {
        return Err(SnapshotVersion);
      }
      var maps := SnapshotMaps(w, p);
      if maps.None? {
        return Err(SnapshotInvalid);
      }
      var counters := KeepAhead(maps.value.1, seqByAk);
      acceptedScans := maps.value.0;
      identityBundle := if p.identity.None? then None else Some(p.identity.value.(seqState := Printed(counters)));
      seqByAk := counters;
      lifecycleEvents := maps.value.2;
      o := Ok(Restored);
    }

    /** The shape checks and `snapshot_maps`: scans, counters and events by key. */
    static method SnapshotMaps(w: World, p: Snapshot)
      returns (r: Option<(map<string, ScanRecord>, map<string, u64>, map<string, LifecycleEvent>)>)
      ensures r.Some? <==> ValidSnapshot(w, p)
      ensures r.Some? ==> r.value == (Keyed.Index(p.scans, ScanKey), SnapshotCounters(p), Keyed.Index(p.events, EventKey))
    {
      hide ValidBundle, ValidRecord, ValidEvent, Keyed.Distinct, Keyed.Index, Counters;
      if p.version != 1 {
        return None;
      }
      if p.identity.Some? && !ValidBundle(w, p.identity.value) {
        return None;
      }
      if p.identity.None? && |p.events| > 0 {
        return None;
      }
      var scans := Keyed.IndexChecked(p.scans, ScanKey, x => ValidRecord(w, x));
      if scans.None? {
        return None;
      }
      var events := Keyed.IndexChecked(p.events, EventKey, e => p.identity.None? || ValidEvent(w, e, p.identity.value));
      if events.None? {
        return None;
      }
      r := Some((scans.value, SnapshotCounters(p), events.value));
    }

    /** Counters restored, raised to those already used here. */
    static method KeepAhead(restored: map<string, u64>, current: map<string, u64>) returns (r: map<string, u64>)
      ensures r == MaxCounters(restored, current)
    {
      hide KeptAhead, MaxCounters;
      r := restored;
      var rest := current.Keys;
      AheadStart(restored, current);
      while rest != {}
        invariant rest <= current.Keys && KeptAhead(restored, current, rest, r)
        decreases |rest|
      {
        var ak :| ak in rest;
        AheadStep(restored, current, rest, r, ak);
        var have := if ak in r then r[ak] else 0;
        r := r[ak := if have >= current[ak] then have else current[ak]];
        rest := rest - {ak};
      }
      AheadEnd(restored, current, r);
    }
  }

  function Higher(a: map<string, u64>, b: map<string, u64>, ak: string): u64 {
    if ak !in a then (if ak in b then b[ak] else 0) else if ak !in b || a[ak] >= b[ak] then a[ak] else b[ak]
  }

  /** The working copy while counters are raised: as restored where `b` has not been looked at yet. */
  ghost predicate KeptAhead(a: map<string, u64>, b: map<string, u64>, rest: set<string>, r: map<string, u64>) {
    rest <= b.Keys && r.Keys == a.Keys + (b.Keys - rest) &&
    forall ak :: ak in r ==> r[ak] == if ak in rest then a[ak] else Higher(a, b, ak)
  }

  lemma AheadStart(a: map<string, u64>, b: map<string, u64>)
    ensures KeptAhead(a, b, b.Keys, a)
  {
  }

  lemma AheadStep(a: map<string, u64>, b: map<string, u64>, rest: set<string>, r: map<string, u64>, ak: string)
    requires KeptAhead(a, b, rest, r) && ak in rest
    ensures ak in b
    ensures var have := if ak in r then r[ak] else 0;
            KeptAhead(a, b, rest - {ak}, r[ak := if have >= b[ak] then have else b[ak]])
  {
    var have := if ak in r then r[ak] else 0;
    var n := if have >= b[ak] then have else b[ak];
    assert n == Higher(a, b, ak);
  }

  lemma AheadEnd(a: map<string, u64>, b: map<string, u64>, r: map<string, u64>)
    requires KeptAhead(a, b, {}, r)
    ensures r == MaxCounters(a, b)
  {
    var want := MaxCounters(a, b);
    assert want.Keys == a.Keys + b.Keys == r.Keys;
    forall ak | ak in r ensures r[ak] == want[ak] {
      assert r[ak] == Higher(a, b, ak);
    }
  }
}

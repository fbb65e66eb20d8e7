/** What single operations do to a valid store, and what a store remembers: without a restore its history
    only grows (core/rust/grain-client-core/src/device.rs, identity.rs, scan.rs, memory_store.rs). */
module StoreHistory {
  import opened Prelude
  import opened Scan
  import opened Identity
  import opened IdentityTheorems
  import opened Store
  import opened StoreInvariant
  import opened StoreTheorems
  import opened SyncTheorems
  import Cose
  import Decimal
  import Keyed
  import Lex
  import StableSort

  // ----- single operations -----

  function NextNumber(s: State, b: Bundle): nat {
    CounterOf(s.seqByAk, b.rootKid) + 1
  }

  /** A number below the limit is left, and no event held already has the name of the one to be logged. */
  predicate CanLog(w: World, s: State, b: Bundle, kind: string, target: string) {
    NextNumber(s, b) < U64_BOUND && EventId(w, kind, b.rootKid, NextNumber(s, b), target) !in s.events
  }

  /** The state after logging one event about `target`: the root's counter and the event log move by one. */
  ghost predicate Logged(w: World, s: State, t: State, b: Bundle, kind: string, target: string) {
    var n := NextNumber(s, b);
    n < U64_BOUND && t.scans == s.scans && t.seqByAk == s.seqByAk[b.rootKid := n] &&
    (forall id :: id in t.events <==> id in s.events || id == EventId(w, kind, b.rootKid, n, target)) &&
    (forall id :: id in s.events ==> t.events[id] == s.events[id]) &&
    var e := t.events[EventId(w, kind, b.rootKid, n, target)];
    e.t == kind && e.ak == b.rootKid && e.seqNo == n && e.targetAk == target && PayloadCid(kind, target) == Some(e.payloadCid)
  }

  lemma LogDoes(w: World, s: State, a: Bundle, b: Bundle, kind: string, target: string)
    requires Inv(w, s) && s.identity == Some(a) && a.rootKid == b.rootKid && a.seqState == b.seqState
    requires kind == "DeviceKeyGrant" || kind == "DeviceKeyRevoke"
    ensures Log(w, s, b, kind, target).Some? <==> CanLog(w, s, b, kind, target)
    ensures Log(w, s, b, kind, target).Some? ==>
              var t := Log(w, s, b, kind, target).value;
              Logged(w, s, t, b, kind, target) && t.identity.Some? &&
              t.identity == Some(b.(seqState := t.identity.value.seqState)) && Counters(t.identity.value.seqState) == t.seqByAk
  {
    hide ValidBundle, Decimal.Print, Counters, CountersParse, ValidEvent, EventId, ScansOk, PayloadCid, Logged;
    DevicesAreDistinct(w, a);
    var n := NextNumber(s, b);
    if n < U64_BOUND {
      CountersUpdate(b.seqState, b.rootKid, n);
      var e := MakeEvent(w, kind, b.rootKid, n, target);
      if e.eventId in s.events {
        HeldNumberIsLower(w, s, a, e.eventId);
      } else {
        EventPutIs(w, s, b, kind, target);
      }
    }
  }

  lemma EventPutIs(w: World, s: State, b: Bundle, kind: string, target: string)
    requires CanLog(w, s, b, kind, target) && (kind == "DeviceKeyGrant" || kind == "DeviceKeyRevoke")
    ensures var n := NextNumber(s, b);
            var e := MakeEvent(w, kind, b.rootKid, n, target);
            forall t: State :: t.scans == s.scans && t.seqByAk == s.seqByAk[b.rootKid := n] && t.events == s.events[e.eventId := e]
              ==> Logged(w, s, t, b, kind, target)
  {
    hide EventId;
  }

  lemma HeldNumberIsLower(w: World, s: State, a: Bundle, id: string)
    requires Inv(w, s) && s.identity == Some(a) && id in s.events
    ensures s.events[id].seqNo <= CounterOf(s.seqByAk, a.rootKid)
  {
    hide ValidBundle, Decimal.Parse, EventId, IsDevice, PayloadCid, ScansOk;
    assert ValidEvent(w, s.events[id], a);
  }

  /** Adding a device succeeds exactly with a fresh key and a number to log it under; the identity then
      lists that key, authorised unless its identifier stood revoked already, and nothing else about devices,
      revocations or the active key changes. */
  lemma AddDeviceDoes(w: World, s: State, key: Option<key32>, name: string)
    requires Inv(w, s)
    ensures DoAddDevice(w, s, key, name).Ok? <==>
              key.Some? && s.identity.Some? && !IsDevice(s.identity.value, DeriveKid(w, key.value)) &&
              CanLog(w, s, s.identity.value, "DeviceKeyGrant", DeriveKid(w, key.value))
    ensures DoAddDevice(w, s, key, name).Ok? ==>
              var b, t, ak := s.identity.value, DoAddDevice(w, s, key, name).value.0, DeriveKid(w, key.value);
              Logged(w, s, t, b, "DeviceKeyGrant", ak) && t.identity.Some? &&
              var c := t.identity.value;
              SameRoot(b, c) && c.activeAk == b.activeAk && c.revoked == b.revoked && (IsAuthorized(c, ak) <==> ak !in b.revoked) &&
              ViewOf(c) == View(ViewOf(b).devices[ak := w.b64Encode(key.value)], ViewOf(b).revoked, t.seqByAk)
  {
    hide Inv, Log, CanLog, Logged, IsDevice, DeriveKid, Counters;
    if key.Some? && s.identity.Some? {
      var b, ak := s.identity.value, DeriveKid(w, key.value);
      var c := Granted(w, b, key.value, name);
      LogDoes(w, s, b, c, "DeviceKeyGrant", ak);
      SameLog(w, s, b, c, "DeviceKeyGrant", ak);
      assert c.devices[..|c.devices| - 1] == b.devices;
      if !IsDevice(b, ak) {
        GrantedIsListed(w, s, key.value, name);
      }
    }
  }

  lemma GrantedIsListed(w: World, s: State, key: key32, name: string)
    requires Inv(w, s) && s.identity.Some? && !IsDevice(s.identity.value, DeriveKid(w, key))
    ensures forall m :: var c := Granted(w, s.identity.value, key, name).(seqState := m);
                        IsAuthorized(c, DeriveKid(w, key)) <==> DeriveKid(w, key) !in s.identity.value.revoked
  {
    hide ValidBundle, ScansOk, EventsOk, Counters, DeriveKid;
    var b := s.identity.value;
    RootIsDevice(w, b);
    forall m ensures var c := Granted(w, b, key, name).(seqState := m); IsDevice(c, DeriveKid(w, key)) {
      var c := Granted(w, b, key, name).(seqState := m);
      assert c.devices[|b.devices|].ak == DeriveKid(w, key);
    }
  }

  lemma SameLog(w: World, s: State, b: Bundle, c: Bundle, kind: string, target: string)
    requires b.rootKid == c.rootKid
    ensures CanLog(w, s, b, kind, target) == CanLog(w, s, c, kind, target)
    ensures forall t :: Logged(w, s, t, b, kind, target) == Logged(w, s, t, c, kind, target)
  {
    hide EventId, PayloadCid;
  }

  /** Revoking succeeds exactly for a listed device other than the root, once more as often as one likes; the
      first time the device joins the revoked, and a revoked active key gives way to the root. */
  lemma RevokeDeviceDoes(w: World, s: State, ak: string)
    requires Inv(w, s)
    ensures DoRevokeDevice(w, s, ak).Ok? <==>
              s.identity.Some? && ak != s.identity.value.rootKid && IsDevice(s.identity.value, ak) &&
              (ak in s.identity.value.revoked || CanLog(w, s, s.identity.value, "DeviceKeyRevoke", ak))
    ensures DoRevokeDevice(w, s, ak).Ok? && ak in s.identity.value.revoked ==> DoRevokeDevice(w, s, ak).value.0 == s
    ensures DoRevokeDevice(w, s, ak).Ok? && ak !in s.identity.value.revoked ==>
              var b, t := s.identity.value, DoRevokeDevice(w, s, ak).value.0;
              Logged(w, s, t, b, "DeviceKeyRevoke", ak) && t.identity.Some? &&
              var c := t.identity.value;
              SameRoot(b, c) && c.devices == b.devices && c.activeAk == (if b.activeAk == ak then b.rootKid else b.activeAk) &&
              ViewOf(c) == View(ViewOf(b).devices, ViewOf(b).revoked + {ak}, t.seqByAk)
  {
    hide Inv, Log, CanLog, Logged, IsDevice, Counters, KnownPubs, StableSort.Sort;
    if s.identity.Some? {
      var b := s.identity.value;
      var c := RevokedBundle(b, ak);
      LogDoes(w, s, b, c, "DeviceKeyRevoke", ak);
      SameLog(w, s, b, c, "DeviceKeyRevoke", ak);
      RevokedSet(b, ak);
      assert (set x | x in c.revoked) == (set x | x in b.revoked) + {ak};
    }
  }

  /** Setting the active key succeeds exactly for an authorised key and changes nothing else. */
  lemma SetActiveDoes(w: World, s: State, ak: string)
    requires Inv(w, s)
    ensures DoSetActive(s, ak).Ok? <==> s.identity.Some? && IsAuthorized(s.identity.value, ak)
    ensures DoSetActive(s, ak).Ok? ==>
              DoSetActive(s, ak).value == (s.(identity := Some(s.identity.value.(activeAk := ak))), Active)
  {
    hide ValidBundle, IsAuthorized, Counters, CountersParse, ScansOk, EventsOk;
    if s.identity.Some? {
      DevicesAreDistinct(w, s.identity.value);
    }
  }

  /** The record is new, or held already as it is. */
  predicate Fits(scans: map<string, ScanRecord>, r: ScanRecord) {
    r.scanId in scans ==> scans[r.scanId] == r
  }

  function Holding(s: State, r: ScanRecord): State {
    s.(scans := s.scans[r.scanId := r])
  }

  /** Accepting a scan succeeds exactly when it verifies and does not contradict a held record; it puts the
      record under its identifier and touches nothing else, and doing it again finds the record there. */
  lemma AcceptScanDoes(w: World, s: State, qr: string, trust: Option<string>)
    ensures var t := Apply(w, s, AcceptScan(qr, trust));
            var r := AcceptPrepare(w, qr, trust);
            (t.1.Ok? <==> r.Ok? && Fits(s.scans, r.value)) &&
            t.0 == (if t.1.Ok? then Holding(s, r.value) else s) &&
            (t.1.Ok? ==> Apply(w, t.0, AcceptScan(qr, trust)) == (t.0, Ok(AlreadyAccepted)))
  {
    hide AcceptPrepare;
    if AcceptPrepare(w, qr, trust).Ok? {
      var r := AcceptPrepare(w, qr, trust).value;
      if r.scanId in s.scans && s.scans[r.scanId] == r {
        assert s.scans == s.scans[r.scanId := r];
      }
    }
  }

  /** Setting a key active and then the former one is undone without trace. */
  lemma SetActiveUndone(w: World, s: State, ak: string)
    requires Inv(w, s) && DoSetActive(s, ak).Ok?
    ensures var t := Apply(w, s, SetActive(ak)).0;
            Apply(w, t, SetActive(s.identity.value.activeAk)) == (s, Ok(Active))
  {
    hide Inv, DoSetActive, IsDevice;
    StepInv(w, s, ak);
    SetActiveDoes(w, s, ak);
    var t := Apply(w, s, SetActive(ak)).0;
    var former := s.identity.value.activeAk;
    ActiveIsAuthorized(w, s);
    SameDevices(s.identity.value, t.identity.value, former);
    SetActiveDoes(w, t, former);
    assert t.identity.value.(activeAk := former) == s.identity.value;
    assert t.(identity := Some(s.identity.value)) == s;
  }

  lemma StepInv(w: World, s: State, ak: string)
    requires Inv(w, s)
    ensures Inv(w, Apply(w, s, SetActive(ak)).0)
  {
    hide Inv, Ahead, DoSetActive;
    SetActiveKeeps(w, s, ak);
  }

  /** Two scans end up in the store alike in either order, the hash not colliding on them. */
  lemma ScansCommute(w: World, s: State, q1: string, t1: Option<string>, q2: string, t2: Option<string>)
    requires Base64Laws(w)
    requires AcceptPrepare(w, q1, t1).Ok? && AcceptPrepare(w, q2, t2).Ok? ==>
               NoScanCollision(w, AcceptPrepare(w, q1, t1).value, AcceptPrepare(w, q2, t2).value)
    ensures Apply(w, Apply(w, s, AcceptScan(q1, t1)).0, AcceptScan(q2, t2)).0 == Apply(w, Apply(w, s, AcceptScan(q2, t2)).0, AcceptScan(q1, t1)).0
  {
    hide AcceptPrepare, ValidRecord, Base64Laws, NoScanCollision, Apply;
    var r1, r2 := AcceptPrepare(w, q1, t1), AcceptPrepare(w, q2, t2);
    AcceptScanDoes(w, s, q1, t1);
    AcceptScanDoes(w, s, q2, t2);
    AcceptScanDoes(w, Apply(w, s, AcceptScan(q1, t1)).0, q2, t2);
    AcceptScanDoes(w, Apply(w, s, AcceptScan(q2, t2)).0, q1, t1);
    if r1.Ok? && r2.Ok? {
      if r1.value.scanId == r2.value.scanId {
        PreparedByScan(w, q1, t1);
        PreparedByScan(w, q2, t2);
        SameScan(w, r1.value, r2.value);
      } else {
        TwoPuts(s, r1.value, r2.value);
      }
    }
  }

  lemma SameScan(w: World, a: ScanRecord, b: ScanRecord)
    requires Base64Laws(w) && ValidRecord(w, a) && ValidRecord(w, b) && a.scanId == b.scanId && NoScanCollision(w, a, b)
    ensures a == b
  {
    hide ValidRecord, Base64Laws, Cose.Kid, CoseOf, PubOf;
    OneRecordPerScanId(w, a, b);
  }

  /** The hash tells the two scanned messages apart, and the two trusted keys. */
  predicate NoScanCollision(w: World, a: ScanRecord, b: ScanRecord) {
    (w.crypto.sha256(CoseOf(w, a)) == w.crypto.sha256(CoseOf(w, b)) ==> CoseOf(w, a) == CoseOf(w, b)) &&
    (Cose.Kid(w.crypto, PubOf(w, a)) == Cose.Kid(w.crypto, PubOf(w, b)) ==> PubOf(w, a) == PubOf(w, b))
  }

  lemma PreparedByScan(w: World, qr: string, trust: Option<string>)
    requires Base64Laws(w) && AcceptPrepare(w, qr, trust).Ok?
    ensures ValidRecord(w, AcceptPrepare(w, qr, trust).value)
  {
    hide DecodeGr1, Prepare, ValidRecord, Base64Laws;
    PreparedIsValid(w, DecodeGr1(w, qr).value, trust.value);
  }

  lemma TwoPuts(s: State, a: ScanRecord, b: ScanRecord)
    requires a.scanId != b.scanId
    ensures Holding(Holding(s, a), b) == Holding(Holding(s, b), a)
    ensures Fits(Holding(s, a).scans, b) == Fits(s.scans, b) && Fits(Holding(s, b).scans, a) == Fits(s.scans, a)
  {
  }

  // ----- history -----

  /** `t` remembers all that `s` knows: records, and an identity with the same root material that says no less. */
  ghost predicate Remembers(s: State, t: State) {
    (forall id :: id in s.scans ==> id in t.scans && t.scans[id] == s.scans[id]) &&
    (forall id :: id in s.events ==> id in t.events && t.events[id] == s.events[id]) &&
    (s.identity.Some? ==>
      t.identity.Some? && SameRoot(s.identity.value, t.identity.value) && Leq(ViewOf(s.identity.value), ViewOf(t.identity.value)))
  }

  lemma SaysMore(b: Bundle, c: Bundle)
    requires CountersLeq(Counters(b.seqState), Counters(c.seqState)) && ViewOf(b).revoked <= ViewOf(c).revoked
    requires forall ak :: ak in ViewOf(b).devices ==> ak in ViewOf(c).devices && ViewOf(b).devices[ak] == ViewOf(c).devices[ak]
    ensures Leq(ViewOf(b), ViewOf(c))
  {
    hide KnownPubs, Counters;
  }

  lemma AddRemembers(w: World, s: State, key: Option<key32>, name: string)
    requires Inv(w, s) && DoAddDevice(w, s, key, name).Ok?
    ensures Remembers(s, DoAddDevice(w, s, key, name).value.0)
  {
    hide DoAddDevice, ValidBundle, ScansOk, EventsOk, KnownPubs, Counters, IsDevice, DeriveKid, CanLog, EventId, PayloadCid;
    AddDeviceDoes(w, s, key, name);
    var b, t := s.identity.value, DoAddDevice(w, s, key, name).value.0;
    KnownIsDevice(b, DeriveKid(w, key.value));
    assert CountersLeq(s.seqByAk, t.seqByAk);
    SaysMore(b, t.identity.value);
  }

  lemma RevokeRemembers(w: World, s: State, ak: string)
    requires Inv(w, s) && DoRevokeDevice(w, s, ak).Ok?
    ensures Remembers(s, DoRevokeDevice(w, s, ak).value.0)
  {
    hide DoRevokeDevice, ValidBundle, ScansOk, EventsOk, KnownPubs, Counters, IsDevice, CanLog, EventId, PayloadCid;
    RevokeDeviceDoes(w, s, ak);
    var b, t := s.identity.value, DoRevokeDevice(w, s, ak).value.0;
    if ak in b.revoked {
      LeqIsOrder(ViewOf(b), ViewOf(b), ViewOf(b));
    } else {
      assert CountersLeq(s.seqByAk, t.seqByAk);
      SaysMore(b, t.identity.value);
    }
  }

  lemma SetActiveRemembers(w: World, s: State, ak: string)
    requires Inv(w, s) && DoSetActive(s, ak).Ok?
    ensures Remembers(s, DoSetActive(s, ak).value.0)
  {
    hide DoSetActive, Inv, KnownPubs, Counters, Leq;
    SetActiveDoes(w, s, ak);
    LeqIsOrder(ViewOf(s.identity.value), ViewOf(s.identity.value), ViewOf(s.identity.value));
  }

  /** The identity part of an import. */
  lemma MergeRemembers(w: World, s: State, incoming: Bundle, invalid: SdkError)
    requires Inv(w, s) && ValidBundle(w, incoming) && Merge(w, s.identity, incoming, invalid).Ok?
    ensures Install(s, Merge(w, s.identity, incoming, invalid).value).Some?
    ensures Remembers(s, Install(s, Merge(w, s.identity, incoming, invalid).value).value.0)
  {
    hide ValidBundle, ViewOf, Join, Leq, NoClash, ScansOk, EventsOk, Counters, Install, Keeps, AllEventsValid, Merge;
    InstallMergedKeeps(w, s, incoming, invalid);
    if s.identity.Some? {
      var a := s.identity.value;
      MergeIsJoin(w, a, incoming, invalid);
      JoinIsLeastUpperBound(ViewOf(a), ViewOf(incoming), ViewOf(incoming));
    }
  }

  lemma ImportRemembers(w: World, s: State, bundle: Option<Bundle>)
    requires Inv(w, s) && DoImportIdentity(w, s, bundle).Ok?
    ensures Remembers(s, DoImportIdentity(w, s, bundle).value.0)
  {
    hide Inv, ValidBundle, Merge, Install, AllEventsValid, Remembers;
    MergeRemembers(w, s, bundle.value, BundleInvalid);
  }

  lemma SyncRemembers(w: World, s: State, sync: Option<SyncBundle>)
    requires Inv(w, s) && DoImportSync(w, s, sync).Ok?
    ensures Remembers(s, DoImportSync(w, s, sync).value.0)
  {
    hide Inv, ValidBundle, ValidRecord, ValidEvent, Merge, Install, Keyed.PutAll, Keyed.Agreeing, ViewOf, Leq;
    var b := sync.value;
    var first := SyncIdentity(w, s, b.identity).value.0;
    if b.identity.Some? {
      MergeRemembers(w, s, b.identity.value, SyncInvalid);
    } else if s.identity.Some? {
      LeqIsOrder(ViewOf(s.identity.value), ViewOf(s.identity.value), ViewOf(s.identity.value));
    }
    Keyed.PutAllAdds(first.scans, b.scans, ScanKey);
    Keyed.PutAllAdds(first.events, b.events, EventKey);
  }

  lemma RestRemembers(w: World, s: State, op: Op)
    requires Inv(w, s) && (op.CreateRoot? || op.AcceptPairing? || op.AcceptScan?)
    ensures Remembers(s, Apply(w, s, op).0)
  {
    hide ValidBundle, ScansOk, EventsOk, ViewOf, Leq, Counters, CountersParse, AcceptPrepare, PairingId, RootBundle;
    if s.identity.Some? {
      LeqIsOrder(ViewOf(s.identity.value), ViewOf(s.identity.value), ViewOf(s.identity.value));
    }
  }

  /** No operation but a restore makes a valid store forget a scan, an event, a device, a revocation, a
      counter or its root material. */
  lemma OnlyRestoreForgets(w: World, s: State, op: Op)
    requires Inv(w, s) && !op.Restore?
    ensures Remembers(s, Apply(w, s, op).0)
  {
    hide Inv, DoCreateRoot, DoImportIdentity, DoAddDevice, DoRevokeDevice, DoSetActive, DoAcceptPairing, DoAcceptScan, DoImportSync,
         ViewOf, Leq;
    if s.identity.Some? {
      LeqIsOrder(ViewOf(s.identity.value), ViewOf(s.identity.value), ViewOf(s.identity.value));
    }
    if Attempted(w, s, op).Ok? {
      match op
      case ImportIdentity(bundle) => ImportRemembers(w, s, bundle);
      case AddDevice(key, name) => AddRemembers(w, s, key, name);
      case RevokeDevice(ak) => RevokeRemembers(w, s, ak);
      case SetActive(ak) => SetActiveRemembers(w, s, ak);
      case ImportSync(sync) => SyncRemembers(w, s, sync);
      case _ => RestRemembers(w, s, op);
    }
  }

  lemma RemembersTrans(s: State, t: State, u: State)
    requires Remembers(s, t) && Remembers(t, u)
    ensures Remembers(s, u)
  {
    hide ViewOf, Leq;
    if s.identity.Some? {
      LeqIsOrder(ViewOf(s.identity.value), ViewOf(t.identity.value), ViewOf(u.identity.value));
    }
  }

  ghost predicate NoRestore(ops: seq<Op>) {
    forall i :: 0 <= i < |ops| ==> !ops[i].Restore?
  }

  /** The same along every run without a restore. */
  lemma {:induction false} HistoryOnlyGrows(w: World, s: State, ops: seq<Op>)
    requires Base64Laws(w) && Inv(w, s) && NoRestore(ops)
    ensures Remembers(s, Run(w, s, ops))
  {
    hide Inv, Apply, Remembers, Base64Laws;
    if |ops| == 0 {
      RemembersItself(s);
    } else {
      var before := ops[..|ops| - 1];
      HistoryOnlyGrows(w, s, before);
      RunKeeps(w, s, before);
      OnlyRestoreForgets(w, Run(w, s, before), ops[|ops| - 1]);
      RemembersTrans(s, Run(w, s, before), Run(w, s, ops));
    }
  }

  lemma RemembersItself(s: State)
    ensures Remembers(s, s)
  {
    hide ViewOf, Leq;
    if s.identity.Some? {
      LeqIsOrder(ViewOf(s.identity.value), ViewOf(s.identity.value), ViewOf(s.identity.value));
    }
  }

  // ----- revocation -----

  predicate Authorised(s: State, ak: string) {
    s.identity.Some? && IsAuthorized(s.identity.value, ak)
  }

  /** The identity held, if any, revokes this device. */
  predicate Revokes(identity: Option<Bundle>, ak: string) {
    identity.Some? ==> ak in identity.value.revoked && ak != identity.value.rootKid
  }

  /** The operation restores a snapshot whose identity authorises the device. */
  ghost predicate Reinstates(w: World, op: Op, ak: string) {
    op.Restore? && op.snapshot.Some? && ValidSnapshot(w, op.snapshot.value) &&
    op.snapshot.value.identity.Some? && IsAuthorized(op.snapshot.value.identity.value, ak)
  }

  /** A restore, if it is accepted, brings an identity that revokes the device. */
  ghost predicate StaysRevoked(w: World, op: Op, ak: string) {
    op.Restore? && op.snapshot.Some? && ValidSnapshot(w, op.snapshot.value) ==> Revokes(op.snapshot.value.identity, ak)
  }

  lemma CountersDoNotAuthorise(b: Bundle, m: map<string, string>, ak: string)
    ensures IsAuthorized(b.(seqState := m), ak) <==> IsAuthorized(b, ak)
  {
    SameDevices(b, b.(seqState := m), ak);
  }

  /** Exactly which operations authorise a revoked device again: the restore of a valid snapshot whose
      identity authorises it, and nothing else. */
  lemma ReauthorisedIff(w: World, s: State, op: Op, ak: string)
    requires Inv(w, s) && s.identity.Some? && Revokes(s.identity, ak)
    ensures Authorised(Apply(w, s, op).0, ak) <==> Reinstates(w, op, ak)
  {
    hide Inv, KnownPubs, Counters, IsDevice, ValidSnapshot, Keyed.Index, MaxCounters, Printed;
    if op.Restore? {
      if op.snapshot.Some? && ValidSnapshot(w, op.snapshot.value) {
        RestoreReplaces(w, s, op.snapshot.value);
        var p := op.snapshot.value;
        if p.identity.Some? {
          CountersDoNotAuthorise(p.identity.value, Replaced(s, p).identity.value.seqState, ak);
        }
      }
    } else {
      StillRevoked(w, s, op, ak);
    }
  }

  lemma RestoreReplaces(w: World, s: State, p: Snapshot)
    requires ValidSnapshot(w, p)
    ensures Apply(w, s, Restore(Some(p))).0 == Replaced(s, p)
  {
    hide Replaced, ValidBundle, ValidRecord, ValidEvent, Keyed.Distinct;
  }

  lemma StillRevoked(w: World, s: State, op: Op, ak: string)
    requires Inv(w, s) && s.identity.Some? && Revokes(s.identity, ak) && !op.Restore?
    ensures var t := Apply(w, s, op).0; t.identity.Some? && Revokes(t.identity, ak)
  {
    hide Inv, KnownPubs, Counters, Apply;
    OnlyRestoreForgets(w, s, op);
    var t := Apply(w, s, op).0;
    assert ak in ViewOf(s.identity.value).revoked;
    assert ak in ViewOf(t.identity.value).revoked;
  }

  lemma RevokedStep(w: World, s: State, op: Op, ak: string)
    requires Inv(w, s) && s.identity.Some? && Revokes(s.identity, ak) && StaysRevoked(w, op, ak)
    ensures Revokes(Apply(w, s, op).0.identity, ak)
  {
    hide Inv, ValidSnapshot, Keyed.Index, MaxCounters, Printed;
    if op.Restore? {
      if op.snapshot.Some? && ValidSnapshot(w, op.snapshot.value) {
        RestoreReplaces(w, s, op.snapshot.value);
      }
    } else {
      StillRevoked(w, s, op, ak);
    }
  }

  /** A revoked device stays revoked along every run that holds an identity before each step and whose
      accepted restores bring back identities that revoke it too: not by adding, importing, syncing or pairing
      is it authorised again, and it cannot be made active. */
  lemma {:induction false} RevokedForGood(w: World, s: State, ops: seq<Op>, ak: string)
    requires Base64Laws(w) && Inv(w, s) && s.identity.Some? && Revokes(s.identity, ak) && HeldThroughout(w, s, ops)
    requires forall i :: 0 <= i < |ops| ==> StaysRevoked(w, ops[i], ak)
    ensures var t := Run(w, s, ops);
            Revokes(t.identity, ak) && !Authorised(t, ak) && (t.identity.Some? ==> t.identity.value.activeAk != ak) &&
            Apply(w, t, SetActive(ak)) == (t, Err(if t.identity.Some? then UnauthorizedAk else IdentityMissing))
  {
    hide Inv, Base64Laws, StaysRevoked, Apply, IsDevice;
    var t := Run(w, s, ops);
    if |ops| > 0 {
      var before := ops[..|ops| - 1];
      HeldBefore(w, s, ops);
      RevokedForGood(w, s, before, ak);
      RunKeeps(w, s, before);
      RevokedStep(w, Run(w, s, before), ops[|ops| - 1], ak);
    }
    RunKeeps(w, s, ops);
    CannotActivate(w, t, ak);
  }

  lemma CannotActivate(w: World, t: State, ak: string)
    requires Inv(w, t) && Revokes(t.identity, ak)
    ensures !Authorised(t, ak) && (t.identity.Some? ==> t.identity.value.activeAk != ak)
    ensures Apply(w, t, SetActive(ak)) == (t, Err(if t.identity.Some? then UnauthorizedAk else IdentityMissing))
  {
    hide Inv, IsDevice;
    if t.identity.Some? {
      ActiveIsAuthorized(w, t);
    }
  }

  /** In particular along every run without a restore, which always holds an identity. */
  lemma RevokedWithoutRestore(w: World, s: State, ops: seq<Op>, ak: string)
    requires Base64Laws(w) && Inv(w, s) && NoRestore(ops) && s.identity.Some? && Revokes(s.identity, ak)
    ensures var t := Run(w, s, ops);
            t.identity.Some? && !Authorised(t, ak) && t.identity.value.activeAk != ak &&
            Apply(w, t, SetActive(ak)) == (t, Err(UnauthorizedAk))
  {
    hide Inv, Run, Base64Laws, Apply, Authorised, ViewOf, Leq;
    forall i | 0 <= i < |ops| ensures Run(w, s, ops[..i]).identity.Some? {
      HistoryOnlyGrows(w, s, ops[..i]);
    }
    HistoryOnlyGrows(w, s, ops);
    RevokedForGood(w, s, ops, ak);
  }

  lemma ActiveIsAuthorized(w: World, t: State)
    requires Inv(w, t) && t.identity.Some?
    ensures IsAuthorized(t.identity.value, t.identity.value.activeAk)
  {
    hide RootMaterialOk, GoodDevice, ScansOk, EventsOk, DistinctAks, CountersParse;
  }

  /** A restore does make it forget: a snapshot taken before a revocation brings the device back. */
  lemma RestoreUndoesRevocation(w: World, s: State, p: Snapshot, ak: string)
    requires Inv(w, s) && IsSnapshotOf(s, p) && DoRevokeDevice(w, s, ak).Ok? && ak !in s.identity.value.revoked
    ensures var t := Apply(w, s, RevokeDevice(ak)).0;
            var u := Apply(w, t, Restore(Some(p))).0;
            t.identity.Some? && !IsAuthorized(t.identity.value, ak) && u.identity.Some? && IsAuthorized(u.identity.value, ak)
  {
    hide Inv, DoRevokeDevice, DoRestore, IsSnapshotOf, KnownPubs, Counters, MaxCounters, Printed, Logged, CanLog;
    RevokeDeviceDoes(w, s, ak);
    var t := Apply(w, s, RevokeDevice(ak)).0;
    SnapshotRestores(w, s, p, t);
    var c := t.identity.value;
    assert ak in ViewOf(c).revoked;
    assert ak in c.revoked;
  }

  // ----- numbers across replicas -----

  /** An event under this number with another payload. */
  ghost predicate HoldsRival(events: map<string, LifecycleEvent>, n: nat, payload: string) {
    exists id :: id in events && events[id].seqNo == n && events[id].payloadCid != payload
  }

  /** When a number is shared across replicas, exactly: after adding a device under its next number and
      importing another replica's export, a store holds a rival event under that number if and only if the
      other replica held one. It held none if its root counter was not ahead. */
  lemma SharedNumberIff(w: World, s: State, t: State, key: key32, name: string, y: SyncBundle)
    requires Base64Laws(w) && Inv(w, s) && Inv(w, t) && s.identity.Some? && t.identity.Some?
    requires SameRoot(s.identity.value, t.identity.value) && IsSyncOf(t, y)
    requires Apply(w, s, AddDevice(Some(key), name)).1.Ok?
    requires CollisionFree(w, Apply(w, s, AddDevice(Some(key), name)).0, t)
    ensures var u := Apply(w, Apply(w, s, AddDevice(Some(key), name)).0, ImportSync(Some(y)));
            var n, payload := NextNumber(s, s.identity.value), "grant:" + DeriveKid(w, key);
            u.1.Ok? && (HoldsRival(u.0.events, n, payload) <==> HoldsRival(t.events, n, payload)) &&
            (CounterOf(t.seqByAk, s.identity.value.rootKid) <= CounterOf(s.seqByAk, s.identity.value.rootKid) ==>
              !HoldsRival(u.0.events, n, payload))
  {
    hide Inv, DoAddDevice, DoImportSync, DeriveKid, CollisionFree, IsSyncOf, Base64Laws, KnownPubs, Counters, CanLog, EventId, IsDevice, Merge, CounterOf;
    var op := AddDevice(Some(key), name);
    var s1 := Apply(w, s, op).0;
    AddDeviceDoes(w, s, Some(key), name);
    StepKeeps(w, s, op);
    ImportOfExport(w, s1, t, y);
    SharedEvents(w, s1, t);
    var b := s.identity.value;
    var u := Apply(w, s1, ImportSync(Some(y))).0;
    forall id | id in s.events ensures s.events[id].seqNo < NextNumber(s, b) {
      HeldNumberIsLower(w, s, b, id);
    }
    forall id | id in t.events ensures t.events[id].seqNo <= CounterOf(t.seqByAk, b.rootKid) {
      HeldNumberIsLower(w, t, t.identity.value, id);
    }
    RivalsOfUnion(s.events, s1.events, t.events, EventId(w, "DeviceKeyGrant", b.rootKid, NextNumber(s, b), DeriveKid(w, key)),
                  NextNumber(s, b), "grant:" + DeriveKid(w, key));
  }

  lemma RivalsOfUnion(before: map<string, LifecycleEvent>, mine: map<string, LifecycleEvent>, theirs: map<string, LifecycleEvent>,
                      own: string, n: nat, payload: string)
    requires forall id :: id in mine <==> id in before || id == own
    requires forall id :: id in before ==> mine[id] == before[id] && before[id].seqNo < n
    requires own in mine && mine[own].payloadCid == payload
    requires forall id :: id in mine && id in theirs ==> mine[id] == theirs[id]
    ensures HoldsRival(mine + theirs, n, payload) <==> HoldsRival(theirs, n, payload)
  {
    if HoldsRival(theirs, n, payload) {
      var id :| id in theirs && theirs[id].seqNo == n && theirs[id].payloadCid != payload;
      assert (mine + theirs)[id] == theirs[id];
    }
  }

  /** Two events under one key and number, with different payloads: what the ledger calls a conflict. */
  ghost predicate HoldsDoubleNumber(s: State) {
    exists i, j :: i in s.events && j in s.events && s.events[i].ak == s.events[j].ak &&
                   s.events[i].seqNo == s.events[j].seqNo && s.events[i].payloadCid != s.events[j].payloadCid
  }

  /** Numbers are new on one replica but not across replicas: two clients with the same root counter that
      each add a device, then sync, hold two grants under one number of the root with different payloads. */
  lemma OfflineGrantsShareANumber(w: World, s: State, t: State, k1: key32, k2: key32, name1: string, name2: string, y: SyncBundle)
    requires Base64Laws(w) && Inv(w, s) && Inv(w, t) && s.identity.Some? && t.identity.Some?
    requires SameRoot(s.identity.value, t.identity.value)
    requires CounterOf(s.seqByAk, s.identity.value.rootKid) == CounterOf(t.seqByAk, s.identity.value.rootKid)
    requires Apply(w, s, AddDevice(Some(k1), name1)).1.Ok? && Apply(w, t, AddDevice(Some(k2), name2)).1.Ok?
    requires DeriveKid(w, k1) != DeriveKid(w, k2)
    requires var s1, t1 := Apply(w, s, AddDevice(Some(k1), name1)).0, Apply(w, t, AddDevice(Some(k2), name2)).0;
             IsSyncOf(t1, y) && CollisionFree(w, s1, t1)
    ensures var u := Apply(w, Apply(w, s, AddDevice(Some(k1), name1)).0, ImportSync(Some(y)));
            u.1.Ok? && HoldsDoubleNumber(u.0)
  {
    hide Inv, DoAddDevice, DoImportSync, DeriveKid, CollisionFree, IsSyncOf, Base64Laws, KnownPubs, Counters, CanLog, EventId, IsDevice, Merge;
    var op1, op2 := AddDevice(Some(k1), name1), AddDevice(Some(k2), name2);
    var s1, t1 := Apply(w, s, op1).0, Apply(w, t, op2).0;
    AddDeviceDoes(w, s, Some(k1), name1);
    AddDeviceDoes(w, t, Some(k2), name2);
    StepKeeps(w, s, op1);
    StepKeeps(w, t, op2);
    ImportOfExport(w, s1, t1, y);
    var root, n := s.identity.value.rootKid, NextNumber(s, s.identity.value);
    var i, j := EventId(w, "DeviceKeyGrant", root, n, DeriveKid(w, k1)), EventId(w, "DeviceKeyGrant", root, n, DeriveKid(w, k2));
    var u := Apply(w, s1, ImportSync(Some(y))).0;
    assert i in s1.events && j in t1.events;
    GrantPayloads(DeriveKid(w, k1), DeriveKid(w, k2));
    SharedEvents(w, s1, t1);
    assert u.events[j] == t1.events[j] && u.events[i] == s1.events[i];
  }

  lemma GrantPayloads(a: string, b: string)
    requires a != b
    ensures PayloadCid("DeviceKeyGrant", a) != PayloadCid("DeviceKeyGrant", b)
  {
    assert ("grant:" + a)[6..] == a && ("grant:" + b)[6..] == b;
  }
}

/** The client store as a state machine: what each operation does to scans, identity, counters and
    lifecycle events (core/rust/grain-client-core/src/memory_store.rs, identity.rs, device.rs,
    pairing.rs, scan.rs, sync.rs, custody.rs). */
module Store {
  import opened Prelude
  import opened Scan
  import opened Identity
  import opened Texts
  import Cose
  import Decimal
  import Hex
  import Keyed
  import Lex
  import StableSort

  datatype State = State(
    scans: map<string, ScanRecord>,
    identity: Option<Bundle>,
    seqByAk: map<string, u64>,
    events: map<string, LifecycleEvent>)

  const EMPTY := State(map[], None, map[], map[])

  // ----- what travels between stores -----

  datatype Custody = Custody(version: nat, material: string, deviceBound: bool, storage: string)

  function PortableFor(material: string): Custody {
    Custody(1, material, false, "app_encrypted_transfer_required")
  }

  datatype Snapshot = Snapshot(
    version: nat, identity: Option<Bundle>, scans: seq<ScanRecord>, events: seq<LifecycleEvent>)

  datatype SyncBundle = SyncBundle(
    version: nat, custody: Custody, identity: Option<Bundle>, scans: seq<ScanRecord>, events: seq<LifecycleEvent>)

  datatype Envelope = Envelope(version: nat, pairingId: string, transfer: string, custody: Custody, bundle: Bundle)

  function PairingId(w: World, b: Bundle): string {
    "pairing-sha256:" + Hex.Encode(w.crypto.sha256(Utf8(
      b.rootKid + ":" + b.activeAk + ":" + b.syncSecretB64 + ":" + Decimal.Print(|b.devices|))))
  }

  /** `pairing_create_envelope` on a store that holds `b`. */
  function MakeEnvelope(w: World, b: Bundle): Envelope {
    Envelope(1, PairingId(w, b), "identity_bundle_v1", PortableFor("identity_bundle_v1"), b)
  }

  // ----- operations and their outcomes -----

  type key32 = b: bytes | |b| == 32 witness Fill(0, 32)

  /** Random keys and decoded payloads are arguments; `None` stands for a failed source or decoding. */
  datatype Op =
    | CreateRoot(keys: Option<(key32, key32)>, name: string)
    | ImportIdentity(bundle: Option<Bundle>)
    | AddDevice(key: Option<key32>, name: string)
    | RevokeDevice(ak: string)
    | SetActive(ak: string)
    | AcceptPairing(envelope: Option<Envelope>)
    | AcceptScan(qr: string, trust: Option<string>)
    | ImportSync(sync: Option<SyncBundle>)
    | Restore(snapshot: Option<Snapshot>)

  datatype Status =
    | Created | Imported | Added | Revoked | Active | Paired | AlreadyPaired
    | Accepted | AlreadyAccepted | AlreadyImported | Restored

  type Outcome = Result<Status, SdkError>

  /** What a transaction comes to: a new state and status, or an error and nothing else. */
  type Attempt = Result<(State, Status), SdkError>

  function ScanKey(r: ScanRecord): string { r.scanId }

  function EventKey(e: LifecycleEvent): string { e.eventId }

  // ----- primitive writes; `None` is a store conflict -----

  /** `save_identity_bundle`: the counters are re-read from the bundle. */
  function Save(s: State, b: Bundle): Option<(State, bool)> {
    if !CountersParse(b.seqState) then None
    else Some((s.(identity := Some(b), seqByAk := Counters(b.seqState)), s.identity != Some(b)))
  }

  /** `import_seq_state`. */
  function ImportSeq(s: State, m: map<string, string>): Option<State> {
    if !CountersParse(m) then None else Some(s.(seqByAk := Counters(m)))
  }

  function CounterOf(m: map<string, u64>, ak: string): u64 {
    if ak in m then m[ak] else 0
  }

  /** `reserve_next_seq`: the counter goes up by one, unless it is at its limit. */
  function Reserve(s: State, ak: string): Option<(State, u64)> {
    var next := CounterOf(s.seqByAk, ak) + 1;
    if next >= U64_BOUND then None else Some((s.(seqByAk := s.seqByAk[ak := next]), next))
  }

  /** `append_lifecycle_event`. */
  function Append(s: State, e: LifecycleEvent): Option<(State, bool)> {
    match Keyed.Put(s.events, e.eventId, e)
    case None => None
    case Some(p) => Some((s.(events := p.0), p.1))
  }

  /** `put_accepted_scan`. */
  function PutScan(s: State, r: ScanRecord): Option<(State, bool)> {
    match Keyed.Put(s.scans, r.scanId, r)
    case None => None
    case Some(p) => Some((s.(scans := p.0), p.1))
  }

  /** Counters first, then the bundle, as the imports do. */
  function Install(s: State, b: Bundle): Option<(State, bool)> {
    match ImportSeq(s, b.seqState)
    case None => None
    case Some(t) => Save(t, b)
  }

  // ----- the operations -----

  function RootBundle(w: World, pub: bytes, secret: bytes, name: string): Bundle {
    var kid := DeriveKid(w, pub);
    Bundle(1, kid, w.b64Encode(pub), kid, [DeviceKey(kid, name, w.b64Encode(pub))], [], w.b64Encode(secret), map[kid := "0"])
  }

  /** `identity_create_root`. */
  function DoCreateRoot(w: World, s: State, keys: Option<(key32, key32)>, name: string): Attempt {
    if s.identity.Some? then Err(IdentityExists)
    else if keys.None? then Err(CsprngUnavailable)
    else
      match Save(s, RootBundle(w, keys.value.0, keys.value.1, name))
      case None => Err(StoreConflict)
      case Some(t) => Ok((t.0, Created))
  }

  predicate AllEventsValid(w: World, events: map<string, LifecycleEvent>, b: Bundle) {
    forall id :: id in events ==> ValidEvent(w, events[id], b)
  }

  /** `identity_import_bundle`. */
  function DoImportIdentity(w: World, s: State, bundle: Option<Bundle>): Attempt {
    if bundle.None? then Err(BundleInvalid)
    else if bundle.value.version != 1 then Err(BundleVersion)
    else if !ValidBundle(w, bundle.value) then Err(BundleInvalid)
    else
      match Merge(w, s.identity, bundle.value, BundleInvalid)
      case Err(e) => Err(e)
      case Ok(m) =>
        if !AllEventsValid(w, s.events, m) then Err(IdentityConflict)
        else
          match Install(s, m)
          case None => Err(StoreConflict)
          case Some(t) => Ok((t.0, Imported))
  }

  /** The common end of adding and revoking: reserve a root number, write it into the bundle, save the
      bundle, log the event. */
  function Log(w: World, s: State, b: Bundle, t: string, target: string): Option<State> {
    match Reserve(s, b.rootKid)
    case None => None
    case Some(reserved) =>
      match Save(reserved.0, b.(seqState := b.seqState[b.rootKid := Decimal.Print(reserved.1)]))
      case None => None
      case Some(saved) =>
        match Append(saved.0, MakeEvent(w, t, b.rootKid, reserved.1, target))
        case None => None
        case Some(done) => Some(done.0)
  }

  function Granted(w: World, b: Bundle, key: bytes, name: string): Bundle {
    b.(devices := b.devices + [DeviceKey(DeriveKid(w, key), name, w.b64Encode(key))])
  }

  /** `device_add_key`. */
  function DoAddDevice(w: World, s: State, key: Option<key32>, name: string): Attempt {
    if key.None? then Err(CsprngUnavailable)
    else if s.identity.None? then Err(IdentityMissing)
    else
      var b, ak := s.identity.value, DeriveKid(w, key.value);
      if IsDevice(b, ak) then Err(DeviceExists)
      else
        match Log(w, s, Granted(w, b, key.value, name), "DeviceKeyGrant", ak)
        case None => Err(StoreConflict)
        case Some(t) => Ok((t, Added))
  }

  function RevokedBundle(b: Bundle, ak: string): Bundle {
    b.(revoked := StableSort.Sort(b.revoked + [ak], Lex.StrLess),
       activeAk := if b.activeAk == ak then b.rootKid else b.activeAk)
  }

  /** `device_revoke_key`. */
  function DoRevokeDevice(w: World, s: State, ak: string): Attempt {
    if s.identity.None? then Err(IdentityMissing)
    else
      var b := s.identity.value;
      if ak == b.rootKid then Err(RevokeRootForbidden)
      else if !IsDevice(b, ak) then Err(DeviceUnknown)
      else if ak in b.revoked then Ok((s, Revoked))
      else
        match Log(w, s, RevokedBundle(b, ak), "DeviceKeyRevoke", ak)
        case None => Err(StoreConflict)
        case Some(t) => Ok((t, Revoked))
  }

  /** `device_set_active`. */
  function DoSetActive(s: State, ak: string): Attempt {
    if s.identity.None? then Err(IdentityMissing)
    else if !IsAuthorized(s.identity.value, ak) then Err(UnauthorizedAk)
    else
      match Save(s, s.identity.value.(activeAk := ak))
      case None => Err(StoreConflict)
      case Some(t) => Ok((t.0, Active))
  }

  /** `decode_pairing_envelope`, after the JSON. */
  predicate ValidEnvelope(w: World, e: Envelope) {
    e.version == 1 && e.transfer == "identity_bundle_v1" && e.custody == PortableFor("identity_bundle_v1") &&
    e.pairingId == PairingId(w, e.bundle) && ValidBundle(w, e.bundle)
  }

  /** `pairing_accept_envelope`. */
  function DoAcceptPairing(w: World, s: State, envelope: Option<Envelope>): Attempt {
    if envelope.None? || !ValidEnvelope(w, envelope.value) then Err(PairingInvalid)
    else if s.identity == Some(envelope.value.bundle) then Ok((s, AlreadyPaired))
    else if s.identity.Some? then Err(IdentityConflict)
    else
      match Install(s, envelope.value.bundle)
      case None => Err(StoreConflict)
      case Some(t) => Ok((t.0, Paired))
  }

  /** `scan_accept`. */
  function DoAcceptScan(w: World, s: State, qr: string, trust: Option<string>): Attempt {
    match AcceptPrepare(w, qr, trust)
    case Err(e) => Err(ScanRejected(e))
    case Ok(r) =>
      match PutScan(s, r)
      case None => Err(StoreConflict)
      case Some(t) => Ok((t.0, if t.1 then Accepted else AlreadyAccepted))
  }

  /** `decode_sync_bundle`, after the JSON. */
  predicate ValidSync(w: World, b: SyncBundle) {
    b.version == 1 && b.custody == PortableFor("sync_bundle_v1") &&
    (b.identity.Some? ==> ValidBundle(w, b.identity.value)) &&
    (forall r :: r in b.scans ==> ValidRecord(w, r)) &&
    (b.identity.None? ==> b.events == []) &&
    (b.identity.Some? ==> forall e :: e in b.events ==> ValidEvent(w, e, b.identity.value))
  }

  /** The identity part of a sync import. */
  function SyncIdentity(w: World, s: State, incoming: Option<Bundle>): Result<(State, bool), SdkError> {
    if incoming.None? then Ok((s, false))
    else
      match Merge(w, s.identity, incoming.value, SyncInvalid)
      case Err(e) => Err(e)
      case Ok(m) =>
        match Install(s, m)
        case None => Err(StoreConflict)
        case Some(t) => Ok(t)
  }

  /** The records of a sync import. */
  function SyncRecords(s: State, scans: seq<ScanRecord>, events: seq<LifecycleEvent>): Option<(State, bool)> {
    match Keyed.PutAll(s.scans, scans, ScanKey)
    case None => None
    case Some(p) =>
      match Keyed.PutAll(s.events, events, EventKey)
      case None => None
      case Some(q) => Some((s.(scans := p.0, events := q.0), p.1 || q.1))
  }

  /** `sync_import_bundle`. */
  function DoImportSync(w: World, s: State, sync: Option<SyncBundle>): Attempt {
    if sync.None? || !ValidSync(w, sync.value) then Err(SyncInvalid)
    else
      var b := sync.value;
      if s.identity.Some? && b.identity.Some? && s.identity.value.rootKid != b.identity.value.rootKid then Err(IdentityConflict)
      else
        match SyncIdentity(w, s, b.identity)
        case Err(e) => Err(e)
        case Ok(first) =>
          match SyncRecords(first.0, b.scans, b.events)
          case None => Err(StoreConflict)
          case Some(t) => Ok((t.0, if first.1 || t.1 then Imported else AlreadyImported))
  }

  /** `decode_store_snapshot`, after the JSON: shape, then records without repetition. */
  ghost predicate ValidSnapshot(w: World, p: Snapshot) {
    p.version == 1 &&
    (p.identity.Some? ==> ValidBundle(w, p.identity.value)) &&
    (p.identity.None? ==> p.events == []) &&
    (forall r :: r in p.scans ==> ValidRecord(w, r)) && Keyed.Distinct(p.scans, ScanKey) &&
    (p.identity.Some? ==> forall e :: e in p.events ==> ValidEvent(w, e, p.identity.value)) &&
    Keyed.Distinct(p.events, EventKey)
  }

  function Printed(m: map<string, u64>): map<string, string> {
    map ak | ak in m :: Decimal.Print(m[ak])
  }

  function SnapshotCounters(p: Snapshot): map<string, u64> {
    if p.identity.Some? then Counters(p.identity.value.seqState) else map[]
  }

  /** The state after a restore: records and identity from the snapshot, counters from whichever is ahead. */
  function Replaced(s: State, p: Snapshot): State {
    var counters := MaxCounters(SnapshotCounters(p), s.seqByAk);
    State(Keyed.Index(p.scans, ScanKey),
          if p.identity.None? then None else Some(p.identity.value.(seqState := Printed(counters))),
          counters,
          Keyed.Index(p.events, EventKey))
  }

  /** `restore_store_snapshot`. */
  ghost function DoRestore(w: World, s: State, snapshot: Option<Snapshot>): Attempt {
    if snapshot.None? then Err(SnapshotInvalid)
    else if snapshot.value.version != 1 then Err(SnapshotVersion)
    else if !ValidSnapshot(w, snapshot.value) then Err(SnapshotInvalid)
    else Ok((Replaced(s, snapshot.value), Restored))
  }

  ghost function Attempted(w: World, s: State, op: Op): Attempt {
    match op
    case CreateRoot(keys, name) => DoCreateRoot(w, s, keys, name)
    case ImportIdentity(bundle) => DoImportIdentity(w, s, bundle)
    case AddDevice(key, name) => DoAddDevice(w, s, key, name)
    case RevokeDevice(ak) => DoRevokeDevice(w, s, ak)
    case SetActive(ak) => DoSetActive(s, ak)
    case AcceptPairing(envelope) => DoAcceptPairing(w, s, envelope)
    case AcceptScan(qr, trust) => DoAcceptScan(w, s, qr, trust)
    case ImportSync(sync) => DoImportSync(w, s, sync)
    case Restore(snapshot) => DoRestore(w, s, snapshot)
  }

  /** A transaction commits or rolls back. */
  function Commit(s: State, a: Attempt): (State, Outcome) {
    match a
    case Ok(done) => (done.0, Ok(done.1))
    case Err(e) => (s, Err(e))
  }

  ghost function Apply(w: World, s: State, op: Op): (State, Outcome) {
    Commit(s, Attempted(w, s, op))
  }

  /** The state after a run. */
  ghost function Run(w: World, s: State, ops: seq<Op>): State {
    if |ops| == 0 then s else Apply(w, Run(w, s, ops[..|ops| - 1]), ops[|ops| - 1]).0
  }

  // ----- exports -----

  /** `p` is the snapshot exported from `s`. */
  ghost predicate IsSnapshotOf(s: State, p: Snapshot) {
    p.version == 1 && p.identity == s.identity && Keyed.IsListing(s.scans, p.scans) && Keyed.IsListing(s.events, p.events)
  }

  /** `b` is the sync bundle exported from `s`. */
  ghost predicate IsSyncOf(s: State, b: SyncBundle) {
    b.version == 1 && b.custody == PortableFor("sync_bundle_v1") && b.identity == s.identity &&
    Keyed.IsListing(s.scans, b.scans) && Keyed.IsListing(s.events, b.events)
  }
}

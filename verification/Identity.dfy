/** Identity bundles and lifecycle events: validation, authorisation and the merge of two bundles
    (core/rust/grain-client-core/src/identity.rs and device.rs). */
module Identity {
  import opened Prelude
  import opened Scan
  import opened Texts
  import Decimal
  import Hex
  import Lex
  import StableSort

  datatype SdkError =
    | BundleInvalid
    | BundleVersion
    | IdentityConflict
    | IdentityExists
    | IdentityMissing
    | CsprngUnavailable
    | DeviceExists
    | DeviceUnknown
    | RevokeRootForbidden
    | UnauthorizedAk
    | StoreConflict
    | SnapshotInvalid
    | SnapshotVersion
    | AtomicNested
    | OutsideAtomic
    | SyncInvalid
    | PairingInvalid
    | ScanRejected(cause: ScanError)

  datatype DeviceKey = DeviceKey(ak: string, name: string, pubB64: string)

  datatype Bundle = Bundle(
    version: nat,
    rootKid: string,
    rootPubB64: string,
    activeAk: string,
    devices: seq<DeviceKey>,
    revoked: seq<string>,
    syncSecretB64: string,
    seqState: map<string, string>)

  // ----- validation -----

  /** `decode_standard_b64`. */
  function DecodeStd(w: World, s: string): Option<bytes> {
    if s == "" || !Trimmed(s) then None else w.b64Decode(s)
  }

  predicate DecodesToSomething(w: World, s: string) {
    DecodeStd(w, s).Some? && |DecodeStd(w, s).value| > 0
  }

  /** `derive_kid`: half of the hexadecimal digest. */
  function DeriveKid(w: World, b: bytes): (r: string)
    ensures |r| == 32
  {
    Hex.Encode(w.crypto.sha256(b))[..32]
  }

  predicate IsDevice(b: Bundle, ak: string) {
    exists i :: 0 <= i < |b.devices| && b.devices[i].ak == ak
  }

  /** `is_authorized`: the root always, others while listed and not revoked. */
  predicate IsAuthorized(b: Bundle, ak: string) {
    ak == b.rootKid || (ak !in b.revoked && IsDevice(b, ak))
  }

  predicate GoodDevice(w: World, b: Bundle, d: DeviceKey) {
    d.ak != "" && d.pubB64 != "" && DecodesToSomething(w, d.pubB64) &&
    DeriveKid(w, DecodeStd(w, d.pubB64).value) == d.ak &&
    (d.ak == b.rootKid ==> DecodeStd(w, d.pubB64) == DecodeStd(w, b.rootPubB64))
  }

  predicate DistinctAks(ds: seq<DeviceKey>) {
    forall i, j :: 0 <= i < j < |ds| ==> ds[i].ak != ds[j].ak
  }

  predicate RootMaterialOk(w: World, b: Bundle) {
    b.rootKid != "" && b.rootPubB64 != "" && b.activeAk != "" && b.syncSecretB64 != "" && |b.devices| > 0 &&
    DecodesToSomething(w, b.rootPubB64) && DecodesToSomething(w, b.syncSecretB64) &&
    DeriveKid(w, DecodeStd(w, b.rootPubB64).value) == b.rootKid
  }

  predicate CountersParse(m: map<string, string>) {
    forall ak :: ak in m ==> Decimal.Parse(m[ak]).Some?
  }

  /** What `validate_identity_bundle` demands. */
  predicate ValidBundle(w: World, b: Bundle) {
    b.version == 1 && RootMaterialOk(w, b) &&
    (forall i :: 0 <= i < |b.devices| ==> GoodDevice(w, b, b.devices[i])) && DistinctAks(b.devices) &&
    IsDevice(b, b.rootKid) && IsAuthorized(b, b.activeAk) && CountersParse(b.seqState)
  }

  method ValidateBundle(w: World, b: Bundle) returns (r: Option<SdkError>)
    ensures r == if b.version != 1 then Some(BundleVersion) else if ValidBundle(w, b) then None else Some(BundleInvalid)
  {
    hide RootMaterialOk, IsAuthorized, GoodDevice, DistinctAks, CountersParse;
    if b.version != 1 {
      return Some(BundleVersion);
    }
    if !RootMaterialOk(w, b) {
      return Some(BundleInvalid);
    }
    var devicesOk := CheckDevices(w, b);
    if !devicesOk || !IsAuthorized(b, b.activeAk) {
      return Some(BundleInvalid);
    }
    var countersOk := CheckCounters(b.seqState);
    if !countersOk {
      return Some(BundleInvalid);
    }
    r := None;
  }

  /** The loop over devices: shape, no repeated identifier, the root among them. */
  method CheckDevices(w: World, b: Bundle) returns (ok: bool)
    ensures ok <==> (forall i :: 0 <= i < |b.devices| ==> GoodDevice(w, b, b.devices[i])) && DistinctAks(b.devices) && IsDevice(b, b.rootKid)
  {
    hide GoodDevice;
    var seen: set<string> := {};
    var rootSeen := false;
    for i := 0 to |b.devices|
      invariant forall j :: 0 <= j < i ==> GoodDevice(w, b, b.devices[j])
      invariant forall j, k :: 0 <= j < k < i ==> b.devices[j].ak != b.devices[k].ak
      invariant forall ak :: ak in seen <==> exists j :: 0 <= j < i && b.devices[j].ak == ak
      invariant rootSeen <==> exists j :: 0 <= j < i && b.devices[j].ak == b.rootKid
    {
      var d := b.devices[i];
      if d.ak in seen || !GoodDevice(w, b, d) {
        return false;
      }
      seen := seen + {d.ak};
      if d.ak == b.rootKid {
        rootSeen := true;
      }
    }
    ok := rootSeen;
  }

  method CheckCounters(m: map<string, string>) returns (ok: bool)
    ensures ok <==> CountersParse(m)
  {
    hide Decimal.Parse;
    var rest := m.Keys;
    while rest != {}
      invariant rest <= m.Keys
      invariant forall ak :: ak in m && ak !in rest ==> Decimal.Parse(m[ak]).Some?
      decreases |rest|
    {
      var ak :| ak in rest;
      if Decimal.Parse(m[ak]).None? {
        return false;
      }
      rest := rest - {ak};
    }
    ok := true;
  }

  /** The counters as numbers. */
  function Counters(m: map<string, string>): map<string, u64> {
    map ak | ak in m && Decimal.Parse(m[ak]).Some? :: Decimal.Parse(m[ak]).value
  }

  /** Pointwise maximum of counters; an absent one counts for nothing. */
  function MaxCounters(a: map<string, u64>, b: map<string, u64>): map<string, u64> {
    map ak | ak in a.Keys + b.Keys ::
      if ak !in a then b[ak] else if ak !in b then a[ak] else if a[ak] >= b[ak] then a[ak] else b[ak]
  }

  // ----- lifecycle events -----

  datatype LifecycleEvent = LifecycleEvent(eventId: string, t: string, ak: string, seqNo: u64, payloadCid: string, targetAk: string)

  function PayloadCid(t: string, target: string): Option<string> {
    if t == "DeviceKeyGrant" then Some("grant:" + target)
    else if t == "DeviceKeyRevoke" then Some("revoke:" + target)
    else None
  }

  /** The text whose digest names an event. */
  function EventText(t: string, root: string, seqNo: nat, target: string): string {
    t + ":" + root + ":" + Decimal.Print(seqNo) + ":" + target
  }

  function EventId(w: World, t: string, root: string, seqNo: nat, target: string): string {
    "event-sha256:" + Hex.Encode(w.crypto.sha256(Utf8(EventText(t, root, seqNo, target))))
  }

  /** `lifecycle_event`. */
  function MakeEvent(w: World, t: string, root: string, seqNo: u64, target: string): LifecycleEvent {
    LifecycleEvent(EventId(w, t, root, seqNo, target), t, root, seqNo,
                   if PayloadCid(t, target).Some? then PayloadCid(t, target).value else "lifecycle:" + target, target)
  }

  /** `validate_lifecycle_event_record`. */
  predicate ValidEvent(w: World, e: LifecycleEvent, b: Bundle) {
    e.eventId != "" && e.t != "" && e.ak != "" && e.payloadCid != "" && e.targetAk != "" && e.seqNo != 0 &&
    e.ak == b.rootKid &&
    PayloadCid(e.t, e.targetAk) == Some(e.payloadCid) &&
    e.eventId == EventId(w, e.t, e.ak, e.seqNo, e.targetAk) &&
    e.ak in b.seqState && Decimal.Parse(b.seqState[e.ak]).Some? && e.seqNo <= Decimal.Parse(b.seqState[e.ak]).value &&
    e.targetAk != b.rootKid && IsDevice(b, e.targetAk) &&
    (e.t == "DeviceKeyRevoke" ==> e.targetAk in b.revoked)
  }

  // ----- merge -----

  predicate AkLess(a: DeviceKey, b: DeviceKey) {
    Lex.StrLess(a.ak, b.ak)
  }

  predicate SameRoot(a: Bundle, b: Bundle) {
    a.rootKid == b.rootKid && a.rootPubB64 == b.rootPubB64 && a.syncSecretB64 == b.syncSecretB64
  }

  function KnownPubs(ds: seq<DeviceKey>): map<string, string> {
    if |ds| == 0 then map[] else KnownPubs(ds[..|ds| - 1])[ds[|ds| - 1].ak := ds[|ds| - 1].pubB64]
  }

  /** The incoming devices not known yet, in incoming order; none if a known one has another key. */
  function NewDevices(known: map<string, string>, incoming: seq<DeviceKey>): Option<seq<DeviceKey>>
    decreases |incoming|
  {
    if |incoming| == 0 then Some([])
    else
      var d, rest := incoming[0], incoming[1..];
      if d.ak in known then
        if known[d.ak] != d.pubB64 then None else NewDevices(known, rest)
      else
        match NewDevices(known[d.ak := d.pubB64], rest)
        case None => None
        case Some(r) => Some([d] + r)
  }

  function AddMissing(have: seq<string>, more: seq<string>): (r: seq<string>)
    ensures forall s :: s in r <==> s in have || s in more
    decreases |more|
  {
    if |more| == 0 then have
    else
      assert more == [more[0]] + more[1..];
      AddMissing(if more[0] in have then have else have + [more[0]], more[1..])
  }

  /** Pointwise maximum of two counter maps, rewritten as canonical decimals where `b` has a say. */
  function MergeCounters(a: map<string, string>, b: map<string, string>): Option<map<string, string>> {
    if exists ak :: ak in b && (Decimal.Parse(b[ak]).None? || (ak in a && Decimal.Parse(a[ak]).None?)) then None
    else Some(map ak | ak in a.Keys + b.Keys :: MergedCounter(a, b, ak))
  }

  function MergedCounter(a: map<string, string>, b: map<string, string>, ak: string): string
    requires ak in a || ak in b
    requires ak in b ==> Decimal.Parse(b[ak]).Some? && (ak in a ==> Decimal.Parse(a[ak]).Some?)
  {
    if ak !in b then a[ak]
    else if ak !in a then Decimal.Print(Decimal.Parse(b[ak]).value)
    else Decimal.Print(Max(Decimal.Parse(a[ak]).value, Decimal.Parse(b[ak]).value))
  }

  function Max(m: int, n: int): int { if m >= n then m else n }

  /** Revoked, or not a listed device. */
  predicate Unfit(b: Bundle, ak: string) {
    ak in b.revoked || !IsDevice(b, ak)
  }

  /** The active key after a merge: the present one, else the incoming one, else the root. */
  function PickActive(b: Bundle, incomingActive: string): string {
    if !Unfit(b, b.activeAk) then b.activeAk
    else if !Unfit(b, incomingActive) then incomingActive
    else b.rootKid
  }

  /** `merge_identity_bundle`. */
  function Merge(w: World, existing: Option<Bundle>, incoming: Bundle, invalid: SdkError): Result<Bundle, SdkError> {
    if existing.None? then Ok(incoming)
    else
      var e := existing.value;
      if !SameRoot(e, incoming) then Err(IdentityConflict)
      else
        var added := NewDevices(KnownPubs(e.devices), incoming.devices);
        if added.None? then Err(IdentityConflict)
        else
          var counters := MergeCounters(e.seqState, incoming.seqState);
          if counters.None? then Err(invalid)
          else
            var m := e.(devices := e.devices + StableSort.Sort(added.value, AkLess),
                        revoked := StableSort.Sort(AddMissing(e.revoked, incoming.revoked), Lex.StrLess),
                        seqState := counters.value);
            var picked := m.(activeAk := PickActive(m, incoming.activeAk));
            if ValidBundle(w, picked) then Ok(picked) else Err(invalid)
  }

  /** The same, editing a working copy step by step. */
  method MergeBundle(w: World, existing: Option<Bundle>, incoming: Bundle, invalid: SdkError) returns (r: Result<Bundle, SdkError>)
    ensures r == Merge(w, existing, incoming, invalid)
  {
    hide KnownPubs, StableSort.Sort, ValidBundle, NewDevices, MergeCounters;
    if existing.None? {
      return Ok(incoming);
    }
    var e := existing.value;
    if !SameRoot(e, incoming) {
      return Err(IdentityConflict);
    }
    var added := CollectNewDevices(e.devices, incoming.devices);
    if added.None? {
      return Err(IdentityConflict);
    }
    e := e.(devices := e.devices + StableSort.Sort(added.value, AkLess));
    var revoked := CollectRevoked(e.revoked, incoming.revoked);
    e := e.(revoked := StableSort.Sort(revoked, Lex.StrLess));
    var counters := CollectCounters(e.seqState, incoming.seqState);
    if counters.None? {
      return Err(invalid);
    }
    e := e.(seqState := counters.value);
    if Unfit(e, e.activeAk) {
      var root := e.rootKid;
      e := e.(activeAk := incoming.activeAk);
      if Unfit(e, e.activeAk) {
        e := e.(activeAk := root);
      }
    }
    var fault := ValidateBundle(w, e);
    VersionInValid(w, e);
    if fault.Some? {
      return Err(invalid);
    }
    r := Ok(e);
  }

  lemma VersionInValid(w: World, b: Bundle)
    ensures ValidBundle(w, b) ==> b.version == 1
  {
  }

  method CollectNewDevices(existing: seq<DeviceKey>, incoming: seq<DeviceKey>) returns (r: Option<seq<DeviceKey>>)
    ensures r == NewDevices(KnownPubs(existing), incoming)
  {
    var known: map<string, string> := map[];
    for i := 0 to |existing|
      invariant known == KnownPubs(existing[..i])
    {
      assert existing[..i + 1][..i] == existing[..i];
      known := known[existing[i].ak := existing[i].pubB64];
    }
    assert existing[..|existing|] == existing;
    hide KnownPubs;
    var added: seq<DeviceKey> := [];
    ghost var whole := NewDevices(known, incoming);
    assert incoming[0..] == incoming;
    assert whole.Some? ==> [] + whole.value == whole.value;
    for i := 0 to |incoming|
      invariant match NewDevices(known, incoming[i..])
                case None => whole == None
                case Some(rest) => whole == Some(added + rest)
    {
      var d := incoming[i];
      assert incoming[i..][1..] == incoming[i + 1..];
      if d.ak in known {
        if known[d.ak] != d.pubB64 {
          return None;
        }
      } else {
        known := known[d.ak := d.pubB64];
        ghost var rest := NewDevices(known, incoming[i + 1..]);
        assert rest.Some? ==> added + ([d] + rest.value) == (added + [d]) + rest.value;
        added := added + [d];
      }
    }
    assert added + [] == added;
    return Some(added);
  }

  method CollectRevoked(have: seq<string>, more: seq<string>) returns (r: seq<string>)
    ensures r == AddMissing(have, more)
  {
    r := have;
    assert more[0..] == more;
    for i := 0 to |more|
      invariant AddMissing(r, more[i..]) == AddMissing(have, more)
    {
      assert more[i..][1..] == more[i + 1..];
      if more[i] !in r {
        r := r + [more[i]];
      }
    }
  }

  /** The working copy while counters are merged: untouched where `b` has not been looked at yet. */
  ghost predicate MergedSoFar(a: map<string, string>, b: map<string, string>, rest: set<string>, out: map<string, string>) {
    rest <= b.Keys &&
    (forall ak :: ak in b && ak !in rest ==> Decimal.Parse(b[ak]).Some? && (ak in a ==> Decimal.Parse(a[ak]).Some?)) &&
    out.Keys == a.Keys + (b.Keys - rest) &&
    (forall ak :: ak in out ==> out[ak] == if ak in rest then a[ak] else MergedCounter(a, b, ak))
  }

  method CollectCounters(a: map<string, string>, b: map<string, string>) returns (r: Option<map<string, string>>)
    ensures r == MergeCounters(a, b)
  {
    hide Decimal.Parse, Decimal.Print, MergedSoFar;
    var out := a;
    var rest := b.Keys;
    MergeStart(a, b);
    while rest != {}
      invariant MergedSoFar(a, b, rest, out)
      decreases |rest|
    {
      var ak :| ak in rest;
      MergeStep(a, b, rest, out, ak);
      var incoming := Decimal.Parse(b[ak]);
      if incoming.None? {
        return None;
      }
      var merged := incoming.value;
      if ak in out {
        var present := Decimal.Parse(out[ak]);
        if present.None? {
          return None;
        }
        merged := Max(present.value, incoming.value);
      }
      out := out[ak := Decimal.Print(merged)];
      rest := rest - {ak};
    }
    MergeEnd(a, b, out);
    r := Some(out);
  }

  lemma MergeStart(a: map<string, string>, b: map<string, string>)
    ensures MergedSoFar(a, b, b.Keys, a)
  {
  }

  lemma MergeStep(a: map<string, string>, b: map<string, string>, rest: set<string>, out: map<string, string>, ak: string)
    requires MergedSoFar(a, b, rest, out) && ak in rest
    ensures ak in b && (ak in out <==> ak in a) && (ak in a ==> out[ak] == a[ak])
    ensures Decimal.Parse(b[ak]).Some? && (ak in a ==> Decimal.Parse(a[ak]).Some?)
            ==> MergedSoFar(a, b, rest - {ak}, out[ak := MergedCounter(a, b, ak)])
  {
    hide Decimal.Parse, Decimal.Print;
  }

  lemma MergeEnd(a: map<string, string>, b: map<string, string>, out: map<string, string>)
    requires MergedSoFar(a, b, {}, out)
    ensures MergeCounters(a, b) == Some(out)
  {
    hide Decimal.Parse, Decimal.Print, MergedCounter;
    assert forall ak :: ak in b ==> Decimal.Parse(b[ak]).Some? && (ak in a ==> Decimal.Parse(a[ak]).Some?);
    assert MergeCounters(a, b).Some?;
    var merged := MergeCounters(a, b).value;
    assert merged.Keys == a.Keys + b.Keys == out.Keys;
    assert forall ak :: ak in out ==> out[ak] == merged[ak];
    assert out == merged;
  }
}

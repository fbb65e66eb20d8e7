/** What every operation of the client store answers and what it leaves behind, field by field, refusals
    included (core/rust/grain-client-core/src/identity.rs, device.rs, pairing.rs, scan.rs, sync.rs,
    memory_store.rs). */
module StoreOutcomes {
  import opened Prelude
  import opened Scan
  import opened Identity
  import opened IdentityForms
  import opened IdentityTheorems
  import opened Store
  import opened StoreInvariant
  import opened StoreHistory
  import opened Texts
  import Decimal
  import Hex
  import Keyed
  import Lex
  import StableSort

  // ----- creating an identity -----

  /** A root identity is created exactly in a store without one, given random keys. Scans and events stay; the
      root is the active key and the only device; the secret published for sync is the secret drawn. */
  lemma CreateRootOutcome(w: World, s: State, keys: Option<(key32, key32)>, name: string)
    ensures var (t, o) := Apply(w, s, CreateRoot(keys, name));
            if s.identity.Some? then t == s && o == Err(IdentityExists)
            else if keys.None? then t == s && o == Err(CsprngUnavailable)
            else
              var (pub, secret) := keys.value;
              var kid := Hex.Encode(w.crypto.sha256(pub))[..32];
              o == Ok(Created) && t.scans == s.scans && t.events == s.events && t.seqByAk == map[kid := 0] && t.identity.Some? &&
              var b := t.identity.value;
              b.version == 1 && b.rootKid == kid && b.activeAk == kid && b.rootPubB64 == w.b64Encode(pub) &&
              b.syncSecretB64 == w.b64Encode(secret) && b.devices == [DeviceKey(kid, name, w.b64Encode(pub))] &&
              b.revoked == [] && b.seqState == map[kid := "0"]
  {
    hide Decimal.Parse, Hex.Encode;
    StoreInvariant.PrintZero();
    Decimal.ParseOfPrint(0);
    if s.identity.None? && keys.Some? {
      var kid := DeriveKid(w, keys.value.0);
      assert Counters(map[kid := "0"]) == map[kid := 0];
    }
  }

  // ----- devices -----

  /** The state after logging one event about `target` and installing `b`. */
  function AfterLog(w: World, s: State, b: Bundle, kind: string, payload: string, target: string): State
    requires CounterOf(s.seqByAk, b.rootKid) + 1 < U64_BOUND
  {
    var n := CounterOf(s.seqByAk, b.rootKid) + 1;
    var id := EventName(w, kind, b.rootKid, n, target);
    State(s.scans,
          Some(b.(seqState := b.seqState[b.rootKid := Decimal.Print(n)])),
          s.seqByAk[b.rootKid := n],
          s.events[id := LifecycleEvent(id, kind, b.rootKid, n, payload, target)])
  }

  /** A number is left, and no event held has the name of the one to be logged. */
  predicate NumberLeft(w: World, s: State, b: Bundle, kind: string, target: string) {
    CounterOf(s.seqByAk, b.rootKid) < 0xffff_ffff_ffff_ffff &&
    EventName(w, kind, b.rootKid, CounterOf(s.seqByAk, b.rootKid) + 1, target) !in s.events
  }

  lemma LogIs(w: World, s: State, a: Bundle, b: Bundle, kind: string, payload: string, target: string)
    requires Inv(w, s) && s.identity == Some(a) && a.rootKid == b.rootKid && a.seqState == b.seqState
    requires (kind == "DeviceKeyGrant" && payload == "grant:" + target) || (kind == "DeviceKeyRevoke" && payload == "revoke:" + target)
    ensures Log(w, s, b, kind, target) ==
            if NumberLeft(w, s, b, kind, target) then Some(AfterLog(w, s, b, kind, payload, target)) else None
  {
    hide ValidBundle, Decimal.Print, Counters, CountersParse, ValidEvent, ScansOk, EventsOk, EventId, EventName;
    DevicesAreDistinct(w, a);
    var n := CounterOf(s.seqByAk, b.rootKid) + 1;
    if n < U64_BOUND {
      CountersUpdate(b.seqState, b.rootKid, n);
      EventNameIs(w, kind, b.rootKid, n, target);
      if EventId(w, kind, b.rootKid, n, target) in s.events {
        HeldNumberIsLower(w, s, a, EventId(w, kind, b.rootKid, n, target));
      }
    }
  }

  lemma EventNameIs(w: World, kind: string, root: string, n: nat, target: string)
    ensures EventId(w, kind, root, n, target) == EventName(w, kind, root, n, target)
  {
    hide Hex.Encode, Utf8, Decimal.Print;
  }

  /** Adding a device: the key drawn joins the devices under its identifier and the name given, and a grant of
      it is logged under the next root number. */
  lemma AddDeviceOutcome(w: World, s: State, key: Option<key32>, name: string)
    requires Inv(w, s)
    ensures var (t, o) := Apply(w, s, AddDevice(key, name));
            if key.None? then t == s && o == Err(CsprngUnavailable)
            else if s.identity.None? then t == s && o == Err(IdentityMissing)
            else
              var b, ak := s.identity.value, KeyId(w, key.value);
              if exists d :: d in b.devices && d.ak == ak then t == s && o == Err(DeviceExists)
              else if !NumberLeft(w, s, b, "DeviceKeyGrant", ak) then t == s && o == Err(StoreConflict)
              else
                var c := b.(devices := b.devices + [DeviceKey(ak, name, w.b64Encode(key.value))]);
                o == Ok(Added) && t == AfterLog(w, s, c, "DeviceKeyGrant", "grant:" + ak, ak)
  {
    hide Inv, Log, IsDevice, DeriveKid, KeyId, EventName, Decimal.Print;
    if key.Some? && s.identity.Some? {
      var b, ak := s.identity.value, KeyId(w, key.value);
      KeyIdIsDerived(w, key.value);
      DeviceIsListed(b, ak);
      LogIs(w, s, b, Granted(w, b, key.value, name), "DeviceKeyGrant", "grant:" + ak, ak);
    }
  }

  /** Revoking a device: it joins the revoked, which are sorted; the root takes over if it was active; a revoke is
      logged. The root cannot be revoked, and a second time changes nothing. */
  lemma RevokeDeviceOutcome(w: World, s: State, ak: string)
    requires Inv(w, s)
    ensures var (t, o) := Apply(w, s, RevokeDevice(ak));
            if s.identity.None? then t == s && o == Err(IdentityMissing)
            else
              var b := s.identity.value;
              if ak == b.rootKid then t == s && o == Err(RevokeRootForbidden)
              else if !exists d :: d in b.devices && d.ak == ak then t == s && o == Err(DeviceUnknown)
              else if ak in b.revoked then t == s && o == Ok(Revoked)
              else if !NumberLeft(w, s, b, "DeviceKeyRevoke", ak) then t == s && o == Err(StoreConflict)
              else
                o == Ok(Revoked) && exists revoked ::
                  SortedAddition(b.revoked, ak, revoked) &&
                  t == AfterLog(w, s, b.(revoked := revoked, activeAk := if b.activeAk == ak then b.rootKid else b.activeAk),
                                "DeviceKeyRevoke", "revoke:" + ak, ak)
  {
    hide Inv, Log, IsDevice, EventName, Decimal.Print, StableSort.Sort, SortedAddition;
    if s.identity.Some? {
      var b := s.identity.value;
      DeviceIsListed(b, ak);
      var c := RevokedBundle(b, ak);
      RevokedAreSorted(b, ak);
      LogIs(w, s, b, c, "DeviceKeyRevoke", "revoke:" + ak, ak);
    }
  }

  /** The list with one more member, sorted. */
  ghost predicate SortedAddition(before: seq<string>, x: string, after: seq<string>) {
    multiset(after) == multiset(before) + multiset{x} &&
    forall i, j :: 0 <= i < j < |after| ==> !Lex.StrLess(after[j], after[i])
  }

  lemma RevokedAreSorted(b: Bundle, ak: string)
    ensures SortedAddition(b.revoked, ak, RevokedBundle(b, ak).revoked)
  {
    hide StableSort.Sort, Lex.StrLess;
    Keyed.StrLessIsWeakOrder();
    StableSort.SortSorted(b.revoked + [ak], Lex.StrLess);
  }

  /** Choosing the active key: the root or a listed, unrevoked device. */
  lemma SetActiveOutcome(w: World, s: State, ak: string)
    requires Inv(w, s)
    ensures var (t, o) := Apply(w, s, SetActive(ak));
            if s.identity.None? then t == s && o == Err(IdentityMissing)
            else
              var b := s.identity.value;
              if ak == b.rootKid || (ak !in b.revoked && exists d :: d in b.devices && d.ak == ak) then
                o == Ok(Active) && t == State(s.scans, Some(b.(activeAk := ak)), s.seqByAk, s.events)
              else t == s && o == Err(UnauthorizedAk)
  {
    hide Inv, DoSetActive, IsDevice;
    SetActiveDoes(w, s, ak);
    SetActiveRefused(s, ak);
    if s.identity.Some? {
      DeviceIsListed(s.identity.value, ak);
    }
  }

  lemma SetActiveRefused(s: State, ak: string)
    ensures s.identity.None? ==> DoSetActive(s, ak) == Err(IdentityMissing)
    ensures s.identity.Some? && !IsAuthorized(s.identity.value, ak) ==> DoSetActive(s, ak) == Err(UnauthorizedAk)
  {
    hide IsAuthorized;
  }

  // ----- pairing -----

  /** A pairing envelope for a bundle. */
  ghost predicate IsEnvelope(w: World, e: Envelope) {
    e.version == 1 && e.transfer == "identity_bundle_v1" &&
    e.custody.version == 1 && e.custody.material == "identity_bundle_v1" && !e.custody.deviceBound &&
    e.custody.storage == "app_encrypted_transfer_required" &&
    e.pairingId == "pairing-sha256:" + Hex.Encode(w.crypto.sha256(Utf8(
      e.bundle.rootKid + ":" + e.bundle.activeAk + ":" + e.bundle.syncSecretB64 + ":" + Decimal.Print(|e.bundle.devices|)))) &&
    ValidBundle(w, e.bundle)
  }

  /** Pairing: a store without identity takes over the one in the envelope; one that holds it stays. */
  lemma PairingOutcome(w: World, s: State, envelope: Option<Envelope>)
    ensures var (t, o) := Apply(w, s, AcceptPairing(envelope));
            if envelope.None? || !IsEnvelope(w, envelope.value) then t == s && o == Err(PairingInvalid)
            else
              var b := envelope.value.bundle;
              if s.identity == Some(b) then t == s && o == Ok(AlreadyPaired)
              else if s.identity.Some? then t == s && o == Err(IdentityConflict)
              else o == Ok(Paired) && t == State(s.scans, Some(b), Numbers(b.seqState), s.events)
  {
    hide ValidBundle, Hex.Encode, Utf8, Decimal.Print, Counters, Numbers, CountersParse;
    if envelope.Some? {
      NumbersAre(envelope.value.bundle.seqState);
      EnvelopeIs(w, envelope.value);
      if ValidBundle(w, envelope.value.bundle) {
        DevicesAreDistinct(w, envelope.value.bundle);
      }
    }
  }

  lemma EnvelopeIs(w: World, e: Envelope)
    ensures ValidEnvelope(w, e) <==> IsEnvelope(w, e)
  {
    hide ValidBundle, Hex.Encode, Utf8, Decimal.Print;
  }

  /** The envelope a store makes of its identity is one. */
  lemma MadeEnvelope(w: World, b: Bundle)
    requires ValidBundle(w, b)
    ensures IsEnvelope(w, MakeEnvelope(w, b)) && MakeEnvelope(w, b).bundle == b
  {
    hide ValidBundle, Hex.Encode, Utf8, Decimal.Print;
  }

  // ----- scans -----

  /** Accepting a scan: a good record is put under its identifier, unless another one is there. */
  lemma ScanOutcome(w: World, s: State, qr: string, trust: Option<string>)
    ensures var (t, o) := Apply(w, s, AcceptScan(qr, trust));
            match AcceptPrepare(w, qr, trust)
            case Err(e) => t == s && o == Err(ScanRejected(e))
            case Ok(r) =>
              if r.scanId !in s.scans then o == Ok(Accepted) && t == State(s.scans[r.scanId := r], s.identity, s.seqByAk, s.events)
              else if s.scans[r.scanId] == r then t == s && o == Ok(AlreadyAccepted)
              else t == s && o == Err(StoreConflict)
  {
    hide AcceptPrepare;
  }
}

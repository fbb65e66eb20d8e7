/** What identity bundles and lifecycle events are made of, in terms of keys, digests and texts
    (core/rust/grain-client-core/src/identity.rs, device.rs). */
module IdentityForms {
  import opened Prelude
  import opened Scan
  import opened Identity
  import opened IdentityTheorems
  import opened Texts
  import Decimal
  import Hex
  import Lex
  import StableSort

  // ----- bundles -----

  /** The Base64 text of a key, or any other bytes but none. */
  predicate EncodesKey(w: World, text: string, key: bytes) {
    key != [] && text == w.b64Encode(key)
  }

  /** The key identifier: 32 hexadecimal digits of the digest. */
  function KeyId(w: World, key: bytes): string {
    Hex.Encode(w.crypto.sha256(key))[..32]
  }

  lemma DecodedKey(w: World, text: string, key: bytes)
    requires Base64Laws(w)
    ensures DecodeStd(w, text) == Some(key) && key != [] <==> EncodesKey(w, text, key)
  {
    if EncodesKey(w, text, key) {
      assert w.b64Decode(w.b64Encode(key)) == Some(key);
      assert w.b64Decode(w.b64Encode([])) == Some([]);
      assert Trimmed(text);
    }
  }

  ghost predicate DeviceOf(w: World, d: DeviceKey, root: bytes, key: bytes) {
    EncodesKey(w, d.pubB64, key) && d.ak == KeyId(w, key) && (d.ak == KeyId(w, root) ==> key == root)
  }

  /** A bundle made of a root key, a secret and device keys: version 1, all texts encode them, every identifier
      is that of its key, the root is a device, no identifier comes twice, the active key is the root or an
      unrevoked device, and the counters are decimal texts. */
  ghost predicate MadeOf(w: World, b: Bundle, root: bytes, secret: bytes) {
    b.version == 1 && EncodesKey(w, b.rootPubB64, root) && EncodesKey(w, b.syncSecretB64, secret) && b.rootKid == KeyId(w, root) &&
    (forall d :: d in b.devices ==> exists key :: DeviceOf(w, d, root, key)) &&
    (forall i, j :: 0 <= i < |b.devices| && 0 <= j < |b.devices| && b.devices[i].ak == b.devices[j].ak ==> i == j) &&
    (exists d :: d in b.devices && d.ak == b.rootKid) &&
    (b.activeAk == b.rootKid || (b.activeAk !in b.revoked && exists d :: d in b.devices && d.ak == b.activeAk)) &&
    (forall ak :: ak in b.seqState ==> exists n: u64 :: Decimal.Parse(b.seqState[ak]) == Some(n))
  }

  lemma KeyIdIsDerived(w: World, key: bytes)
    ensures DeriveKid(w, key) == KeyId(w, key) && |KeyId(w, key)| == 32
  {
  }

  lemma GoodDeviceIs(w: World, b: Bundle, root: bytes, d: DeviceKey)
    requires Base64Laws(w) && EncodesKey(w, b.rootPubB64, root) && b.rootKid == KeyId(w, root)
    ensures GoodDevice(w, b, d) <==> exists key :: DeviceOf(w, d, root, key)
  {
    hide Base64Laws, DecodeStd, EncodesKey, KeyId, DeriveKid;
    DecodedKey(w, b.rootPubB64, root);
    forall key ensures DecodeStd(w, d.pubB64) == Some(key) && key != [] <==> EncodesKey(w, d.pubB64, key) {
      DecodedKey(w, d.pubB64, key);
    }
    forall key ensures DeriveKid(w, key) == KeyId(w, key) && |KeyId(w, key)| == 32 {
      KeyIdIsDerived(w, key);
    }
    if GoodDevice(w, b, d) {
      assert DeviceOf(w, d, root, DecodeStd(w, d.pubB64).value);
    }
    if key :| DeviceOf(w, d, root, key) {
      EncodedText(w, d.pubB64, key);
    }
  }

  lemma EncodedText(w: World, text: string, key: bytes)
    requires Base64Laws(w) && EncodesKey(w, text, key)
    ensures text != ""
  {
    assert w.b64Decode(w.b64Encode(key)) == Some(key);
    assert w.b64Decode(w.b64Encode([])) == Some([]);
  }

  lemma DeviceIsListed(b: Bundle, ak: string)
    ensures IsDevice(b, ak) <==> exists d :: d in b.devices && d.ak == ak
  {
    if d :| d in b.devices && d.ak == ak {
      var i :| 0 <= i < |b.devices| && b.devices[i] == d;
    }
  }

  lemma RootMaterialIs(w: World, b: Bundle)
    requires Base64Laws(w)
    ensures RootMaterialOk(w, b) <==>
            b.activeAk != "" && |b.devices| > 0 &&
            exists root, secret :: EncodesKey(w, b.rootPubB64, root) && EncodesKey(w, b.syncSecretB64, secret) && b.rootKid == KeyId(w, root)
  {
    hide Base64Laws, DecodeStd, EncodesKey, KeyId, DeriveKid;
    forall key
      ensures DecodeStd(w, b.rootPubB64) == Some(key) && key != [] <==> EncodesKey(w, b.rootPubB64, key)
      ensures DecodeStd(w, b.syncSecretB64) == Some(key) && key != [] <==> EncodesKey(w, b.syncSecretB64, key)
    {
      DecodedKey(w, b.rootPubB64, key);
      DecodedKey(w, b.syncSecretB64, key);
    }
    forall key ensures DeriveKid(w, key) == KeyId(w, key) && |KeyId(w, key)| == 32 {
      KeyIdIsDerived(w, key);
    }
    if RootMaterialOk(w, b) {
      assert EncodesKey(w, b.rootPubB64, DecodeStd(w, b.rootPubB64).value) && EncodesKey(w, b.syncSecretB64, DecodeStd(w, b.syncSecretB64).value);
    }
    if root, secret :| EncodesKey(w, b.rootPubB64, root) && EncodesKey(w, b.syncSecretB64, secret) && b.rootKid == KeyId(w, root) {
      EncodedText(w, b.rootPubB64, root);
      EncodedText(w, b.syncSecretB64, secret);
    }
  }

  lemma EmptyIsNoId(w: World, b: Bundle, root: bytes)
    requires (forall d :: d in b.devices ==> exists key :: DeviceOf(w, d, root, key)) && b.rootKid == KeyId(w, root)
    ensures b.rootKid != "" && forall d :: d in b.devices ==> d.ak != ""
  {
    hide EncodesKey;
    KeyIdIsDerived(w, root);
    forall d | d in b.devices ensures d.ak != "" {
      var key :| DeviceOf(w, d, root, key);
      KeyIdIsDerived(w, key);
    }
  }

  /** Validity, exactly. */
  lemma BundleExactly(w: World, b: Bundle)
    requires Base64Laws(w)
    ensures ValidBundle(w, b) <==> exists root, secret :: MadeOf(w, b, root, secret)
  {
    hide Base64Laws, RootMaterialOk, GoodDevice, EncodesKey, KeyId, DeviceOf, IsDevice, Decimal.Parse;
    RootMaterialIs(w, b);
    DeviceIsListed(b, b.rootKid);
    DeviceIsListed(b, b.activeAk);
    if ValidBundle(w, b) {
      var root, secret :| EncodesKey(w, b.rootPubB64, root) && EncodesKey(w, b.syncSecretB64, secret) && b.rootKid == KeyId(w, root);
      GoodDevicesAre(w, b, root);
      assert MadeOf(w, b, root, secret);
    }
    if root, secret :| MadeOf(w, b, root, secret) {
      GoodDevicesAre(w, b, root);
      EmptyIsNoId(w, b, root);
      assert |b.devices| > 0;
      assert ValidBundle(w, b);
    }
  }

  lemma GoodDevicesAre(w: World, b: Bundle, root: bytes)
    requires Base64Laws(w) && EncodesKey(w, b.rootPubB64, root) && b.rootKid == KeyId(w, root)
    ensures (forall i :: 0 <= i < |b.devices| ==> GoodDevice(w, b, b.devices[i])) <==>
            forall d :: d in b.devices ==> exists key :: DeviceOf(w, d, root, key)
  {
    hide Base64Laws, GoodDevice, EncodesKey, KeyId, DeviceOf;
    forall d | d in b.devices ensures GoodDevice(w, b, d) <==> exists key :: DeviceOf(w, d, root, key) {
      GoodDeviceIs(w, b, root, d);
    }
  }

  /** Counter texts as numbers. */
  function Numbers(texts: map<string, string>): map<string, u64> {
    map ak | ak in texts && Decimal.Parse(texts[ak]).Some? :: Decimal.Parse(texts[ak]).value
  }

  lemma NumbersAre(texts: map<string, string>)
    ensures Counters(texts) == Numbers(texts)
  {
    hide Decimal.Parse;
  }

  // ----- lifecycle events -----

  /** The identifier of an event: the digest of kind, root, number and target. */
  function EventName(w: World, kind: string, root: string, n: nat, target: string): string {
    "event-sha256:" + Hex.Encode(w.crypto.sha256(Utf8(kind + ":" + root + ":" + Decimal.Print(n) + ":" + target)))
  }

  /** Validity of an event under a bundle, exactly: a grant or a revoke of a listed device other than the root,
      named by its digest, under a root number from 1 up to the bundle's counter; a revoke of a revoked device. */
  lemma EventExactly(w: World, e: LifecycleEvent, b: Bundle)
    ensures ValidEvent(w, e, b) <==>
            ((e.t == "DeviceKeyGrant" && e.payloadCid == "grant:" + e.targetAk) ||
             (e.t == "DeviceKeyRevoke" && e.payloadCid == "revoke:" + e.targetAk && e.targetAk in b.revoked)) &&
            e.ak == b.rootKid && e.ak != "" && e.targetAk != b.rootKid && e.targetAk != "" &&
            (exists d :: d in b.devices && d.ak == e.targetAk) &&
            (e.ak in b.seqState && exists n: u64 :: Decimal.Parse(b.seqState[e.ak]) == Some(n) && 1 <= e.seqNo <= n) &&
            e.eventId == EventName(w, e.t, e.ak, e.seqNo, e.targetAk)
  {
    hide Hex.Encode, Decimal.Parse, Utf8, IsDevice;
    DeviceIsListed(b, e.targetAk);
  }

  // ----- merged bundles -----

  /** `m` holds, record by record, what merging `b` into `a` gives: the devices known before, and of the incoming
      ones those with new identifiers, names included; the revocations of both; counters as they were, or the
      larger number in decimal where the incoming bundle has one; the active key that stays usable. */
  ghost predicate MergedFrom(a: Bundle, b: Bundle, m: Bundle) {
    m.version == 1 && m.rootKid == a.rootKid && m.rootPubB64 == a.rootPubB64 && m.syncSecretB64 == a.syncSecretB64 &&
    (forall d :: d in m.devices <==> d in a.devices || (d in b.devices && !exists x :: x in a.devices && x.ak == d.ak)) &&
    (forall ak :: ak in m.revoked <==> ak in a.revoked || ak in b.revoked) &&
    m.seqState.Keys == a.seqState.Keys + b.seqState.Keys &&
    (forall ak :: ak in m.seqState ==> m.seqState[ak] == CounterText(a.seqState, b.seqState, ak)) &&
    m.activeAk == if Usable(m, a.activeAk) then a.activeAk else if Usable(m, b.activeAk) then b.activeAk else a.rootKid
  }

  lemma MergeContents(w: World, a: Bundle, b: Bundle, invalid: SdkError)
    requires ValidBundle(w, a) && ValidBundle(w, b) && Merge(w, Some(a), b, invalid).Ok?
    ensures MergedFrom(a, b, Merge(w, Some(a), b, invalid).value)
  {
    hide ValidBundle, Merge, PickActive, NewDevices, KnownPubs, NoClash, Assembled, Join, ViewOf, Counters, IsDevice, CounterText, DistinctAks;
    MergeIsJoin(w, a, b, invalid);
    MergeAssembles(w, a, b, invalid);
    AssembledView(w, a, b);
    VersionInValid(w, Merge(w, Some(a), b, invalid).value);
    CountersAssembled(a, b);
    var m := Merge(w, Some(a), b, invalid).value;
    RevokedAssembled(a, b);
    forall d | d in b.devices ensures IsDevice(a, d.ak) <==> exists x :: x in a.devices && x.ak == d.ak {
      DeviceIsListed(a, d.ak);
    }
    DeviceIsListed(m, a.activeAk);
    DeviceIsListed(m, b.activeAk);
  }

  /** Listed and not revoked. */
  predicate Usable(b: Bundle, ak: string) {
    ak !in b.revoked && exists d :: d in b.devices && d.ak == ak
  }

  /** The counter text of a merge. */
  function CounterText(a: map<string, string>, b: map<string, string>, ak: string): string
    requires ak in a || ak in b
  {
    if ak !in b then a[ak]
    else
      var theirs := Decimal.Parse(b[ak]);
      var ours := if ak in a then Decimal.Parse(a[ak]) else Some(0);
      if theirs.None? || ours.None? then ""
      else Decimal.Print(if ours.value < theirs.value then theirs.value else ours.value)
  }

  lemma CountersAssembled(a: Bundle, b: Bundle)
    requires Assembled(a, b).Some?
    ensures var m := Assembled(a, b).value;
            m.seqState.Keys == a.seqState.Keys + b.seqState.Keys &&
            forall ak :: ak in m.seqState ==> m.seqState[ak] == CounterText(a.seqState, b.seqState, ak)
  {
    hide Decimal.Parse, Decimal.Print, NewDevices, KnownPubs, StableSort.Sort, AddMissing;
  }

  lemma RevokedAssembled(a: Bundle, b: Bundle)
    requires Assembled(a, b).Some?
    ensures forall ak :: ak in Assembled(a, b).value.revoked <==> ak in a.revoked || ak in b.revoked
  {
    hide NewDevices, KnownPubs, MergeCounters, StableSort.Sort;
    var all := AddMissing(a.revoked, b.revoked);
    forall ak ensures ak in StableSort.Sort(all, Lex.StrLess) <==> ak in all {
      StableSort.SameElements(all, Lex.StrLess, ak);
    }
  }

  /** One root, one secret, and no device known under two keys. */
  predicate Compatible(a: Bundle, b: Bundle) {
    a.rootKid == b.rootKid && a.rootPubB64 == b.rootPubB64 && a.syncSecretB64 == b.syncSecretB64 &&
    forall d, e :: d in a.devices && e in b.devices && d.ak == e.ak ==> d.pubB64 == e.pubB64
  }

  /** When two valid bundles merge, exactly. */
  lemma MergesIff(w: World, a: Bundle, b: Bundle, invalid: SdkError)
    requires ValidBundle(w, a) && ValidBundle(w, b)
    ensures Merge(w, Some(a), b, invalid).Ok? <==> Compatible(a, b)
    ensures !Compatible(a, b) ==> Merge(w, Some(a), b, invalid) == Err(IdentityConflict)
  {
    hide ValidBundle, KnownPubs, Merge, Counters, DistinctAks;
    MergeIsJoin(w, a, b, invalid);
    DevicesAreDistinct(w, a);
    DevicesAreDistinct(w, b);
    forall d, e | d in a.devices && e in b.devices && d.ak == e.ak
      ensures d.ak in KnownPubs(a.devices) && KnownPubs(a.devices)[d.ak] == d.pubB64
      ensures e.ak in KnownPubs(b.devices) && KnownPubs(b.devices)[e.ak] == e.pubB64
    {
      KnownHas(a.devices, d);
      KnownHas(b.devices, e);
    }
    forall ak | ak in KnownPubs(a.devices) && ak in KnownPubs(b.devices)
      ensures exists d, e :: d in a.devices && e in b.devices && d.ak == e.ak == ak &&
                d.pubB64 == KnownPubs(a.devices)[ak] && e.pubB64 == KnownPubs(b.devices)[ak]
    {
      var d := KnownFrom(a.devices, ak);
      var e := KnownFrom(b.devices, ak);
    }
  }
}

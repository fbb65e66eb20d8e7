/** Consequences for whole runs of the client store: snapshots restore, counters do not go back while an
    identity is held, reserved numbers are new, pairing hands over the identity. */
module StoreTheorems {
  import opened Prelude
  import opened Scan
  import opened Identity
  import opened IdentityTheorems
  import opened Store
  import opened StoreInvariant
  import Decimal
  import Keyed

  // ----- snapshots -----

  lemma EventsAreKeyed(w: World, s: State)
    requires Inv(w, s)
    ensures Keyed.IsKeyed(s.events, EventKey) && Keyed.IsKeyed(s.scans, ScanKey)
    ensures s.identity.Some? ==> forall id :: id in s.events ==> ValidEvent(w, s.events[id], s.identity.value)
  {
    hide ValidBundle, ValidEvent, ValidRecord, Counters;
  }

  lemma ListingHolds<T(!new)>(m: map<string, T>, xs: seq<T>, key: T -> string, good: T -> bool)
    requires Keyed.IsKeyed(m, key) && Keyed.IsListing(m, xs) && forall k :: k in m ==> good(m[k])
    ensures forall x :: x in xs ==> good(x)
  {
    hide Keyed.IsListing;
    Keyed.ListingElements(m, xs, key);
  }

  lemma ExportIsValid(w: World, s: State, p: Snapshot)
    requires Inv(w, s) && IsSnapshotOf(s, p)
    ensures ValidSnapshot(w, p)
    ensures Keyed.Index(p.scans, ScanKey) == s.scans && Keyed.Index(p.events, EventKey) == s.events
  {
    hide ValidBundle, ValidEvent, ValidRecord, Counters, Keyed.IsListing, Keyed.Distinct, Keyed.Index;
    EventsAreKeyed(w, s);
    Keyed.ListingIndex(s.scans, p.scans, ScanKey);
    Keyed.ListingIndex(s.events, p.events, EventKey);
    ListingHolds(s.scans, p.scans, ScanKey, r => ValidRecord(w, r));
    if s.identity.Some? {
      ListingHolds(s.events, p.events, EventKey, e => ValidEvent(w, e, s.identity.value));
    } else {
      Keyed.ListingElements(s.events, p.events, EventKey);
      HasElement(p.events);
    }
  }

  lemma HasElement<T>(xs: seq<T>)
    ensures xs != [] ==> exists x :: x in xs
  {
    if xs != [] {
      assert xs[0] in xs;
    }
  }

  /** A snapshot of a valid store is accepted by every store and brings back its scans, events and
      identity, with counters no lower than on either side. */
  lemma SnapshotRestores(w: World, s: State, p: Snapshot, t: State)
    requires Inv(w, s) && IsSnapshotOf(s, p)
    ensures Apply(w, t, Restore(Some(p))).1 == Ok(Restored)
    ensures var r := Apply(w, t, Restore(Some(p))).0;
            r.scans == s.scans && r.events == s.events &&
            r.seqByAk == MaxCounters(SnapshotCounters(p), t.seqByAk) &&
            (s.identity.None? ==> r.identity == None) &&
            (s.identity.Some? ==> r.identity == Some(s.identity.value.(seqState := Printed(r.seqByAk))) &&
                                  Counters(r.identity.value.seqState) == r.seqByAk)
  {
    hide Inv, ValidSnapshot, MaxCounters, Counters, Keyed.Index, Printed;
    ExportIsValid(w, s, p);
    CountersOfPrinted(MaxCounters(SnapshotCounters(p), t.seqByAk));
  }

  /** Restored into a fresh store, a snapshot gives the same scans, events and identity, the counters
      equal as numbers. */
  lemma FreshStoreRestores(w: World, s: State, p: Snapshot)
    requires Inv(w, s) && IsSnapshotOf(s, p) && s.identity.Some?
    ensures var r := Apply(w, EMPTY, Restore(Some(p))).0;
            r.scans == s.scans && r.events == s.events && r.seqByAk == s.seqByAk &&
            r.identity == Some(s.identity.value.(seqState := Printed(s.seqByAk))) &&
            ViewOf(r.identity.value) == ViewOf(s.identity.value)
  {
    hide ValidBundle, ScansOk, EventsOk, Counters, KnownPubs, Apply, Printed;
    SnapshotRestores(w, s, p, EMPTY);
    assert MaxCounters(s.seqByAk, map[]) == s.seqByAk;
  }

  // ----- counters -----

  /** Every state before a step of the run holds an identity. */
  ghost predicate HeldThroughout(w: World, s: State, ops: seq<Op>) {
    forall i :: 0 <= i < |ops| ==> Run(w, s, ops[..i]).identity.Some?
  }

  lemma {:induction false} RunKeeps(w: World, s: State, ops: seq<Op>)
    requires Base64Laws(w) && Inv(w, s)
    ensures Inv(w, Run(w, s, ops))
  {
    hide Apply, Base64Laws, Inv, Ahead;
    if |ops| > 0 {
      RunKeeps(w, s, ops[..|ops| - 1]);
      StepKeeps(w, Run(w, s, ops[..|ops| - 1]), ops[|ops| - 1]);
    }
  }

  /** Along a run whose steps all start with an identity, no counter ever goes back. */
  lemma {:induction false} CountersOnlyRise(w: World, s: State, ops: seq<Op>)
    requires Base64Laws(w) && Inv(w, s) && HeldThroughout(w, s, ops)
    ensures Ahead(s, Run(w, s, ops))
  {
    hide Apply, Base64Laws, Inv, CounterOf;
    if |ops| > 0 {
      var before := ops[..|ops| - 1];
      HeldBefore(w, s, ops);
      CountersOnlyRise(w, s, before);
      RunKeeps(w, s, before);
      StepKeeps(w, Run(w, s, before), ops[|ops| - 1]);
    }
  }

  lemma HeldBefore(w: World, s: State, ops: seq<Op>)
    requires HeldThroughout(w, s, ops) && |ops| > 0
    ensures HeldThroughout(w, s, ops[..|ops| - 1]) && Run(w, s, ops[..|ops| - 1]).identity.Some?
  {
    hide Run;
    var before := ops[..|ops| - 1];
    forall i | 0 <= i < |before| ensures Run(w, s, before[..i]).identity.Some? {
      assert before[..i] == ops[..i];
    }
  }

  /** The exact condition under which no operation can lower a counter: an identity is held, or there is
      no counter above zero to lose. */
  lemma CountersSafeIff(w: World, s: State)
    requires Base64Laws(w) && Inv(w, s)
    ensures (forall op :: Ahead(s, Apply(w, s, op).0)) <==> s.identity.Some? || forall ak :: CounterOf(s.seqByAk, ak) == 0
  {
    hide Apply, Base64Laws, Inv, CounterOf;
    if s.identity.Some? {
      forall op ensures Ahead(s, Apply(w, s, op).0) {
        StepKeeps(w, s, op);
      }
    } else {
      if forall op :: Ahead(s, Apply(w, s, op).0) {
        var op := CreateRoot(Some((Fill(0, 32), Fill(0, 32))), "");
        assert Ahead(s, Apply(w, s, op).0);
        forall ak ensures CounterOf(s.seqByAk, ak) == 0 {
          NewRootForgets(w, s, Fill(0, 32), Fill(0, 32), "", ak);
        }
      }
      if forall ak :: CounterOf(s.seqByAk, ak) == 0 {
        forall op ensures Ahead(s, Apply(w, s, op).0) {
        }
      }
    }
  }

  /** Creating a root where none is held leaves every counter at zero. */
  lemma NewRootForgets(w: World, s: State, pub: key32, secret: key32, name: string, ak: string)
    requires s.identity.None?
    ensures var t := Apply(w, s, CreateRoot(Some((pub, secret)), name)).0;
            CounterOf(t.seqByAk, ak) == 0 && t.identity == Some(RootBundle(w, pub, secret, name)) && t.scans == s.scans &&
            t.events == s.events && t.seqByAk == map[DeriveKid(w, pub) := 0]
  {
    hide Decimal.Parse, DeriveKid;
    Decimal.ParseOfPrint(0);
    PrintZero();
    var m := map[DeriveKid(w, pub) := "0"];
    assert Counters(m) == map[DeriveKid(w, pub) := 0];
  }

  /** A run that does lower a counter: a root, one device, an empty snapshot restored, and the root's own
      bundle, exported before the device was added, imported again. */
  function ForgetfulRun(w: World, pub: key32, secret: key32, device: key32): seq<Op> {
    [CreateRoot(Some((pub, secret)), ""), AddDevice(Some(device), ""),
     Restore(Some(Snapshot(1, None, [], []))), ImportIdentity(Some(RootBundle(w, pub, secret, "")))]
  }

  /** The run ends with the root's counter where it was before the grant, whenever the two keys have
      different names; the next number has been issued before. */
  lemma CountersCanGoBack(w: World, pub: key32, secret: key32, device: key32)
    requires Base64Laws(w) && DeriveKid(w, pub) != DeriveKid(w, device)
    ensures var ops, kid := ForgetfulRun(w, pub, secret, device), DeriveKid(w, pub);
            Run(w, EMPTY, ops[..1]).identity == Some(RootBundle(w, pub, secret, "")) &&
            CounterOf(Run(w, EMPTY, ops[..2]).seqByAk, kid) == 1 &&
            Run(w, EMPTY, ops[..3]).identity.None? &&
            Run(w, EMPTY, ops).identity == Some(RootBundle(w, pub, secret, "")) && CounterOf(Run(w, EMPTY, ops).seqByAk, kid) == 0
  {
    hide Apply, Run, DeriveKid, CounterOf, RootBundle, Base64Laws;
    var ops, kid := ForgetfulRun(w, pub, secret, device), DeriveKid(w, pub);
    RunStep(w, EMPTY, ops, 0);
    RunStep(w, EMPTY, ops, 1);
    RunStep(w, EMPTY, ops, 2);
    RunStep(w, EMPTY, ops, 3);
    assert ops[..4] == ops;
    RunNothing(w, EMPTY, ops);
    NewRootForgets(w, EMPTY, pub, secret, "", kid);
    assert Run(w, EMPTY, ops[..1]) == State(map[], Some(RootBundle(w, pub, secret, "")), map[kid := 0], map[]);
    FirstDevice(w, pub, secret, device);
    ForgetIdentity(w, Run(w, EMPTY, ops[..2]));
    ReachableIsValid(w, ops[..3]);
    ImportsAfresh(w, Run(w, EMPTY, ops[..3]), pub, secret, kid);
  }

  /** A store without identity takes a valid bundle as it is, counters and all. */
  lemma ImportsAfresh(w: World, s: State, pub: key32, secret: key32, kid: string)
    requires Base64Laws(w) && Inv(w, s) && s.identity.None? && kid == DeriveKid(w, pub)
    ensures var t := Apply(w, s, ImportIdentity(Some(RootBundle(w, pub, secret, "")))).0;
            t.identity == Some(RootBundle(w, pub, secret, "")) && CounterOf(t.seqByAk, kid) == 0
  {
    hide ValidBundle, ValidEvent, ScansOk, DeriveKid, Decimal.Parse, Base64Laws, GoodDevice, RootMaterialOk;
    RootBundleIsValid(w, pub, secret, "");
    Decimal.ParseOfPrint(0);
    PrintZero();
  }

  lemma RunStep(w: World, s: State, ops: seq<Op>, i: nat)
    requires i < |ops|
    ensures Run(w, s, ops[..i + 1]) == Apply(w, Run(w, s, ops[..i]), ops[i]).0
  {
    hide Apply;
    assert ops[..i + 1][..i] == ops[..i];
  }

  lemma RunNothing(w: World, s: State, ops: seq<Op>)
    ensures Run(w, s, ops[..0]) == s
  {
  }

  lemma FirstDevice(w: World, pub: key32, secret: key32, device: key32)
    requires DeriveKid(w, pub) != DeriveKid(w, device)
    ensures var kid := DeriveKid(w, pub);
            var s := State(map[], Some(RootBundle(w, pub, secret, "")), map[kid := 0], map[]);
            CounterOf(Apply(w, s, AddDevice(Some(device), "")).0.seqByAk, kid) == 1
  {
    hide Decimal.Parse, Decimal.Print, DeriveKid, MakeEvent;
    var kid := DeriveKid(w, pub);
    var s := State(map[], Some(RootBundle(w, pub, secret, "")), map[kid := 0], map[]);
    var b := s.identity.value;
    assert b.devices[0].ak == kid;
    assert !IsDevice(b, DeriveKid(w, device));
    Decimal.ParseOfPrint(0);
    PrintZero();
    CountersUpdate(b.seqState, kid, 1);
    assert CounterOf(s.seqByAk, kid) == 0;
    assert Reserve(s, kid) == Some((s.(seqByAk := s.seqByAk[kid := 1]), 1));
    var c := Granted(w, b, device, "");
    assert Log(w, s, c, "DeviceKeyGrant", DeriveKid(w, device)).Some?;
  }

  lemma ForgetIdentity(w: World, s: State)
    ensures Apply(w, s, Restore(Some(Snapshot(1, None, [], [])))).0.identity.None?
  {
    var p := Snapshot(1, None, [], []);
    assert ValidSnapshot(w, p);
  }

  // ----- reserved numbers -----

  /** The next root number is above that of every event held, and is refused only at the 64-bit limit. */
  lemma ReservedIsNew(w: World, s: State)
    requires Inv(w, s) && s.identity.Some?
    ensures var kid := s.identity.value.rootKid;
            Reserve(s, kid).Some? <==> CounterOf(s.seqByAk, kid) < U64_BOUND - 1
    ensures var kid := s.identity.value.rootKid;
            Reserve(s, kid).Some? ==> forall id :: id in s.events ==> s.events[id].seqNo < Reserve(s, kid).value.1
  {
    hide ValidBundle, Decimal.Parse, EventId, IsDevice, PayloadCid, ScansOk;
    var b := s.identity.value;
    forall id | id in s.events ensures s.events[id].seqNo <= CounterOf(s.seqByAk, b.rootKid) {
      assert ValidEvent(w, s.events[id], b);
    }
  }

  // ----- guards that never fire, hand-over by pairing -----

  /** In a valid store an identity import is refused only by decoding, validation or the merge: the
      re-check of held events never fires. */
  lemma EventsNeverBlockImport(w: World, s: State, b: Bundle)
    requires Inv(w, s) && ValidBundle(w, b)
    ensures DoImportIdentity(w, s, Some(b)).Ok? <==> Merge(w, s.identity, b, BundleInvalid).Ok?
    ensures DoImportIdentity(w, s, Some(b)).Ok? <==>
              (s.identity.Some? ==> SameRoot(s.identity.value, b) && NoClash(ViewOf(s.identity.value), ViewOf(b)))
    ensures DoImportIdentity(w, s, Some(b)).Ok? ==>
              DoImportIdentity(w, s, Some(b)).value.0.identity == Some(Merge(w, s.identity, b, BundleInvalid).value)
  {
    hide ValidBundle, AllEventsValid, ScansOk, EventsOk, NoClash, ViewOf, Counters, CountersParse;
    DevicesAreDistinct(w, b);
    if s.identity.Some? {
      MergeIsJoin(w, s.identity.value, b, BundleInvalid);
    }
    if Merge(w, s.identity, b, BundleInvalid).Ok? {
      InstallMergedKeeps(w, s, b, BundleInvalid);
    }
  }

  /** An envelope made from a valid store's identity pairs any store without one; a second acceptance
      changes nothing. */
  lemma PairingHandsOver(w: World, s: State, t: State)
    requires Inv(w, s) && s.identity.Some? && t.identity.None?
    ensures var accept := AcceptPairing(Some(MakeEnvelope(w, s.identity.value)));
            var u := Apply(w, t, accept);
            u.1 == Ok(Paired) && u.0 == t.(identity := s.identity, seqByAk := s.seqByAk) &&
            Apply(w, u.0, accept) == (u.0, Ok(AlreadyPaired))
  {
    hide ValidBundle, ScansOk, EventsOk, Counters, CountersParse, PairingId;
    DevicesAreDistinct(w, s.identity.value);
  }
}

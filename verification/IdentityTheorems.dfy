/** What a merge of identity bundles means: the least upper bound of what the two bundles say about
    devices, revocations and counters (core/rust/grain-client-core/src/identity.rs:105-189). */
module IdentityTheorems {
  import opened Prelude
  import opened Scan
  import opened Identity
  import Decimal
  import Keyed
  import Lex
  import StableSort

  /** What replicas must agree on: keys of devices, revoked devices, counters as numbers. */
  datatype View = View(devices: map<string, string>, revoked: set<string>, counters: map<string, u64>)

  function ViewOf(b: Bundle): View {
    View(KnownPubs(b.devices), (set ak | ak in b.revoked), Counters(b.seqState))
  }

  /** No device is known under two public keys. */
  predicate NoClash(a: View, b: View) {
    forall ak :: ak in a.devices && ak in b.devices ==> a.devices[ak] == b.devices[ak]
  }

  function Join(a: View, b: View): View {
    View(a.devices + b.devices, a.revoked + b.revoked, MaxCounters(a.counters, b.counters))
  }

  predicate CountersLeq(a: map<string, u64>, b: map<string, u64>) {
    forall ak :: ak in a ==> ak in b && a[ak] <= b[ak]
  }

  predicate Leq(a: View, b: View) {
    (forall ak :: ak in a.devices ==> ak in b.devices && a.devices[ak] == b.devices[ak]) &&
    a.revoked <= b.revoked && CountersLeq(a.counters, b.counters)
  }

  // ----- the join of views -----

  lemma JoinCommutes(a: View, b: View)
    requires NoClash(a, b)
    ensures Join(a, b) == Join(b, a)
  {
    assert a.devices + b.devices == b.devices + a.devices;
    assert MaxCounters(a.counters, b.counters) == MaxCounters(b.counters, a.counters);
  }

  lemma MaxAssociates(a: map<string, u64>, b: map<string, u64>, c: map<string, u64>)
    ensures MaxCounters(MaxCounters(a, b), c) == MaxCounters(a, MaxCounters(b, c))
  {
    var ab, bc := MaxCounters(a, b), MaxCounters(b, c);
    var l, r := MaxCounters(ab, c), MaxCounters(a, bc);
    assert l.Keys == a.Keys + b.Keys + c.Keys == r.Keys;
    forall ak | ak in l.Keys ensures l[ak] == r[ak] {
      assert ak in ab <==> ak in a || ak in b;
      assert ak in bc <==> ak in b || ak in c;
    }
  }

  lemma ClashAssociates(a: View, b: View, c: View)
    ensures NoClash(a, b) && NoClash(Join(a, b), c) ==> NoClash(b, c) && NoClash(a, Join(b, c))
    ensures NoClash(b, c) && NoClash(a, Join(b, c)) ==> NoClash(a, b) && NoClash(Join(a, b), c)
  {
    hide MaxCounters;
    var d, e := a.devices + b.devices, b.devices + c.devices;
    assert forall ak :: ak in b.devices ==> ak in d && d[ak] == b.devices[ak];
    assert forall ak :: ak in a.devices && ak !in b.devices ==> ak in d && d[ak] == a.devices[ak];
    assert forall ak :: ak in c.devices ==> ak in e && e[ak] == c.devices[ak];
    assert forall ak :: ak in b.devices && ak !in c.devices ==> ak in e && e[ak] == b.devices[ak];
  }

  /** Three views can be joined in either grouping, or in neither, with one result. */
  lemma JoinAssociates(a: View, b: View, c: View)
    ensures NoClash(a, b) && NoClash(Join(a, b), c) <==> NoClash(b, c) && NoClash(a, Join(b, c))
    ensures Join(Join(a, b), c) == Join(a, Join(b, c))
  {
    hide NoClash, MaxCounters;
    ClashAssociates(a, b, c);
    MaxAssociates(a.counters, b.counters, c.counters);
    assert (a.devices + b.devices) + c.devices == a.devices + (b.devices + c.devices);
    assert (a.revoked + b.revoked) + c.revoked == a.revoked + (b.revoked + c.revoked);
  }

  /** The join is the least view above both. */
  lemma JoinIsLeastUpperBound(a: View, b: View, c: View)
    requires NoClash(a, b)
    ensures Leq(a, Join(a, b)) && Leq(b, Join(a, b))
    ensures Leq(a, c) && Leq(b, c) ==> Leq(Join(a, b), c)
    ensures Join(a, a) == a
    ensures Leq(a, c) && Leq(c, a) ==> a == c
  {
    assert a.devices + a.devices == a.devices;
    assert MaxCounters(a.counters, a.counters) == a.counters;
    if Leq(a, c) && Leq(c, a) {
      assert a.devices == c.devices && a.counters == c.counters;
    }
  }

  /** Saying no more than is a partial order. */
  lemma LeqIsOrder(a: View, b: View, c: View)
    ensures Leq(a, a)
    ensures Leq(a, b) && Leq(b, c) ==> Leq(a, c)
    ensures Leq(a, b) && Leq(b, a) ==> a == b
  {
    if Leq(a, b) && Leq(b, a) {
      assert a.devices == b.devices && a.counters == b.counters;
    }
    if Leq(a, b) && Leq(b, c) {
      forall ak | ak in a.counters ensures ak in c.counters && a.counters[ak] <= c.counters[ak] {
        assert ak in b.counters;
      }
    }
  }

  // ----- devices -----

  lemma {:induction false} KnownFrom(ds: seq<DeviceKey>, ak: string) returns (d: DeviceKey)
    requires ak in KnownPubs(ds)
    ensures d in ds && d.ak == ak && KnownPubs(ds)[ak] == d.pubB64
  {
    d := ds[|ds| - 1];
    if ak != d.ak {
      d := KnownFrom(ds[..|ds| - 1], ak);
    }
  }

  lemma {:induction false} KnownHas(ds: seq<DeviceKey>, d: DeviceKey)
    requires d in ds
    ensures d.ak in KnownPubs(ds)
    ensures DistinctAks(ds) ==> KnownPubs(ds)[d.ak] == d.pubB64
  {
    var last := ds[|ds| - 1];
    assert ds == ds[..|ds| - 1] + [last];
    if d != last {
      KnownHas(ds[..|ds| - 1], d);
      if DistinctAks(ds) {
        DistinctPrefix(ds, d);
      }
    }
  }

  lemma DistinctPrefix(ds: seq<DeviceKey>, d: DeviceKey)
    requires DistinctAks(ds) && |ds| > 0 && d in ds[..|ds| - 1]
    ensures DistinctAks(ds[..|ds| - 1]) && d.ak != ds[|ds| - 1].ak
  {
    var i :| 0 <= i < |ds| - 1 && ds[i] == d;
  }

  /** The devices listed are those whose public key is known. */
  lemma KnownIsDevice(b: Bundle, ak: string)
    ensures ak in KnownPubs(b.devices) <==> IsDevice(b, ak)
  {
    hide KnownPubs;
    if ak in KnownPubs(b.devices) {
      var d := KnownFrom(b.devices, ak);
    }
    if IsDevice(b, ak) {
      var i :| 0 <= i < |b.devices| && b.devices[i].ak == ak;
      KnownHas(b.devices, b.devices[i]);
    }
  }

  /** With distinct identifiers the map of public keys just lists the devices. */
  lemma KnownPubsLists(ds: seq<DeviceKey>)
    requires DistinctAks(ds)
    ensures forall i :: 0 <= i < |ds| ==> ds[i].ak in KnownPubs(ds) && KnownPubs(ds)[ds[i].ak] == ds[i].pubB64
  {
    hide KnownPubs, DistinctAks;
    forall i | 0 <= i < |ds| ensures ds[i].ak in KnownPubs(ds) && KnownPubs(ds)[ds[i].ak] == ds[i].pubB64 {
      KnownHas(ds, ds[i]);
    }
  }

  predicate Agrees(known: map<string, string>, ds: seq<DeviceKey>) {
    forall d :: d in ds && d.ak in known ==> known[d.ak] == d.pubB64
  }

  lemma DistinctTail(ds: seq<DeviceKey>)
    requires DistinctAks(ds) && |ds| > 0
    ensures DistinctAks(ds[1..]) && forall d :: d in ds[1..] ==> d.ak != ds[0].ak
  {
  }

  lemma AgreesTail(known: map<string, string>, ds: seq<DeviceKey>)
    requires |ds| > 0 && forall d :: d in ds[1..] ==> d.ak != ds[0].ak
    ensures Agrees(known, ds) <==> (ds[0].ak in known ==> known[ds[0].ak] == ds[0].pubB64) && Agrees(known, ds[1..])
    ensures Agrees(known[ds[0].ak := ds[0].pubB64], ds[1..]) == Agrees(known, ds[1..])
  {
    assert ds == [ds[0]] + ds[1..];
  }

  /** With distinct identifiers the new devices are the unknown ones, provided the known ones agree. */
  lemma {:induction false} NewDevicesAreUnknown(known: map<string, string>, ds: seq<DeviceKey>)
    requires DistinctAks(ds)
    ensures NewDevices(known, ds).Some? <==> Agrees(known, ds)
    ensures NewDevices(known, ds).Some? ==>
              (forall d :: d in NewDevices(known, ds).value <==> d in ds && d.ak !in known) &&
              DistinctAks(NewDevices(known, ds).value)
    decreases |ds|
  {
    hide Agrees, DistinctAks;
    if |ds| == 0 {
      EmptyAgrees(known);
    } else {
      var d, rest := ds[0], ds[1..];
      DistinctTail(ds);
      AgreesTail(known, ds);
      NewDevicesAreUnknown(if d.ak in known then known else known[d.ak := d.pubB64], rest);
      assert ds == [d] + rest;
      if d.ak !in known && Agrees(known, rest) {
        ConsDistinct(d, NewDevices(known[d.ak := d.pubB64], rest).value, rest);
      }
    }
  }

  lemma EmptyAgrees(known: map<string, string>)
    ensures Agrees(known, []) && DistinctAks([])
  {
  }

  lemma ConsDistinct(d: DeviceKey, r: seq<DeviceKey>, rest: seq<DeviceKey>)
    requires DistinctAks(r) && (forall e :: e in r ==> e in rest) && forall e :: e in rest ==> e.ak != d.ak
    ensures DistinctAks([d] + r)
  {
    forall i, j | 0 <= i < j < |[d] + r| ensures ([d] + r)[i].ak != ([d] + r)[j].ak {
      assert r[j - 1] in r;
    }
  }

  lemma AkLessIsWeakOrder()
    ensures StableSort.WeakOrder(AkLess)
  {
    forall a, b ensures AkLess(a, b) ==> !AkLess(b, a) {
      Lex.StrTrichotomy(a.ak, b.ak);
    }
    forall a, b, c ensures !AkLess(a, b) && !AkLess(b, c) ==> !AkLess(a, c) {
      Keyed.NotLessTransitive(a.ak, b.ak, c.ak);
    }
  }

  /** Known devices followed by sorted new ones: still distinct, and holding both. */
  lemma AppendSorted(ds: seq<DeviceKey>, added: seq<DeviceKey>)
    requires DistinctAks(ds) && DistinctAks(added)
    requires forall d, e :: d in ds && e in added ==> d.ak != e.ak
    ensures DistinctAks(ds + StableSort.Sort(added, AkLess))
    ensures forall d :: d in ds + StableSort.Sort(added, AkLess) <==> d in ds || d in added
  {
    hide StableSort.Sort, AkLess;
    var sorted := StableSort.Sort(added, AkLess);
    SortKeepsDistinct(added);
    forall d ensures d in sorted <==> d in added {
      StableSort.SameElements(added, AkLess, d);
    }
    var all := ds + sorted;
    forall i, j | 0 <= i < j < |all| ensures all[i].ak != all[j].ak {
      assert i < |ds| ==> all[i] in ds;
      assert j >= |ds| ==> all[j] == sorted[j - |ds|] && all[j] in sorted;
      assert i >= |ds| ==> all[i] == sorted[i - |ds|];
    }
  }

  lemma SortedByAk(ds: seq<DeviceKey>)
    requires DistinctAks(ds)
    ensures StableSort.StrictlySorted(StableSort.Sort(ds, AkLess), AkLess)
  {
    hide StableSort.Sort, Lex.StrLess;
    AkLessIsWeakOrder();
    forall i, j | 0 <= i < j < |ds| ensures AkLess(ds[i], ds[j]) || AkLess(ds[j], ds[i]) {
      Lex.StrTrichotomy(ds[i].ak, ds[j].ak);
    }
    StableSort.SortStrict(ds, AkLess);
  }

  lemma SortKeepsDistinct(ds: seq<DeviceKey>)
    requires DistinctAks(ds)
    ensures DistinctAks(StableSort.Sort(ds, AkLess))
  {
    hide StableSort.Sort, Lex.StrLess;
    SortedByAk(ds);
    var r := StableSort.Sort(ds, AkLess);
    forall i, j | 0 <= i < j < |r| ensures r[i].ak != r[j].ak {
      assert AkLess(r[i], r[j]);
      Lex.StrTrichotomy(r[i].ak, r[j].ak);
    }
  }

  // ----- the merge -----

  /** The device list a merge builds, when the new devices are `added`. */
  function MergedDevices(a: Bundle, added: seq<DeviceKey>): seq<DeviceKey> {
    a.devices + StableSort.Sort(added, AkLess)
  }

  lemma DevicesMerge(a: Bundle, b: Bundle)
    requires DistinctAks(a.devices) && DistinctAks(b.devices)
    ensures NewDevices(KnownPubs(a.devices), b.devices).Some? <==> NoClash(ViewOf(a), ViewOf(b))
    ensures var added := NewDevices(KnownPubs(a.devices), b.devices);
            added.Some? ==>
              var all := MergedDevices(a, added.value);
              DistinctAks(all) &&
              (forall d :: d in all <==> d in a.devices || (d in b.devices && !IsDevice(a, d.ak))) &&
              KnownPubs(all) == KnownPubs(a.devices) + KnownPubs(b.devices)
  {
    hide StableSort.Sort, AkLess, NewDevices, KnownPubs, Counters, Agrees, DistinctAks;
    var ka, kb := KnownPubs(a.devices), KnownPubs(b.devices);
    NewDevicesAreUnknown(ka, b.devices);
    AgreesWithKnown(ka, b.devices);
    assert ViewOf(a).devices == ka && ViewOf(b).devices == kb;
    var added := NewDevices(ka, b.devices);
    if added.Some? {
      forall d, e | d in a.devices && e in added.value ensures d.ak != e.ak {
        KnownHas(a.devices, d);
      }
      AppendSorted(a.devices, added.value);
      var all := MergedDevices(a, added.value);
      forall d ensures d in all <==> d in a.devices || (d in b.devices && !IsDevice(a, d.ak)) {
        KnownIsDevice(a, d.ak);
      }
      PubsOfUnion(a.devices, b.devices, all);
    }
  }

  lemma AgreesWithKnown(known: map<string, string>, ds: seq<DeviceKey>)
    requires DistinctAks(ds)
    ensures Agrees(known, ds) <==> forall ak :: ak in known && ak in KnownPubs(ds) ==> known[ak] == KnownPubs(ds)[ak]
  {
    hide KnownPubs, DistinctAks;
    forall d | d in ds ensures d.ak in KnownPubs(ds) && KnownPubs(ds)[d.ak] == d.pubB64 {
      KnownHas(ds, d);
    }
    forall ak | ak in KnownPubs(ds) ensures exists d :: d in ds && d.ak == ak {
      var d := KnownFrom(ds, ak);
    }
  }

  lemma PubsOfUnion(da: seq<DeviceKey>, db: seq<DeviceKey>, all: seq<DeviceKey>)
    requires DistinctAks(da) && DistinctAks(db) && DistinctAks(all)
    requires forall d :: d in all <==> d in da || (d in db && d.ak !in KnownPubs(da))
    requires Agrees(KnownPubs(da), db)
    ensures KnownPubs(all) == KnownPubs(da) + KnownPubs(db)
  {
    hide KnownPubs, DistinctAks;
    var ka, kb, k := KnownPubs(da), KnownPubs(db), KnownPubs(all);
    forall ak | ak in ka || ak in kb ensures ak in k && k[ak] == (ka + kb)[ak] {
      PubOfUnion(da, db, all, ak);
    }
    forall ak | ak in k ensures ak in ka || ak in kb {
      var d := KnownFrom(all, ak);
      if d in da {
        KnownHas(da, d);
      } else {
        KnownHas(db, d);
      }
    }
    assert k == ka + kb;
  }

  lemma PubOfUnion(da: seq<DeviceKey>, db: seq<DeviceKey>, all: seq<DeviceKey>, ak: string)
    requires DistinctAks(da) && DistinctAks(db) && DistinctAks(all)
    requires forall d :: d in all <==> d in da || (d in db && d.ak !in KnownPubs(da))
    requires Agrees(KnownPubs(da), db)
    requires ak in KnownPubs(da) || ak in KnownPubs(db)
    ensures ak in KnownPubs(all) && KnownPubs(all)[ak] == (KnownPubs(da) + KnownPubs(db))[ak]
  {
    hide KnownPubs, DistinctAks;
    if ak in KnownPubs(db) {
      var e := KnownFrom(db, ak);
      if ak in KnownPubs(da) {
        var d := KnownFrom(da, ak);
        KnownHas(all, d);
      } else {
        KnownHas(all, e);
      }
    } else {
      var d := KnownFrom(da, ak);
      KnownHas(all, d);
    }
  }

  /** What a merged counter text says, and that it needs no second rewriting. */
  lemma MergedCounterReads(a: map<string, string>, b: map<string, string>, ak: string)
    requires CountersParse(a) && CountersParse(b) && (ak in a || ak in b)
    ensures var t := MergedCounter(a, b, ak);
            Decimal.Parse(t).Some? &&
            (ak in a ==> Decimal.Parse(a[ak]).Some? && Decimal.Parse(t).value >= Decimal.Parse(a[ak]).value) &&
            (ak in b ==> Decimal.Parse(t).value >= Decimal.Parse(b[ak]).value && Decimal.Print(Decimal.Parse(t).value) == t) &&
            ((ak in a && Decimal.Parse(t) == Decimal.Parse(a[ak])) || (ak in b && Decimal.Parse(t) == Decimal.Parse(b[ak])))
  {
    hide Decimal.Parse, Decimal.Print;
    if ak in b {
      var n := Decimal.Parse(b[ak]).value;
      Decimal.ParseOfPrint(n);
      if ak in a {
        Decimal.ParseOfPrint(Max(Decimal.Parse(a[ak]).value, n));
      }
    }
  }

  lemma MergedCounters(a: map<string, string>, b: map<string, string>)
    requires CountersParse(a) && CountersParse(b)
    ensures MergeCounters(a, b).Some?
    ensures MergeCounters(a, b).value.Keys == a.Keys + b.Keys
    ensures forall ak :: ak in MergeCounters(a, b).value ==> MergeCounters(a, b).value[ak] == MergedCounter(a, b, ak)
  {
    hide Decimal.Parse, Decimal.Print, MergedCounter;
  }

  lemma CountersMerge(a: map<string, string>, b: map<string, string>)
    requires CountersParse(a) && CountersParse(b)
    ensures MergeCounters(a, b).Some?
    ensures CountersParse(MergeCounters(a, b).value)
    ensures Counters(MergeCounters(a, b).value) == MaxCounters(Counters(a), Counters(b))
  {
    hide Decimal.Parse, Decimal.Print, MergeCounters, MergedCounter;
    MergedCounters(a, b);
    var m := MergeCounters(a, b).value;
    var want := MaxCounters(Counters(a), Counters(b));
    forall ak | ak in m ensures Decimal.Parse(m[ak]).Some? && Decimal.Parse(m[ak]).value == want[ak] {
      MergedCounterReads(a, b, ak);
    }
    assert Counters(m).Keys == m.Keys == want.Keys;
    assert Counters(m) == want;
  }

  /** Merging counters a second time leaves the texts alone. */
  lemma CountersMergeAgain(a: map<string, string>, b: map<string, string>)
    requires CountersParse(a) && CountersParse(b)
    ensures MergeCounters(a, b).Some?
    ensures MergeCounters(MergeCounters(a, b).value, b) == MergeCounters(a, b)
  {
    hide Decimal.Parse, Decimal.Print, MergeCounters, MergedCounter;
    CountersMerge(a, b);
    MergedCounters(a, b);
    var m := MergeCounters(a, b).value;
    MergedCounters(m, b);
    var n := MergeCounters(m, b).value;
    assert n.Keys == m.Keys;
    forall ak | ak in m ensures n[ak] == m[ak] {
      MergedCounterReads(a, b, ak);
      MergedTwice(a, b, m, ak);
    }
    assert n == m;
  }

  lemma MergedTwice(a: map<string, string>, b: map<string, string>, m: map<string, string>, ak: string)
    requires CountersParse(a) && CountersParse(b) && ak in m && (ak in a || ak in b)
    requires m[ak] == MergedCounter(a, b, ak)
    ensures Decimal.Parse(m[ak]).Some? && MergedCounter(m, b, ak) == m[ak]
  {
    hide Decimal.Parse, Decimal.Print;
    MergedCounterReads(a, b, ak);
  }

  lemma RevokedMerge(have: seq<string>, more: seq<string>)
    ensures forall s :: s in StableSort.Sort(AddMissing(have, more), Lex.StrLess) <==> s in have || s in more
  {
    hide StableSort.Sort, AddMissing;
    forall s ensures s in StableSort.Sort(AddMissing(have, more), Lex.StrLess) <==> s in have || s in more {
      StableSort.SameElements(AddMissing(have, more), Lex.StrLess, s);
    }
  }

  lemma {:induction false} NothingMissing(have: seq<string>, more: seq<string>)
    requires forall s :: s in more ==> s in have
    ensures AddMissing(have, more) == have
    decreases |more|
  {
    if |more| > 0 {
      assert more[0] in have;
      NothingMissing(have, more[1..]);
    }
  }

  lemma {:induction false} NothingNew(known: map<string, string>, ds: seq<DeviceKey>)
    requires forall i :: 0 <= i < |ds| ==> ds[i].ak in known && known[ds[i].ak] == ds[i].pubB64
    ensures NewDevices(known, ds) == Some([])
    decreases |ds|
  {
    if |ds| > 0 {
      NothingNew(known, ds[1..]);
    }
  }

  /** The merged bundle before the active key is settled. */
  function Assembled(a: Bundle, b: Bundle): Option<Bundle> {
    var added := NewDevices(KnownPubs(a.devices), b.devices);
    var counters := MergeCounters(a.seqState, b.seqState);
    if added.None? || counters.None? then None
    else Some(a.(devices := MergedDevices(a, added.value),
                 revoked := StableSort.Sort(AddMissing(a.revoked, b.revoked), Lex.StrLess),
                 seqState := counters.value))
  }

  lemma AssembledView(w: World, a: Bundle, b: Bundle)
    requires ValidBundle(w, a) && ValidBundle(w, b)
    ensures Assembled(a, b).Some? <==> NoClash(ViewOf(a), ViewOf(b))
    ensures Assembled(a, b).Some? ==>
              ViewOf(Assembled(a, b).value) == Join(ViewOf(a), ViewOf(b)) &&
              DistinctAks(Assembled(a, b).value.devices) && CountersParse(Assembled(a, b).value.seqState) &&
              forall d :: d in Assembled(a, b).value.devices <==> d in a.devices || (d in b.devices && !IsDevice(a, d.ak))
  {
    hide StableSort.Sort, AkLess, NewDevices, KnownPubs, Counters, MergeCounters, AddMissing, GoodDevice, IsAuthorized, RootMaterialOk, CountersParse, NoClash, MaxCounters;
    DevicesMerge(a, b);
    CountersMerge(a.seqState, b.seqState);
    RevokedMerge(a.revoked, b.revoked);
    var m := Assembled(a, b);
    if m.Some? {
      assert (set ak | ak in m.value.revoked) == (set ak | ak in a.revoked) + (set ak | ak in b.revoked);
    }
  }

  /** The assembled bundle with its settled active key always validates. */
  lemma AssembledIsValid(w: World, a: Bundle, b: Bundle)
    requires ValidBundle(w, a) && ValidBundle(w, b) && SameRoot(a, b) && Assembled(a, b).Some?
    ensures var m := Assembled(a, b).value; ValidBundle(w, m.(activeAk := PickActive(m, b.activeAk)))
  {
    hide StableSort.Sort, AkLess, NewDevices, KnownPubs, Counters, MergeCounters, AddMissing, CountersParse, NoClash, MaxCounters,
         ViewOf, Join, Assembled, DistinctAks, DecodeStd, DeriveKid, DecodesToSomething;
    AssembledView(w, a, b);
    AssembledShape(a, b);
    var m := Assembled(a, b).value;
    var p := m.(activeAk := PickActive(m, b.activeAk));
    forall i | 0 <= i < |p.devices| ensures GoodDevice(w, p, p.devices[i]) {
      var d := p.devices[i];
      assert d in p.devices;
      if d in a.devices {
        var j :| 0 <= j < |a.devices| && a.devices[j] == d;
        assert GoodDevice(w, a, a.devices[j]);
      } else {
        var j :| 0 <= j < |b.devices| && b.devices[j] == d;
        assert GoodDevice(w, b, b.devices[j]);
      }
    }
    assert IsDevice(p, p.rootKid) by {
      var j :| 0 <= j < |a.devices| && a.devices[j].ak == a.rootKid;
      assert a.devices[j] in p.devices;
    }
    assert IsDevice(m, PickActive(m, b.activeAk)) ==> IsDevice(p, PickActive(m, b.activeAk));
    assert b.activeAk != "";
    assert p.activeAk != "";
    assert |p.devices| > 0;
  }

  lemma AssembledShape(a: Bundle, b: Bundle)
    requires Assembled(a, b).Some?
    ensures var m := Assembled(a, b).value;
            SameRoot(m, a) && m.version == a.version && m.activeAk == a.activeAk
  {
    hide StableSort.Sort, NewDevices, KnownPubs, MergeCounters, AddMissing;
  }

  lemma MergeAssembles(w: World, a: Bundle, b: Bundle, invalid: SdkError)
    ensures Merge(w, Some(a), b, invalid) ==
            if !SameRoot(a, b) || NewDevices(KnownPubs(a.devices), b.devices).None? then Err(IdentityConflict)
            else if Assembled(a, b).None? then Err(invalid)
            else
              var m := Assembled(a, b).value;
              var p := m.(activeAk := PickActive(m, b.activeAk));
              if ValidBundle(w, p) then Ok(p) else Err(invalid)
  {
    hide StableSort.Sort, NewDevices, KnownPubs, MergeCounters, AddMissing, ValidBundle, PickActive;
  }

  /** On valid bundles a merge succeeds exactly when the root material agrees and no device clashes;
      any refusal is a conflict, so the closing validation never fails; and the result is valid, keeps
      the root material and says exactly what the two bundles say together. */
  lemma MergeIsJoin(w: World, a: Bundle, b: Bundle, invalid: SdkError)
    requires ValidBundle(w, a) && ValidBundle(w, b)
    ensures Merge(w, Some(a), b, invalid).Ok? <==> SameRoot(a, b) && NoClash(ViewOf(a), ViewOf(b))
    ensures Merge(w, Some(a), b, invalid).Err? ==> Merge(w, Some(a), b, invalid).error == IdentityConflict
    ensures Merge(w, Some(a), b, invalid).Ok? ==>
              var m := Merge(w, Some(a), b, invalid).value;
              ValidBundle(w, m) && SameRoot(m, a) && ViewOf(m) == Join(ViewOf(a), ViewOf(b)) &&
              m.activeAk == (if !Unfit(m, a.activeAk) then a.activeAk else if !Unfit(m, b.activeAk) then b.activeAk else a.rootKid)
  {
    hide ValidBundle, NewDevices, KnownPubs, NoClash, Assembled, Join, Counters;
    MergeAssembles(w, a, b, invalid);
    DevicesAreDistinct(w, a);
    DevicesAreDistinct(w, b);
    DevicesMerge(a, b);
    AssembledView(w, a, b);
    if SameRoot(a, b) && Assembled(a, b).Some? {
      AssembledIsValid(w, a, b);
      AssembledShape(a, b);
    }
  }

  /** How a merged bundle is laid out: the devices known before in their order, then the new ones by
      identifier, and the revocations sorted. */
  lemma MergeLayout(w: World, a: Bundle, b: Bundle, invalid: SdkError)
    requires ValidBundle(w, a) && ValidBundle(w, b)
    ensures Merge(w, Some(a), b, invalid).Ok? ==>
              var m := Merge(w, Some(a), b, invalid).value;
              a.devices <= m.devices && StableSort.StrictlySorted(m.devices[|a.devices|..], AkLess) &&
              StableSort.Sorted(m.revoked, Lex.StrLess)
  {
    hide ValidBundle, NewDevices, KnownPubs, MergeCounters, AddMissing, StableSort.Sort, Merge, AkLess, Lex.StrLess, PickActive, DistinctAks;
    DevicesAreDistinct(w, a);
    DevicesAreDistinct(w, b);
    MergeAssembles(w, a, b, invalid);
    NewDevicesAreUnknown(KnownPubs(a.devices), b.devices);
    var added := NewDevices(KnownPubs(a.devices), b.devices);
    if Merge(w, Some(a), b, invalid).Ok? {
      var m := Merge(w, Some(a), b, invalid).value;
      SortedByAk(added.value);
      assert m.devices[|a.devices|..] == StableSort.Sort(added.value, AkLess);
      Keyed.StrLessIsWeakOrder();
      StableSort.SortSorted(AddMissing(a.revoked, b.revoked), Lex.StrLess);
    }
  }

  lemma DevicesAreDistinct(w: World, b: Bundle)
    requires ValidBundle(w, b)
    ensures DistinctAks(b.devices) && CountersParse(b.seqState) && b.version == 1
  {
  }

  /** Merging in either direction succeeds or fails alike, and gives one view. */
  lemma MergeCommutes(w: World, a: Bundle, b: Bundle, invalid: SdkError)
    requires ValidBundle(w, a) && ValidBundle(w, b)
    ensures Merge(w, Some(a), b, invalid).Ok? <==> Merge(w, Some(b), a, invalid).Ok?
    ensures Merge(w, Some(a), b, invalid).Ok? ==>
              ViewOf(Merge(w, Some(a), b, invalid).value) == ViewOf(Merge(w, Some(b), a, invalid).value)
  {
    hide ValidBundle, Merge, ViewOf, Join;
    MergeIsJoin(w, a, b, invalid);
    MergeIsJoin(w, b, a, invalid);
    if NoClash(ViewOf(a), ViewOf(b)) {
      JoinCommutes(ViewOf(a), ViewOf(b));
    }
  }

  /** Merging three bundles succeeds in one grouping exactly when it does in the other, with one view. */
  lemma MergeAssociates(w: World, a: Bundle, b: Bundle, c: Bundle, invalid: SdkError)
    requires ValidBundle(w, a) && ValidBundle(w, b) && ValidBundle(w, c)
    ensures Then(w, Merge(w, Some(a), b, invalid), c, invalid).Ok?
       <==> Before(w, a, Merge(w, Some(b), c, invalid), invalid).Ok?
    ensures Then(w, Merge(w, Some(a), b, invalid), c, invalid).Ok? ==>
              ViewOf(Then(w, Merge(w, Some(a), b, invalid), c, invalid).value) ==
              ViewOf(Before(w, a, Merge(w, Some(b), c, invalid), invalid).value)
  {
    hide ValidBundle, Merge, ViewOf, Join, NoClash;
    JoinAssociates(ViewOf(a), ViewOf(b), ViewOf(c));
    MergeIsJoin(w, a, b, invalid);
    MergeIsJoin(w, b, c, invalid);
    var ab, bc := Merge(w, Some(a), b, invalid), Merge(w, Some(b), c, invalid);
    if ab.Ok? {
      MergeIsJoin(w, ab.value, c, invalid);
    }
    if bc.Ok? {
      MergeIsJoin(w, a, bc.value, invalid);
    }
  }

  /** A merge into an earlier merge's result, and a merge of an earlier result. */
  function Then(w: World, first: Result<Bundle, SdkError>, c: Bundle, invalid: SdkError): Result<Bundle, SdkError> {
    if first.Ok? then Merge(w, Some(first.value), c, invalid) else first
  }

  function Before(w: World, a: Bundle, second: Result<Bundle, SdkError>, invalid: SdkError): Result<Bundle, SdkError> {
    if second.Ok? then Merge(w, Some(a), second.value, invalid) else second
  }

  /** Merging the same bundle again changes nothing at all, down to texts and order. */
  lemma MergeAgain(w: World, a: Bundle, b: Bundle, invalid: SdkError)
    requires ValidBundle(w, a) && ValidBundle(w, b) && Merge(w, Some(a), b, invalid).Ok?
    ensures var m := Merge(w, Some(a), b, invalid); Merge(w, Some(m.value), b, invalid) == m
  {
    hide ValidBundle, NewDevices, KnownPubs, NoClash, Join, Counters, MergeCounters, AddMissing, StableSort.Sort, Merge, CountersParse, DistinctAks;
    MergeIsJoin(w, a, b, invalid);
    MergeAssembles(w, a, b, invalid);
    var m := Merge(w, Some(a), b, invalid).value;
    MergeAssembles(w, m, b, invalid);
    DevicesAreDistinct(w, a);
    DevicesAreDistinct(w, b);
    SecondDevices(a, b, m);
    SecondRevoked(a, b);
    CountersMergeAgain(a.seqState, b.seqState);
    assert StableSort.Sort<DeviceKey>([], AkLess) == [];
    assert m.devices + [] == m.devices;
    var m0 := Assembled(a, b).value;
    assert m == m0.(activeAk := PickActive(m0, b.activeAk));
    assert Assembled(m, b) == Some(m);
    assert PickActive(m, b.activeAk) == m.activeAk;
    assert m.(activeAk := m.activeAk) == m;
  }

  /** Texts that a merge would leave as they are: revocations sorted, counters in canonical decimal. */
  ghost predicate Tidy(b: Bundle) {
    StableSort.Sorted(b.revoked, Lex.StrLess) &&
    forall ak :: ak in b.seqState && Decimal.Parse(b.seqState[ak]).Some? ==>
      Decimal.Print(Decimal.Parse(b.seqState[ak]).value) == b.seqState[ak]
  }

  /** Merging a bundle with itself succeeds; it is that very bundle exactly when its texts are tidy. */
  lemma MergeSelf(w: World, b: Bundle, invalid: SdkError)
    requires ValidBundle(w, b)
    ensures Merge(w, Some(b), b, invalid).Ok?
    ensures Merge(w, Some(b), b, invalid).value == b <==> Tidy(b)
  {
    hide ValidBundle, NewDevices, KnownPubs, Join, Counters, MergeCounters, AddMissing, StableSort.Sort, Merge, CountersParse, DistinctAks, Tidy;
    MergeIsJoin(w, b, b, invalid);
    MergeAssembles(w, b, b, invalid);
    DevicesAreDistinct(w, b);
    KnownPubsLists(b.devices);
    NothingNew(KnownPubs(b.devices), b.devices);
    assert StableSort.Sort<DeviceKey>([], AkLess) == [];
    assert b.devices + [] == b.devices;
    NothingMissing(b.revoked, b.revoked);
    SortedIffFixed(b.revoked);
    SelfCounters(b.seqState);
    var m := Assembled(b, b).value;
    assert m == b.(revoked := StableSort.Sort(b.revoked, Lex.StrLess), seqState := MergeCounters(b.seqState, b.seqState).value);
    SelfActive(w, b, m);
    TidyMeans(b);
  }

  lemma TidyMeans(b: Bundle)
    requires CountersParse(b.seqState)
    ensures Tidy(b) <==> StableSort.Sort(b.revoked, Lex.StrLess) == b.revoked && MergeCounters(b.seqState, b.seqState) == Some(b.seqState)
  {
    hide Decimal.Parse, Decimal.Print, Lex.StrLess, StableSort.Sort, MergeCounters;
    SortedIffFixed(b.revoked);
    SelfCounters(b.seqState);
  }

  lemma SortedIffFixed(xs: seq<string>)
    ensures StableSort.Sorted(xs, Lex.StrLess) <==> StableSort.Sort(xs, Lex.StrLess) == xs
  {
    hide Lex.StrLess, StableSort.Sort;
    Keyed.StrLessIsWeakOrder();
    StableSort.SortSorted(xs, Lex.StrLess);
    if StableSort.Sorted(xs, Lex.StrLess) {
      StableSort.SortedIsFixed(xs, Lex.StrLess);
    }
  }

  lemma SelfCounters(m: map<string, string>)
    requires CountersParse(m)
    ensures MergeCounters(m, m).Some?
    ensures MergeCounters(m, m).value == m <==>
            forall ak :: ak in m && Decimal.Parse(m[ak]).Some? ==> Decimal.Print(Decimal.Parse(m[ak]).value) == m[ak]
  {
    hide Decimal.Parse, Decimal.Print, MergeCounters;
    MergedCounters(m, m);
    var n := MergeCounters(m, m).value;
    assert n.Keys == m.Keys;
    if forall ak :: ak in m && Decimal.Parse(m[ak]).Some? ==> Decimal.Print(Decimal.Parse(m[ak]).value) == m[ak] {
      assert forall ak :: ak in m ==> n[ak] == m[ak];
      assert n == m;
    }
  }

  /** The active key of a valid bundle survives a merge with itself. */
  lemma SelfActive(w: World, b: Bundle, m: Bundle)
    requires ValidBundle(w, b) && m.activeAk == b.activeAk && m.rootKid == b.rootKid && m.devices == b.devices
    requires m.revoked == StableSort.Sort(b.revoked, Lex.StrLess)
    ensures PickActive(m, b.activeAk) == b.activeAk
  {
    hide StableSort.Sort, Lex.StrLess;
    StableSort.SameElements(b.revoked, Lex.StrLess, b.activeAk);
  }

  lemma SecondDevices(a: Bundle, b: Bundle, m: Bundle)
    requires DistinctAks(a.devices) && DistinctAks(b.devices) && ViewOf(m) == Join(ViewOf(a), ViewOf(b))
    ensures NewDevices(KnownPubs(m.devices), b.devices) == Some([])
  {
    hide KnownPubs, Counters, NewDevices, MaxCounters;
    KnownPubsLists(b.devices);
    assert KnownPubs(m.devices) == KnownPubs(a.devices) + KnownPubs(b.devices);
    NothingNew(KnownPubs(m.devices), b.devices);
  }

  lemma SecondRevoked(a: Bundle, b: Bundle)
    ensures var r := StableSort.Sort(AddMissing(a.revoked, b.revoked), Lex.StrLess);
            StableSort.Sort(AddMissing(r, b.revoked), Lex.StrLess) == r
  {
    hide StableSort.Sort, AddMissing, Lex.StrLess;
    var r := StableSort.Sort(AddMissing(a.revoked, b.revoked), Lex.StrLess);
    RevokedMerge(a.revoked, b.revoked);
    NothingMissing(r, b.revoked);
    Keyed.StrLessIsWeakOrder();
    StableSort.SortSorted(AddMissing(a.revoked, b.revoked), Lex.StrLess);
    StableSort.SortedIsFixed(r, Lex.StrLess);
  }

  // ----- lifecycle events -----

  /** An event stays valid when the bundle grows. */
  lemma EventsAreMonotone(w: World, e: LifecycleEvent, a: Bundle, b: Bundle)
    requires ValidEvent(w, e, a) && a.rootKid == b.rootKid && Leq(ViewOf(a), ViewOf(b)) && CountersParse(b.seqState)
    ensures ValidEvent(w, e, b)
  {
    hide KnownPubs, Decimal.Parse, EventId, PayloadCid;
    KnownIsDevice(a, e.targetAk);
    KnownIsDevice(b, e.targetAk);
    assert e.targetAk in ViewOf(a).devices;
    assert e.ak in ViewOf(a).counters && e.ak in ViewOf(b).counters;
    assert e.targetAk in a.revoked ==> e.targetAk in ViewOf(a).revoked;
  }

  /** Events valid for either side stay valid for the merge. */
  lemma EventsSurviveMerge(w: World, e: LifecycleEvent, a: Bundle, b: Bundle, invalid: SdkError)
    requires ValidBundle(w, a) && ValidBundle(w, b) && Merge(w, Some(a), b, invalid).Ok?
    requires ValidEvent(w, e, a) || ValidEvent(w, e, b)
    ensures ValidEvent(w, e, Merge(w, Some(a), b, invalid).value)
  {
    hide ValidBundle, Merge, ViewOf, Join, ValidEvent, Leq, NoClash;
    MergeIsJoin(w, a, b, invalid);
    var m := Merge(w, Some(a), b, invalid).value;
    JoinIsLeastUpperBound(ViewOf(a), ViewOf(b), ViewOf(m));
    DevicesAreDistinct(w, m);
    if ValidEvent(w, e, a) {
      EventsAreMonotone(w, e, a, m);
    } else {
      EventsAreMonotone(w, e, b, m);
    }
  }

  // ----- what does not converge -----

  /** Display names are outside the view: the two merges list the same device records exactly when
      every device known to both sides already has one name. */
  lemma NamesConvergeIff(w: World, a: Bundle, b: Bundle, invalid: SdkError)
    requires ValidBundle(w, a) && ValidBundle(w, b) && Merge(w, Some(a), b, invalid).Ok? && Merge(w, Some(b), a, invalid).Ok?
    ensures (forall d :: d in Merge(w, Some(a), b, invalid).value.devices <==> d in Merge(w, Some(b), a, invalid).value.devices)
       <==> (forall d, e :: d in a.devices && e in b.devices && d.ak == e.ak ==> d.name == e.name)
  {
    hide ValidBundle, Merge, IsDevice;
    RecordsOfMerge(w, a, b, invalid);
    RecordsOfMerge(w, b, a, invalid);
    DevicesAreDistinct(w, b);
    var m, n := Merge(w, Some(a), b, invalid).value.devices, Merge(w, Some(b), a, invalid).value.devices;
    if forall d :: d in m <==> d in n {
      forall d, e | d in a.devices && e in b.devices && d.ak == e.ak ensures d.name == e.name {
        assert d in m && IsDevice(b, d.ak);
        assert d in n;
        OneRecordPerAk(b, d, e);
      }
    }
    if forall d, e :: d in a.devices && e in b.devices && d.ak == e.ak ==> d.name == e.name {
      SharedKeysAgree(w, a, b, invalid);
      forall d ensures d in m <==> d in n {
        UnionWhenAgreed(a, b, d);
        UnionWhenAgreed(b, a, d);
      }
    }
  }

  /** The active key is outside the view too: the two merges agree on it exactly when the two sides did, or
      one side's choice is revoked by either. */
  lemma ActiveConvergesIff(w: World, a: Bundle, b: Bundle, invalid: SdkError)
    requires ValidBundle(w, a) && ValidBundle(w, b) && Merge(w, Some(a), b, invalid).Ok? && Merge(w, Some(b), a, invalid).Ok?
    ensures Merge(w, Some(a), b, invalid).value.activeAk == Merge(w, Some(b), a, invalid).value.activeAk <==>
            a.activeAk == b.activeAk || RevokedByEither(a, b, a.activeAk) || RevokedByEither(a, b, b.activeAk)
  {
    hide ValidBundle, Merge, Unfit, ViewOf, Join, NoClash, RevokedByEither;
    MergeIsJoin(w, a, b, invalid);
    MergeIsJoin(w, b, a, invalid);
    FitInMerge(w, a, b, Merge(w, Some(a), b, invalid).value);
    FitInMerge(w, b, a, Merge(w, Some(b), a, invalid).value);
    EitherWay(a, b, a.activeAk);
    EitherWay(a, b, b.activeAk);
  }

  predicate RevokedByEither(a: Bundle, b: Bundle, ak: string) {
    ak in a.revoked || ak in b.revoked
  }

  lemma EitherWay(a: Bundle, b: Bundle, ak: string)
    ensures RevokedByEither(a, b, ak) <==> RevokedByEither(b, a, ak)
  {
  }

  lemma FitInMerge(w: World, a: Bundle, b: Bundle, m: Bundle)
    requires ValidBundle(w, a) && ValidBundle(w, b) && ViewOf(m) == Join(ViewOf(a), ViewOf(b))
    ensures Unfit(m, a.activeAk) <==> RevokedByEither(a, b, a.activeAk)
    ensures Unfit(m, b.activeAk) <==> RevokedByEither(a, b, b.activeAk)
  {
    hide ValidBundle, KnownPubs, Counters, MaxCounters;
    ActiveIsDevice(w, a);
    ActiveIsDevice(w, b);
    KnownIsDevice(a, a.activeAk);
    KnownIsDevice(b, b.activeAk);
    KnownIsDevice(m, a.activeAk);
    KnownIsDevice(m, b.activeAk);
    forall ak ensures ak in m.revoked <==> RevokedByEither(a, b, ak) {
      assert ak in m.revoked <==> ak in ViewOf(m).revoked;
      assert ak in ViewOf(m).revoked <==> ak in ViewOf(a).revoked || ak in ViewOf(b).revoked;
    }
  }

  lemma ActiveIsDevice(w: World, b: Bundle)
    requires ValidBundle(w, b)
    ensures IsDevice(b, b.activeAk)
  {
    hide GoodDevice, RootMaterialOk, DistinctAks, CountersParse;
  }

  lemma RecordsOfMerge(w: World, a: Bundle, b: Bundle, invalid: SdkError)
    requires ValidBundle(w, a) && ValidBundle(w, b) && Merge(w, Some(a), b, invalid).Ok?
    ensures forall d :: d in Merge(w, Some(a), b, invalid).value.devices <==> d in a.devices || (d in b.devices && !IsDevice(a, d.ak))
    ensures forall d :: d in a.devices ==> IsDevice(a, d.ak)
  {
    hide ValidBundle, NewDevices, KnownPubs, PickActive, MergeCounters, AddMissing, Merge, IsDevice;
    DevicesAreDistinct(w, a);
    DevicesAreDistinct(w, b);
    MergeAssembles(w, a, b, invalid);
    DevicesMerge(a, b);
    forall d | d in a.devices ensures IsDevice(a, d.ak) {
      ListedIsDevice(a, d);
    }
  }

  lemma ListedIsDevice(a: Bundle, d: DeviceKey)
    requires d in a.devices
    ensures IsDevice(a, d.ak)
  {
  }

  lemma OneRecordPerAk(b: Bundle, d: DeviceKey, e: DeviceKey)
    requires DistinctAks(b.devices) && d in b.devices && e in b.devices && d.ak == e.ak
    ensures d == e
  {
    var i :| 0 <= i < |b.devices| && b.devices[i] == d;
    var j :| 0 <= j < |b.devices| && b.devices[j] == e;
    assert i == j;
  }

  lemma SharedKeysAgree(w: World, a: Bundle, b: Bundle, invalid: SdkError)
    requires ValidBundle(w, a) && ValidBundle(w, b) && Merge(w, Some(a), b, invalid).Ok?
    ensures forall d, e :: d in a.devices && e in b.devices && d.ak == e.ak ==> d.pubB64 == e.pubB64
  {
    hide ValidBundle, KnownPubs, Counters, Merge, MaxCounters;
    MergeIsJoin(w, a, b, invalid);
    DevicesAreDistinct(w, a);
    DevicesAreDistinct(w, b);
    KnownPubsLists(a.devices);
    KnownPubsLists(b.devices);
    assert NoClash(ViewOf(a), ViewOf(b));
    forall d, e | d in a.devices && e in b.devices && d.ak == e.ak ensures d.pubB64 == e.pubB64 {
      assert ViewOf(a).devices[d.ak] == ViewOf(b).devices[e.ak];
    }
  }

  lemma UnionWhenAgreed(a: Bundle, b: Bundle, d: DeviceKey)
    requires forall x, y :: x in a.devices && y in b.devices && x.ak == y.ak ==> x.pubB64 == y.pubB64 && x.name == y.name
    ensures d in a.devices || (d in b.devices && !IsDevice(a, d.ak)) <==> d in a.devices || d in b.devices
  {
    if d in b.devices && IsDevice(a, d.ak) {
      var i :| 0 <= i < |a.devices| && a.devices[i].ak == d.ak;
      assert a.devices[i] in a.devices;
      assert a.devices[i] == d;
    }
  }
}

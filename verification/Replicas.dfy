/** Convergence beyond the two-way exchange: clients that import in turn, and any number of clients that have
    imported the same exports in any order (core/rust/grain-client-core/src/sync.rs). */
module Replicas {
  import opened Prelude
  import opened Scan
  import opened Identity
  import opened IdentityTheorems
  import opened Store
  import opened StoreInvariant
  import opened StoreTheorems
  import opened SyncTheorems
  import EventIds

  /** All that replicas are to agree on. */
  datatype Facts = Facts(scans: map<string, ScanRecord>, events: map<string, LifecycleEvent>, view: View)

  function FactsOf(s: State): Facts
    requires s.identity.Some?
  {
    Facts(s.scans, s.events, ViewOf(s.identity.value))
  }

  predicate Within<T(==)>(a: map<string, T>, b: map<string, T>) {
    forall k :: k in a ==> k in b && a[k] == b[k]
  }

  predicate FactsLeq(a: Facts, b: Facts) {
    Within(a.scans, b.scans) && Within(a.events, b.events) && Leq(a.view, b.view)
  }

  function FactsJoin(a: Facts, b: Facts): Facts {
    Facts(a.scans + b.scans, a.events + b.events, Join(a.view, b.view))
  }

  predicate Compatible(a: Facts, b: Facts) {
    (forall k :: k in a.scans && k in b.scans ==> a.scans[k] == b.scans[k]) &&
    (forall k :: k in a.events && k in b.events ==> a.events[k] == b.events[k]) && NoClash(a.view, b.view)
  }

  lemma FactsJoinIsLeast(a: Facts, b: Facts, c: Facts)
    requires Compatible(a, b)
    ensures FactsLeq(a, FactsJoin(a, b)) && FactsLeq(b, FactsJoin(a, b))
    ensures FactsLeq(a, c) && FactsLeq(b, c) ==> FactsLeq(FactsJoin(a, b), c)
  {
    hide Join, Leq, NoClash;
    JoinIsLeastUpperBound(a.view, b.view, c.view);
  }

  lemma FactsOrder(a: Facts, b: Facts, c: Facts)
    ensures FactsLeq(a, a)
    ensures FactsLeq(a, b) && FactsLeq(b, c) ==> FactsLeq(a, c)
    ensures FactsLeq(a, b) && FactsLeq(b, a) ==> a == b
  {
    hide Leq;
    LeqIsOrder(a.view, b.view, c.view);
    if FactsLeq(a, b) && FactsLeq(b, a) {
      assert a.scans == b.scans && a.events == b.events;
    }
  }

  /** With equal facts and one root, two valid stores have converged. */
  lemma EqualFacts(w: World, s: State, t: State)
    requires Inv(w, s) && Inv(w, t) && s.identity.Some? && t.identity.Some?
    requires SameRoot(s.identity.value, t.identity.value) && FactsOf(s) == FactsOf(t)
    ensures Converged(s, t)
  {
    hide ValidBundle, ScansOk, EventsOk, KnownPubs, Counters;
  }

  // ----- one import -----

  /** Importing an export joins the facts, and brings in no input that was not hashed on either side. */
  lemma ImportJoins(w: World, s: State, t: State, y: SyncBundle)
    requires Base64Laws(w) && Inv(w, s) && Inv(w, t) && IsSyncOf(t, y) && CollisionFree(w, s, t)
    requires s.identity.Some? && t.identity.Some? && SameRoot(s.identity.value, t.identity.value)
    ensures Apply(w, s, ImportSync(Some(y))).1.Ok?
    ensures var r := Apply(w, s, ImportSync(Some(y))).0;
            Inv(w, r) && r.identity.Some? && SameRoot(r.identity.value, s.identity.value) &&
            Compatible(FactsOf(s), FactsOf(t)) && FactsOf(r) == FactsJoin(FactsOf(s), FactsOf(t)) &&
            forall x :: HashedBy(w, r, x) ==> HashedByEither(w, s, t, x)
  {
    hide CollisionFree, Base64Laws, Inv, IsSyncOf, Apply, Merge, MaxCounters, ViewOf, NoClash, HashedBy, Ahead, ValidBundle;
    ImportOfExport(w, s, t, y);
    StepKeeps(w, s, ImportSync(Some(y)));
    HeldIsValid(w, s);
    HeldIsValid(w, t);
    MergeIsJoin(w, s.identity.value, t.identity.value, SyncInvalid);
    ScansAgree(w, s, t);
    EventsAgree(w, s, t);
    var r := Apply(w, s, ImportSync(Some(y))).0;
    HeldIsValid(w, r);
    forall x | HashedBy(w, r, x) ensures HashedByEither(w, s, t, x) {
      HashedBefore(w, s, t, r, x);
    }
  }

  lemma HeldIsValid(w: World, s: State)
    requires Inv(w, s) && s.identity.Some?
    ensures ValidBundle(w, s.identity.value)
  {
    hide ValidBundle, ScansOk, EventsOk, Counters;
  }

  lemma HashedBefore(w: World, s: State, t: State, r: State, x: bytes)
    requires s.identity.Some? && t.identity.Some? && r.identity.Some? && ValidBundle(w, r.identity.value)
    requires ViewOf(r.identity.value).devices == ViewOf(s.identity.value).devices + ViewOf(t.identity.value).devices
    requires r.scans == s.scans + t.scans && r.events == s.events + t.events && HashedBy(w, r, x)
    ensures HashedByEither(w, s, t, x)
  {
    hide ValidBundle, KnownPubs, CoseOf, PubOf, EventIds.EventBytes, DecodeStd;
    if id :| id in r.scans && (CoseOf(w, r.scans[id]) == x || PubOf(w, r.scans[id]) == x) {
      assert if id in t.scans then r.scans[id] == t.scans[id] else id in s.scans && r.scans[id] == s.scans[id];
    } else if id :| id in r.events && EventIds.EventBytes(r.events[id]) == x {
      assert if id in t.events then r.events[id] == t.events[id] else id in s.events && r.events[id] == s.events[id];
    } else {
      var d :| d in r.identity.value.devices && DeviceBytes(w, d) == x;
      DevicesAreDistinct(w, r.identity.value);
      KnownHas(r.identity.value.devices, d);
      if d.ak in KnownPubs(t.identity.value.devices) {
        var e := KnownFrom(t.identity.value.devices, d.ak);
        assert DeviceBytes(w, e) == x;
      } else {
        var e := KnownFrom(s.identity.value.devices, d.ak);
        assert DeviceBytes(w, e) == x;
      }
    }
  }

  // ----- in turn -----

  /** One client imports the other's export, and the other then imports the first one's new export: both
      succeed and the two have converged. */
  lemma SyncInTurn(w: World, s: State, t: State, y: SyncBundle, x: SyncBundle)
    requires Base64Laws(w) && Inv(w, s) && Inv(w, t) && CollisionFree(w, s, t)
    requires s.identity.Some? && t.identity.Some? && SameRoot(s.identity.value, t.identity.value)
    requires IsSyncOf(t, y) && IsSyncOf(Apply(w, s, ImportSync(Some(y))).0, x)
    ensures Apply(w, s, ImportSync(Some(y))).1.Ok? && Apply(w, t, ImportSync(Some(x))).1.Ok?
    ensures Converged(Apply(w, s, ImportSync(Some(y))).0, Apply(w, t, ImportSync(Some(x))).0)
  {
    hide CollisionFree, Base64Laws, Inv, IsSyncOf, Apply, FactsJoin, FactsOf, HashedBy, Compatible, FactsLeq, Converged;
    ImportJoins(w, s, t, y);
    var s1 := Apply(w, s, ImportSync(Some(y))).0;
    SameCollisions(w, s, t, t, s1);
    ImportJoins(w, t, s1, x);
    var t1 := Apply(w, t, ImportSync(Some(x))).0;
    var a, b := FactsOf(s), FactsOf(t);
    FactsJoinIsLeast(a, b, FactsOf(s1));
    FactsJoinIsLeast(b, FactsOf(s1), FactsOf(s1));
    FactsOrder(FactsOf(s1), FactsOf(t1), FactsOf(t1));
    EqualFacts(w, s1, t1);
  }

  /** Fewer inputs, no new collisions. */
  lemma SameCollisions(w: World, s: State, t: State, s': State, t': State)
    requires CollisionFree(w, s, t)
    requires forall x :: HashedByEither(w, s', t', x) ==> HashedByEither(w, s, t, x)
    ensures CollisionFree(w, s', t')
  {
    hide HashedByEither, SameHalf;
  }

  // ----- any number of replicas -----

  ghost predicate HashedInGroup(w: World, g: seq<State>, x: bytes) {
    exists i :: 0 <= i < |g| && HashedBy(w, g[i], x)
  }

  /** Valid stores of one identity, with no collision among anything they have hashed. */
  ghost predicate Group(w: World, g: seq<State>) {
    (forall i :: 0 <= i < |g| ==> Inv(w, g[i]) && g[i].identity.Some?) &&
    (forall i, j :: 0 <= i < |g| && 0 <= j < |g| ==> SameRoot(g[i].identity.value, g[j].identity.value)) &&
    (forall x: bytes, y: bytes :: HashedInGroup(w, g, x) && HashedInGroup(w, g, y) && SameHalf(w, x, y) ==> x == y)
  }

  ghost predicate ExportsOf(g: seq<State>, ys: seq<SyncBundle>) {
    |ys| == |g| && forall i :: 0 <= i < |g| ==> IsSyncOf(g[i], ys[i])
  }

  predicate Below(order: seq<nat>, n: nat) {
    forall i :: 0 <= i < |order| ==> order[i] < n
  }

  /** Import the members' exports in this order; a member may come up any number of times. */
  function Imports(ys: seq<SyncBundle>, order: seq<nat>): (ops: seq<Op>)
    requires Below(order, |ys|)
    ensures |ops| == |order|
  {
    if |order| == 0 then []
    else
      Imports(ys, order[..|order| - 1]) + [ImportSync(Some(ys[order[|order| - 1]]))]
  }

  ghost predicate AboveAll(g: seq<State>, members: seq<nat>, f: Facts)
  {
    forall j: nat :: j in members && j < |g| && g[j].identity.Some? ==> FactsLeq(FactsOf(g[j]), f)
  }

  /** The least facts above those of the members. */
  ghost predicate IsSum(g: seq<State>, members: seq<nat>, f: Facts)
  {
    AboveAll(g, members, f) && forall c: Facts :: AboveAll(g, members, c) ==> FactsLeq(f, c)
  }

  /** A valid store of the group's identity that holds what these members held, and has hashed nothing else. */
  ghost predicate HoldsSum(w: World, g: seq<State>, members: seq<nat>, r: State) {
    Inv(w, r) && r.identity.Some? && IsSum(g, members, FactsOf(r)) &&
    (forall j :: 0 <= j < |g| && g[j].identity.Some? ==> SameRoot(r.identity.value, g[j].identity.value)) &&
    forall x :: HashedBy(w, r, x) ==> HashedInGroup(w, g, x)
  }

  /** After any imports from the group a member holds exactly the sum of what it and those members held. */
  lemma {:induction false} ImportedSum(w: World, g: seq<State>, ys: seq<SyncBundle>, i: nat, order: seq<nat>)
    requires Base64Laws(w) && Group(w, g) && ExportsOf(g, ys) && i < |g| && Below(order, |g|)
    ensures HoldsSum(w, g, [i] + order, Run(w, g[i], Imports(ys, order)))
    decreases |order|
  {
    hide Base64Laws, Inv, Apply, HashedBy, FactsOf, FactsLeq, IsSyncOf, CollisionFree, IsSum, HashedInGroup, SameHalf;
    if |order| == 0 {
      assert [i] + order == [i];
      SumOfOne(g, i);
      InGroup(w, g, i);
    } else {
      var before, k := order[..|order| - 1], order[|order| - 1];
      ImportedSum(w, g, ys, i, before);
      ImportOneMore(w, g, ys, [i] + before, k, Run(w, g[i], Imports(ys, before)));
      RunMore(w, g[i], Imports(ys, before), ImportSync(Some(ys[k])));
      assert ([i] + before) + [k] == [i] + order;
    }
  }

  lemma ImportOneMore(w: World, g: seq<State>, ys: seq<SyncBundle>, members: seq<nat>, k: nat, r: State)
    requires Base64Laws(w) && Group(w, g) && ExportsOf(g, ys) && k < |g| && HoldsSum(w, g, members, r)
    ensures HoldsSum(w, g, members + [k], Apply(w, r, ImportSync(Some(ys[k]))).0)
  {
    hide Base64Laws, Inv, Apply, HashedBy, FactsOf, FactsLeq, IsSyncOf, CollisionFree, IsSum, HashedInGroup, SameHalf;
    InGroup(w, g, k);
    GroupCollisions(w, g, r, g[k]);
    ImportJoins(w, r, g[k], ys[k]);
    SumWithOne(g, members, k, FactsOf(r));
  }

  lemma InGroup(w: World, g: seq<State>, i: nat)
    requires i < |g|
    ensures forall x :: HashedBy(w, g[i], x) ==> HashedInGroup(w, g, x)
  {
    hide HashedBy;
  }

  lemma GroupCollisions(w: World, g: seq<State>, s: State, t: State)
    requires Group(w, g)
    requires forall x :: HashedBy(w, s, x) || HashedBy(w, t, x) ==> HashedInGroup(w, g, x)
    ensures CollisionFree(w, s, t)
  {
    hide HashedBy, HashedInGroup, SameHalf, Inv;
  }

  lemma SumOfOne(g: seq<State>, i: nat)
    requires i < |g| && g[i].identity.Some?
    ensures IsSum(g, [i], FactsOf(g[i]))
  {
    hide FactsOf, FactsLeq;
    FactsOrder(FactsOf(g[i]), FactsOf(g[i]), FactsOf(g[i]));
    assert i in [i];
  }

  lemma SumWithOne(g: seq<State>, members: seq<nat>, k: nat, f: Facts)
    requires k < |g| && g[k].identity.Some?
    requires IsSum(g, members, f) && Compatible(f, FactsOf(g[k]))
    ensures IsSum(g, members + [k], FactsJoin(f, FactsOf(g[k])))
  {
    hide FactsOf, FactsLeq, FactsJoin, Compatible;
    var h := FactsOf(g[k]);
    var u := FactsJoin(f, h);
    FactsJoinIsLeast(f, h, u);
    forall j: nat | j in members + [k] && j < |g| && g[j].identity.Some? ensures FactsLeq(FactsOf(g[j]), u) {
      if j in members {
        FactsOrder(FactsOf(g[j]), f, u);
      }
    }
    forall c: Facts | AboveAll(g, members + [k], c) ensures FactsLeq(u, c) {
      assert k in members + [k];
      assert AboveAll(g, members, c);
      FactsJoinIsLeast(f, h, c);
    }
  }

  /** Replicas of one identity, however many, that have imported the same members' exports, in whatever
      order and however often, have converged. */
  lemma AllConverge(w: World, g: seq<State>, ys: seq<SyncBundle>, i: nat, order1: seq<nat>, k: nat, order2: seq<nat>)
    requires Base64Laws(w) && Group(w, g) && ExportsOf(g, ys) && i < |g| && k < |g|
    requires Below(order1, |g|) && Below(order2, |g|) && forall j: nat :: j in [i] + order1 <==> j in [k] + order2
    ensures Converged(Run(w, g[i], Imports(ys, order1)), Run(w, g[k], Imports(ys, order2)))
  {
    hide Base64Laws, Inv, Run, HashedBy, FactsOf, FactsLeq, Converged, HashedInGroup, SameHalf;
    ImportedSum(w, g, ys, i, order1);
    ImportedSum(w, g, ys, k, order2);
    var r1, r2 := Run(w, g[i], Imports(ys, order1)), Run(w, g[k], Imports(ys, order2));
    assert AboveAll(g, [i] + order1, FactsOf(r2));
    assert AboveAll(g, [k] + order2, FactsOf(r1));
    FactsOrder(FactsOf(r1), FactsOf(r2), FactsOf(r2));
    EqualFacts(w, r1, r2);
  }
}

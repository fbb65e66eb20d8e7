/** The identifier of a lifecycle event determines the event, as far as the hash does not collide
    (core/rust/grain-client-core/src/device.rs:83-107, 162-177). */
module EventIds {
  import opened Prelude
  import opened Scan
  import opened Identity
  import opened Texts
  import Decimal
  import Hex

  predicate KnownKind(t: string) {
    t == "DeviceKeyGrant" || t == "DeviceKeyRevoke"
  }

  /** Under one root the hashed text names kind, number and target. */
  lemma TextInjective(t: string, u: string, root: string, m: nat, n: nat, x: string, y: string)
    requires KnownKind(t) && KnownKind(u) && EventText(t, root, m, x) == EventText(u, root, n, y)
    ensures t == u && m == n && x == y
  {
    hide Decimal.Print;
    var l, r := EventText(t, root, m, x), EventText(u, root, n, y);
    assert l[9] == t[9] && r[9] == u[9];
    assert t == u;
    var head := t + ":" + root + ":";
    var a, b := Decimal.Print(m) + ":" + x, Decimal.Print(n) + ":" + y;
    assert l == head + a && r == head + b;
    assert a == l[|head|..] && b == r[|head|..];
    Decimal.ColonEnds(m, n, x, y);
  }

  /** The bytes hashed to name an event. */
  function EventBytes(e: LifecycleEvent): bytes {
    Utf8(EventText(e.t, e.ak, e.seqNo, e.targetAk))
  }

  lemma ValidKind(w: World, e: LifecycleEvent, b: Bundle)
    requires ValidEvent(w, e, b)
    ensures KnownKind(e.t) && e.ak == b.rootKid && PayloadCid(e.t, e.targetAk) == Some(e.payloadCid)
    ensures e.eventId == EventId(w, e.t, e.ak, e.seqNo, e.targetAk)
  {
    hide IsDevice, EventId, Decimal.Parse;
  }

  /** Valid events with one identifier are one event. */
  lemma OneEventPerId(w: World, e: LifecycleEvent, f: LifecycleEvent, a: Bundle, b: Bundle)
    requires ValidEvent(w, e, a) && ValidEvent(w, f, b) && a.rootKid == b.rootKid && e.eventId == f.eventId
    requires w.crypto.sha256(EventBytes(e)) == w.crypto.sha256(EventBytes(f)) ==> EventBytes(e) == EventBytes(f)
    ensures e == f
  {
    hide ValidEvent, Hex.Encode, Utf8, EventText, PayloadCid;
    ValidKind(w, e, a);
    ValidKind(w, f, b);
    var g, h := w.crypto.sha256(EventBytes(e)), w.crypto.sha256(EventBytes(f));
    assert e.eventId[13..] == Hex.Encode(g) && f.eventId[13..] == Hex.Encode(h);
    Hex.Injective(g, h);
    Utf8Injective(EventText(e.t, e.ak, e.seqNo, e.targetAk), EventText(f.t, f.ak, f.seqNo, f.targetAk));
    TextInjective(e.t, f.t, e.ak, e.seqNo, f.seqNo, e.targetAk, f.targetAk);
  }
}

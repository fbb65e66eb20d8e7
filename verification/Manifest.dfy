/** The manifest resolver: which capability an object resolves to (core/rust/grain-core/src/manifest.rs). */
module Manifest {
  import opened Prelude
  import Lex

  datatype Record = Record(op: string, capId: Option<bytes>, chash: Option<bytes>)

  datatype Input = Input(records: seq<Record>, tombstones: seq<Record>, otherRecords: seq<Record>, otherTombstones: seq<Record>)

  datatype Output = Output(capId: Option<bytes>, unresolvable: bool, diags: seq<Diag>)

  /** `validate_record_shape`. */
  predicate WellShaped(r: Record) {
    (r.op == "put" && r.capId.Some? && r.chash.Some?) || (r.op == "del" && r.capId.None? && r.chash.None?)
  }

  ghost predicate AllWellShaped(i: Input) {
    forall r :: r in i.records || r in i.tombstones || r in i.otherRecords || r in i.otherTombstones ==> WellShaped(r)
  }

  // ----- meaning -----

  ghost predicate Puts(rs: seq<Record>, cap: bytes, chash: bytes) {
    exists r :: r in rs && r.op == "put" && r.capId == Some(cap) && r.chash == Some(chash)
  }

  ghost predicate Contested(rs: seq<Record>, cap: bytes) {
    exists c: bytes, d: bytes :: c != d && Puts(rs, cap, c) && Puts(rs, cap, d)
  }

  /** A capability that is put with one content hash only. */
  ghost predicate Eligible(rs: seq<Record>, cap: bytes) {
    (exists c: bytes :: Puts(rs, cap, c)) && !Contested(rs, cap)
  }

  ghost predicate LeastEligible(rs: seq<Record>, cap: bytes) {
    Eligible(rs, cap) && forall other: bytes :: Eligible(rs, other) ==> !Lex.Less(other, cap)
  }

  /** The resolver's contract. */
  ghost predicate Resolves(i: Input, r: Result<Output, Diag>) {
    if !AllWellShaped(i) then r == Err(ManifestOp)
    else if |i.tombstones| > 0 then r == Ok(Output(None, true, []))
    else
      r.Ok? &&
      r.value.diags == (if exists cap: bytes :: Contested(i.records, cap) then [CapChashConflict] else []) &&
      (r.value.unresolvable <==> !exists cap: bytes :: Eligible(i.records, cap)) &&
      (r.value.capId.None? <==> r.value.unresolvable) &&
      (r.value.capId.Some? ==> LeastEligible(i.records, r.value.capId.value))
  }

  /** `resolve_manifest`. */
  method ResolveManifest(i: Input) returns (r: Result<Output, Diag>)
    ensures Resolves(i, r)
  {
    hide Puts, Contested;
    var shaped := CheckShapes(i.records + i.tombstones + i.otherRecords + i.otherTombstones);
    assert shaped <==> AllWellShaped(i) by { ChainMembers(i); }
    if !shaped {
      return Err(ManifestOp);
    }
    if |i.tombstones| > 0 {
      return Ok(Output(None, true, []));
    }
    assert forall rec :: rec in i.records ==> WellShaped(rec);
    var hashes := HashesByCap(i.records);
    var contested := set cap | cap in hashes && |hashes[cap]| > 1;
    forall cap: bytes ensures cap in contested <==> Contested(i.records, cap) { ContestedCaps(i.records, hashes, cap); }
    var diags: seq<Diag> := [];
    var caps := PutCaps(i.records);
    if contested != {} {
      diags := [CapChashConflict];
      caps := Retain(caps, contested);
    } else {
      assert forall cap: bytes :: cap !in contested;
    }
    assert forall cap: bytes :: cap in caps <==> Eligible(i.records, cap);
    if |caps| == 0 {
      return Ok(Output(None, true, diags));
    }
    assert caps[0] in caps;
    var least := Least(caps);
    r := Ok(Output(Some(least), false, diags));
  }

  lemma ChainMembers(i: Input)
    ensures AllWellShaped(i) <==> forall r :: r in i.records + i.tombstones + i.otherRecords + i.otherTombstones ==> WellShaped(r)
  {
    var all := i.records + i.tombstones + i.otherRecords + i.otherTombstones;
    assert forall r :: r in all <==> (r in i.records || r in i.tombstones || r in i.otherRecords || r in i.otherTombstones);
  }

  method CheckShapes(rs: seq<Record>) returns (ok: bool)
    ensures ok <==> forall r :: r in rs ==> WellShaped(r)
  {
    for i := 0 to |rs|
      invariant forall j :: 0 <= j < i ==> WellShaped(rs[j])
    {
      if !WellShaped(rs[i]) {
        assert rs[i] in rs;
        return false;
      }
    }
    ok := true;
  }

  /** The loop that fills `cap_to_chash`. */
  method HashesByCap(rs: seq<Record>) returns (m: map<bytes, set<bytes>>)
    requires forall r :: r in rs ==> WellShaped(r)
    ensures forall cap: bytes, c: bytes :: cap in m && c in m[cap] <==> Puts(rs, cap, c)
    ensures forall cap: bytes :: cap in m ==> m[cap] != {}
  {
    m := map[];
    for i := 0 to |rs|
      invariant forall cap: bytes, c: bytes :: cap in m && c in m[cap] <==> exists j :: 0 <= j < i && rs[j].op == "put" && rs[j].capId == Some(cap) && rs[j].chash == Some(c)
      invariant forall cap: bytes :: cap in m ==> m[cap] != {}
    {
      assert rs[i] in rs;
      if rs[i].op == "put" {
        var cap, c := rs[i].capId.value, rs[i].chash.value;
        m := m[cap := (if cap in m then m[cap] else {}) + {c}];
      }
    }
    forall cap: bytes, c: bytes ensures cap in m && c in m[cap] <==> Puts(rs, cap, c) {
      if cap in m && c in m[cap] {
        var j :| 0 <= j < |rs| && rs[j].op == "put" && rs[j].capId == Some(cap) && rs[j].chash == Some(c);
        assert rs[j] in rs;
      }
      if Puts(rs, cap, c) {
        var r :| r in rs && r.op == "put" && r.capId == Some(cap) && r.chash == Some(c);
        var j :| 0 <= j < |rs| && rs[j] == r;
      }
    }
  }

  lemma ContestedCaps(rs: seq<Record>, m: map<bytes, set<bytes>>, cap: bytes)
    requires forall cap: bytes, c: bytes :: cap in m && c in m[cap] <==> Puts(rs, cap, c)
    ensures cap in m && |m[cap]| > 1 <==> Contested(rs, cap)
  {
    hide Puts;
    if cap in m && m[cap] != {} {
      var c :| c in m[cap];
      var rest := m[cap] - {c};
      assert |m[cap]| == |rest| + 1;
      if rest != {} {
        var d :| d in rest;
        assert c != d && Puts(rs, cap, c) && Puts(rs, cap, d);
      } else {
        assert forall d :: d in m[cap] ==> d == c;
      }
    }
  }

  /** The capabilities of the put records, in list order. */
  method PutCaps(rs: seq<Record>) returns (caps: seq<bytes>)
    requires forall r :: r in rs ==> WellShaped(r)
    ensures forall cap: bytes :: cap in caps <==> exists c: bytes :: Puts(rs, cap, c)
  {
    caps := [];
    for i := 0 to |rs|
      invariant forall cap: bytes :: cap in caps <==> exists j :: 0 <= j < i && rs[j].op == "put" && rs[j].capId == Some(cap)
    {
      assert rs[i] in rs;
      if rs[i].op == "put" {
        caps := caps + [rs[i].capId.value];
      }
    }
    forall cap: bytes ensures cap in caps <==> exists c: bytes :: Puts(rs, cap, c) {
      if cap in caps {
        var j :| 0 <= j < |rs| && rs[j].op == "put" && rs[j].capId == Some(cap);
        assert rs[j] in rs && Puts(rs, cap, rs[j].chash.value);
      }
      if c :| Puts(rs, cap, c) {
        var r :| r in rs && r.op == "put" && r.capId == Some(cap) && r.chash == Some(c);
        var j :| 0 <= j < |rs| && rs[j] == r;
      }
    }
  }

  method Retain(caps: seq<bytes>, dropped: set<bytes>) returns (kept: seq<bytes>)
    ensures forall cap: bytes :: cap in kept <==> cap in caps && cap !in dropped
  {
    kept := [];
    for i := 0 to |caps|
      invariant forall cap: bytes :: cap in kept <==> cap in caps[..i] && cap !in dropped
    {
      assert caps[..i + 1] == caps[..i] + [caps[i]];
      if caps[i] !in dropped {
        kept := kept + [caps[i]];
      }
    }
    assert caps[..|caps|] == caps;
  }

  method Least(caps: seq<bytes>) returns (least: bytes)
    requires |caps| > 0
    ensures least in caps && forall cap: bytes :: cap in caps ==> !Lex.Less(cap, least)
  {
    var min: Option<bytes> := None;
    for i := 0 to |caps|
      invariant min.None? <==> i == 0
      invariant min.Some? ==> min.value in caps && forall j :: 0 <= j < i ==> !Lex.Less(caps[j], min.value)
    {
      Lex.Irreflexive(caps[i]);
      if min.None? {
        min := Some(caps[i]);
      } else if Lex.Less(caps[i], min.value) {
        forall j | 0 <= j < i ensures !Lex.Less(caps[j], caps[i]) {
          if Lex.Less(caps[j], caps[i]) { Lex.Transitive(caps[j], caps[i], min.value); }
        }
        min := Some(caps[i]);
      }
    }
    least := min.value;
  }

  // ----- consequences -----

  lemma LeastIsUnique(rs: seq<Record>, a: bytes, b: bytes)
    requires LeastEligible(rs, a) && LeastEligible(rs, b)
    ensures a == b
  {
    hide Eligible;
    Lex.Trichotomy(a, b);
  }

  ghost predicate SameMembers(a: seq<Record>, b: seq<Record>) {
    forall r :: r in a <==> r in b
  }

  /** On well-shaped input the answer is a function of the set of eligible records and of whether an
      eligible tombstone exists: order, repeats and every ineligible record are irrelevant. */
  lemma DependsOnEligibleSetOnly(i: Input, j: Input, r: Result<Output, Diag>, s: Result<Output, Diag>)
    requires AllWellShaped(i) && AllWellShaped(j) && Resolves(i, r) && Resolves(j, s)
    requires SameMembers(i.records, j.records) && (|i.tombstones| > 0 <==> |j.tombstones| > 0)
    ensures r == s
  {
    hide AllWellShaped, Contested, Eligible;
    forall cap: bytes ensures Eligible(i.records, cap) <==> Eligible(j.records, cap)
               ensures Contested(i.records, cap) <==> Contested(j.records, cap) {
      SameStanding(i.records, j.records, cap);
    }
    if |i.tombstones| == 0 && r.value.capId.Some? {
      assert LeastEligible(j.records, r.value.capId.value);
      LeastIsUnique(j.records, r.value.capId.value, s.value.capId.value);
    }
  }

  lemma SameStanding(a: seq<Record>, b: seq<Record>, cap: bytes)
    requires SameMembers(a, b)
    ensures Eligible(a, cap) <==> Eligible(b, cap)
    ensures Contested(a, cap) <==> Contested(b, cap)
  {
    forall c: bytes ensures Puts(a, cap, c) <==> Puts(b, cap, c) {}
  }

  // ----- the answer, on the records -----

  /** A put that names capability and content hash, or a delete that names neither. */
  predicate PutOrDelete(r: Record) {
    match r
    case Record(op, Some(_), Some(_)) => op == "put"
    case Record(op, None, None) => op == "del"
    case _ => false
  }

  predicate PutsOf(r: Record, cap: bytes) {
    r.op == "put" && r.capId == Some(cap)
  }

  /** Some record puts the capability, and all that do agree on the content hash. */
  ghost predicate PutAlike(rs: seq<Record>, cap: bytes) {
    (exists r :: r in rs && PutsOf(r, cap)) && forall p, q :: p in rs && q in rs && PutsOf(p, cap) && PutsOf(q, cap) ==> p.chash == q.chash
  }

  /** The resolver's answer: a malformed record anywhere is an error; an eligible tombstone ends it; otherwise the
      bytewise least capability put with one content hash, and a diagnostic if any is put with two. */
  lemma ManifestAnswer(i: Input, r: Result<Output, Diag>)
    requires Resolves(i, r)
    ensures r == Err(ManifestOp) <==> exists x :: x in i.records + i.tombstones + i.otherRecords + i.otherTombstones && !PutOrDelete(x)
    ensures r.Err? ==> r == Err(ManifestOp)
    ensures r.Ok? && i.tombstones != [] ==> r.value == Output(None, true, [])
    ensures r.Ok? && i.tombstones == [] ==>
              (forall cap: bytes :: r.value.capId == Some(cap) <==>
                PutAlike(i.records, cap) && forall other: bytes :: PutAlike(i.records, other) ==> other == cap || Lex.Less(cap, other)) &&
              (r.value.unresolvable <==> forall cap: bytes :: !PutAlike(i.records, cap)) &&
              r.value.diags == if exists p, q :: p in i.records && q in i.records && TwoHashes(p, q) then [CapChashConflict] else []
  {
    hide Eligible, Contested, PutAlike;
    ChainMembers(i);
    if r.Ok? && i.tombstones == [] {
      forall cap: bytes ensures Eligible(i.records, cap) <==> PutAlike(i.records, cap) {
        EligibleIs(i.records, cap);
      }
      ContestedIs(i.records);
      forall a: bytes, b: bytes ensures !Lex.Less(b, a) <==> b == a || Lex.Less(a, b) {
        Lex.Trichotomy(a, b);
        Lex.Irreflexive(a);
        if Lex.Less(a, b) { Lex.Asymmetric(a, b); }
      }
      forall cap: bytes | LeastEligible(i.records, cap) ensures r.value.capId == Some(cap) {
        LeastIsUnique(i.records, cap, r.value.capId.value);
      }
    }
  }

  /** One capability under two content hashes. */
  predicate TwoHashes(p: Record, q: Record) {
    p.op == "put" && q.op == "put" && p.capId.Some? && p.capId == q.capId && p.chash != q.chash
  }

  lemma EligibleIs(rs: seq<Record>, cap: bytes)
    requires forall r :: r in rs ==> WellShaped(r)
    ensures Eligible(rs, cap) <==> PutAlike(rs, cap)
  {
    forall r | r in rs && PutsOf(r, cap) ensures r.chash.Some? && Puts(rs, cap, r.chash.value) {
    }
  }

  lemma ContestedIs(rs: seq<Record>)
    requires forall r :: r in rs ==> WellShaped(r)
    ensures (exists cap: bytes :: Contested(rs, cap)) <==> exists p, q :: p in rs && q in rs && TwoHashes(p, q)
  {
    if cap: bytes :| Contested(rs, cap) {
      var c: bytes, d: bytes :| c != d && Puts(rs, cap, c) && Puts(rs, cap, d);
      var p :| p in rs && p.op == "put" && p.capId == Some(cap) && p.chash == Some(c);
      var q :| q in rs && q.op == "put" && q.capId == Some(cap) && q.chash == Some(d);
      assert TwoHashes(p, q);
    }
    if p, q :| p in rs && q in rs && TwoHashes(p, q) {
      var cap := p.capId.value;
      assert Puts(rs, cap, p.chash.value) && Puts(rs, cap, q.chash.value);
      assert Contested(rs, cap);
    }
  }
}

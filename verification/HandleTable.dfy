/** The generation-tagged store table behind the wasm bindings (core/rust/grain-client-wasm/src/lib.rs). */
module HandleTable {
  import opened Prelude

  const MAX_SLOTS := 0xffff
  const SLOT_SPAN := 0x1_0000

  datatype Slot<T> = Slot(generation: nat, store: Option<T>)

  /** `encode_store_handle`: generation in the high half, slot number plus one in the low half. */
  function Handle(index: nat, generation: nat): nat {
    generation * SLOT_SPAN + (index + 1) % SLOT_SPAN
  }

  /** `decode_store_handle`. */
  function Decode(handle: nat): Option<(nat, nat)> {
    var slot, generation := handle % SLOT_SPAN, handle / SLOT_SPAN;
    if slot == 0 || generation == 0 then None else Some((slot - 1, generation))
  }

  /** `next_store_generation`: a 16-bit increment that skips zero. */
  function NextGeneration(g: nat): nat {
    var next := (g + 1) % SLOT_SPAN;
    if next == 0 then 1 else next
  }

  function FirstFree<T>(slots: seq<Slot<T>>, i: nat): (r: nat)
    requires i <= |slots|
    ensures i <= r <= |slots|
    ensures forall k :: i <= k < r ==> slots[k].store.Some?
    ensures r < |slots| ==> slots[r].store.None?
    decreases |slots| - i
  {
    if i == |slots| || slots[i].store.None? then i else FirstFree(slots, i + 1)
  }

  /** State after `grain_client_store_new`, with the handle returned. */
  function New<T>(slots: seq<Slot<T>>, empty: T): (seq<Slot<T>>, nat) {
    var i := FirstFree(slots, 0);
    if i < |slots| then (slots[i := slots[i].(store := Some(empty))], Handle(i, slots[i].generation))
    else if |slots| == MAX_SLOTS then (slots, 0)
    else (slots + [Slot(1, Some(empty))], Handle(|slots|, 1))
  }

  /** The slot a handle refers to, if the handle is current (`with_store`, `with_store_mut`). */
  function Resolve<T>(slots: seq<Slot<T>>, handle: nat): (r: Option<nat>)
    ensures r.Some? ==> r.value < |slots| && slots[r.value].store.Some?
  {
    var d := Decode(handle);
    if d.Some? && d.value.0 < |slots| && slots[d.value.0].generation == d.value.1 && slots[d.value.0].store.Some?
    then Some(d.value.0) else None
  }

  /** State after `grain_client_store_free`. */
  function Free<T>(slots: seq<Slot<T>>, handle: nat): seq<Slot<T>> {
    match Resolve(slots, handle)
    case None => slots
    case Some(i) => slots[i := Slot(NextGeneration(slots[i].generation), None)]
  }

  class Table<T> {
    var slots: seq<Slot<T>>

    constructor ()
      ensures slots == []
    {
      slots := [];
    }

    method StoreNew(empty: T) returns (handle: nat)
      modifies this
      ensures (slots, handle) == New(old(slots), empty)
    {
      var i := 0;
      while i < |slots| && slots[i].store.Some?
        invariant i <= |slots| && FirstFree(slots, 0) == FirstFree(slots, i)
      {
        i := i + 1;
      }
      if i < |slots| {
        slots := slots[i := slots[i].(store := Some(empty))];
        return Handle(i, slots[i].generation);
      }
      if |slots| == MAX_SLOTS {
        return 0;
      }
      slots := slots + [Slot(1, Some(empty))];
      handle := Handle(|slots| - 1, 1);
    }

    method StoreFree(handle: nat)
      modifies this
      ensures slots == Free(old(slots), handle)
    {
      var d := Decode(handle);
      if d.None? {
        return;
      }
      var (index, generation) := d.value;
      if index >= |slots| {
        return;
      }
      if slots[index].generation == generation && slots[index].store.Some? {
        slots := slots[index := Slot(NextGeneration(slots[index].generation), None)];
      }
    }

    method WithStoreMut(handle: nat, f: T -> T) returns (r: Option<T>)
      modifies this
      ensures match Resolve(old(slots), handle)
              case None => r == None && slots == old(slots)
              case Some(i) => r == Some(f(old(slots)[i].store.value)) && slots == old(slots)[i := old(slots)[i].(store := r)]
    {
      var d := Decode(handle);
      if d.None? {
        return None;
      }
      var (index, generation) := d.value;
      if index >= |slots| || slots[index].generation != generation || slots[index].store.None? {
        return None;
      }
      r := Some(f(slots[index].store.value));
      slots := slots[index := slots[index].(store := r)];
    }
  }

  // ----- runs -----

  datatype Op<T> = OpNew(empty: T) | OpFree(handle: nat) | OpUpdate(handle: nat, value: T)

  function Step<T>(slots: seq<Slot<T>>, op: Op<T>): seq<Slot<T>> {
    match op
    case OpNew(empty) => New(slots, empty).0
    case OpFree(handle) => Free(slots, handle)
    case OpUpdate(handle, value) =>
      match Resolve(slots, handle)
      case None => slots
      case Some(i) => slots[i := slots[i].(store := Some(value))]
  }

  function Run<T>(slots: seq<Slot<T>>, ops: seq<Op<T>>): seq<Slot<T>>
    decreases |ops|
  {
    if |ops| == 0 then slots else Run(Step(slots, ops[0]), ops[1..])
  }

  ghost predicate Valid<T>(slots: seq<Slot<T>>) {
    |slots| <= MAX_SLOTS && forall i :: 0 <= i < |slots| ==> 1 <= slots[i].generation <= 0xffff
  }

  lemma StepValid<T>(slots: seq<Slot<T>>, op: Op<T>)
    requires Valid(slots)
    ensures Valid(Step(slots, op)) && |slots| <= |Step(slots, op)|
  {
  }

  lemma {:induction false} RunValid<T>(slots: seq<Slot<T>>, ops: seq<Op<T>>)
    requires Valid(slots)
    ensures Valid(Run(slots, ops)) && |slots| <= |Run(slots, ops)|
    decreases |ops|
  {
    if |ops| > 0 {
      StepValid(slots, ops[0]);
      RunValid(Step(slots, ops[0]), ops[1..]);
    }
  }

  lemma DecodeOfHandle(index: nat, generation: nat)
    requires index < MAX_SLOTS && 1 <= generation <= 0xffff
    ensures Handle(index, generation) != 0 && Decode(Handle(index, generation)) == Some((index, generation))
  {
  }

  /** In every run, handles of live slots are non-zero, pairwise distinct, and resolve to their slot. */
  lemma LiveHandlesDistinct<T>(ops: seq<Op<T>>, i: nat, j: nat)
    requires var s := Run([], ops); i < |s| && j < |s| && s[i].store.Some? && s[j].store.Some?
    ensures var s := Run([], ops);
            Handle(i, s[i].generation) != 0 &&
            Resolve(s, Handle(i, s[i].generation)) == Some(i) &&
            (Handle(i, s[i].generation) == Handle(j, s[j].generation) ==> i == j)
  {
    hide Handle, Decode;
    var s: seq<Slot<T>> := Run([], ops);
    RunValid([], ops);
    DecodeOfHandle(i, s[i].generation);
    DecodeOfHandle(j, s[j].generation);
  }

  ghost function LiveCount<T>(slots: seq<Slot<T>>): nat {
    if |slots| == 0 then 0 else LiveCount(slots[..|slots| - 1]) + if slots[|slots| - 1].store.Some? then 1 else 0
  }

  lemma {:induction false} LiveCountFull<T>(slots: seq<Slot<T>>)
    ensures LiveCount(slots) <= |slots|
    ensures LiveCount(slots) == |slots| <==> forall i :: 0 <= i < |slots| ==> slots[i].store.Some?
  {
    if |slots| > 0 {
      LiveCountFull(slots[..|slots| - 1]);
    }
  }

  /** In every run, `new` returns 0 exactly when 65535 stores are live; otherwise the handle it returns
      resolves to a slot that was free or absent and now holds the new store. */
  lemma NewFailsWhenFull<T>(ops: seq<Op<T>>, empty: T)
    ensures var s := Run([], ops); var (t, h) := New(s, empty);
            (h == 0 <==> LiveCount(s) == MAX_SLOTS) &&
            (h == 0 ==> t == s) &&
            (h != 0 ==> Resolve(t, h).Some? && t[Resolve(t, h).value].store == Some(empty) &&
                        (Resolve(t, h).value < |s| ==> s[Resolve(t, h).value].store.None?))
  {
    hide Handle, Decode;
    var s: seq<Slot<T>> := Run([], ops);
    RunValid([], ops);
    LiveCountFull(s);
    var i := FirstFree(s, 0);
    if i < |s| {
      DecodeOfHandle(i, s[i].generation);
    } else if |s| < MAX_SLOTS {
      DecodeOfHandle(|s|, 1);
    }
  }

  // ----- stale handles -----

  /** How often slot `i` is freed in a run. */
  ghost function Frees<T>(slots: seq<Slot<T>>, ops: seq<Op<T>>, i: nat): nat
    decreases |ops|
  {
    if |ops| == 0 then 0
    else (if ops[0].OpFree? && Resolve(slots, ops[0].handle) == Some(i) then 1 else 0)
         + Frees(Step(slots, ops[0]), ops[1..], i)
  }

  /** The generation after `k` frees: the 65535 values come round in turn. */
  function GenerationAfter(g: nat, k: nat): (r: nat)
    requires g >= 1
    ensures 1 <= r <= 0xffff
  {
    (g - 1 + k) % 0xffff + 1
  }

  lemma {:induction false} GenerationOfSlot<T>(slots: seq<Slot<T>>, ops: seq<Op<T>>, i: nat)
    requires Valid(slots) && i < |slots|
    ensures i < |Run(slots, ops)|
    ensures Run(slots, ops)[i].generation == GenerationAfter(slots[i].generation, Frees(slots, ops, i))
    decreases |ops|
  {
    hide Handle, Decode, Resolve;
    RunValid(slots, ops);
    if |ops| > 0 {
      var next := Step(slots, ops[0]);
      StepValid(slots, ops[0]);
      GenerationOfSlot(next, ops[1..], i);
      var freed := if ops[0].OpFree? && Resolve(slots, ops[0].handle) == Some(i) then 1 else 0;
      assert next[i].generation == GenerationAfter(slots[i].generation, freed);
      AddFrees(slots[i].generation, freed, Frees(next, ops[1..], i));
    }
  }

  lemma AddFrees(g: nat, a: nat, b: nat)
    requires 1 <= g <= 0xffff && a <= 1
    ensures GenerationAfter(GenerationAfter(g, a), b) == GenerationAfter(g, a + b)
  {
    assert (g - 1 + a) % 0xffff == if g - 1 + a == 0xffff then 0 else g - 1 + a;
  }

  /** A handle issued for slot `i` resolves later exactly when the slot is live and the number of frees
      since then is a multiple of 65535. In particular a freed handle resolves to nothing while its slot
      has been freed between 1 and 65534 times. */
  lemma StaleHandles<T>(slots: seq<Slot<T>>, ops: seq<Op<T>>, i: nat)
    requires Valid(slots) && i < |slots|
    ensures i < |Run(slots, ops)|
    ensures var h := Handle(i, slots[i].generation); var s := Run(slots, ops); var k := Frees(slots, ops, i);
            (Resolve(s, h).Some? <==> s[i].store.Some? && k % 0xffff == 0) &&
            (Resolve(s, h).Some? ==> Resolve(s, h) == Some(i)) &&
            (1 <= k < 0xffff ==> Resolve(s, h) == None)
  {
    hide Handle, Decode, Run, Frees;
    GenerationOfSlot(slots, ops, i);
    RunValid(slots, ops);
    DecodeOfHandle(i, slots[i].generation);
    SameResidue(slots[i].generation, Frees(slots, ops, i));
  }

  lemma SameResidue(g: nat, k: nat)
    requires 1 <= g <= 0xffff
    ensures GenerationAfter(g, k) == g <==> k % 0xffff == 0
  {
    var r, q := k % 0xffff, k / 0xffff;
    assert g - 1 + k == (g - 1 + r) + 0xffff * q;
    assert (g - 1 + k) % 0xffff == (g - 1 + r) % 0xffff;
    assert (g - 1 + r) % 0xffff == if g - 1 + r >= 0xffff then g - 1 + r - 0xffff else g - 1 + r;
  }

  // ----- handles as numbers -----

  /** Which number refers to which slot: in the low 16 bits the slot counted from 1, above them the generation. */
  lemma ResolveExactly<T>(slots: seq<Slot<T>>, h: nat, i: nat)
    requires Valid(slots)
    ensures Resolve(slots, h) == Some(i) <==> i < |slots| && slots[i].store.Some? && h == slots[i].generation * 65536 + i + 1
  {
    var low, high := h % 65536, h / 65536;
    assert h == high * 65536 + low;
    if i < |slots| && h == slots[i].generation * 65536 + i + 1 {
      assert low == i + 1 && high == slots[i].generation;
    }
  }

  /** A new store goes into the first free slot under its generation, else behind the last one under generation
      1, and nowhere once there are 65535 slots. */
  lemma NewExactly<T>(slots: seq<Slot<T>>, empty: T)
    requires Valid(slots)
    ensures var (t, h) := New(slots, empty);
            if exists i :: 0 <= i < |slots| && slots[i].store.None? then
              exists i :: 0 <= i < |slots| && slots[i].store.None? && (forall k :: 0 <= k < i ==> slots[k].store.Some?) &&
                h == slots[i].generation * 65536 + i + 1 && t == slots[i := Slot(slots[i].generation, Some(empty))]
            else if |slots| < 65535 then h == 65536 + |slots| + 1 && t == slots + [Slot(1, Some(empty))]
            else h == 0 && t == slots
  {
    hide Handle;
    var i := FirstFree(slots, 0);
    if i < |slots| {
      assert slots[i].store.None?;
      HandleIs(i, slots[i].generation);
    } else if |slots| < 65535 {
      HandleIs(|slots|, 1);
    }
  }

  lemma HandleIs(i: nat, generation: nat)
    requires i < 65535
    ensures Handle(i, generation) == generation * 65536 + i + 1
  {
  }

  /** Freeing empties the slot the handle refers to and moves its generation on, from 65535 back to 1. */
  lemma FreeExactly<T>(slots: seq<Slot<T>>, h: nat)
    requires Valid(slots)
    ensures if exists i :: 0 <= i < |slots| && slots[i].store.Some? && h == slots[i].generation * 65536 + i + 1 then
              exists i :: 0 <= i < |slots| && slots[i].store.Some? && h == slots[i].generation * 65536 + i + 1 &&
                Free(slots, h) == slots[i := Slot(if slots[i].generation == 65535 then 1 else slots[i].generation + 1, None)]
            else Free(slots, h) == slots
  {
    hide Resolve;
    forall i: nat ensures Resolve(slots, h) == Some(i) <==> i < |slots| && slots[i].store.Some? && h == slots[i].generation * 65536 + i + 1 {
      ResolveExactly(slots, h, i);
    }
  }
}

/**
 The HEVC decoded-picture buffer (mft/dpb.cpp, second half): reference marking by the active short-term
 set (section 8.3.2 of ITU-T H.265), slot choice, holds and flush, and the per-slot view handed to the hardware.
 */
module H265Dpb {
  import opened Bits
  import opened DpbTypes
  import opened HevcRps

  datatype Slot = Slot(inUse: bool, isRef: bool, reorder: bool, ready: bool, consumer: bool, poc: int, epoch: nat)
  {
    predicate Held() { reorder || ready || consumer }

    predicate Reference() { inUse && isRef }

    /** Free for the first pass of the slot search: a picture nothing refers to any more. */
    predicate Recyclable() { !Held() && inUse && !isRef }

    predicate Empty() { !Held() && !inUse }

    /** `h265_slot_clear`: the holds and the epoch stay. */
    function Cleared(): Slot { this.(inUse := false, isRef := false, poc := 0) }

    function Flag(r: HoldReason): bool {
      match r case Reorder => reorder case Ready => ready case Consumer => consumer
    }

    function WithFlag(r: HoldReason, v: bool): Slot {
      match r
      case Reorder => this.(reorder := v)
      case Ready => this.(ready := v)
      case Consumer => this.(consumer := v)
    }

    predicate SameHolds(s: Slot) {
      epoch == s.epoch && reorder == s.reorder && ready == s.ready && consumer == s.consumer
    }
  }

  datatype Dpb = Dpb(pool: seq<PoolEntry>, slots: seq<Slot>, currentIdx: int, currentEpoch: nat)

  /** Where a slice takes its set from, and the SPS it would index. */
  datatype RpsSource = RpsSource(fromSps: bool, sliceSet: Rps, spsUsable: bool, spsSets: seq<Rps>, index: nat)

  datatype Parsed = Parsed(hasSlice: bool, isIdr: bool, nalRef: bool, poc: int, source: RpsSource)

  const SENTINEL: int := 0x3333_3333

  datatype Selection = NoSelection | Selection(
    currentSlot: nat, currentOutput: nat, currentColmv: nat,
    refs: seq<nat>, refColmv: seq<nat>, refPocs: seq<int>, validMask: nat, topPoc: int, bottomPoc: int)

  datatype ActiveSet = NoSet | Set(rps: Rps)

  /** `h265_active_strps`. */
  function ActiveRps(s: RpsSource): ActiveSet {
    if !s.fromSps then Set(s.sliceSet)
    else if !s.spsUsable || s.index >= |s.spsSets| then NoSet
    else Set(s.spsSets[s.index])
  }

  /** The counts the current picture keeps: its own plus each delta of the active set. */
  function NeededPocs(p: Parsed): seq<int> {
    match ActiveRps(p.source)
    case NoSet => []
    case Set(r) => seq(|r.delta|, k requires 0 <= k < |r.delta| => p.poc + r.delta[k])
  }

  function MarkSlot(s: Slot, needed: seq<int>): Slot {
    if s.inUse then s.(isRef := s.poc in needed) else s
  }

  function Mark(slots: seq<Slot>, p: Parsed): (r: seq<Slot>)
    ensures |r| == |slots|
    ensures forall i | 0 <= i < |slots| ::
              r[i] == if p.isIdr then slots[i].Cleared() else MarkSlot(slots[i], NeededPocs(p))
  {
    seq(|slots|, i requires 0 <= i < |slots| =>
      if p.isIdr then slots[i].Cleared() else MarkSlot(slots[i], NeededPocs(p)))
  }

  function IsRecyclable(): Slot -> bool { (s: Slot) => s.Recyclable() }

  function IsEmpty(): Slot -> bool { (s: Slot) => s.Empty() }

  /** `h265_find_free`: first a recyclable slot, then an empty one. */
  function FindFree(slots: seq<Slot>): (r: int)
    ensures r == -1 || (0 <= r < |slots| && !slots[r].Held() && !slots[r].Reference())
    ensures r == -1 ==> forall i | 0 <= i < |slots| :: slots[i].Held() || slots[i].Reference()
  {
    var r := FirstFrom(slots, IsRecyclable(), 0);
    if r >= 0 then r
    else
      var e := FirstFrom(slots, IsEmpty(), 0);
      assert e == -1 ==> forall i | 0 <= i < |slots| ::
        !IsRecyclable()(slots[i]) && !IsEmpty()(slots[i]);
      e
  }

  function AfterSelect(d: Dpb, p: Parsed): (Status, Dpb) {
    if !p.hasSlice then (InvalidInput, d)
    else
      var marked := Mark(d.slots, p);
      var slot := FindFree(marked);
      if slot < 0 then (Full, d.(slots := marked))
      else
        (Ok, d.(slots := marked[slot := marked[slot].(inUse := true, isRef := p.nalRef, poc := p.poc)],
                currentIdx := slot))
  }

  const EMPTY_SLOT := Slot(false, false, false, false, false, 0, 0)

  /** `H265Dpb_Init` of a pool it accepts. */
  function Init(pool: seq<PoolEntry>): Dpb {
    Dpb(pool, seq(|pool|, _ => EMPTY_SLOT), -1, 0)
  }

  predicate Indexed(d: Dpb) { -1 <= d.currentIdx < |d.slots| }

  function ClearSlot(d: Dpb, i: nat): Dpb
    requires i < |d.slots|
  {
    d.(slots := d.slots[i := d.slots[i].Cleared()], currentIdx := -1)
  }

  /** `H265Dpb_OnDecodeComplete`: a picture that is no reference gives its slot back. */
  function AfterComplete(d: Dpb): Dpb
    requires Indexed(d)
  {
    if d.currentIdx >= 0 && !d.slots[d.currentIdx].isRef then ClearSlot(d, d.currentIdx) else d.(currentIdx := -1)
  }

  function AfterFailed(d: Dpb): Dpb
    requires Indexed(d)
  {
    if d.currentIdx >= 0 then ClearSlot(d, d.currentIdx) else d
  }

  // ---------------------------------------------------------------- holds

  function SetFlag(d: Dpb, i: nat, r: HoldReason, v: bool): Dpb
    requires i < |d.slots|
  {
    d.(slots := d.slots[i := d.slots[i].WithFlag(r, v)])
  }

  function AfterAdd(d: Dpb, i: nat, r: HoldReason, epoch: nat): Outcome<Dpb> {
    if i >= |d.slots| then Done(d)
    else if d.slots[i].Flag(r) || d.slots[i].epoch != epoch then Trap
    else Done(SetFlag(d, i, r, true))
  }

  function AfterRelease(d: Dpb, i: nat, r: HoldReason): Outcome<Dpb> {
    if i >= |d.slots| then Done(d)
    else if !d.slots[i].Flag(r) then Trap
    else Done(SetFlag(d, i, r, false))
  }

  function AfterTransfer(d: Dpb, i: nat, from: HoldReason, to: HoldReason, epoch: nat): Outcome<Dpb> {
    if i >= |d.slots| then Done(d)
    else if from == to || !d.slots[i].Flag(from) || d.slots[i].Flag(to) || d.slots[i].epoch != epoch then Trap
    else Done(SetFlag(SetFlag(d, i, from, false), i, to, true))
  }

  /** A slot a consumer still holds keeps its count. */
  function FlushedSlot(s: Slot): Slot {
    if s.consumer then s.(inUse := false, isRef := false) else s.Cleared()
  }

  function AfterFlush(d: Dpb): Outcome<Dpb> {
    if exists i: nat | i < |d.slots| :: d.slots[i].reorder || d.slots[i].ready then Trap
    else Done(d.(slots := seq(|d.slots|, i requires 0 <= i < |d.slots| => FlushedSlot(d.slots[i])),
                 currentIdx := -1, currentEpoch := Wrap32(d.currentEpoch + 1)))
  }

  // ---------------------------------------------------------------- the view

  predicate Active(d: Dpb, i: nat)
    requires i < |d.slots|
  {
    i != d.currentIdx && d.slots[i].Reference()
  }

  /** Bits 0 to `n - 1` of `ref_valid_mask`. */
  function Mask(d: Dpb, n: nat): (m: nat)
    requires n <= |d.slots|
    ensures m < Pow2(n)
  {
    if n == 0 then 0 else Mask(d, n - 1) + if Active(d, n - 1) then Pow2(n - 1) else 0
  }

  lemma NoMask(d: Dpb)
    ensures Mask(d, 0) == 0
  {}

  /** Or-ing in a bit above the mask so far adds it. */
  lemma MaskStep(d: Dpb, i: nat)
    requires i < |d.slots|
    ensures Mask(d, i + 1) == if Active(d, i) then BitOr(Pow2(i), Mask(d, i)) else Mask(d, i)
  {
    hide Pow2, BitOr;
    MultipleMod(Pow2(i), 1);
    OrIntoClearedBits(Pow2(i), Mask(d, i), i);
  }

  lemma {:induction false} MaskBit(d: Dpb, n: nat, i: nat)
    requires i < n <= |d.slots|
    ensures Mask(d, n) / Pow2(i) % 2 == if Active(d, i) then 1 else 0
  {
    var p := Pow2(i);
    if i < n - 1 {
      MaskBit(d, n - 1, i);
      if Active(d, n - 1) {
        Pow2Add(i, n - 1 - i);
        var q := Pow2(n - 2 - i);
        assert Pow2(n - 1) == p * (2 * q);
        HighBitElsewhere(Mask(d, n - 1), p, q);
      }
    } else {
      DivUnique(Mask(d, n), p, if Active(d, i) then 1 else 0, Mask(d, i));
    }
  }

  lemma HighBitElsewhere(m: nat, p: nat, q: nat)
    requires p > 0
    ensures (m + p * (2 * q)) / p % 2 == m / p % 2
  {
    assert (m / p + 2 * q) * p == m / p * p + p * (2 * q);
    DivUnique(m + p * (2 * q), p, m / p + 2 * q, m % p);
  }

  predicate Selected(d: Dpb) {
    0 <= d.currentIdx < |d.slots| == |d.pool| <= MAX_SLOTS
  }

  function View(d: Dpb, p: Parsed): Selection
    requires Selected(d)
  {
    Selection(
      d.currentIdx, d.pool[d.currentIdx].outputFrame, d.pool[d.currentIdx].colmv,
      seq(MAX_SLOTS, i requires 0 <= i < MAX_SLOTS =>
        if i < |d.slots| && Active(d, i) then d.pool[i].outputFrame else 0),
      seq(MAX_SLOTS, i requires 0 <= i < MAX_SLOTS =>
        if i < |d.slots| && Active(d, i) then d.pool[i].colmv else 0),
      seq(MAX_SLOTS, i requires 0 <= i < MAX_SLOTS =>
        if i < |d.slots| && Active(d, i) then d.slots[i].poc else SENTINEL),
      Mask(d, |d.slots|), p.poc, p.poc)
  }

  // ---------------------------------------------------------------- what a successful select means

  /** Slot `i` held, before the select, a picture the active set names. */
  predicate Named(d: Dpb, p: Parsed, i: nat)
    requires i < |d.slots|
  {
    d.slots[i].inUse && d.slots[i].poc in NeededPocs(p)
  }

  /**
   After a successful select of a non-IDR picture the references other than the current slot are exactly
   the slots that held a picture the active set names, unchanged but for their mark; the slot taken was
   none of them and carried no hold; and the mask and the counts say so slot by slot.
   */
  lemma SelectKeepsNamed(d: Dpb, p: Parsed)
    requires |d.slots| == |d.pool| <= MAX_SLOTS && !p.isIdr
    requires AfterSelect(d, p).0 == Ok
    ensures var r := AfterSelect(d, p).1;
            var slot, v := r.currentIdx, View(r, p);
            && Selected(r)
            && !d.slots[slot].Held() && !Named(d, p, slot)
            && (forall i: nat | i < |r.slots| :: Active(r, i) <==> Named(d, p, i))
            && (forall i: nat | i < |r.slots| && Named(d, p, i) :: r.slots[i] == d.slots[i].(isRef := true))
            && (forall i: nat | i < |r.slots| ::
                 && (v.validMask / Pow2(i) % 2 == 1 <==> Named(d, p, i))
                 && v.refPocs[i] == if Named(d, p, i) then d.slots[i].poc else SENTINEL)
  {
    var r := AfterSelect(d, p).1;
    forall i: nat | i < |r.slots|
      ensures View(r, p).validMask / Pow2(i) % 2 == if Active(r, i) then 1 else 0
    {
      MaskBit(r, |r.slots|, i);
    }
  }

  /** With a canonical set the current picture's own count is never among the references'. */
  lemma CurrentIsNoReference(d: Dpb, p: Parsed)
    requires |d.slots| == |d.pool| <= MAX_SLOTS && !p.isIdr && AfterSelect(d, p).0 == Ok
    requires ActiveRps(p.source).Set? ==> Canonical(ActiveRps(p.source).rps)
    ensures var r := AfterSelect(d, p).1;
            forall i: nat | i < |r.slots| && Active(r, i) :: r.slots[i].poc != p.poc
  {
    SelectKeepsNamed(d, p);
    assert forall k | 0 <= k < |NeededPocs(p)| :: NeededPocs(p)[k] != p.poc;
  }

  /** The buffer is full exactly when every slot is held or holds a picture the set names. */
  lemma FullIff(d: Dpb, p: Parsed)
    requires p.hasSlice
    ensures AfterSelect(d, p).0 == Full
            <==> forall i: nat | i < |d.slots| :: d.slots[i].Held() || (!p.isIdr && Named(d, p, i))
  {
    var marked := Mark(d.slots, p);
    forall i: nat | i < |d.slots|
      ensures (marked[i].Held() || marked[i].Reference()) <==> (d.slots[i].Held() || (!p.isIdr && Named(d, p, i)))
    {}
  }

  /**
   Marking makes a slot a reference again if and only if it still holds a picture the set names: one that an
   earlier set left out comes back, where section 8.3.2 of ITU-T H.265 counts it as lost.
   */
  lemma DroppedReturnsIff(d: Dpb, p: Parsed, i: nat)
    requires i < |d.slots| && !d.slots[i].isRef
    ensures Mark(d.slots, p)[i].isRef <==> !p.isIdr && Named(d, p, i)
  {}

  /** A picture of count `poc` whose slice carries a set of one earlier picture, `delta` away. */
  function Following(poc: int, delta: int): Parsed {
    Parsed(true, false, true, poc, RpsSource(false, Rps(1, 0, [delta], [true]), false, [], 0))
  }

  /** Counts 0 and 4 are references; the set of 8 leaves out 0, and the set of 12 brings it back. */
  lemma DroppedPictureReturns()
    ensures var held := EMPTY_SLOT.(inUse := true, isRef := true, consumer := true);
            var d := Dpb([], [held, held.(poc := 4), EMPTY_SLOT, EMPTY_SLOT], -1, 0);
            var (first, d1) := AfterSelect(d, Following(8, -4));
            var (second, d2) := AfterSelect(d1, Following(12, -12));
            first == second == Ok && d.slots[0].isRef && !d1.slots[0].isRef && d2.slots[0].isRef
  {
    var held := EMPTY_SLOT.(inUse := true, isRef := true, consumer := true);
    var d := Dpb([], [held, held.(poc := 4), EMPTY_SLOT, EMPTY_SLOT], -1, 0);
    assert NeededPocs(Following(8, -4)) == [4] && NeededPocs(Following(12, -12)) == [0];
    var m1 := Mark(d.slots, Following(8, -4));
    assert m1 == [held.(isRef := false), held.(poc := 4), EMPTY_SLOT, EMPTY_SLOT];
    assert !m1[2].Held() && !m1[2].Reference() && m1[0].Held() && m1[1].Held();
    assert FindFree(m1) >= 2;
    var d1 := AfterSelect(d, Following(8, -4)).1;
    assert d1.slots[0] == m1[0] && (d1.slots[2] == EMPTY_SLOT || d1.slots[3] == EMPTY_SLOT);
    var m2 := Mark(d1.slots, Following(12, -12));
    assert m2[0].isRef && (m2[2] == EMPTY_SLOT || m2[3] == EMPTY_SLOT);
  }

  // ---------------------------------------------------------------- the context, updated in place

  class H265DpbCtx {
    const pool: seq<PoolEntry>
    const slots: array<Slot>
    var currentIdx: int
    var currentEpoch: nat

    ghost function State(): Dpb
      reads this, slots
    {
      Dpb(pool, slots[..], currentIdx, currentEpoch)
    }

    constructor (entries: seq<PoolEntry>)
      ensures fresh(slots) && State() == Init(entries)
    {
      pool := entries;
      slots := new Slot[|entries|](_ => EMPTY_SLOT);
      currentIdx, currentEpoch := -1, 0;
    }

    method FindFirst(p: Slot -> bool) returns (r: int)
      ensures r == FirstFrom(slots[..], p, 0)
    {
      for i := 0 to slots.Length
        invariant FirstFrom(slots[..], p, 0) == FirstFrom(slots[..], p, i)
      {
        if p(slots[i]) { return i; }
      }
      return -1;
    }

    /** Marks every slot by the active set, or clears all of them for an IDR picture. */
    method MarkSlots(p: Parsed)
      modifies slots
      ensures slots[..] == Mark(old(slots[..]), p)
    {
      var needed := NeededPocs(p);
      for i := 0 to slots.Length
        invariant forall k | 0 <= k < i :: slots[k] == Mark(old(slots[..]), p)[k]
        invariant forall k | i <= k < slots.Length :: slots[k] == old(slots[k])
      {
        if p.isIdr {
          slots[i] := slots[i].Cleared();
        } else if slots[i].inUse {
          slots[i] := slots[i].(isRef := slots[i].poc in needed);
        }
      }
    }

    method Select(p: Parsed) returns (status: Status, out: Selection)
      requires |pool| == slots.Length <= MAX_SLOTS
      modifies this, slots
      ensures (status, State()) == AfterSelect(old(State()), p)
      ensures out == if status == Ok then View(State(), p) else NoSelection
    {
      if !p.hasSlice { return InvalidInput, NoSelection; }
      MarkSlots(p);
      ghost var marked := slots[..];
      var slot := FindFirst(IsRecyclable());
      if slot < 0 { slot := FindFirst(IsEmpty()); }
      assert slot == FindFree(marked);
      if slot < 0 { return Full, NoSelection; }
      slots[slot] := slots[slot].Cleared();
      slots[slot] := slots[slot].(inUse := true, isRef := p.nalRef, poc := p.poc);
      currentIdx := slot;
      assert slots[..] == marked[slot := marked[slot].(inUse := true, isRef := p.nalRef, poc := p.poc)];
      status := Ok;
      out := BuildView(p);
    }

    method BuildView(p: Parsed) returns (out: Selection)
      requires Selected(State())
      ensures out == View(State(), p)
    {
      hide Mask, Pow2, BitOr;
      ghost var v := View(State(), p);
      NoMask(State());
      var refs, refColmv, refPocs, mask := [], [], [], 0;
      for i := 0 to slots.Length
        invariant refs == v.refs[..i] && refColmv == v.refColmv[..i] && refPocs == v.refPocs[..i]
        invariant mask == Mask(State(), i)
      {
        MaskStep(State(), i);
        var active := i != currentIdx && slots[i].inUse && slots[i].isRef;
        refs := refs + [if active then pool[i].outputFrame else 0];
        refColmv := refColmv + [if active then pool[i].colmv else 0];
        refPocs := refPocs + [if active then slots[i].poc else SENTINEL];
        if active { mask := BitOr(Pow2(i), mask); }
      }
      for i := slots.Length to MAX_SLOTS
        invariant refs == v.refs[..i] && refColmv == v.refColmv[..i] && refPocs == v.refPocs[..i]
      {
        refs, refColmv, refPocs := refs + [0], refColmv + [0], refPocs + [SENTINEL];
      }
      out := Selection(currentIdx, pool[currentIdx].outputFrame, pool[currentIdx].colmv,
                       refs, refColmv, refPocs, mask, p.poc, p.poc);
    }

    method OnDecodeComplete()
      requires Indexed(State())
      modifies this, slots
      ensures State() == AfterComplete(old(State()))
    {
      if currentIdx < 0 { return; }
      var cur := currentIdx;
      currentIdx := -1;
      if !slots[cur].isRef { slots[cur] := slots[cur].Cleared(); }
    }

    method OnDecodeFailed()
      requires Indexed(State())
      modifies this, slots
      ensures State() == AfterFailed(old(State()))
    {
      if currentIdx >= 0 {
        var cur := currentIdx;
        currentIdx := -1;
        slots[cur] := slots[cur].Cleared();
      }
    }

    /** `trapped` tells that an RKMPP_VERIFY failed; the process ends there. */
    method AddHold(i: nat, r: HoldReason, epoch: nat) returns (trapped: bool)
      modifies slots
      ensures AfterAdd(old(State()), i, r, epoch) == if trapped then Trap else Done(State())
    {
      if i >= slots.Length { return false; }
      if slots[i].Flag(r) || slots[i].epoch != epoch { return true; }
      slots[i] := slots[i].WithFlag(r, true);
      return false;
    }

    method ReleaseHold(i: nat, r: HoldReason) returns (trapped: bool)
      modifies slots
      ensures AfterRelease(old(State()), i, r) == if trapped then Trap else Done(State())
    {
      if i >= slots.Length { return false; }
      if !slots[i].Flag(r) { return true; }
      slots[i] := slots[i].WithFlag(r, false);
      return false;
    }

    method TransferHold(i: nat, from: HoldReason, to: HoldReason, epoch: nat) returns (trapped: bool)
      modifies slots
      ensures AfterTransfer(old(State()), i, from, to, epoch) == if trapped then Trap else Done(State())
    {
      if i >= slots.Length { return false; }
      if from == to || !slots[i].Flag(from) || slots[i].Flag(to) || slots[i].epoch != epoch { return true; }
      slots[i] := slots[i].WithFlag(from, false);
      slots[i] := slots[i].WithFlag(to, true);
      return false;
    }

    method Flush() returns (trapped: bool)
      modifies this, slots
      ensures AfterFlush(old(State())) == if trapped then Trap else Done(State())
    {
      for i := 0 to slots.Length
        invariant forall k | 0 <= k < i :: !old(slots[k]).reorder && !old(slots[k]).ready
        invariant forall k | 0 <= k < i :: slots[k] == FlushedSlot(old(slots[k]))
        invariant forall k | i <= k < slots.Length :: slots[k] == old(slots[k])
        invariant State() == old(State()).(slots := slots[..])
      {
        if slots[i].reorder || slots[i].ready {
          assert old(State()).slots[i] == old(slots[i]);
          return true;
        }
        slots[i] := FlushedSlot(slots[i]);
      }
      ghost var before := old(State());
      assert forall i: nat | i < |before.slots| :: before.slots[i] == old(slots[i]);
      assert slots[..] == seq(|before.slots|, i requires 0 <= i < |before.slots| => FlushedSlot(before.slots[i]));
      currentIdx := -1;
      currentEpoch := Wrap32(currentEpoch + 1);
      return false;
    }
  }

  /** `H265Dpb_Init`: refuses a pool of the wrong size or with a null buffer. */
  method CreateDpb(entries: seq<PoolEntry>) returns (status: Status, ctx: H265DpbCtx?)
    ensures status == if PoolOk(entries) then Ok else InvalidInput
    ensures status == Ok <==> ctx != null
    ensures ctx != null ==> fresh(ctx) && fresh(ctx.slots) && ctx.State() == Init(entries)
  {
    if |entries| == 0 || |entries| > MAX_SLOTS { return InvalidInput, null; }
    for i := 0 to |entries|
      invariant forall k | 0 <= k < i :: entries[k].outputFrame != 0 && entries[k].colmv != 0
    {
      if entries[i].outputFrame == 0 || entries[i].colmv == 0 { return InvalidInput, null; }
    }
    status := Ok;
    ctx := new H265DpbCtx(entries);
  }
}

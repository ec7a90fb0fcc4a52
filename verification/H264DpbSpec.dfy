/**
 What each operation of the H.264 decoded-picture buffer (mft/dpb.cpp) does to its state, on values.
 The class in H264Dpb is proved against these functions; H264SlidingWindow, H264LongTerm, H264Holds and
 H264RefLists prove what they promise.
 */
module H264DpbSpec {
  import opened Bits
  import opened DpbTypes

  datatype Slot = Slot(
    inUse: bool, isRef: bool, longTerm: bool,
    reorder: bool, ready: bool, consumer: bool,
    frameNum: nat, topPoc: int, bottomPoc: int, longTermFrameIdx: nat, epoch: nat)
  {
    function Flag(r: HoldReason): bool {
      match r case Reorder => reorder case Ready => ready case Consumer => consumer
    }

    function WithFlag(r: HoldReason, v: bool): Slot {
      match r
      case Reorder => this.(reorder := v)
      case Ready => this.(ready := v)
      case Consumer => this.(consumer := v)
    }

    predicate Held() { reorder || ready || consumer }

    predicate Free() { !inUse && !Held() }

    predicate Reference() { inUse && isRef }

    predicate ShortTerm() { inUse && isRef && !longTerm }

    predicate LongTerm() { inUse && isRef && longTerm }

    predicate SameHolds(s: Slot) {
      epoch == s.epoch && reorder == s.reorder && ready == s.ready && consumer == s.consumer
    }

    /** Same holds, and a reference only if it was one. */
    predicate MarkedFrom(s: Slot) {
      SameHolds(s) && (isRef ==> s.isRef && inUse == s.inUse)
    }

    /** `slot_clear`: the holds and the epoch stay. */
    function Cleared(): (r: Slot)
      ensures r.MarkedFrom(this)
    {
      this.(inUse := false, isRef := false, longTerm := false,
            frameNum := 0, topPoc := 0, bottomPoc := 0, longTermFrameIdx := 0)
    }
  }

  datatype Mmco = Mmco(
    op: nat, differenceOfPicNumsMinus1: nat, longTermPicNum: nat,
    longTermFrameIdx: nat, maxLongTermFrameIdxPlus1: nat)

  datatype Dpb = Dpb(
    pool: seq<PoolEntry>, slots: seq<Slot>, currentIdx: int, currentEpoch: nat,
    maxNumRefFrames: nat, maxFrameNum: nat, currPicNum: nat, maxLongTermFrameIdx: int,
    adaptive: bool, mmco: seq<Mmco>, pendingCurrPicNum: nat, lastBumpedPoc: int)

  datatype SliceType = P | B | I | SP | SI

  /** The part of a parsed access unit that `Dpb_Select` reads. */
  datatype Parsed = Parsed(
    hasSlice: bool, isIdr: bool, idrLongTermReference: bool, nalRefIdc: nat,
    frameNum: nat, topPoc: int, bottomPoc: int, adaptive: bool, mmco: seq<Mmco>,
    maxNumRefFrames: nat, log2MaxFrameNumMinus4: nat, sliceType: SliceType)

  const INT32_MIN: int := -0x8000_0000

  /** Pool `a` is pool `b` after reference marking: no hold or epoch moved, no reference appeared. */
  predicate MarkedFrom(a: seq<Slot>, b: seq<Slot>) {
    |a| == |b| && forall i | 0 <= i < |a| :: a[i].MarkedFrom(b[i])
  }

  function First(slots: seq<Slot>, p: Slot -> bool): (r: int)
    ensures -1 <= r < |slots|
  {
    FirstFrom(slots, p, 0)
  }

  function IsFree(): Slot -> bool { (s: Slot) => s.Free() }

  /** `find_short_term_by_pic_num`: compares the raw frame number. */
  function HasPicNum(picNum: nat): Slot -> bool {
    (s: Slot) => s.ShortTerm() && s.frameNum == picNum
  }

  /** `find_long_term_by_lt_pic_num` and `find_long_term_by_frame_idx`. */
  function HasLongTermIdx(idx: nat): Slot -> bool {
    (s: Slot) => s.LongTerm() && s.longTermFrameIdx == idx
  }

  // ---------------------------------------------------------------- sliding window

  /** FrameNumWrap of section 8.2.4.1 of ITU-T H.264. */
  function FrameNumWrap(frameNum: nat, currFrameNum: nat, maxFrameNum: nat): int {
    if frameNum > currFrameNum then frameNum - maxFrameNum else frameNum
  }

  function WindowMax(d: Dpb): nat {
    if d.maxFrameNum != 0 then d.maxFrameNum else 16
  }

  function Wrapped(d: Dpb, i: nat): int
    requires i < |d.slots|
  {
    FrameNumWrap(d.slots[i].frameNum, d.currPicNum, WindowMax(d))
  }

  /** The short-term reference among the first `n` slots with the least FrameNumWrap, or -1. */
  function OldestAmong(d: Dpb, n: nat): (r: int)
    requires n <= |d.slots|
    ensures r == -1 || (0 <= r < n && d.slots[r].ShortTerm())
  {
    if n == 0 then -1
    else
      var oldest := OldestAmong(d, n - 1);
      if d.slots[n - 1].ShortTerm() && (oldest < 0 || Wrapped(d, n - 1) < Wrapped(d, oldest)) then n - 1
      else oldest
  }

  function Evict(d: Dpb): (r: Dpb)
    ensures MarkedFrom(r.slots, d.slots) && r.currentIdx == d.currentIdx
  {
    var oldest := OldestAmong(d, |d.slots|);
    if oldest < 0 then d
    else d.(lastBumpedPoc := d.slots[oldest].topPoc,
            slots := d.slots[oldest := d.slots[oldest].Cleared()])
  }

  function ShortRefs(slots: seq<Slot>): set<nat> {
    set i: nat | i < |slots| && slots[i].ShortTerm()
  }

  lemma EvictDropsOldest(d: Dpb)
    requires ShortRefs(d.slots) != {}
    ensures OldestAmong(d, |d.slots|) >= 0
    ensures ShortRefs(Evict(d).slots) == ShortRefs(d.slots) - {OldestAmong(d, |d.slots|)}
    ensures |ShortRefs(Evict(d).slots)| == |ShortRefs(d.slots)| - 1
    ensures Evict(d).lastBumpedPoc == d.slots[OldestAmong(d, |d.slots|)].topPoc
  {
    hide OldestAmong;
    var i :| i in ShortRefs(d.slots);
    OldestExists(d, i, |d.slots|);
    var oldest := OldestAmong(d, |d.slots|);
    forall j: nat ensures j in ShortRefs(Evict(d).slots) <==> j in ShortRefs(d.slots) && j != oldest {
      if j < |d.slots| && j != oldest { assert Evict(d).slots[j] == d.slots[j]; }
    }
    assert oldest in ShortRefs(d.slots);
    assert ShortRefs(Evict(d).slots) == ShortRefs(d.slots) - {oldest};
  }

  lemma {:induction false} OldestExists(d: Dpb, i: nat, n: nat)
    requires i < n <= |d.slots| && d.slots[i].ShortTerm()
    ensures OldestAmong(d, n) >= 0
  {
    if i < n - 1 { OldestExists(d, i, n - 1); }
  }

  /** Evicts until no more than `maxRefs` short-term references are left. */
  function SlidingWindow(d: Dpb, maxRefs: nat): (r: Dpb)
    requires maxRefs > 0
    ensures MarkedFrom(r.slots, d.slots) && r.currentIdx == d.currentIdx
    decreases |ShortRefs(d.slots)|
  {
    if |ShortRefs(d.slots)| <= maxRefs then d
    else
      EvictDropsOldest(d);
      SlidingWindow(Evict(d), maxRefs)
  }

  // ---------------------------------------------------------------- memory management control operations

  /** Marking leaves the holds and the pending list alone. */
  predicate OnlyMarked(r: Dpb, d: Dpb) {
    && MarkedFrom(r.slots, d.slots) && r.currentIdx == d.currentIdx
    && r.pendingCurrPicNum == d.pendingCurrPicNum && r.mmco == d.mmco
  }

  function ClearSlot(d: Dpb, i: int): (r: Dpb)
    requires i < |d.slots|
    ensures OnlyMarked(r, d)
  {
    if i < 0 then d else d.(slots := d.slots[i := d.slots[i].Cleared()])
  }

  /** Clears slot `i` unless it is the current picture's. */
  function ClearOther(d: Dpb, i: int, cur: nat): (r: Dpb)
    requires i < |d.slots|
    ensures OnlyMarked(r, d)
  {
    if i == cur then d else ClearSlot(d, i)
  }

  /** Every slot but `cur` that satisfies `p`, cleared. */
  function ClearWhere(slots: seq<Slot>, cur: nat, p: Slot -> bool): (r: seq<Slot>)
    ensures |r| == |slots|
    ensures forall i: nat | i < |slots| :: r[i] == if i != cur && p(slots[i]) then slots[i].Cleared() else slots[i]
  {
    seq(|slots|, i requires 0 <= i < |slots| =>
      if i != cur && p(slots[i]) then slots[i].Cleared() else slots[i])
  }

  function MarkLongTerm(d: Dpb, i: int, idx: nat): (r: Dpb)
    requires i < |d.slots|
    ensures OnlyMarked(r, d)
  {
    if i < 0 then d
    else d.(slots := d.slots[i := d.slots[i].(longTerm := true, longTermFrameIdx := idx % 0x1_0000)])
  }

  function PicNumX(d: Dpb, m: Mmco): nat {
    Wrap32(d.pendingCurrPicNum - Wrap32(m.differenceOfPicNumsMinus1 + 1))
  }

  /** The range check shared by operations 3 and 6. */
  predicate LongTermIdxAllowed(d: Dpb, m: Mmco) {
    d.maxLongTermFrameIdx >= 0 && ToInt32(m.longTermFrameIdx) <= d.maxLongTermFrameIdx
  }

  function AboveMax(newMax: int): Slot -> bool {
    (s: Slot) => s.LongTerm() && (newMax < 0 || s.longTermFrameIdx > newMax)
  }

  function AnySlot(): Slot -> bool { (s: Slot) => true }

  /** Operation 4: a new maximum, and no other picture above it. */
  function SetMax(d: Dpb, cur: nat, newMax: int): (r: Dpb)
    ensures OnlyMarked(r, d)
  {
    d.(maxLongTermFrameIdx := newMax, slots := ClearWhere(d.slots, cur, AboveMax(newMax)))
  }

  /** Operation 5: no reference but the current picture is left. */
  function ClearAll(d: Dpb, cur: nat): (r: Dpb)
    requires cur < |d.slots|
    ensures OnlyMarked(r, d)
  {
    var slots := ClearWhere(d.slots, cur, AnySlot());
    d.(maxLongTermFrameIdx := -1, slots := slots[cur := slots[cur].(frameNum := 0)])
  }

  /** The state in which operations 3 and 6 assign their index: its holder dropped, unless current. */
  function Vacated(d: Dpb, cur: nat, m: Mmco): (r: Dpb)
    ensures OnlyMarked(r, d)
  {
    ClearOther(d, First(d.slots, HasLongTermIdx(m.longTermFrameIdx)), cur)
  }

  lemma MarkedTwice(r: Dpb, v: Dpb, d: Dpb)
    requires OnlyMarked(r, v) && OnlyMarked(v, d)
    ensures OnlyMarked(r, d)
  {
    forall i | 0 <= i < |r.slots| ensures r.slots[i].MarkedFrom(d.slots[i]) {
      assert r.slots[i].MarkedFrom(v.slots[i]) && v.slots[i].MarkedFrom(d.slots[i]);
    }
  }

  /** Operations 3 and 6 give `target` a long-term index. */
  function Assign(d: Dpb, cur: nat, target: int, m: Mmco): (r: Dpb)
    requires target < |d.slots|
    ensures OnlyMarked(r, d)
  {
    var v := Vacated(d, cur, m);
    var r := MarkLongTerm(v, target, m.longTermFrameIdx);
    MarkedTwice(r, v, d);
    r
  }

  /** One operation of `apply_mmco_ops`, the current picture in slot `cur`. */
  function ApplyMmco(d: Dpb, cur: nat, m: Mmco): (r: Dpb)
    requires cur < |d.slots|
    ensures OnlyMarked(r, d)
  {
    match m.op
    case 1 => ClearOther(d, First(d.slots, HasPicNum(PicNumX(d, m))), cur)
    case 2 => ClearOther(d, First(d.slots, HasLongTermIdx(m.longTermPicNum)), cur)
    case 3 =>
      if LongTermIdxAllowed(d, m) then Assign(d, cur, First(Vacated(d, cur, m).slots, HasPicNum(PicNumX(d, m))), m)
      else d
    case 4 => SetMax(d, cur, ToInt32(m.maxLongTermFrameIdxPlus1) - 1)
    case 5 => ClearAll(d, cur)
    case 6 => if LongTermIdxAllowed(d, m) then Assign(d, cur, cur, m) else d
    case _ => d
  }

  function ApplyMmcos(d: Dpb, cur: nat, ops: seq<Mmco>): (r: Dpb)
    requires cur < |d.slots|
    ensures MarkedFrom(r.slots, d.slots) && r.currentIdx == d.currentIdx && r.pendingCurrPicNum == d.pendingCurrPicNum
  {
    if ops == [] then d
    else ApplyMmco(ApplyMmcos(d, cur, ops[..|ops| - 1]), cur, ops[|ops| - 1])
  }

  // ---------------------------------------------------------------- the operations

  function EmptySlot(): Slot {
    Slot(false, false, false, false, false, false, 0, 0, 0, 0, 0)
  }

  function Init(pool: seq<PoolEntry>): Dpb {
    Dpb(pool, seq(|pool|, _ => EmptySlot()), -1, 0, 0, 0, 0, -1, false, [], 0, 0)
  }

  function FlushForIdr(d: Dpb, p: Parsed): (r: Dpb)
    ensures MarkedFrom(r.slots, d.slots) && r.currentIdx == d.currentIdx
  {
    if p.isIdr then
      d.(slots := seq(|d.slots|, i requires 0 <= i < |d.slots| => d.slots[i].Cleared()),
         maxLongTermFrameIdx := if p.idrLongTermReference then 0 else -1)
    else d
  }

  /** The slot search of `Dpb_Select`: evicts one reference when nothing is free. */
  function MakeRoom(d: Dpb): (r: Dpb)
    ensures MarkedFrom(r.slots, d.slots) && r.currentIdx == d.currentIdx
  {
    if First(d.slots, IsFree()) >= 0 then d else Evict(d)
  }

  function MaxFrameNum(p: Parsed): nat {
    Pow2(p.log2MaxFrameNumMinus4 + 4)
  }

  function Occupied(s: Slot, p: Parsed, epoch: nat): Slot {
    s.(inUse := true, isRef := p.nalRefIdc != 0,
       longTerm := p.isIdr && p.idrLongTermReference,
       frameNum := p.frameNum, topPoc := p.topPoc, bottomPoc := p.bottomPoc,
       longTermFrameIdx := 0, epoch := epoch)
  }

  /** The state after `Dpb_Select` put the picture in `slot`. */
  function Take(d: Dpb, p: Parsed, slot: nat): Dpb
    requires slot < |d.slots|
  {
    d.(slots := d.slots[slot := Occupied(d.slots[slot], p, d.currentEpoch)],
       currentIdx := slot,
       adaptive := !p.isIdr && p.adaptive,
       mmco := if p.isIdr then [] else p.mmco,
       pendingCurrPicNum := p.frameNum,
       maxNumRefFrames := if p.maxNumRefFrames == 0 then 1 else p.maxNumRefFrames,
       maxFrameNum := MaxFrameNum(p),
       currPicNum := p.frameNum)
  }

  /** `Dpb_Select` without its output view. */
  function Select(d: Dpb, p: Parsed): (r: (Status, Dpb))
    ensures |r.1.slots| == |d.slots|
  {
    if !p.hasSlice then (InvalidInput, d)
    else
      var d' := MakeRoom(FlushForIdr(d, p));
      var slot := First(d'.slots, IsFree());
      if slot < 0 then (Full, d') else (Ok, Take(d', p, slot))
  }

  /** The post-decode marking of a reference picture in slot `cur`. */
  function Mark(d: Dpb, cur: nat): (r: Dpb)
    requires cur < |d.slots|
    ensures MarkedFrom(r.slots, d.slots) && r.currentIdx == d.currentIdx
  {
    if d.adaptive then ApplyMmcos(d, cur, d.mmco)
    else SlidingWindow(d, if d.maxNumRefFrames == 0 then 1 else d.maxNumRefFrames)
  }

  predicate Indexed(d: Dpb) {
    -1 <= d.currentIdx < |d.slots|
  }

  function Complete(d: Dpb): (r: Dpb)
    requires Indexed(d)
    ensures MarkedFrom(r.slots, d.slots)
  {
    var d := d.(lastBumpedPoc := INT32_MIN);
    if d.currentIdx < 0 then d
    else
      var cur := d.currentIdx;
      var d := d.(currentIdx := -1);
      (if d.slots[cur].isRef then Mark(d, cur) else ClearSlot(d, cur)).(adaptive := false, mmco := [])
  }

  function Failed(d: Dpb): (r: Dpb)
    requires Indexed(d)
    ensures MarkedFrom(r.slots, d.slots)
  {
    ClearSlot(d, d.currentIdx).(lastBumpedPoc := INT32_MIN, currentIdx := -1, adaptive := false, mmco := [])
  }

  // ---------------------------------------------------------------- holds

  function SetFlag(d: Dpb, i: nat, r: HoldReason, v: bool): Dpb
    requires i < |d.slots|
  {
    d.(slots := d.slots[i := d.slots[i].WithFlag(r, v)])
  }

  function AddHold(d: Dpb, i: nat, r: HoldReason, epoch: nat): Outcome<Dpb> {
    if i >= |d.slots| then Done(d)
    else if d.slots[i].Flag(r) || d.slots[i].epoch != epoch then Trap
    else Done(SetFlag(d, i, r, true))
  }

  function ReleaseHold(d: Dpb, i: nat, r: HoldReason): Outcome<Dpb> {
    if i >= |d.slots| then Done(d)
    else if !d.slots[i].Flag(r) then Trap
    else Done(SetFlag(d, i, r, false))
  }

  function TransferHold(d: Dpb, i: nat, from: HoldReason, to: HoldReason, epoch: nat): Outcome<Dpb> {
    if i >= |d.slots| then Done(d)
    else if from == to || !d.slots[i].Flag(from) || d.slots[i].Flag(to) || d.slots[i].epoch != epoch then Trap
    else Done(SetFlag(SetFlag(d, i, from, false), i, to, true))
  }

  function FlushedSlot(s: Slot): Slot {
    if s.consumer then s.(inUse := false, isRef := false, longTerm := false) else s.Cleared()
  }

  function Flush(d: Dpb): Outcome<Dpb> {
    if exists i: nat | i < |d.slots| :: d.slots[i].reorder || d.slots[i].ready then Trap
    else Done(d.(slots := seq(|d.slots|, i requires 0 <= i < |d.slots| => FlushedSlot(d.slots[i])),
                 currentIdx := -1, currentEpoch := Wrap32(d.currentEpoch + 1)))
  }
}

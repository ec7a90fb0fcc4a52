/**
 Long-term references of the H.264 buffer (section 8.2.5.4 of ITU-T H.264): their indices are distinct
 and at most MaxLongTermFrameIdx.  Each operation keeps this except in the cases `Breaks` lists, and
 so does every run whose operation lists are in order.
 */
module H264LongTerm {
  import opened Bits
  import opened DpbTypes
  import opened H264DpbSpec
  import opened H264Holds

  predicate Distinct(slots: seq<Slot>) {
    forall i, j | 0 <= i < j < |slots| && slots[i].LongTerm() && slots[j].LongTerm() ::
      slots[i].longTermFrameIdx != slots[j].longTermFrameIdx
  }

  predicate Bounded(slots: seq<Slot>, max: int) {
    forall i | 0 <= i < |slots| && slots[i].LongTerm() :: slots[i].longTermFrameIdx <= max
  }

  predicate LongTermOk(d: Dpb) {
    Distinct(d.slots) && Bounded(d.slots, d.maxLongTermFrameIdx)
  }

  /** Every slot stayed as it was or stopped being a reference. */
  predicate OnlyDrops(a: seq<Slot>, b: seq<Slot>) {
    |a| == |b| && forall i | 0 <= i < |a| :: b[i] == a[i] || !b[i].isRef
  }

  /** Some other long-term reference has index `idx`, or `idx` is above the maximum. */
  predicate Clash(d: Dpb, i: nat, idx: nat) {
    idx > d.maxLongTermFrameIdx
    || exists j: nat | j < |d.slots| && j != i :: d.slots[j].LongTerm() && d.slots[j].longTermFrameIdx == idx
  }

  function ShortTarget(d: Dpb, cur: nat, m: Mmco): int {
    First(Vacated(d, cur, m).slots, HasPicNum(PicNumX(d, m)))
  }

  /** When an operation leaves two references with one index, or one above the maximum. */
  predicate Breaks(d: Dpb, cur: nat, m: Mmco)
    requires cur < |d.slots|
  {
    match m.op
    case 3 =>
      LongTermIdxAllowed(d, m) && ShortTarget(d, cur, m) >= 0
      && Clash(Vacated(d, cur, m), ShortTarget(d, cur, m), m.longTermFrameIdx % 0x1_0000)
    case 4 => d.slots[cur].LongTerm() && d.slots[cur].longTermFrameIdx > ToInt32(m.maxLongTermFrameIdxPlus1) - 1
    case 5 => d.slots[cur].LongTerm()
    case 6 => LongTermIdxAllowed(d, m) && Clash(Vacated(d, cur, m), cur, m.longTermFrameIdx % 0x1_0000)
    case _ => false
  }

  lemma DropsKeep(a: seq<Slot>, b: seq<Slot>, max: int)
    requires OnlyDrops(a, b) && Distinct(a) && Bounded(a, max)
    ensures Distinct(b) && Bounded(b, max)
  {}

  /** Giving slot `i` a long-term index keeps the property exactly when the index does not clash. */
  lemma MarkKeepsIff(d: Dpb, i: nat, idx: nat)
    requires LongTermOk(d) && i < |d.slots| && d.slots[i].Reference()
    ensures LongTermOk(MarkLongTerm(d, i, idx)) <==> !Clash(d, i, idx % 0x1_0000)
  {
    var r, t := MarkLongTerm(d, i, idx), idx % 0x1_0000;
    assert r.slots[i].LongTerm() && r.slots[i].longTermFrameIdx == t;
    if Clash(d, i, t) && t <= d.maxLongTermFrameIdx {
      var j: nat :| j < |d.slots| && j != i && d.slots[j].LongTerm() && d.slots[j].longTermFrameIdx == t;
      assert r.slots[j] == d.slots[j];
    }
  }

  /** What a search returns is what it looks for. */
  lemma FoundIs(slots: seq<Slot>, picNum: nat)
    ensures var i := First(slots, HasPicNum(picNum)); i >= 0 ==> slots[i].ShortTerm() && slots[i].frameNum == picNum
  {
    var i := First(slots, HasPicNum(picNum));
    if i >= 0 { assert HasPicNum(picNum)(slots[i]); }
  }

  /** Clearing a slot other than the current picture's keeps the property. */
  lemma ClearKeeps(d: Dpb, i: int, cur: nat)
    requires LongTermOk(d) && i < |d.slots| && cur < |d.slots|
    ensures var v := ClearOther(d, i, cur); LongTermOk(v) && v.slots[cur] == d.slots[cur]
  {
    hide Distinct, Bounded;
    DropsKeep(d.slots, ClearOther(d, i, cur).slots, d.maxLongTermFrameIdx);
  }

  lemma AssignKeepsIff(d: Dpb, cur: nat, m: Mmco)
    requires LongTermOk(d) && cur < |d.slots| && d.slots[cur].Reference()
    requires m.op == 3 || m.op == 6
    ensures LongTermOk(ApplyMmco(d, cur, m)) <==> !Breaks(d, cur, m)
  {
    hide First, HasPicNum, HasLongTermIdx, PicNumX, LongTermIdxAllowed, LongTermOk, ClearOther, MarkLongTerm, Clash;
    var v := Vacated(d, cur, m);
    ClearKeeps(d, First(d.slots, HasLongTermIdx(m.longTermFrameIdx)), cur);
    if m.op == 6 {
      MarkKeepsIff(v, cur, m.longTermFrameIdx);
    } else if ShortTarget(d, cur, m) >= 0 {
      FoundIs(v.slots, PicNumX(d, m));
      MarkKeepsIff(v, ShortTarget(d, cur, m), m.longTermFrameIdx);
    } else {
      MarkNothing(v, ShortTarget(d, cur, m), m.longTermFrameIdx);
    }
  }

  lemma MarkNothing(d: Dpb, i: int, idx: nat)
    requires i < 0
    ensures MarkLongTerm(d, i, idx) == d
  {}

  /** The property survives an operation if and only if the operation is none of the breaking ones. */
  lemma OperationKeepsIff(d: Dpb, cur: nat, m: Mmco)
    requires LongTermOk(d) && cur < |d.slots| && d.slots[cur].Reference()
    ensures LongTermOk(ApplyMmco(d, cur, m)) <==> !Breaks(d, cur, m)
  {
    hide First, HasPicNum, HasLongTermIdx, PicNumX, ToInt32, LongTermIdxAllowed, ClearOther, LongTermOk;
    if m.op == 3 || m.op == 6 {
      AssignKeepsIff(d, cur, m);
    } else if m.op == 4 {
      NewMaxKeepsIff(d, cur, ToInt32(m.maxLongTermFrameIdxPlus1) - 1);
    } else if m.op == 5 {
      ClearAllKeepsIff(d, cur);
    } else if m.op == 1 {
      ClearKeeps(d, First(d.slots, HasPicNum(PicNumX(d, m))), cur);
    } else if m.op == 2 {
      ClearKeeps(d, First(d.slots, HasLongTermIdx(m.longTermPicNum)), cur);
    }
  }

  lemma ClearAllKeepsIff(d: Dpb, cur: nat)
    requires cur < |d.slots|
    ensures LongTermOk(ClearAll(d, cur)) <==> !d.slots[cur].LongTerm()
  {
    var r := ClearAll(d, cur);
    if d.slots[cur].LongTerm() { assert r.slots[cur].LongTerm(); }
    assert forall i | 0 <= i < |r.slots| && i != cur :: !r.slots[i].isRef;
  }

  lemma NewMaxKeepsIff(d: Dpb, cur: nat, newMax: int)
    requires LongTermOk(d) && cur < |d.slots|
    ensures LongTermOk(SetMax(d, cur, newMax))
            <==> !(d.slots[cur].LongTerm() && d.slots[cur].longTermFrameIdx > newMax)
  {
    var slots := ClearWhere(d.slots, cur, AboveMax(newMax));
    assert slots[cur] == d.slots[cur];
    forall i: nat | i < |slots| && i != cur && slots[i].LongTerm()
      ensures slots[i] == d.slots[i] && slots[i].longTermFrameIdx <= newMax
    {
      assert !AboveMax(newMax)(d.slots[i]);
    }
  }

  /** Indices that fit their field, and a difference no Exp-Golomb code exceeds. */
  predicate Fits(m: Mmco) {
    (m.op == 3 || m.op == 6 ==> m.longTermFrameIdx < 0x1_0000)
    && (m.op == 3 ==> m.differenceOfPicNumsMinus1 < 0xFFFF_FFFF)
  }

  /** The one long-term reference with index `idx`, or -1, is what the search by index finds. */
  lemma HolderIsFirst(d: Dpb, j: nat, idx: nat)
    requires Distinct(d.slots) && j < |d.slots| && d.slots[j].LongTerm() && d.slots[j].longTermFrameIdx == idx
    ensures First(d.slots, HasLongTermIdx(idx)) == j
  {
    var first := First(d.slots, HasLongTermIdx(idx));
    assert HasLongTermIdx(idx)(d.slots[j]);
    assert HasLongTermIdx(idx)(d.slots[first]);
  }

  /** After the index is vacated, only the current picture can still have it. */
  lemma VacatedClash(d: Dpb, cur: nat, m: Mmco, i: nat)
    requires LongTermOk(d) && cur < |d.slots| && i < |d.slots| && Fits(m)
    requires (m.op == 3 || m.op == 6) && LongTermIdxAllowed(d, m)
    ensures var v, idx := Vacated(d, cur, m), m.longTermFrameIdx;
            && (Clash(v, i, idx % 0x1_0000)
                <==> i != cur && d.slots[cur].LongTerm() && d.slots[cur].longTermFrameIdx == idx)
            && (d.slots[cur].LongTerm() && d.slots[cur].longTermFrameIdx == idx ==> v == d)
  {
    hide First, HasLongTermIdx;
    var v, idx := Vacated(d, cur, m), m.longTermFrameIdx;
    if d.slots[cur].LongTerm() && d.slots[cur].longTermFrameIdx == idx {
      HolderIsFirst(d, cur, idx);
    }
    if Clash(v, i, idx) {
      var j: nat :| j < |v.slots| && j != i && v.slots[j].LongTerm() && v.slots[j].longTermFrameIdx == idx;
      HolderIsFirst(d, j, idx);
    }
  }

  /**
   With fields that fit, an operation breaks the property if and only if the current picture is already long-term and
   operation 3 gives its index to another reference, operation 4 lowers the maximum below it, or operation 5 comes.
   */
  lemma FittingBreaksIff(d: Dpb, cur: nat, m: Mmco)
    requires LongTermOk(d) && cur < |d.slots| && d.slots[cur].Reference() && Fits(m)
    ensures Breaks(d, cur, m)
            <==> d.slots[cur].LongTerm()
                 && match m.op
                    case 3 => LongTermIdxAllowed(d, m) && d.slots[cur].longTermFrameIdx == m.longTermFrameIdx
                              && First(d.slots, HasPicNum(PicNumX(d, m))) >= 0
                    case 4 => d.slots[cur].longTermFrameIdx > ToInt32(m.maxLongTermFrameIdxPlus1) - 1
                    case 5 => true
                    case _ => false
  {
    hide First, HasPicNum, HasLongTermIdx, PicNumX, ToInt32, LongTermIdxAllowed, ClearOther, LongTermOk, Clash, Vacated;
    if (m.op == 3 || m.op == 6) && LongTermIdxAllowed(d, m) {
      var target := if m.op == 6 then cur else ShortTarget(d, cur, m);
      FoundIs(Vacated(d, cur, m).slots, PicNumX(d, m));
      VacatedClash(d, cur, m, if target >= 0 then target else 0);
      FoundIs(d.slots, PicNumX(d, m));
      VacatedClash(d, cur, m, cur);
    }
  }

  /** Operation 6 is followed only by operations 6, and operation 5 by no operation 3. */
  predicate InOrder(ops: seq<Mmco>) {
    && (forall i | 0 <= i < |ops| :: Fits(ops[i]))
    && (forall i, j | 0 <= i < j < |ops| :: ops[i].op == 6 ==> ops[j].op == 6)
    && (forall i, j | 0 <= i < j < |ops| :: ops[i].op == 5 ==> ops[j].op != 3)
  }

  predicate Has(ops: seq<Mmco>, op: nat) {
    exists i | 0 <= i < |ops| :: ops[i].op == op
  }

  /** Marking in a list that is in order keeps the property. */
  lemma {:induction false} ListKeeps(d: Dpb, cur: nat, ops: seq<Mmco>)
    requires LongTermOk(d) && cur < |d.slots| && d.slots[cur].ShortTerm()
    requires d.slots[cur].frameNum == d.pendingCurrPicNum < 0x1_0000
    requires InOrder(ops)
    ensures var r := ApplyMmcos(d, cur, ops);
            && LongTermOk(r) && r.slots[cur].Reference()
            && (!Has(ops, 6) ==> !r.slots[cur].longTerm)
            && (!Has(ops, 5) ==> r.slots[cur].frameNum == d.pendingCurrPicNum)
  {
    if ops != [] {
      var init, m := ops[..|ops| - 1], ops[|ops| - 1];
      ListKeeps(d, cur, init);
      var b := ApplyMmcos(d, cur, init);
      assert ops[|ops| - 1] == m;
      if Has(init, 6) { assert Has(ops, 6); }
      if Has(init, 5) { assert Has(ops, 5); }
      FittingBreaksIff(b, cur, m);
      OperationKeepsIff(b, cur, m);
      StepOnCurrent(b, cur, m, d.pendingCurrPicNum);
    }
  }

  /** What one operation does to the current picture's slot. */
  lemma StepOnCurrent(d: Dpb, cur: nat, m: Mmco, picNum: nat)
    requires cur < |d.slots| && d.slots[cur].Reference() && Fits(m)
    requires d.pendingCurrPicNum == picNum < 0x1_0000
    ensures var r := ApplyMmco(d, cur, m);
            && r.slots[cur].Reference()
            && (m.op != 5 ==> r.slots[cur].frameNum == d.slots[cur].frameNum)
            && (m.op != 6 && d.slots[cur].frameNum == picNum ==> r.slots[cur].longTerm == d.slots[cur].longTerm)
            && (m.op != 6 && m.op != 3 ==> r.slots[cur].longTerm == d.slots[cur].longTerm)
  {
    hide First, HasPicNum, HasLongTermIdx, PicNumX, ToInt32, LongTermIdxAllowed;
    if m.op == 3 {
      PicNumXDiffers(d, m);
      FoundIs(Vacated(d, cur, m).slots, PicNumX(d, m));
    }
  }

  lemma PicNumXDiffers(d: Dpb, m: Mmco)
    requires d.pendingCurrPicNum < 0x1_0000 && m.differenceOfPicNumsMinus1 < 0xFFFF_FFFF
    ensures PicNumX(d, m) != d.pendingCurrPicNum
  {}

  /**
   Operations 1 and 3 look a reference up by raw frame number.  For the differences the standard
   allows they find the reference whose FrameNumWrap is CurrPicNum minus the difference if and only
   if the difference does not reach back past a frame-number wrap.
   */
  lemma LookupMatchesFrameNumWrap(d: Dpb, m: Mmco, i: nat)
    requires i < |d.slots| && d.slots[i].ShortTerm()
    requires d.pendingCurrPicNum == d.currPicNum < WindowMax(d) <= 0x1_0000
    requires d.slots[i].frameNum < WindowMax(d) && m.differenceOfPicNumsMinus1 < WindowMax(d)
    ensures var difference := m.differenceOfPicNumsMinus1 + 1;
            var standard := Wrapped(d, i) == d.currPicNum - difference;
            && (HasPicNum(PicNumX(d, m))(d.slots[i]) <==> standard && difference <= d.currPicNum)
            && (standard ==> (difference <= d.currPicNum <==> d.slots[i].frameNum <= d.currPicNum))
  {}

  /** Short-term references have frame numbers below MaxFrameNum, no two of them the same. */
  predicate FrameNumsDistinct(d: Dpb) {
    && (forall i: nat | i < |d.slots| && d.slots[i].ShortTerm() :: d.slots[i].frameNum < WindowMax(d))
    && (forall i: nat, j: nat | i < j < |d.slots| && d.slots[i].ShortTerm() && d.slots[j].ShortTerm() ::
          d.slots[i].frameNum != d.slots[j].frameNum)
  }

  /**
   What the first-match search returns: the reference the standard means if the difference does not reach back past
   a wrap, and otherwise nothing, whether the standard means a reference or not.
   */
  lemma LookupFindsIff(d: Dpb, m: Mmco)
    requires FrameNumsDistinct(d)
    requires d.pendingCurrPicNum == d.currPicNum < WindowMax(d) <= 0x1_0000
    requires m.differenceOfPicNumsMinus1 < WindowMax(d)
    ensures var difference, found := m.differenceOfPicNumsMinus1 + 1, First(d.slots, HasPicNum(PicNumX(d, m)));
            && (difference > d.currPicNum ==> found == -1)
            && (difference <= d.currPicNum ==> forall i: nat | i < |d.slots| && d.slots[i].ShortTerm() ::
                 found == i <==> Wrapped(d, i) == d.currPicNum - difference)
  {
    var difference, pic := m.differenceOfPicNumsMinus1 + 1, PicNumX(d, m);
    var found := First(d.slots, HasPicNum(pic));
    if difference > d.currPicNum {
      assert pic == d.currPicNum - difference + 0x1_0000_0000 >= WindowMax(d);
      assert forall i: nat | i < |d.slots| :: !HasPicNum(pic)(d.slots[i]);
    } else {
      assert pic == d.currPicNum - difference;
      forall i: nat | i < |d.slots| && d.slots[i].ShortTerm()
        ensures found == i <==> Wrapped(d, i) == d.currPicNum - difference
      {
        LookupMatchesFrameNumWrap(d, m, i);
        if found >= 0 { assert HasPicNum(pic)(d.slots[found]); }
      }
    }
  }

  /** Frame number 15 of 16 in slot 1 is two pictures before the current 1: the one meant, but the search misses it. */
  lemma WrappedReferenceMissed()
    ensures var cur := EmptySlot().(inUse := true, isRef := true, frameNum := 1);
            var d := Dpb([], [cur, cur.(frameNum := 15)], -1, 0, 2, 16, 1, -1, true, [], 1, 0);
            var m := Op(1, 1, 0, 0);
            && FrameNumsDistinct(d)
            && Wrapped(d, 1) == d.currPicNum - (m.differenceOfPicNumsMinus1 + 1)
            && ApplyMmco(d, 0, m) == d
  {
    var cur := EmptySlot().(inUse := true, isRef := true, frameNum := 1);
    var d := Dpb([], [cur, cur.(frameNum := 15)], -1, 0, 2, 16, 1, -1, true, [], 1, 0);
    LookupFindsIff(d, Op(1, 1, 0, 0));
  }

  // ---------------------------------------------------------------- runs

  /** A parsed access unit whose marking list, if it is used, is in order. */
  predicate WellMarked(p: Parsed) {
    p.frameNum < 0x1_0000 && (!p.isIdr && p.adaptive ==> InOrder(p.mmco))
  }

  predicate EventOk(e: Event) {
    e.SelectEv? ==> WellMarked(e.p)
  }

  /** The property, and what makes the pending list safe to apply. */
  predicate RunOk(d: Dpb) {
    && Indexed(d) && LongTermOk(d)
    && RefsInUse(d.slots)
    && (d.currentIdx >= 0 && d.adaptive && d.slots[d.currentIdx].isRef ==>
          && InOrder(d.mmco) && !d.slots[d.currentIdx].longTerm
          && d.slots[d.currentIdx].frameNum == d.pendingCurrPicNum < 0x1_0000)
  }

  lemma {:induction false} WindowDrops(d: Dpb, maxRefs: nat)
    requires maxRefs > 0
    ensures var r := SlidingWindow(d, maxRefs);
            OnlyDrops(d.slots, r.slots) && r.maxLongTermFrameIdx == d.maxLongTermFrameIdx
    decreases |ShortRefs(d.slots)|
  {
    if |ShortRefs(d.slots)| > maxRefs {
      EvictDropsOldest(d);
      WindowDrops(Evict(d), maxRefs);
    }
  }

  predicate RefsInUse(slots: seq<Slot>) {
    forall i | 0 <= i < |slots| && slots[i].isRef :: slots[i].inUse
  }

  lemma MarkingKeepsInUse(a: seq<Slot>, b: seq<Slot>)
    requires MarkedFrom(b, a) && RefsInUse(a)
    ensures RefsInUse(b)
  {
    forall i | 0 <= i < |b| && b[i].isRef ensures b[i].inUse { assert b[i].MarkedFrom(a[i]); }
  }

  lemma CompleteOk(d: Dpb)
    requires RunOk(d)
    ensures RunOk(Complete(d))
  {
    MarkingKeepsInUse(d.slots, Complete(d).slots);
    if d.currentIdx >= 0 {
      var cur, m := d.currentIdx, d.(lastBumpedPoc := INT32_MIN, currentIdx := -1);
      var maxRefs := if d.maxNumRefFrames == 0 then 1 else d.maxNumRefFrames;
      if d.slots[cur].isRef && d.adaptive {
        ListKeeps(m, cur, d.mmco);
      } else {
        WindowDrops(m, maxRefs);
        DropsKeep(d.slots, SlidingWindow(m, maxRefs).slots, d.maxLongTermFrameIdx);
      }
    }
  }

  lemma SelectOk(d: Dpb, p: Parsed)
    requires RunOk(d) && WellMarked(p)
    ensures RunOk(Select(d, p).1)
  {
    if p.hasSlice {
      hide FlushForIdr, MakeRoom, First, Take, LongTermOk, InOrder;
      var d1 := FlushForIdr(d, p);
      var d2 := MakeRoom(d1);
      FlushForIdrOk(d, p);
      MakeRoomOk(d1);
      MarkingKeepsInUse(d.slots, d1.slots);
      MarkingKeepsInUse(d1.slots, d2.slots);
      assert forall i | 0 <= i < |d2.slots| :: d2.slots[i].isRef ==> d1.slots[i].isRef;
      var slot := First(d2.slots, IsFree());
      if slot >= 0 { TakeOk(d2, p, slot); }
    }
  }

  lemma FlushForIdrOk(d: Dpb, p: Parsed)
    requires LongTermOk(d)
    ensures var r := FlushForIdr(d, p);
            && LongTermOk(r)
            && (p.isIdr ==> r.maxLongTermFrameIdx == (if p.idrLongTermReference then 0 else -1))
            && (p.isIdr ==> forall i | 0 <= i < |r.slots| :: !r.slots[i].isRef)
            && (!p.isIdr ==> r == d)
  {}

  /** Making room does no more than drop a reference. */
  lemma MakeRoomOk(d: Dpb)
    requires LongTermOk(d)
    ensures var r := MakeRoom(d);
            && LongTermOk(r) && OnlyDrops(d.slots, r.slots) && r.maxLongTermFrameIdx == d.maxLongTermFrameIdx
            && r == d.(slots := r.slots, lastBumpedPoc := r.lastBumpedPoc)
  {
    hide First, LongTermOk, OldestAmong;
    var r := MakeRoom(d);
    assert OnlyDrops(d.slots, r.slots);
    KeepsWithin(d, r);
  }

  lemma KeepsWithin(d: Dpb, r: Dpb)
    requires LongTermOk(d) && OnlyDrops(d.slots, r.slots) && r.maxLongTermFrameIdx == d.maxLongTermFrameIdx
    ensures LongTermOk(r)
  {
    DropsKeep(d.slots, r.slots, d.maxLongTermFrameIdx);
  }

  lemma TakeOk(d: Dpb, p: Parsed, slot: nat)
    requires LongTermOk(d) && WellMarked(p) && slot < |d.slots|
    requires RefsInUse(d.slots)
    requires p.isIdr ==> d.maxLongTermFrameIdx == (if p.idrLongTermReference then 0 else -1)
    requires p.isIdr ==> forall i | 0 <= i < |d.slots| :: !d.slots[i].isRef
    ensures RunOk(Take(d, p, slot))
  {}

  lemma EventKeepsOk(d: Dpb, e: Event)
    requires RunOk(d) && EventOk(e) && Step(d, e).Done?
    ensures RunOk(Step(d, e).dpb)
  {
    match e
    case SelectEv(p) => SelectOk(d, p);
    case CompleteEv => CompleteOk(d);
    case FailedEv => DropsKeep(d.slots, Failed(d).slots, d.maxLongTermFrameIdx);
    case FlushEv => DropsKeep(d.slots, Flush(d).dpb.slots, d.maxLongTermFrameIdx);
    case AddEv(i, r, _) => if i < |d.slots| { FlagKeepsOk(d, i, r, true); }
    case ReleaseEv(i, r) => if i < |d.slots| { FlagKeepsOk(d, i, r, false); }
    case TransferEv(i, from, to, _) =>
      if i < |d.slots| {
        FlagKeepsOk(d, i, from, false);
        FlagKeepsOk(SetFlag(d, i, from, false), i, to, true);
      }
  }

  lemma FlagKeepsOk(d: Dpb, i: nat, r: HoldReason, v: bool)
    requires RunOk(d) && i < |d.slots|
    ensures RunOk(SetFlag(d, i, r, v))
  {
    var s := SetFlag(d, i, r, v);
    forall j: nat | j < |s.slots|
      ensures s.slots[j].LongTerm() == d.slots[j].LongTerm()
      ensures s.slots[j].longTermFrameIdx == d.slots[j].longTermFrameIdx
    {}
  }

  /**
   In every reachable state of the buffer long-term indices are distinct and at most
   MaxLongTermFrameIdx, when every marking list is in order.
   */
  lemma {:induction false} LongTermOkInEveryRun(pool: seq<PoolEntry>, events: seq<Event>)
    requires forall i | 0 <= i < |events| :: EventOk(events[i])
    requires Run(Init(pool), events).Done?
    ensures RunOk(Run(Init(pool), events).dpb)
  {
    if events != [] {
      var init := events[..|events| - 1];
      LongTermOkInEveryRun(pool, init);
      EventKeepsOk(Run(Init(pool), init).dpb, events[|events| - 1]);
    }
  }

  // ---------------------------------------------------------------- lists that are not in order

  /** The current picture in slot 0, a short-term reference with frame number 4 in slot 1. */
  function TwoRefs(): Dpb {
    var cur := EmptySlot().(inUse := true, isRef := true, frameNum := 5);
    var other := cur.(frameNum := 4);
    Dpb([], [cur, other], -1, 0, 2, 16, 5, 3, true, [], 5, 0)
  }

  function Op(op: nat, diff: nat, idx: nat, maxPlus1: nat): Mmco {
    Mmco(op, diff, 0, idx, maxPlus1)
  }

  /** The same after operation 6 made the current picture long-term, with index 2. */
  function OneLong(): Dpb {
    var d := TwoRefs();
    d.(slots := [d.slots[0].(longTerm := true, longTermFrameIdx := 2), d.slots[1]])
  }

  lemma AfterOp6(m: Mmco)
    ensures ApplyMmcos(TwoRefs(), 0, [Op(6, 0, 2, 0), m]) == ApplyMmco(OneLong(), 0, m)
  {
    var d, m6 := TwoRefs(), Op(6, 0, 2, 0);
    var ops := [m6, m];
    assert ops[..1] == [m6] && [m6][..0] == [];
    FirstOfTwo(d.slots[0], d.slots[1], HasLongTermIdx(2));
    assert ApplyMmco(d, 0, m6).slots == OneLong().slots;
    assert ApplyMmcos(d, 0, [m6]) == ApplyMmco(d, 0, m6) == OneLong();
  }

  /** Operation 6 and then operation 3 with the same index: both references get it. */
  lemma DuplicateAfterOp6()
    ensures LongTermOk(TwoRefs())
    ensures !Distinct(ApplyMmcos(TwoRefs(), 0, [Op(6, 0, 2, 0), Op(3, 0, 2, 0)]).slots)
  {
    hide ApplyMmcos, ApplyMmco, Op;
    var m3, d := Op(3, 0, 2, 0), OneLong();
    AfterOp6(m3);
    Op3OnOneLong();
    var r := MarkLongTerm(d, 1, 2);
    assert r.slots[0].LongTerm() && r.slots[1].LongTerm();
  }

  lemma Op3OnOneLong()
    ensures ApplyMmco(OneLong(), 0, Op(3, 0, 2, 0)) == MarkLongTerm(OneLong(), 1, 2)
  {
    hide First, MarkLongTerm;
    var m3, d := Op(3, 0, 2, 0), OneLong();
    FirstOfTwo(d.slots[0], d.slots[1], HasLongTermIdx(2));
    FirstOfTwo(d.slots[0], d.slots[1], HasPicNum(4));
    assert PicNumX(d, m3) == 4;
  }

  lemma FirstOfTwo(a: Slot, b: Slot, p: Slot -> bool)
    ensures First([a, b], p) == if p(a) then 0 else if p(b) then 1 else -1
  {
    var s := [a, b];
    assert FirstFrom(s, p, 1) == if p(b) then 1 else FirstFrom(s, p, 2);
  }

  /** Operation 6 and then operation 4: the current picture stays above the new maximum. */
  lemma UnboundedAfterOp6()
    ensures var d := ApplyMmcos(TwoRefs(), 0, [Op(6, 0, 2, 0), Op(4, 0, 0, 1)]);
            !Bounded(d.slots, d.maxLongTermFrameIdx)
  {
    var m4 := Op(4, 0, 0, 1);
    AfterOp6(m4);
    var r := ApplyMmco(OneLong(), 0, m4);
    assert r.maxLongTermFrameIdx == 0 && r.slots[0] == OneLong().slots[0];
  }
}

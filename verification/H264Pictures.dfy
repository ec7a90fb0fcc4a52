/**
 What `Dpb_Select` stores of a picture, and what is left of it and of the others after `Dpb_OnDecodeComplete`
 (mft/dpb.cpp), in the fields of the slots.
 */
module H264Pictures {
  import opened Bits
  import opened DpbTypes
  import opened H264DpbSpec
  import opened H264Marking
  import opened H264Room
  import opened H264SlidingWindow

  /** The slot a picture is stored in, whatever stood there before but its holds. */
  function Stored(before: Slot, p: Parsed, epoch: nat): Slot {
    Slot(true, p.nalRefIdc != 0, p.isIdr && p.idrLongTermReference,
         before.reorder, before.ready, before.consumer,
         p.frameNum, p.topPoc, p.bottomPoc, 0, epoch)
  }

  /**
   After a successful select the slot taken holds the picture: a reference exactly if nal_ref_idc is not zero, a
   long-term one exactly if an IDR picture asks for it, with the frame number and the counts parsed. Every other slot
   is emptied by an IDR picture and untouched otherwise, and every slot before the one taken was held or, unless an IDR
   picture dropped it, had a picture.
   */
  lemma SelectStores(d: Dpb, p: Parsed)
    requires Select(d, p).0 == Ok
    ensures var r := Select(d, p).1;
            && 0 <= r.currentIdx < |d.slots| == |r.slots|
            && r.slots[r.currentIdx] == Stored(d.slots[r.currentIdx], p, d.currentEpoch)
            && (forall i: nat | i < |d.slots| && i != r.currentIdx ::
                 r.slots[i] == if p.isIdr then Emptied(d.slots[i]) else d.slots[i])
            && (forall i: nat | i < r.currentIdx :: d.slots[i].Held() || (!p.isIdr && d.slots[i].inUse))
  {
    hide OldestAmong, MaxFrameNum, First;
    assert p.hasSlice;
    var d1 := FlushForIdr(d, p);
    var d2 := MakeRoom(d1);
    var slot := First(d2.slots, IsFree());
    FreeIff(d1.slots);
    FirstSays(d1.slots, IsFree(), if slot >= 0 then slot else 0);
    if First(d1.slots, IsFree()) < 0 { OnlyEvictedIsFree(d1, slot); }
    if slot >= 0 { FirstSays(d2.slots, IsFree(), slot); }
    var r := Select(d, p).1;
    assert r.slots == d2.slots[slot := Stored(d2.slots[slot], p, d.currentEpoch)];
    forall i: nat | i < |d.slots| && i != slot
      ensures r.slots[i] == if p.isIdr then Emptied(d.slots[i]) else d.slots[i]
    {
      assert d1.slots[i] == if p.isIdr then Emptied(d.slots[i]) else d.slots[i];
      assert d2.slots[i] == d1.slots[i];
    }
  }

  /** If eviction makes room, it does so in the slot it empties. */
  lemma OnlyEvictedIsFree(d: Dpb, slot: int)
    requires First(d.slots, IsFree()) < 0
    requires 0 <= slot == First(Evict(d).slots, IsFree())
    ensures slot == OldestAmong(d, |d.slots|)
  {
    hide OldestAmong, First;
    FreeIff(d.slots);
    FirstSays(Evict(d).slots, IsFree(), slot);
    assert forall i: nat | i < |d.slots| && i != OldestAmong(d, |d.slots|) :: Evict(d).slots[i] == d.slots[i];
  }

  /** The rest of the state after a successful select. */
  lemma SelectKeepsForMarking(d: Dpb, p: Parsed)
    requires Select(d, p).0 == Ok
    ensures var r := Select(d, p).1;
            && WindowMax(r) == r.maxFrameNum == Pow2(p.log2MaxFrameNumMinus4 + 4)
            && r.maxNumRefFrames == (if p.maxNumRefFrames > 0 then p.maxNumRefFrames else 1)
            && r.currPicNum == r.pendingCurrPicNum == p.frameNum
            && (r.adaptive <==> !p.isIdr && p.adaptive) && r.mmco == (if p.isIdr then [] else p.mmco)
            && r.maxLongTermFrameIdx
               == (if !p.isIdr then d.maxLongTermFrameIdx else if p.idrLongTermReference then 0 else -1)
            && r.pool == d.pool && r.currentEpoch == d.currentEpoch
  {
    hide OldestAmong, First, Pow2;
  }

  /** A select that fails for want of room has emptied all slots for an IDR picture, or else at most the oldest. */
  lemma FullLeaves(d: Dpb, p: Parsed)
    requires Select(d, p).0 == Full
    ensures var r := Select(d, p).1;
            && |r.slots| == |d.slots| && r.currentIdx == d.currentIdx
            && forall i: nat | i < |d.slots| ::
                 r.slots[i] == if p.isIdr || i == OldestAmong(d, |d.slots|) then Emptied(d.slots[i]) else d.slots[i]
  {
    hide OldestAmong;
    var d1 := FlushForIdr(d, p);
    if p.isIdr { NoneOldest(d1, |d1.slots|); }
    assert forall i: nat | i < |d.slots| :: d1.slots[i] == if p.isIdr then Emptied(d.slots[i]) else d.slots[i];
  }

  // ---------------------------------------------------------------- select and complete

  /** A picture that is no reference is gone when it is complete, and changes no other slot. */
  lemma NonReferenceLeaves(d: Dpb, p: Parsed)
    requires Select(d, p).0 == Ok && p.nalRefIdc == 0
    ensures var r := Select(d, p).1;
            && 0 <= r.currentIdx < |d.slots| == |r.slots|
            && var e := Complete(r);
               && |e.slots| == |d.slots| && e.currentIdx == -1
               && e.slots[r.currentIdx] == Emptied(r.slots[r.currentIdx])
               && forall i: nat | i < |d.slots| && i != r.currentIdx ::
                    e.slots[i] == if p.isIdr then Emptied(d.slots[i]) else d.slots[i]
  {
    hide Select;
    SelectStores(d, p);
  }

  /** A reference picture marked by a list is marked by the list that came with it. */
  lemma ListedReferenceLeaves(d: Dpb, p: Parsed)
    requires Select(d, p).0 == Ok && p.nalRefIdc != 0 && !p.isIdr && p.adaptive
    ensures var r := Select(d, p).1;
            && 0 <= r.currentIdx < |r.slots|
            && Complete(r).slots == ApplyMmcos(Marking(r), r.currentIdx, p.mmco).slots
            && Complete(r).maxLongTermFrameIdx == ApplyMmcos(Marking(r), r.currentIdx, p.mmco).maxLongTermFrameIdx
  {
    hide Select, ApplyMmcos;
    SelectStores(d, p);
    SelectKeepsForMarking(d, p);
  }

  /**
   A reference picture marked by sliding window: at most as many short-term references are left as the window asks for,
   each slot is as after the select or emptied, and with frame numbers that fit the picture is among them.
   */
  lemma WindowedReferenceLeaves(d: Dpb, p: Parsed)
    requires Select(d, p).0 == Ok && p.nalRefIdc != 0 && !p.adaptive && !p.isIdr
    ensures var r := Select(d, p).1;
            && 0 <= r.currentIdx < |r.slots|
            && var e, w := Complete(r), if p.maxNumRefFrames > 0 then p.maxNumRefFrames else 1;
               && |e.slots| == |r.slots| && |ShortRefs(e.slots)| <= w
               && (forall i: nat | i < |r.slots| ::
                    e.slots[i] == if Surplus(Marking(r), w, i) then Emptied(r.slots[i]) else r.slots[i])
               && (FrameNumsFit(r, r.currentIdx) ==>
                     e.slots[r.currentIdx] == Stored(d.slots[r.currentIdx], p, d.currentEpoch))
  {
    hide Select, FrameNumsFit, Surplus;
    SelectStores(d, p);
    SelectKeepsForMarking(d, p);
    var r := Select(d, p).1;
    CompleteKeepsNewest(r);
  }

  /** After an IDR reference picture is complete it is the only picture there is. */
  lemma IdrLeaves(d: Dpb, p: Parsed)
    requires Select(d, p).0 == Ok && p.nalRefIdc != 0 && p.isIdr
    ensures var r := Select(d, p).1;
            && 0 <= r.currentIdx < |d.slots| == |r.slots|
            && var e := Complete(r);
               && |e.slots| == |d.slots| && e.currentIdx == -1
               && forall i: nat | i < |d.slots| ::
                    e.slots[i] == if i == r.currentIdx then Stored(d.slots[i], p, d.currentEpoch)
                                  else Emptied(d.slots[i])
  {
    hide Select, SlidingWindow;
    SelectStores(d, p);
    SelectKeepsForMarking(d, p);
    OneReferenceStays(Marking(Select(d, p).1), Select(d, p).1.currentIdx);
  }

  /** The window evicts nothing while no slot but one holds a reference. */
  lemma OneReferenceStays(d: Dpb, cur: nat)
    requires cur < |d.slots| && forall i: nat | i < |d.slots| && i != cur :: !d.slots[i].inUse
    ensures d.maxNumRefFrames > 0 ==> SlidingWindow(d, d.maxNumRefFrames) == d
  {
    SubsetSize(ShortRefs(d.slots), {cur});
  }

  lemma {:induction false} WindowChangesSlots(d: Dpb, n: nat)
    requires n > 0
    ensures var r := SlidingWindow(d, n); r == d.(slots := r.slots, lastBumpedPoc := r.lastBumpedPoc)
    decreases |ShortRefs(d.slots)|
  {
    hide OldestAmong;
    if |ShortRefs(d.slots)| > n {
      EvictDropsOldest(d);
      WindowChangesSlots(Evict(d), n);
    }
  }

  lemma OperationChanges(d: Dpb, cur: nat, m: Mmco)
    requires cur < |d.slots|
    ensures var r := ApplyMmco(d, cur, m); r == d.(slots := r.slots, maxLongTermFrameIdx := r.maxLongTermFrameIdx)
  {
    hide Assign, First, HasPicNum, HasLongTermIdx, ToInt32, PicNumX, LongTermIdxAllowed, ClearWhere, Vacated;
    if LongTermIdxAllowed(d, m) {
      AssignChanges(d, cur, cur, m);
      AssignChanges(d, cur, First(Vacated(d, cur, m).slots, HasPicNum(PicNumX(d, m))), m);
    }
  }

  lemma AssignChanges(d: Dpb, cur: nat, target: int, m: Mmco)
    requires target < |d.slots|
    ensures var r := Assign(d, cur, target, m); r == d.(slots := r.slots)
  {
    hide First, HasLongTermIdx;
  }

  lemma {:induction false} ListChanges(d: Dpb, cur: nat, ops: seq<Mmco>)
    requires cur < |d.slots|
    ensures var r := ApplyMmcos(d, cur, ops);
            r == d.(slots := r.slots, maxLongTermFrameIdx := r.maxLongTermFrameIdx)
  {
    hide ApplyMmco;
    if ops != [] {
      var init := ops[..|ops| - 1];
      ListChanges(d, cur, init);
      OperationChanges(ApplyMmcos(d, cur, init), cur, ops[|ops| - 1]);
    }
  }

  /** Once a picture is complete no marking is pending; of the rest, marking can change the maximal long-term index. */
  lemma CompleteEnds(d: Dpb)
    requires 0 <= d.currentIdx < |d.slots|
    ensures var r := Complete(d);
            && !r.adaptive && r.mmco == [] && r.currentIdx == -1
            && (d.adaptive || !d.slots[d.currentIdx].isRef ==> r.lastBumpedPoc == INT32_MIN)
            && r.pool == d.pool && r.currentEpoch == d.currentEpoch && r.maxFrameNum == d.maxFrameNum
            && r.maxNumRefFrames == d.maxNumRefFrames && r.currPicNum == d.currPicNum
            && (!d.adaptive || !d.slots[d.currentIdx].isRef ==> r.maxLongTermFrameIdx == d.maxLongTermFrameIdx)
  {
    hide ApplyMmcos, SlidingWindow;
    var d' := d.(lastBumpedPoc := INT32_MIN, currentIdx := -1);
    ListChanges(d', d.currentIdx, d.mmco);
    WindowChangesSlots(d', if d.maxNumRefFrames == 0 then 1 else d.maxNumRefFrames);
  }

  /** A failed picture is gone, and the marking that came with it; no other slot changes. */
  lemma FailureLeaves(d: Dpb)
    requires Indexed(d)
    ensures var r := Failed(d);
            && r == d.(slots := r.slots, currentIdx := -1, adaptive := false, mmco := [], lastBumpedPoc := INT32_MIN)
            && |r.slots| == |d.slots|
            && forall i: nat | i < |d.slots| ::
                 r.slots[i] == if i == d.currentIdx then Emptied(d.slots[i]) else d.slots[i]
  {}
}

/**
 The H.264 decoded-picture buffer as mft/dpb.cpp keeps it: a context whose slots are updated in place.
 Each operation is proved to do what H264DpbSpec says.
 */
module H264Dpb {
  import opened Bits
  import opened DpbTypes
  import opened H264DpbSpec
  import opened H264RefLists
  import opened StableSort

  class DpbCtx {
    const pool: seq<PoolEntry>
    const slots: array<Slot>
    var currentIdx: int
    var currentEpoch: nat
    var maxNumRefFrames: nat
    var maxFrameNum: nat
    var currPicNum: nat
    var maxLongTermFrameIdx: int
    var adaptive: bool
    var mmco: seq<Mmco>
    var pendingCurrPicNum: nat
    var lastBumpedPoc: int

    ghost function State(): Dpb
      reads this, slots
    {
      Dpb(pool, slots[..], currentIdx, currentEpoch, maxNumRefFrames, maxFrameNum, currPicNum,
          maxLongTermFrameIdx, adaptive, mmco, pendingCurrPicNum, lastBumpedPoc)
    }

    ghost predicate Valid()
      reads this, slots
    {
      Indexed(State())
    }

    constructor (entries: seq<PoolEntry>)
      ensures Valid() && fresh(slots) && State() == Init(entries)
    {
      pool := entries;
      slots := new Slot[|entries|](_ => EmptySlot());
      currentIdx, currentEpoch, maxNumRefFrames, maxFrameNum, currPicNum := -1, 0, 0, 0, 0;
      maxLongTermFrameIdx, adaptive, mmco, pendingCurrPicNum, lastBumpedPoc := -1, false, [], 0, 0;
    }

    method FindFirst(p: Slot -> bool) returns (r: int)
      ensures r == First(slots[..], p)
    {
      for i := 0 to slots.Length
        invariant First(slots[..], p) == FirstFrom(slots[..], p, i)
      {
        if p(slots[i]) { return i; }
      }
      return -1;
    }

    method SlotClear(i: nat)
      requires i < slots.Length
      modifies slots
      ensures slots[..] == old(slots[..])[i := old(slots[i]).Cleared()]
    {
      slots[i] := slots[i].Cleared();
    }

    method EvictOldestShortTerm()
      modifies this, slots
      ensures State() == Evict(old(State()))
    {
      var oldest := -1;
      var oldestFnw := 0;
      for i := 0 to slots.Length
        invariant State() == old(State())
        invariant oldest == OldestAmong(State(), i)
        invariant oldest >= 0 ==> oldestFnw == Wrapped(State(), oldest)
      {
        if slots[i].ShortTerm() {
          var maxFn := if maxFrameNum != 0 then maxFrameNum else 16;
          var fnw := FrameNumWrap(slots[i].frameNum, currPicNum, maxFn);
          if oldest < 0 || fnw < oldestFnw {
            oldest, oldestFnw := i, fnw;
          }
        }
      }
      if oldest >= 0 {
        lastBumpedPoc := slots[oldest].topPoc;
        SlotClear(oldest);
      }
    }

    method CountShortTerm() returns (n: nat)
      ensures n == |ShortRefs(slots[..])|
    {
      n := 0;
      ghost var counted: set<nat> := {};
      for i := 0 to slots.Length
        invariant counted == set j: nat | j < i && slots[j].ShortTerm()
        invariant n == |counted|
      {
        if slots[i].ShortTerm() {
          n := n + 1;
          counted := counted + {i};
        }
      }
      assert counted == ShortRefs(slots[..]);
    }

    /** Clears every slot but `cur` that satisfies `p`. */
    method ClearAllBut(cur: nat, p: Slot -> bool)
      modifies slots
      ensures slots[..] == ClearWhere(old(slots[..]), cur, p)
    {
      ghost var goal := ClearWhere(old(slots[..]), cur, p);
      for i := 0 to slots.Length
        invariant forall k | 0 <= k < i :: slots[k] == goal[k]
        invariant forall k | i <= k < slots.Length :: slots[k] == old(slots[k])
      {
        if i != cur && p(slots[i]) { slots[i] := slots[i].Cleared(); }
      }
    }

    method ClearIfOther(i: int, cur: nat)
      requires i < slots.Length
      modifies slots
      ensures State() == ClearOther(old(State()), i, cur)
    {
      if i >= 0 && i != cur { SlotClear(i); }
    }

    method SetLongTerm(i: nat, idx: nat)
      requires i < slots.Length
      modifies slots
      ensures State() == MarkLongTerm(old(State()), i, idx)
    {
      slots[i] := slots[i].(longTerm := true, longTermFrameIdx := idx % 0x1_0000);
    }

    method ApplyOne(cur: nat, m: Mmco)
      requires cur < slots.Length
      modifies this, slots
      ensures State() == ApplyMmco(old(State()), cur, m)
    {
      hide First, HasPicNum, HasLongTermIdx, Wrap32, ToInt32, ClearWhere, ClearOther, OnlyMarked;
      match m.op
      case 1 =>
        var idx := FindFirst(HasPicNum(Wrap32(pendingCurrPicNum - Wrap32(m.differenceOfPicNumsMinus1 + 1))));
        ClearIfOther(idx, cur);
      case 2 =>
        var idx := FindFirst(HasLongTermIdx(m.longTermPicNum));
        ClearIfOther(idx, cur);
      case 3 =>
        if maxLongTermFrameIdx < 0 || ToInt32(m.longTermFrameIdx) > maxLongTermFrameIdx { return; }
        var prev := FindFirst(HasLongTermIdx(m.longTermFrameIdx));
        ClearIfOther(prev, cur);
        var idx := FindFirst(HasPicNum(Wrap32(pendingCurrPicNum - Wrap32(m.differenceOfPicNumsMinus1 + 1))));
        if idx >= 0 { SetLongTerm(idx, m.longTermFrameIdx); }
      case 4 =>
        var newMax := ToInt32(m.maxLongTermFrameIdxPlus1) - 1;
        maxLongTermFrameIdx := newMax;
        ClearAllBut(cur, AboveMax(newMax));
      case 5 =>
        ClearAllBut(cur, AnySlot());
        maxLongTermFrameIdx := -1;
        slots[cur] := slots[cur].(frameNum := 0);
      case 6 =>
        if maxLongTermFrameIdx < 0 || ToInt32(m.longTermFrameIdx) > maxLongTermFrameIdx { return; }
        var prev := FindFirst(HasLongTermIdx(m.longTermFrameIdx));
        ClearIfOther(prev, cur);
        SetLongTerm(cur, m.longTermFrameIdx);
      case _ =>
    }

    method ApplyMmcoOps(cur: nat)
      requires cur < slots.Length
      modifies this, slots
      ensures State() == ApplyMmcos(old(State()), cur, old(mmco))
    {
      for k := 0 to |mmco|
        invariant mmco == old(mmco) && State() == ApplyMmcos(old(State()), cur, mmco[..k])
      {
        assert mmco[..k + 1][..k] == mmco[..k];
        ApplyOne(cur, mmco[k]);
      }
      assert mmco[..|mmco|] == mmco;
    }

    method SlideWindow()
      modifies this, slots
      ensures State() == SlidingWindow(old(State()), if old(maxNumRefFrames) == 0 then 1 else old(maxNumRefFrames))
    {
      var maxRefs := if maxNumRefFrames != 0 then maxNumRefFrames else 1;
      var count := CountShortTerm();
      while count > maxRefs
        invariant count == |ShortRefs(State().slots)|
        invariant SlidingWindow(State(), maxRefs) == SlidingWindow(old(State()), maxRefs)
        decreases count
      {
        EvictDropsOldest(State());
        EvictOldestShortTerm();
        count := CountShortTerm();
      }
    }

    /** The references other than the current slot, sorted by FrameNumWrap. */
    method CollectReferences() returns (compact: array<Keyed>, n: nat)
      ensures fresh(compact) && n <= compact.Length
      ensures compact[..n] == Sorted(Collected(State(), slots.Length))
    {
      compact, n := new Keyed[slots.Length](_ => Keyed(0, 0)), 0;
      for i := 0 to slots.Length
        invariant n <= i && fresh(compact)
        invariant compact[..n] == Collected(State(), i)
      {
        if i != currentIdx && slots[i].inUse && slots[i].isRef {
          var maxFn := if maxFrameNum != 0 then maxFrameNum else 16;
          compact[n] := Keyed(FrameNumWrap(slots[i].frameNum, currPicNum, maxFn), i);
          n := n + 1;
        }
      }
      InsertionSort(compact, n);
    }

    method BuildView(p: Parsed) returns (out: Selection)
      requires Selected(State())
      ensures out == View(State(), p)
    {
      var compact, n := CollectReferences();
      CompactIsReferences(State());
      var c := Ids(compact[..n]);
      var refs := seq(n, k requires 0 <= k < n && c[k] < slots.Length reads slots => slots[c[k]]);
      assert refs == SlotsAt(State(), c);
      var listP, b0, b1 := [], [], [];
      if !p.isIdr {
        var maxFn := if maxFrameNum != 0 then maxFrameNum else 16;
        listP := BuildListP(refs, currPicNum, maxFn);
        if p.sliceType != I && p.sliceType != SI {
          b0, b1 := BuildListsB(refs, FramePoc(p.topPoc, p.bottomPoc));
        }
      }
      var outputs, colmvs := FillHandles(c);
      out := Selection(currentIdx, pool[currentIdx].outputFrame, pool[currentIdx].colmv,
                       outputs, colmvs, Entries(refs), listP, b0, b1);
    }

    /** Past the last reference the last one's buffers repeat; with no reference, the current one's. */
    method FillHandles(c: seq<nat>) returns (outputs: seq<nat>, colmvs: seq<nat>)
      requires Selected(State()) && forall k | 0 <= k < |c| :: c[k] < slots.Length
      ensures outputs == Handles(State(), c, false) && colmvs == Handles(State(), c, true)
    {
      ghost var a, b := Handles(State(), c, false), Handles(State(), c, true);
      outputs, colmvs := [], [];
      var fallback := if |c| > 0 then c[|c| - 1] else currentIdx;
      for k := 0 to MAX_SLOTS
        invariant outputs == a[..k] && colmvs == b[..k]
      {
        var use := if k < |c| then c[k] else fallback;
        outputs, colmvs := outputs + [pool[use].outputFrame], colmvs + [pool[use].colmv];
      }
    }

    /** A free slot, made by evicting one reference when there is none; -1 if that did not help. */
    method FindSlot() returns (slot: int)
      modifies this, slots
      ensures State() == MakeRoom(old(State())) && slot == First(slots[..], IsFree())
    {
      slot := FindFirst(IsFree());
      if slot < 0 {
        EvictOldestShortTerm();
        slot := FindFirst(IsFree());
      }
    }

    method Select(p: Parsed) returns (status: Status, out: Selection)
      requires Valid() && |pool| == slots.Length <= MAX_SLOTS
      modifies this, slots
      ensures Valid() && (status, State()) == H264DpbSpec.Select(old(State()), p)
      ensures out == if status == Ok then View(State(), p) else NoSelection
    {
      if !p.hasSlice { return InvalidInput, NoSelection; }
      if p.isIdr { ClearForIdr(p); }
      var slot := FindSlot();
      if slot < 0 { return Full, NoSelection; }
      Occupy(p, slot);
      status := Ok;
      out := BuildView(p);
    }

    /** Puts the picture in its slot and keeps what marking will need after the decode. */
    method Occupy(p: Parsed, slot: nat)
      requires slot < slots.Length
      modifies this, slots
      ensures State() == Take(old(State()), p, slot)
    {
      hide Occupied, MaxFrameNum;
      slots[slot] := Occupied(slots[slot], p, currentEpoch);
      currentIdx := slot;
      adaptive := !p.isIdr && p.adaptive;
      mmco := if p.isIdr then [] else p.mmco;
      pendingCurrPicNum := p.frameNum;
      maxNumRefFrames := if p.maxNumRefFrames == 0 then 1 else p.maxNumRefFrames;
      maxFrameNum := MaxFrameNum(p);
      currPicNum := p.frameNum;
    }

    method ClearForIdr(p: Parsed)
      requires p.isIdr
      modifies this, slots
      ensures State() == FlushForIdr(old(State()), p)
    {
      for i := 0 to slots.Length
        invariant forall k | 0 <= k < i :: slots[k] == old(slots[k]).Cleared()
        invariant forall k | i <= k < slots.Length :: slots[k] == old(slots[k])
        invariant State() == old(State()).(slots := slots[..])
      {
        slots[i] := slots[i].Cleared();
      }
      maxLongTermFrameIdx := if p.idrLongTermReference then 0 else -1;
    }

    method OnDecodeComplete()
      requires Valid()
      modifies this, slots
      ensures Valid() && State() == Complete(old(State()))
    {
      lastBumpedPoc := INT32_MIN;
      if currentIdx < 0 { return; }
      var cur := currentIdx;
      currentIdx := -1;
      if !slots[cur].isRef {
        SlotClear(cur);
      } else if adaptive {
        ApplyMmcoOps(cur);
      } else {
        SlideWindow();
      }
      adaptive, mmco := false, [];
    }

    method OnDecodeFailed()
      requires Valid()
      modifies this, slots
      ensures Valid() && State() == Failed(old(State()))
    {
      lastBumpedPoc := INT32_MIN;
      if currentIdx >= 0 {
        var cur := currentIdx;
        currentIdx := -1;
        SlotClear(cur);
      }
      adaptive, mmco := false, [];
    }

    /** `trapped` tells that an RKMPP_VERIFY failed; the process ends there. */
    method AddHold(i: nat, r: HoldReason, epoch: nat) returns (trapped: bool)
      requires Valid()
      modifies slots
      ensures H264DpbSpec.AddHold(old(State()), i, r, epoch) == if trapped then Trap else Done(State())
      ensures Valid()
    {
      if i >= slots.Length { return false; }
      if slots[i].Flag(r) || slots[i].epoch != epoch { return true; }
      slots[i] := slots[i].WithFlag(r, true);
      return false;
    }

    method ReleaseHold(i: nat, r: HoldReason) returns (trapped: bool)
      requires Valid()
      modifies slots
      ensures H264DpbSpec.ReleaseHold(old(State()), i, r) == if trapped then Trap else Done(State())
      ensures Valid()
    {
      if i >= slots.Length { return false; }
      if !slots[i].Flag(r) { return true; }
      slots[i] := slots[i].WithFlag(r, false);
      return false;
    }

    method TransferHold(i: nat, from: HoldReason, to: HoldReason, epoch: nat) returns (trapped: bool)
      requires Valid()
      modifies slots
      ensures H264DpbSpec.TransferHold(old(State()), i, from, to, epoch) == if trapped then Trap else Done(State())
      ensures Valid()
    {
      if i >= slots.Length { return false; }
      if from == to || !slots[i].Flag(from) || slots[i].Flag(to) || slots[i].epoch != epoch { return true; }
      slots[i] := slots[i].WithFlag(from, false);
      slots[i] := slots[i].WithFlag(to, true);
      return false;
    }

    method Flush() returns (trapped: bool)
      requires Valid()
      modifies this, slots
      ensures H264DpbSpec.Flush(old(State())) == if trapped then Trap else Done(State())
      ensures Valid()
    {
      for i := 0 to slots.Length
        invariant forall k | 0 <= k < i :: !old(slots[k]).reorder && !old(slots[k]).ready
        invariant forall k | 0 <= k < i :: slots[k] == FlushedSlot(old(slots[k]))
        invariant forall k | i <= k < slots.Length :: slots[k] == old(slots[k])
        invariant State() == old(State()).(slots := slots[..])
      {
        if slots[i].reorder || slots[i].ready {
          assert old(State()).slots[i] == old(slots[i]);
          return true;
        }
        slots[i] := FlushedSlot(slots[i]);
      }
      ghost var before := old(State());
      assert forall i: nat | i < |before.slots| :: before.slots[i] == old(slots[i]);
      assert slots[..] == seq(|before.slots|, i requires 0 <= i < |before.slots| => FlushedSlot(before.slots[i]));
      currentIdx := -1;
      currentEpoch := Wrap32(currentEpoch + 1);
      return false;
    }
  }

  /** `Dpb_Init`: refuses a pool of the wrong size or with a null buffer. */
  method CreateDpb(entries: seq<PoolEntry>) returns (status: Status, ctx: DpbCtx?)
    ensures status == if PoolOk(entries) then Ok else InvalidInput
    ensures status == Ok <==> ctx != null
    ensures ctx != null ==> fresh(ctx) && fresh(ctx.slots) && ctx.Valid() && ctx.State() == Init(entries)
  {
    if |entries| == 0 || |entries| > MAX_SLOTS { return InvalidInput, null; }
    for i := 0 to |entries|
      invariant forall k | 0 <= k < i :: entries[k].outputFrame != 0 && entries[k].colmv != 0
    {
      if entries[i].outputFrame == 0 || entries[i].colmv == 0 { return InvalidInput, null; }
    }
    status := Ok;
    ctx := new DpbCtx(entries);
  }
}

/** Which references survive sliding-window marking (sections 8.2.4.1 and 8.2.5.3 of ITU-T H.264). */
module H264SlidingWindow {
  import opened Bits
  import opened H264DpbSpec

  /** Slot `j` outlives slot `i`: a larger FrameNumWrap, or the same one and a higher index. */
  predicate Outlives(d: Dpb, j: nat, i: nat)
    requires j < |d.slots| && i < |d.slots|
  {
    Wrapped(d, j) > Wrapped(d, i) || (Wrapped(d, j) == Wrapped(d, i) && j > i)
  }

  /** The short-term references that outlive slot `i`. */
  function Outlivers(d: Dpb, i: nat): set<nat>
    requires i < |d.slots|
  {
    set j | j in ShortRefs(d.slots) && Outlives(d, j, i)
  }

  /** Slot `i` is a short-term reference outlived by at least `maxRefs` others. */
  predicate Surplus(d: Dpb, maxRefs: nat, i: nat)
    requires i < |d.slots|
  {
    d.slots[i].ShortTerm() && |Outlivers(d, i)| >= maxRefs
  }

  lemma {:induction false} OldestIsLeast(d: Dpb, n: nat, i: nat)
    requires i < n <= |d.slots| && d.slots[i].ShortTerm()
    ensures var o := OldestAmong(d, n); o >= 0 && (o == i || Outlives(d, i, o))
  {
    if i < n - 1 { OldestIsLeast(d, n - 1, i); }
  }

  /** Evicting the oldest leaves every other slot with the same outlivers. */
  lemma EvictKeepsOutlivers(d: Dpb, i: nat)
    requires i in ShortRefs(d.slots) && i != OldestAmong(d, |d.slots|)
    ensures i in ShortRefs(Evict(d).slots) && Outlivers(Evict(d), i) == Outlivers(d, i)
  {
    var o, e := OldestAmong(d, |d.slots|), Evict(d);
    OldestIsLeast(d, |d.slots|, i);
    forall j: nat | j < |d.slots| && j != o ensures e.slots[j] == d.slots[j] && Wrapped(e, j) == Wrapped(d, j) {}
    assert o !in Outlivers(d, i);
  }

  lemma AllOutliveOldest(d: Dpb)
    requires ShortRefs(d.slots) != {}
    ensures OldestAmong(d, |d.slots|) >= 0
    ensures Outlivers(d, OldestAmong(d, |d.slots|)) == ShortRefs(d.slots) - {OldestAmong(d, |d.slots|)}
  {
    EvictDropsOldest(d);
    var o := OldestAmong(d, |d.slots|);
    forall j | j in ShortRefs(d.slots) && j != o ensures Outlives(d, j, o) {
      OldestIsLeast(d, |d.slots|, j);
    }
  }

  /**
   The survivors are exactly the short-term references outlived by fewer than `maxRefs` others, that
   is the `maxRefs` with the largest FrameNumWrap; nothing else in the pool changes.
   */
  lemma {:induction false} Survivors(d: Dpb, maxRefs: nat)
    requires maxRefs > 0
    ensures forall i: nat | i < |d.slots| ::
              SlidingWindow(d, maxRefs).slots[i] == if Surplus(d, maxRefs, i) then d.slots[i].Cleared() else d.slots[i]
    decreases |ShortRefs(d.slots)|
  {
    hide Surplus;
    if |ShortRefs(d.slots)| <= maxRefs {
      forall i: nat | i < |d.slots| ensures !Surplus(d, maxRefs, i) { NoSurplus(d, maxRefs, i); }
    } else {
      EvictDropsOldest(d);
      Survivors(Evict(d), maxRefs);
      forall i: nat | i < |d.slots|
        ensures SlidingWindow(d, maxRefs).slots[i]
             == if Surplus(d, maxRefs, i) then d.slots[i].Cleared() else d.slots[i]
      {
        SurplusAfterEvict(d, maxRefs, i);
      }
    }
  }

  lemma NoSurplus(d: Dpb, maxRefs: nat, i: nat)
    requires i < |d.slots| && |ShortRefs(d.slots)| <= maxRefs
    ensures !Surplus(d, maxRefs, i)
  {
    if d.slots[i].ShortTerm() { SubsetSize(Outlivers(d, i), ShortRefs(d.slots) - {i}); }
  }

  /** Eviction clears a slot that is surplus, and leaves the others as surplus as they were. */
  lemma SurplusAfterEvict(d: Dpb, maxRefs: nat, i: nat)
    requires i < |d.slots| && |ShortRefs(d.slots)| > maxRefs
    ensures var e, o := Evict(d), OldestAmong(d, |d.slots|);
            if i == o then Surplus(d, maxRefs, i) && !Surplus(e, maxRefs, i) && e.slots[i] == d.slots[i].Cleared()
            else Surplus(e, maxRefs, i) == Surplus(d, maxRefs, i) && e.slots[i] == d.slots[i]
  {
    hide OldestAmong, Outlivers;
    EvictDropsOldest(d);
    AllOutliveOldest(d);
    if i in ShortRefs(d.slots) && i != OldestAmong(d, |d.slots|) { EvictKeepsOutlivers(d, i); }
  }

  /** The count left is the smaller of the bound and what there was. */
  lemma {:induction false} SurvivorCount(d: Dpb, maxRefs: nat)
    requires maxRefs > 0
    ensures |ShortRefs(SlidingWindow(d, maxRefs).slots)|
         == if |ShortRefs(d.slots)| <= maxRefs then |ShortRefs(d.slots)| else maxRefs
    decreases |ShortRefs(d.slots)|
  {
    if |ShortRefs(d.slots)| > maxRefs {
      EvictDropsOldest(d);
      SurvivorCount(Evict(d), maxRefs);
    }
  }

  /** Frame numbers as the standard constrains them: below MaxFrameNum, the current one used once. */
  predicate FrameNumsFit(d: Dpb, cur: nat)
    requires cur < |d.slots|
  {
    && d.slots[cur].frameNum == d.currPicNum
    && forall j | j in ShortRefs(d.slots) && j != cur ::
         d.slots[j].frameNum < WindowMax(d) && d.slots[j].frameNum != d.currPicNum
  }

  /** What `Dpb_OnDecodeComplete` starts marking from. */
  function Marking(d: Dpb): Dpb {
    d.(lastBumpedPoc := INT32_MIN, currentIdx := -1)
  }

  function WindowSize(d: Dpb): nat {
    if d.maxNumRefFrames == 0 then 1 else d.maxNumRefFrames
  }

  /**
   `Dpb_OnDecodeComplete` of a picture marked by sliding window.  The current picture is kept if and
   only if fewer than `WindowSize` references tie with it or come after it; with frame numbers that
   fit, nothing does.
   */
  lemma CompleteKeepsNewest(d: Dpb)
    requires 0 <= d.currentIdx < |d.slots|
    requires d.slots[d.currentIdx].ShortTerm() && !d.adaptive
    ensures var cur, r, m := d.currentIdx, Complete(d), Marking(d);
            && (forall i: nat | i < |d.slots| ::
                 r.slots[i] == if Surplus(m, WindowSize(d), i) then d.slots[i].Cleared() else d.slots[i])
            && |ShortRefs(r.slots)| <= WindowSize(d)
            && (r.slots[cur].ShortTerm() <==> |Outlivers(m, cur)| < WindowSize(d))
            && (FrameNumsFit(d, cur) ==> r.slots[cur] == d.slots[cur])
  {
    var cur, m := d.currentIdx, Marking(d);
    Survivors(m, WindowSize(d));
    SurvivorCount(m, WindowSize(d));
    if FrameNumsFit(d, cur) {
      forall j | j in ShortRefs(m.slots) ensures !Outlives(m, j, cur) {}
      assert Outlivers(m, cur) == {};
    }
  }

  function LongRefs(slots: seq<Slot>): set<nat> {
    set i: nat | i < |slots| && slots[i].LongTerm()
  }

  /**
   Section 8.2.5.3 of ITU-T H.264 bounds short-term and long-term references together; the code counts the
   short-term ones. After a complete the standard's bound holds if and only if the references it counts before,
   with the short-term ones cut to the window, are within it: the long-term ones alone must leave room.
   */
  lemma StandardBoundIff(d: Dpb)
    requires 0 <= d.currentIdx < |d.slots|
    requires d.slots[d.currentIdx].ShortTerm() && !d.adaptive
    ensures var r, short := Complete(d), |ShortRefs(d.slots)|;
            && LongRefs(r.slots) == LongRefs(d.slots)
            && (|ShortRefs(r.slots)| + |LongRefs(r.slots)| <= WindowSize(d)
                <==> (if short <= WindowSize(d) then short else WindowSize(d)) + |LongRefs(d.slots)| <= WindowSize(d))
  {
    CompleteKeepsNewest(d);
    SurvivorCount(Marking(d), WindowSize(d));
    assert LongRefs(Complete(d).slots) == LongRefs(d.slots);
  }

  /** The current picture, frame number 5, in slot 0 and one reference in slot 1, with a window of `window`. */
  function OneRef(other: Slot, window: nat): Dpb {
    Dpb([], [EmptySlot().(inUse := true, isRef := true, frameNum := 5), other],
        0, 0, window, 16, 5, 3, false, [], 5, 0)
  }

  /** A long-term reference next to the current picture, and a window of 1: two references are left. */
  lemma LongTermBreaksBound()
    ensures var d := OneRef(EmptySlot().(inUse := true, isRef := true, longTerm := true), 1);
            WindowSize(d) == 1 && |ShortRefs(Complete(d).slots)| + |LongRefs(Complete(d).slots)| == 2
  {
    var d := OneRef(EmptySlot().(inUse := true, isRef := true, longTerm := true), 1);
    assert ShortRefs(d.slots) == {0} && LongRefs(d.slots) == {1};
    StandardBoundIff(d);
    SurvivorCount(Marking(d), 1);
  }

  /** A reference with the current picture's frame number in a later slot and a window of 1: it outlives the picture. */
  lemma CurrentCanBeEvicted()
    ensures var d := OneRef(EmptySlot().(inUse := true, isRef := true, frameNum := 5), 1);
            d.slots[0].ShortTerm() && !Complete(d).slots[0].isRef && Complete(d).slots[1].isRef
  {
    var d := OneRef(EmptySlot().(inUse := true, isRef := true, frameNum := 5), 1);
    CompleteKeepsNewest(d);
    assert Outlivers(Marking(d), 0) == {1} && Outlivers(Marking(d), 1) == {};
  }

  /**
   Frame numbers are true picture counts modulo MaxFrameNum.  For references less than MaxFrameNum
   behind the current picture, FrameNumWrap orders them as their true counts do.
   */
  lemma FrameNumWrapIsDecodeOrder(trueCur: nat, a: nat, b: nat, maxFrameNum: nat)
    requires maxFrameNum > 0
    requires trueCur - maxFrameNum < a <= trueCur && trueCur - maxFrameNum < b <= trueCur
    ensures FrameNumWrap(a % maxFrameNum, trueCur % maxFrameNum, maxFrameNum)
          - FrameNumWrap(b % maxFrameNum, trueCur % maxFrameNum, maxFrameNum) == a - b
  {
    WrapOffset(trueCur, a, maxFrameNum);
    WrapOffset(trueCur, b, maxFrameNum);
  }

  lemma WrapOffset(trueCur: nat, a: nat, maxFrameNum: nat)
    requires maxFrameNum > 0 && trueCur - maxFrameNum < a <= trueCur
    ensures FrameNumWrap(a % maxFrameNum, trueCur % maxFrameNum, maxFrameNum)
         == a - (trueCur - trueCur % maxFrameNum)
  {
    var q, r := trueCur / maxFrameNum, trueCur % maxFrameNum;
    var back := trueCur - a;
    if back <= r {
      DivUnique(a, maxFrameNum, q, r - back);
    } else {
      assert (q - 1) * maxFrameNum == q * maxFrameNum - maxFrameNum;
      DivUnique(a, maxFrameNum, q - 1, r - back + maxFrameNum);
    }
  }

  /** `numbers[i]` is slot `i`'s frame number before reduction; all are less than MaxFrameNum behind the current. */
  predicate TrueNumbers(d: Dpb, numbers: seq<nat>)
    requires 0 <= d.currentIdx < |d.slots|
  {
    && |numbers| == |d.slots| && WindowMax(d) > 0
    && d.currPicNum == numbers[d.currentIdx] % WindowMax(d)
    && (forall i | i in ShortRefs(d.slots) ::
          && d.slots[i].frameNum == numbers[i] % WindowMax(d)
          && numbers[d.currentIdx] - WindowMax(d) < numbers[i] <= numbers[d.currentIdx])
    && (forall i, j | i in ShortRefs(d.slots) && j in ShortRefs(d.slots) && i != j :: numbers[i] != numbers[j])
  }

  function Younger(d: Dpb, numbers: seq<nat>, i: nat): set<nat>
    requires i < |numbers| == |d.slots|
  {
    set j | j in ShortRefs(d.slots) && numbers[j] > numbers[i]
  }

  /**
   With distinct true frame numbers the oldest are the ones dropped, across frame-number wraps: a short-term
   reference survives the complete if and only if fewer than the window's size of references are younger.
   */
  lemma OldestAreDropped(d: Dpb, numbers: seq<nat>, i: nat)
    requires 0 <= d.currentIdx < |d.slots| && i in ShortRefs(d.slots)
    requires d.slots[d.currentIdx].ShortTerm() && !d.adaptive && TrueNumbers(d, numbers)
    ensures Complete(d).slots[i].ShortTerm() <==> |Younger(d, numbers, i)| < WindowSize(d)
    ensures Complete(d).slots[i].ShortTerm() ==> Complete(d).slots[i] == d.slots[i]
  {
    var m, cur := Marking(d), d.currentIdx;
    CompleteKeepsNewest(d);
    forall j | j in ShortRefs(d.slots) ensures Outlives(m, j, i) <==> numbers[j] > numbers[i] {
      FrameNumWrapIsDecodeOrder(numbers[cur], numbers[j], numbers[i], WindowMax(d));
    }
    assert Outlivers(m, i) == Younger(d, numbers, i);
  }
}

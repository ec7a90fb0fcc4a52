/**
 What each memory management control operation does to each slot of the H.264 buffer (mft/dpb.cpp, `apply_mmco_ops`;
 section 8.2.5.4 of ITU-T H.264), in the fields of the slot.
 */
module H264Marking {
  import opened Bits
  import opened H264DpbSpec
  import opened H264LongTerm

  predicate IsShort(s: Slot) { s.inUse && s.isRef && !s.longTerm }

  predicate IsLong(s: Slot) { s.inUse && s.isRef && s.longTerm }

  /** The first short-term reference with frame number `num`. */
  predicate FirstShort(slots: seq<Slot>, num: nat, i: nat) {
    && i < |slots| && IsShort(slots[i]) && slots[i].frameNum == num
    && forall j: nat | j < i :: !(IsShort(slots[j]) && slots[j].frameNum == num)
  }

  /** The first long-term reference with index `idx`. */
  predicate FirstLong(slots: seq<Slot>, idx: nat, i: nat) {
    && i < |slots| && IsLong(slots[i]) && slots[i].longTermFrameIdx == idx
    && forall j: nat | j < i :: !(IsLong(slots[j]) && slots[j].longTermFrameIdx == idx)
  }

  /** What is left of slot `s` when its picture goes: the holds and the epoch. */
  function Emptied(s: Slot): Slot {
    Slot(false, false, false, s.reorder, s.ready, s.consumer, 0, 0, 0, 0, s.epoch)
  }

  /** The frame number operations 1 and 3 name, in 32 bits. */
  function NamedNum(d: Dpb, m: Mmco): nat {
    (d.pendingCurrPicNum - m.differenceOfPicNumsMinus1 - 1) % 0x1_0000_0000
  }

  /** The check operations 3 and 6 make of their index. */
  predicate IdxAllowed(d: Dpb, m: Mmco) {
    0 <= d.maxLongTermFrameIdx && ToInt32(m.longTermFrameIdx) <= d.maxLongTermFrameIdx
  }

  lemma NamedNumIs(d: Dpb, m: Mmco)
    ensures PicNumX(d, m) == NamedNum(d, m)
  {
    var x, y := d.pendingCurrPicNum, m.differenceOfPicNumsMinus1 + 1;
    SubtractWrapped(x, y, 0x1_0000_0000);
  }

  lemma SubtractWrapped(x: int, y: int, n: nat)
    requires n > 0
    ensures (x - y % n) % n == (x - y) % n
  {
    var q, r := y / n, (x - y % n) % n;
    var k := (x - y % n) / n;
    assert x - y == (x - y % n) - q * n;
    assert k * n - q * n == (k - q) * n;
    DivUnique(x - y, n, k - q, r);
  }

  lemma FirstIs(slots: seq<Slot>, num: nat, i: nat)
    requires i < |slots|
    ensures First(slots, HasPicNum(num)) == i <==> FirstShort(slots, num, i)
    ensures First(slots, HasLongTermIdx(num)) == i <==> FirstLong(slots, num, i)
  {
    FirstSays(slots, HasPicNum(num), i);
    FirstSays(slots, HasLongTermIdx(num), i);
    forall j: nat | j < |slots|
      ensures HasPicNum(num)(slots[j]) <==> IsShort(slots[j]) && slots[j].frameNum == num
      ensures HasLongTermIdx(num)(slots[j]) <==> IsLong(slots[j]) && slots[j].longTermFrameIdx == num
    {}
  }

  lemma FirstSays(slots: seq<Slot>, p: Slot -> bool, i: nat)
    requires i < |slots|
    ensures First(slots, p) == i <==> p(slots[i]) && forall j: nat | j < i :: !p(slots[j])
  {
    var f := First(slots, p);
    if p(slots[i]) && forall j: nat | j < i :: !p(slots[j]) {
      assert f >= 0;
      assert p(slots[f]);
    }
  }

  /** Operation 1 clears the first short-term reference with the number it names, unless that is the current picture. */
  lemma Operation1(d: Dpb, cur: nat, m: Mmco)
    requires cur < |d.slots| && m.op == 1
    ensures var r := ApplyMmco(d, cur, m);
            && r == d.(slots := r.slots) && |r.slots| == |d.slots|
            && forall i: nat | i < |d.slots| ::
                 r.slots[i] == if i != cur && FirstShort(d.slots, NamedNum(d, m), i) then Emptied(d.slots[i])
                               else d.slots[i]
  {
    hide First, FirstShort, NamedNum, PicNumX;
    NamedNumIs(d, m);
    forall i: nat | i < |d.slots|
      ensures ApplyMmco(d, cur, m).slots[i]
           == if i != cur && FirstShort(d.slots, NamedNum(d, m), i) then Emptied(d.slots[i]) else d.slots[i]
    {
      FirstIs(d.slots, NamedNum(d, m), i);
    }
  }

  /** Operation 2 does the same to the long-term reference with the index it names. */
  lemma Operation2(d: Dpb, cur: nat, m: Mmco)
    requires cur < |d.slots| && m.op == 2
    ensures var r := ApplyMmco(d, cur, m);
            && r == d.(slots := r.slots) && |r.slots| == |d.slots|
            && forall i: nat | i < |d.slots| ::
                 r.slots[i] == if i != cur && FirstLong(d.slots, m.longTermPicNum, i) then Emptied(d.slots[i])
                               else d.slots[i]
  {
    hide First, FirstLong;
    forall i: nat | i < |d.slots|
      ensures ApplyMmco(d, cur, m).slots[i]
           == if i != cur && FirstLong(d.slots, m.longTermPicNum, i) then Emptied(d.slots[i]) else d.slots[i]
    {
      FirstIs(d.slots, m.longTermPicNum, i);
    }
  }

  /** The state in which the index is given away, slot by slot. */
  lemma VacatedSlot(d: Dpb, cur: nat, m: Mmco, i: nat)
    requires i < |d.slots|
    ensures var v := Vacated(d, cur, m);
            && |v.slots| == |d.slots| && v == d.(slots := v.slots)
            && v.slots[i] == if i != cur && FirstLong(d.slots, m.longTermFrameIdx, i) then Emptied(d.slots[i])
                             else d.slots[i]
  {
    hide First, FirstLong;
    FirstIs(d.slots, m.longTermFrameIdx, i);
  }

  /** Dropping a long-term reference does not change which short-term one comes first. */
  lemma VacatedKeepsFirst(d: Dpb, cur: nat, m: Mmco, num: nat, i: nat)
    requires i < |d.slots|
    ensures var v := Vacated(d, cur, m); FirstShort(v.slots, num, i) <==> FirstShort(d.slots, num, i)
  {
    hide Vacated;
    var v := Vacated(d, cur, m);
    forall j: nat | j < |d.slots|
      ensures |v.slots| == |d.slots| && IsShort(v.slots[j]) == IsShort(d.slots[j])
      ensures IsShort(d.slots[j]) ==> v.slots[j] == d.slots[j]
    {
      VacatedSlot(d, cur, m, j);
    }
  }

  /**
   Operation 3, where the index is allowed: the first short-term reference with the number it names gets the index, and
   the first other holder of the index, unless that is the current picture, goes.
   */
  lemma Operation3(d: Dpb, cur: nat, m: Mmco)
    requires cur < |d.slots| && m.op == 3
    ensures var r := ApplyMmco(d, cur, m);
            && r == d.(slots := r.slots) && |r.slots| == |d.slots|
            && forall i: nat | i < |d.slots| ::
                 r.slots[i]
                 == if !IdxAllowed(d, m) then d.slots[i]
                    else if FirstShort(d.slots, NamedNum(d, m), i) then
                      d.slots[i].(longTerm := true, longTermFrameIdx := m.longTermFrameIdx % 0x1_0000)
                    else if i != cur && FirstLong(d.slots, m.longTermFrameIdx, i) then Emptied(d.slots[i])
                    else d.slots[i]
  {
    hide First, FirstShort, FirstLong, NamedNum, PicNumX, Vacated, ToInt32;
    NamedNumIs(d, m);
    VacatedSlot(d, cur, m, cur);
    forall i: nat | i < |d.slots| && IdxAllowed(d, m)
      ensures ApplyMmco(d, cur, m).slots[i]
           == if FirstShort(d.slots, NamedNum(d, m), i) then
                d.slots[i].(longTerm := true, longTermFrameIdx := m.longTermFrameIdx % 0x1_0000)
              else if i != cur && FirstLong(d.slots, m.longTermFrameIdx, i) then Emptied(d.slots[i])
              else d.slots[i]
    {
      VacatedSlot(d, cur, m, i);
      VacatedKeepsFirst(d, cur, m, NamedNum(d, m), i);
      FirstIs(Vacated(d, cur, m).slots, NamedNum(d, m), i);
      ShortIsNotLong(d.slots, NamedNum(d, m), m.longTermFrameIdx, i);
    }
  }

  lemma ShortIsNotLong(slots: seq<Slot>, num: nat, idx: nat, i: nat)
    ensures !(FirstShort(slots, num, i) && FirstLong(slots, idx, i))
  {}

  /** Operation 4 sets the maximum, and every other long-term reference above it goes. */
  lemma Operation4(d: Dpb, cur: nat, m: Mmco)
    requires cur < |d.slots| && m.op == 4
    ensures var r, max := ApplyMmco(d, cur, m), ToInt32(m.maxLongTermFrameIdxPlus1) - 1;
            && r == d.(slots := r.slots, maxLongTermFrameIdx := max) && |r.slots| == |d.slots|
            && forall i: nat | i < |d.slots| ::
                 r.slots[i] == if i != cur && IsLong(d.slots[i]) && d.slots[i].longTermFrameIdx > max
                               then Emptied(d.slots[i]) else d.slots[i]
  {
    hide ToInt32;
  }

  /** Operation 5 leaves the current picture alone, with frame number 0, and no long-term index allowed. */
  lemma Operation5(d: Dpb, cur: nat, m: Mmco)
    requires cur < |d.slots| && m.op == 5
    ensures var r := ApplyMmco(d, cur, m);
            && r == d.(slots := r.slots, maxLongTermFrameIdx := -1) && |r.slots| == |d.slots|
            && forall i: nat | i < |d.slots| ::
                 r.slots[i] == if i != cur then Emptied(d.slots[i]) else d.slots[i].(frameNum := 0)
  {}

  /** Operation 6, where the index is allowed, gives it to the current picture and drops its first other holder. */
  lemma Operation6(d: Dpb, cur: nat, m: Mmco)
    requires cur < |d.slots| && m.op == 6
    ensures var r := ApplyMmco(d, cur, m);
            && r == d.(slots := r.slots) && |r.slots| == |d.slots|
            && forall i: nat | i < |d.slots| ::
                 r.slots[i]
                 == if !IdxAllowed(d, m) then d.slots[i]
                    else if i == cur then
                      d.slots[i].(longTerm := true, longTermFrameIdx := m.longTermFrameIdx % 0x1_0000)
                    else if FirstLong(d.slots, m.longTermFrameIdx, i) then Emptied(d.slots[i])
                    else d.slots[i]
  {
    hide First, FirstLong, Vacated, ToInt32;
    VacatedSlot(d, cur, m, cur);
    forall i: nat | i < |d.slots| && IdxAllowed(d, m)
      ensures ApplyMmco(d, cur, m).slots[i]
           == if i == cur then d.slots[i].(longTerm := true, longTermFrameIdx := m.longTermFrameIdx % 0x1_0000)
              else if FirstLong(d.slots, m.longTermFrameIdx, i) then Emptied(d.slots[i])
              else d.slots[i]
    {
      VacatedSlot(d, cur, m, i);
    }
  }

  /** Any other operation number does nothing. */
  lemma OtherOperations(d: Dpb, cur: nat, m: Mmco)
    requires cur < |d.slots| && (m.op == 0 || m.op > 6)
    ensures ApplyMmco(d, cur, m) == d
  {}

  // ---------------------------------------------------------------- pools in order

  /** With distinct indices there is one holder to find. */
  lemma OnlyHolder(slots: seq<Slot>, idx: nat, i: nat)
    requires Distinct(slots) && i < |slots|
    ensures FirstLong(slots, idx, i) <==> IsLong(slots[i]) && slots[i].longTermFrameIdx == idx
  {}

  /**
   With distinct frame numbers operation 1 drops exactly the short-term picture whose FrameNumWrap is CurrPicNum minus
   the difference, unless it is the current one, if the difference does not reach back past a frame-number wrap; if it
   does, the operation changes nothing.
   */
  lemma Operation1DropsNamed(d: Dpb, cur: nat, m: Mmco)
    requires cur < |d.slots| && m.op == 1 && FrameNumsDistinct(d)
    requires d.pendingCurrPicNum == d.currPicNum < WindowMax(d) <= 0x1_0000
    requires m.differenceOfPicNumsMinus1 < WindowMax(d)
    ensures var r, difference := ApplyMmco(d, cur, m), m.differenceOfPicNumsMinus1 + 1;
            && (difference > d.currPicNum ==> r == d)
            && |r.slots| == |d.slots|
            && (difference <= d.currPicNum ==> forall i: nat | i < |d.slots| ::
                  var named := IsShort(d.slots[i]) && Wrapped(d, i) == d.currPicNum - difference;
                  && (r.slots[i].isRef <==> d.slots[i].isRef && (i == cur || !named))
                  && (i == cur || !named ==> r.slots[i] == d.slots[i]))
  {
    hide FirstShort, NamedNum, Emptied, ApplyMmco, First, FrameNumsDistinct;
    var r, difference, num := ApplyMmco(d, cur, m), m.differenceOfPicNumsMinus1 + 1, NamedNum(d, m);
    Operation1(d, cur, m);
    forall i: nat | i < |d.slots|
      ensures difference > d.currPicNum ==> !FirstShort(d.slots, num, i)
      ensures difference <= d.currPicNum ==>
                (FirstShort(d.slots, num, i) <==> IsShort(d.slots[i]) && Wrapped(d, i) == d.currPicNum - difference)
      ensures !Emptied(d.slots[i]).isRef
    {
      NamedNumIs(d, m);
      LookupFindsIff(d, m);
      FirstIs(d.slots, num, i);
      FirstShortIsShort(d.slots, num, i);
      EmptiedIsNone(d.slots[i]);
    }
    if difference > d.currPicNum { assert r.slots == d.slots; }
  }

  lemma FirstShortIsShort(slots: seq<Slot>, num: nat, i: nat)
    requires i < |slots|
    ensures FirstShort(slots, num, i) ==> IsShort(slots[i])
  {}

  lemma EmptiedIsNone(s: Slot)
    ensures !Emptied(s).isRef && !Emptied(s).inUse
  {}

  // ---------------------------------------------------------------- lists

  /** A list is applied from its first operation to its last: one list after another is both in one. */
  lemma {:induction false} ListsFollowOneAnother(d: Dpb, cur: nat, a: seq<Mmco>, b: seq<Mmco>)
    requires cur < |d.slots|
    ensures ApplyMmcos(d, cur, a + b) == ApplyMmcos(ApplyMmcos(d, cur, a), cur, b)
    decreases b
  {
    hide ApplyMmco;
    if b == [] {
      assert a + b == a;
    } else {
      var init, last := b[..|b| - 1], b[|b| - 1];
      ListsFollowOneAnother(d, cur, a, init);
      assert (a + b)[..|a + b| - 1] == a + init;
    }
  }

  lemma ListOfOne(d: Dpb, cur: nat, m: Mmco)
    requires cur < |d.slots|
    ensures ApplyMmcos(d, cur, []) == d && ApplyMmcos(d, cur, [m]) == ApplyMmco(d, cur, m)
  {
    assert [m][..0] == [];
  }
}

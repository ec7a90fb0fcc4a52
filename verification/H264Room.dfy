/**
 When `Dpb_Select` comes out full, and how large a pool must be for that never to happen in a run whose reference
 pictures are marked by sliding window.
 */
module H264Room {
  import opened Bits
  import opened DpbTypes
  import opened H264DpbSpec
  import opened H264Holds
  import opened H264SlidingWindow

  /**
   A select comes out full exactly when every slot is held or, unless an IDR picture drops them, has a picture, and
   there is no short-term reference to evict or the oldest one is held.
   */
  lemma FullIff(d: Dpb, p: Parsed)
    requires p.hasSlice
    ensures Select(d, p).0 == Full
            <==> && (forall i: nat | i < |d.slots| :: d.slots[i].Held() || (!p.isIdr && d.slots[i].inUse))
                 && (p.isIdr || OldestAmong(d, |d.slots|) < 0 || d.slots[OldestAmong(d, |d.slots|)].Held())
  {
    hide OldestAmong, First, Evict, MaxFrameNum;
    var d1 := FlushForIdr(d, p);
    FreeIff(d1.slots);
    if p.isIdr { NoneOldest(d1, |d1.slots|); }
    if First(d1.slots, IsFree()) < 0 { EvictFreesIff(d1); }
    assert forall i: nat | i < |d.slots| ::
        d1.slots[i].Free() <==> !(d.slots[i].Held() || (!p.isIdr && d.slots[i].inUse));
  }

  lemma FreeIff(slots: seq<Slot>)
    ensures First(slots, IsFree()) < 0 <==> forall i: nat | i < |slots| :: !slots[i].Free()
  {
    var f := First(slots, IsFree());
    if f >= 0 { assert IsFree()(slots[f]); } else { assert forall i: nat | i < |slots| :: !IsFree()(slots[i]); }
  }

  lemma {:induction false} NoneOldest(d: Dpb, n: nat)
    requires n <= |d.slots| && forall i: nat | i < n :: !d.slots[i].ShortTerm()
    ensures OldestAmong(d, n) == -1
  {
    if n > 0 { NoneOldest(d, n - 1); }
  }

  /** Where no slot is free, evicting frees one exactly when the oldest reference is not held. */
  lemma EvictFreesIff(d: Dpb)
    requires forall i: nat | i < |d.slots| :: !d.slots[i].Free()
    ensures var o := OldestAmong(d, |d.slots|);
            First(Evict(d).slots, IsFree()) < 0 <==> o < 0 || d.slots[o].Held()
  {
    hide OldestAmong, First;
    var e, o := Evict(d), OldestAmong(d, |d.slots|);
    FreeIff(e.slots);
    assert forall i: nat | i < |d.slots| && i != o :: e.slots[i] == d.slots[i];
    if o >= 0 { assert e.slots[o] == d.slots[o].Cleared(); }
  }

  // ---------------------------------------------------------------- runs marked by sliding window

  /** The slots with a picture, other than the one being decoded. */
  function Busy(d: Dpb): set<nat> {
    set i: nat | i < |d.slots| && i != d.currentIdx && d.slots[i].inUse
  }

  function HeldSlots(d: Dpb): set<nat> {
    set i: nat | i < |d.slots| && d.slots[i].Held()
  }

  /** The pictures kept are short-term references, at most `w`, and the one being decoded is going to be marked so. */
  predicate WindowKept(d: Dpb, w: nat) {
    && Indexed(d) && |Busy(d)| <= w
    && (forall i: nat | i < |d.slots| && i != d.currentIdx && d.slots[i].inUse :: d.slots[i].ShortTerm())
    && (d.currentIdx >= 0 ==>
          && d.slots[d.currentIdx].inUse && !d.slots[d.currentIdx].longTerm && !d.adaptive && WindowSize(d) <= w)
  }

  /** No marking list and no long-term reference, at most `w` reference frames, and one picture at a time. */
  predicate Slides(d: Dpb, e: Event, w: nat) {
    e.SelectEv? && e.p.hasSlice ==>
      && d.currentIdx < 0 && e.p.maxNumRefFrames <= w
      && if e.p.isIdr then !e.p.idrLongTermReference else !e.p.adaptive
  }

  /** Pool `b` is pool `a` with some pictures dropped. */
  predicate Dropped(a: seq<Slot>, b: seq<Slot>) {
    |a| == |b| && forall i | 0 <= i < |a| :: b[i] == a[i] || !b[i].inUse
  }

  lemma DropKeeps(d: Dpb, r: Dpb, w: nat)
    requires WindowKept(d, w) && Dropped(d.slots, r.slots) && r.currentIdx == -1
    requires d.currentIdx < 0 || !r.slots[d.currentIdx].inUse
    ensures WindowKept(r, w)
  {
    SubsetSize(Busy(r), Busy(d));
  }

  lemma RoomIsDropped(d: Dpb, p: Parsed)
    ensures Dropped(d.slots, MakeRoom(FlushForIdr(d, p)).slots)
  {
    hide OldestAmong, First;
  }

  lemma SelectKeeps(d: Dpb, p: Parsed, w: nat)
    requires WindowKept(d, w) && w > 0 && p.hasSlice && Slides(d, SelectEv(p), w)
    ensures WindowKept(Select(d, p).1, w)
  {
    hide FlushForIdr, MakeRoom, First, MaxFrameNum;
    var d2 := MakeRoom(FlushForIdr(d, p));
    RoomIsDropped(d, p);
    DropKeeps(d, d2, w);
    var slot := First(d2.slots, IsFree());
    if slot >= 0 { SubsetSize(Busy(Take(d2, p, slot)), Busy(d2)); }
  }

  lemma {:induction false} WindowIsDropped(d: Dpb, maxRefs: nat)
    requires maxRefs > 0
    ensures Dropped(d.slots, SlidingWindow(d, maxRefs).slots)
    decreases |ShortRefs(d.slots)|
  {
    hide OldestAmong;
    if |ShortRefs(d.slots)| > maxRefs {
      EvictDropsOldest(d);
      WindowIsDropped(Evict(d), maxRefs);
    }
  }

  lemma CompleteKeeps(d: Dpb, w: nat)
    requires WindowKept(d, w)
    ensures WindowKept(Complete(d), w)
  {
    hide SlidingWindow;
    var r, cur, m := Complete(d), d.currentIdx, Marking(d);
    if cur < 0 {
      DropKeeps(d, r, w);
    } else if d.slots[cur].isRef {
      WindowIsDropped(m, WindowSize(d));
      SurvivorCount(m, WindowSize(d));
      assert r.slots == SlidingWindow(m, WindowSize(d)).slots;
      assert Busy(r) == ShortRefs(r.slots);
    } else {
      DropKeeps(d, r, w);
    }
  }

  lemma StepKeeps(d: Dpb, e: Event, w: nat)
    requires WindowKept(d, w) && w > 0 && Slides(d, e, w) && Step(d, e).Done?
    ensures WindowKept(Step(d, e).dpb, w)
  {
    hide Complete, Select, WindowKept;
    assert Indexed(d) by { KeptIsIndexed(d, w); }
    match e
    case SelectEv(p) => if p.hasSlice { SelectKeeps(d, p, w); } else { SelectsNothing(d, p); }
    case CompleteEv => CompleteKeeps(d, w);
    case FailedEv => FailedKeeps(d, w);
    case FlushEv => FlushKeeps(d, w);
    case AddEv(i, r, _) => if i < |d.slots| { FlagKeeps(d, i, r, true, w); }
    case ReleaseEv(i, r) => if i < |d.slots| { FlagKeeps(d, i, r, false, w); }
    case TransferEv(i, from, to, _) =>
      if i < |d.slots| {
        FlagKeeps(d, i, from, false, w);
        FlagKeeps(SetFlag(d, i, from, false), i, to, true, w);
      }
  }

  lemma KeptIsIndexed(d: Dpb, w: nat)
    requires WindowKept(d, w)
    ensures Indexed(d)
  {}

  lemma SelectsNothing(d: Dpb, p: Parsed)
    requires !p.hasSlice
    ensures Select(d, p).1 == d
  {}

  lemma FailedKeeps(d: Dpb, w: nat)
    requires WindowKept(d, w)
    ensures WindowKept(Failed(d), w)
  {
    DropKeeps(d, Failed(d), w);
  }

  lemma FlushKeeps(d: Dpb, w: nat)
    requires WindowKept(d, w) && Flush(d).Done?
    ensures WindowKept(Flush(d).dpb, w)
  {
    DropKeeps(d, Flush(d).dpb, w);
  }

  lemma FlagKeeps(d: Dpb, i: nat, r: HoldReason, v: bool, w: nat)
    requires WindowKept(d, w) && i < |d.slots|
    ensures WindowKept(SetFlag(d, i, r, v), w)
  {
    var s := SetFlag(d, i, r, v);
    forall j: nat | j < |s.slots|
      ensures s.slots[j].inUse == d.slots[j].inUse && s.slots[j].ShortTerm() == d.slots[j].ShortTerm()
      ensures s.slots[j].longTerm == d.slots[j].longTerm
    {}
    assert Busy(s) == Busy(d);
  }

  predicate SlidesAll(d: Dpb, events: seq<Event>, w: nat)
    requires Indexed(d)
  {
    events == [] ||
    (var init, last := events[..|events| - 1], events[|events| - 1];
     SlidesAll(d, init, w) && (Run(d, init).Done? ==> Slides(Run(d, init).dpb, last, w)))
  }

  lemma {:induction false} RunKeeps(pool: seq<PoolEntry>, events: seq<Event>, w: nat)
    requires w > 0 && SlidesAll(Init(pool), events, w) && Run(Init(pool), events).Done?
    ensures var d := Run(Init(pool), events).dpb; WindowKept(d, w) && |d.slots| == |pool|
  {
    if events == [] {
      assert Busy(Init(pool)) == {};
    } else {
      hide Step, Slides, WindowKept;
      var init, last := events[..|events| - 1], events[|events| - 1];
      RunKeeps(pool, init, w);
      StepKeeps(Run(Init(pool), init).dpb, last, w);
      StepIndexed(Run(Init(pool), init).dpb, last);
    }
  }

  // ---------------------------------------------------------------- room for one more

  function Indices(n: nat): (r: set<nat>)
    ensures |r| == n && forall i: nat :: i in r <==> i < n
  {
    if n == 0 then {} else Indices(n - 1) + {n - 1}
  }

  /** A full pool has more held slots than the window leaves over. */
  lemma FullNeedsHolds(d: Dpb, p: Parsed, w: nat)
    requires WindowKept(d, w) && w > 0 && d.currentIdx < 0 && p.hasSlice && Select(d, p).0 == Full
    ensures |d.slots| < w + |HeldSlots(d)|
  {
    hide OldestAmong, Select;
    FullIff(d, p);
    var o, all, held := OldestAmong(d, |d.slots|), Indices(|d.slots|), HeldSlots(d);
    if p.isIdr || Busy(d) == {} {
      SubsetSize(all, held);
    } else {
      var i :| i in Busy(d);
      OldestExists(d, i, |d.slots|);
      SubsetSize(all, held + (Busy(d) - {o}));
    }
  }

  /**
   In every run marked by sliding window, a pool of at least the window and the slots held always has room for the
   next picture.
   */
  lemma PoolSuffices(pool: seq<PoolEntry>, events: seq<Event>, w: nat, p: Parsed)
    requires w > 0 && SlidesAll(Init(pool), events, w) && Run(Init(pool), events).Done?
    requires var d := Run(Init(pool), events).dpb;
             d.currentIdx < 0 && p.hasSlice && w + |HeldSlots(d)| <= |pool|
    ensures Select(Run(Init(pool), events).dpb, p).0 == Ok
  {
    RunKeeps(pool, events, w);
    var d := Run(Init(pool), events).dpb;
    if Select(d, p).0 == Full { FullNeedsHolds(d, p, w); }
  }

  /** One slot less does not do: a pool of one whose reference is held is full for a window of one. */
  lemma OneLessFails(entry: PoolEntry)
    ensures var p := Parsed(true, false, false, 1, 0, 0, 0, false, [], 1, 0, P);
            var events := [SelectEv(p), CompleteEv, AddEv(0, Consumer, 0)];
            && SlidesAll(Init([entry]), events, 1) && Run(Init([entry]), events).Done?
            && var d := Run(Init([entry]), events).dpb;
               d.currentIdx < 0 && 1 + |HeldSlots(d)| == |d.slots| + 1 && Select(d, p).0 == Full
  {
    hide Step, Slides, Select;
    var p := Parsed(true, false, false, 1, 0, 0, 0, false, [], 1, 0, P);
    var select, events := [SelectEv(p)], [SelectEv(p), CompleteEv, AddEv(0, Consumer, 0)];
    var none: seq<Event> := [];
    var d0 := Init([entry]);
    assert events[..2][..1] == select && select[..0] == none;
    assert Run(d0, none) == Done(d0) && SlidesAll(d0, none, 1);
    var d1 := TakeOnly(d0, p);
    assert Run(d0, select) == Done(d1) && SlidesAll(d0, select, 1);
    var d2 := KeepOnly(d1);
    assert Run(d0, events[..2]) == Done(d2) && SlidesAll(d0, events[..2], 1);
    var d3 := HoldOnly(d2, p);
    assert Run(d0, events) == Done(d3) && SlidesAll(d0, events, 1);
  }

  lemma TakeOnly(d: Dpb, p: Parsed) returns (r: Dpb)
    requires |d.slots| == 1 && d.slots[0] == EmptySlot() && d.currentIdx == -1 && d.currentEpoch == 0
    requires p == Parsed(true, false, false, 1, 0, 0, 0, false, [], 1, 0, P)
    ensures Slides(d, SelectEv(p), 1) && Indexed(d) && Step(d, SelectEv(p)) == Done(r) && |r.slots| == 1
    ensures r.currentIdx == 0 && r.slots[0] == EmptySlot().(inUse := true, isRef := true)
    ensures !r.adaptive && r.maxNumRefFrames == 1
  {
    hide MaxFrameNum;
    FreeIff(d.slots);
    r := Take(d, p, 0);
  }

  lemma KeepOnly(d: Dpb) returns (r: Dpb)
    requires |d.slots| == 1 && d.currentIdx == 0 && d.slots[0].isRef && !d.adaptive && d.maxNumRefFrames == 1
    ensures Slides(d, CompleteEv, 1) && Step(d, CompleteEv) == Done(r) && r.slots == d.slots && r.currentIdx == -1
  {
    SubsetSize(ShortRefs(d.slots), {0});
    r := Complete(d);
  }

  lemma HoldOnly(d: Dpb, p: Parsed) returns (r: Dpb)
    requires |d.slots| == 1 && d.currentIdx == -1 && p.hasSlice && !p.isIdr
    requires d.slots[0] == EmptySlot().(inUse := true, isRef := true)
    ensures Slides(d, AddEv(0, Consumer, 0), 1) && Step(d, AddEv(0, Consumer, 0)) == Done(r)
    ensures r.currentIdx == -1 && |r.slots| == 1 && |HeldSlots(r)| == 1 && Select(r, p).0 == Full
  {
    hide Select;
    r := SetFlag(d, 0, Consumer, true);
    assert HeldSlots(r) == {0};
    FullIff(r, p);
  }
}

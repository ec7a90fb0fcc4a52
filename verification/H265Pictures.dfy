/**
 What `H265Dpb_Select` stores of a picture, which pictures it keeps as references, and how long a reference lasts over
 a run (mft/dpb.cpp, second half; section 8.3.2 of ITU-T H.265), in the fields of the slots.
 */
module H265Pictures {
  import opened Bits
  import opened DpbTypes
  import opened H265Dpb
  import opened H265Holds

  /** The active set, the slice's own or the one it picks of its SPS, holds the distance from the picture to `c`. */
  predicate Names(p: Parsed, c: int) {
    var s := p.source;
    if s.fromSps then s.spsUsable && s.index < |s.spsSets| && c - p.poc in s.spsSets[s.index].delta
    else c - p.poc in s.sliceSet.delta
  }

  lemma NamesIs(p: Parsed, c: int)
    ensures c in NeededPocs(p) <==> Names(p, c)
  {
    var needed := NeededPocs(p);
    if c in needed {
      var k :| 0 <= k < |needed| && needed[k] == c;
      assert ActiveRps(p.source).rps.delta[k] == c - p.poc;
    }
    if Names(p, c) {
      var delta := ActiveRps(p.source).rps.delta;
      var k :| 0 <= k < |delta| && delta[k] == c - p.poc;
      assert needed[k] == c;
    }
  }

  /** What is left of a slot when its picture goes: the holds and the epoch. */
  function Emptied(s: Slot): Slot { Slot(false, false, s.reorder, s.ready, s.consumer, 0, s.epoch) }

  /** A slot other than the one taken: empty after an IDR picture, else a reference exactly if its picture is named. */
  function Marked(s: Slot, p: Parsed): Slot {
    if p.isIdr then Emptied(s) else if s.inUse then s.(isRef := Names(p, s.poc)) else s
  }

  lemma MarkedIs(d: Dpb, p: Parsed, i: nat)
    requires i < |d.slots|
    ensures Mark(d.slots, p)[i] == Marked(d.slots[i], p)
  {
    hide NeededPocs, Names;
    NamesIs(p, d.slots[i].poc);
  }

  /**
   After a successful select the slot taken holds the picture with its own count, a reference exactly if its NAL unit is
   of a reference type; the slot had no hold and no picture the set names. Every other slot is marked by the set.
   */
  lemma SelectStores(d: Dpb, p: Parsed)
    requires AfterSelect(d, p).0 == Ok
    ensures var r := AfterSelect(d, p).1;
            && 0 <= r.currentIdx < |d.slots| == |r.slots| && r == d.(slots := r.slots, currentIdx := r.currentIdx)
            && (var was := d.slots[r.currentIdx];
                && r.slots[r.currentIdx] == Slot(true, p.nalRef, was.reorder, was.ready, was.consumer, p.poc, was.epoch)
                && !was.Held() && (!p.isIdr && was.inUse ==> !Names(p, was.poc)))
            && forall i: nat | i < |d.slots| && i != r.currentIdx :: r.slots[i] == Marked(d.slots[i], p)
  {
    hide Mark, Marked, NeededPocs, Names, FindFree;
    var marked := Mark(d.slots, p);
    var slot := FindFree(marked);
    forall i: nat | i < |d.slots| ensures marked[i] == Marked(d.slots[i], p) { MarkedIs(d, p, i); }
    MarkedFields(d.slots[slot], p);
  }

  lemma MarkedFields(s: Slot, p: Parsed)
    ensures var m := Marked(s, p);
            && m.reorder == s.reorder && m.ready == s.ready && m.consumer == s.consumer && m.epoch == s.epoch
            && (m.Reference() <==> !p.isIdr && s.inUse && Names(p, s.poc))
            && (m.inUse <==> !p.isIdr && s.inUse)
  {}

  /**
   The slot taken is the first one, not held, whose picture the set leaves out, or if there is none the first one that
   is neither held nor has a picture.
   */
  lemma SelectTakesFirst(d: Dpb, p: Parsed)
    requires AfterSelect(d, p).0 == Ok
    ensures var slot := AfterSelect(d, p).1.currentIdx;
            && 0 <= slot < |d.slots|
            && var empty := p.isIdr || !d.slots[slot].inUse;
               && (empty ==> forall i: nat | i < |d.slots| :: !LeftOut(d.slots[i], p))
               && (empty ==> forall i: nat | i < slot :: d.slots[i].Held() || (!p.isIdr && d.slots[i].inUse))
               && (!empty ==> forall i: nat | i < slot :: !LeftOut(d.slots[i], p))
  {
    hide Mark, Marked, NeededPocs, Names, FirstFrom;
    var marked := Mark(d.slots, p);
    forall i: nat | i < |d.slots|
      ensures marked[i].Recyclable() <==> LeftOut(d.slots[i], p)
      ensures marked[i].Empty() <==> !d.slots[i].Held() && (p.isIdr || !d.slots[i].inUse)
    {
      MarkedIs(d, p, i);
      MarkedFields(d.slots[i], p);
    }
    FirstsAre(marked);
  }

  predicate LeftOut(s: Slot, p: Parsed) { !p.isIdr && s.inUse && !s.Held() && !Names(p, s.poc) }

  lemma FirstsAre(slots: seq<Slot>)
    ensures var r := FirstFrom(slots, IsRecyclable(), 0);
            && (r < 0 ==> forall i: nat | i < |slots| :: !slots[i].Recyclable())
            && (r >= 0 ==> slots[r].Recyclable() && forall i: nat | i < r :: !slots[i].Recyclable())
    ensures var e := FirstFrom(slots, IsEmpty(), 0);
            e >= 0 ==> slots[e].Empty() && forall i: nat | i < e :: !slots[i].Empty()
  {
    assert forall i: nat | i < |slots| :: IsRecyclable()(slots[i]) == slots[i].Recyclable();
    assert forall i: nat | i < |slots| :: IsEmpty()(slots[i]) == slots[i].Empty();
  }

  /** A select that comes out full has marked every slot all the same. */
  lemma FullMarks(d: Dpb, p: Parsed)
    requires AfterSelect(d, p).0 == Full
    ensures var r := AfterSelect(d, p).1;
            && r == d.(slots := r.slots) && |r.slots| == |d.slots|
            && forall i: nat | i < |d.slots| :: r.slots[i] == Marked(d.slots[i], p)
  {
    hide Mark, Marked;
    forall i: nat | i < |d.slots| ensures Mark(d.slots, p)[i] == Marked(d.slots[i], p) { MarkedIs(d, p, i); }
  }

  /** The view hands out exactly the buffers and counts of the references, and the current picture's own pair. */
  lemma ViewShowsReferences(d: Dpb, p: Parsed)
    requires |d.slots| == |d.pool| <= MAX_SLOTS && AfterSelect(d, p).0 == Ok
    ensures var r := AfterSelect(d, p).1;
            && Selected(r)
            && var v := View(r, p);
               && PoolEntry(v.currentOutput, v.currentColmv) == d.pool[r.currentIdx]
               && v.currentSlot == r.currentIdx && v.topPoc == v.bottomPoc == p.poc
               && |v.refs| == |v.refColmv| == |v.refPocs| == MAX_SLOTS
               && forall i: nat | i < MAX_SLOTS ::
                    if i < |d.slots| && i != r.currentIdx && !p.isIdr && d.slots[i].inUse && Names(p, d.slots[i].poc)
                    then
                      PoolEntry(v.refs[i], v.refColmv[i]) == d.pool[i] && v.refPocs[i] == d.slots[i].poc
                    else v.refs[i] == v.refColmv[i] == 0 && v.refPocs[i] == SENTINEL
  {
    hide AfterSelect, Names, Mask, Marked;
    SelectStores(d, p);
    var r := AfterSelect(d, p).1;
    forall i: nat | i < |d.slots| && i != r.currentIdx
      ensures Active(r, i) <==> !p.isIdr && d.slots[i].inUse && Names(p, d.slots[i].poc)
      ensures Active(r, i) ==> r.slots[i].poc == d.slots[i].poc
    {
      MarkedFields(d.slots[i], p);
      MarkedKeepsCount(d.slots[i], p);
    }
  }

  lemma MarkedKeepsCount(s: Slot, p: Parsed)
    ensures !p.isIdr ==> Marked(s, p).poc == s.poc
  {}

  /** A picture that is no reference is gone when it is complete; a reference stays; no other slot changes. */
  lemma CompleteLeaves(d: Dpb)
    requires 0 <= d.currentIdx < |d.slots|
    ensures var r := AfterComplete(d);
            && r == d.(slots := r.slots, currentIdx := -1) && |r.slots| == |d.slots|
            && forall i: nat | i < |d.slots| ::
                 r.slots[i] == if i == d.currentIdx && !d.slots[i].isRef then Emptied(d.slots[i]) else d.slots[i]
  {}

  /** A failed picture is gone; no other slot changes. */
  lemma FailureLeaves(d: Dpb)
    requires Indexed(d)
    ensures var r := AfterFailed(d);
            && r == d.(slots := r.slots, currentIdx := -1) && |r.slots| == |d.slots|
            && forall i: nat | i < |d.slots| ::
                 r.slots[i] == if i == d.currentIdx then Emptied(d.slots[i]) else d.slots[i]
  {}

  // ---------------------------------------------------------------- how long a reference lasts

  /** Slot `s` holds a picture of count `c` that is not being decoded. */
  predicate Keeps(d: Dpb, s: nat, c: int) {
    s < |d.slots| && s != d.currentIdx && d.slots[s].inUse && d.slots[s].poc == c
  }

  predicate Selects(e: Event) { e.SelectEv? && e.p.hasSlice }

  predicate NoFlush(events: seq<Event>) { forall k | 0 <= k < |events| :: !events[k].FlushEv? }

  /** Every set of the run names count `c`, and no picture is an IDR picture. */
  predicate NamedByEach(events: seq<Event>, c: int) {
    forall k | 0 <= k < |events| && Selects(events[k]) :: !events[k].p.isIdr && Names(events[k].p, c)
  }

  predicate ActiveAfter(d: Dpb, events: seq<Event>, s: nat)
    requires Indexed(d)
  {
    var r := Run(d, events);
    r.Done? && s < |r.dpb.slots| && Active(r.dpb, s)
  }

  /** Slot `s` is a reference of every select of the run. */
  predicate ActiveAtEach(d: Dpb, events: seq<Event>, s: nat)
    requires Indexed(d)
  {
    forall k | 0 < k <= |events| && Selects(events[k - 1]) :: ActiveAfter(d, events[..k], s)
  }

  lemma SelectKeepsIff(d: Dpb, p: Parsed, s: nat, c: int)
    requires Indexed(d) && Keeps(d, s, c) && p.hasSlice
    ensures var r := AfterSelect(d, p).1;
            && |r.slots| == |d.slots|
            && (Active(r, s) <==> !p.isIdr && Names(p, c))
            && (Active(r, s) ==> Keeps(r, s, c))
  {
    hide AfterSelect, Names, Marked;
    assert AfterSelect(d, p).0 == Ok || AfterSelect(d, p).0 == Full by { StatusIs(d, p); }
    if AfterSelect(d, p).0 == Ok { SelectStores(d, p); } else { FullMarks(d, p); }
    MarkedFields(d.slots[s], p);
    MarkedKeepsCount(d.slots[s], p);
  }

  lemma StatusIs(d: Dpb, p: Parsed)
    requires p.hasSlice
    ensures AfterSelect(d, p).0 == Ok || AfterSelect(d, p).0 == Full
  {}

  lemma OtherStepKeeps(d: Dpb, e: Event, s: nat, c: int)
    requires Indexed(d) && Keeps(d, s, c) && !Selects(e) && !e.FlushEv? && Step(d, e).Done?
    ensures Keeps(Step(d, e).dpb, s, c)
  {}

  lemma {:induction false} ActiveExactlyWhileNamed(d: Dpb, events: seq<Event>, s: nat, c: int)
    requires Indexed(d) && Keeps(d, s, c) && NoFlush(events) && Run(d, events).Done?
    ensures ActiveAtEach(d, events, s) <==> NamedByEach(events, c)
    ensures NamedByEach(events, c) ==> Keeps(Run(d, events).dpb, s, c)
  {
    if events != [] {
      hide Step, Selects, Keeps, Names, Active, NamedByEach, ActiveAtEach;
      var init, last := events[..|events| - 1], events[|events| - 1];
      assert NoFlush(init);
      ActiveExactlyWhileNamed(d, init, s, c);
      EachAndLast(d, events, s, c);
      if NamedByEach(init, c) { LastStep(Run(d, init).dpb, last, s, c); }
    } else {
      assert NamedByEach(events, c) && ActiveAtEach(d, events, s);
    }
  }

  lemma EachAndLast(d: Dpb, events: seq<Event>, s: nat, c: int)
    requires Indexed(d) && events != []
    ensures var init, last := events[..|events| - 1], events[|events| - 1];
            && (NamedByEach(events, c)
                <==> NamedByEach(init, c) && (Selects(last) ==> !last.p.isIdr && Names(last.p, c)))
            && (ActiveAtEach(d, events, s)
                <==> ActiveAtEach(d, init, s) && (Selects(last) ==> ActiveAfter(d, events, s)))
  {
    hide Names, ActiveAfter;
    var init := events[..|events| - 1];
    assert forall k | 0 <= k < |init| :: init[k] == events[k];
    assert forall k | 0 < k <= |init| :: init[..k] == events[..k];
    assert events[..|events|] == events;
    if NamedByEach(events, c) {
      forall k | 0 <= k < |init| && Selects(init[k]) ensures !init[k].p.isIdr && Names(init[k].p, c) {
        assert Selects(events[k]);
      }
    }
  }

  lemma LastStep(d: Dpb, e: Event, s: nat, c: int)
    requires Indexed(d) && Keeps(d, s, c) && !e.FlushEv? && Step(d, e).Done?
    ensures var r := Step(d, e).dpb;
            && s < |r.slots|
            && (Selects(e) ==> (Active(r, s) <==> !e.p.isIdr && Names(e.p, c)))
            && (Selects(e) ==> (Active(r, s) ==> Keeps(r, s, c)))
            && (!Selects(e) ==> Keeps(r, s, c))
  {
    hide Names, AfterSelect;
    if Selects(e) { SelectKeepsIff(d, e.p, s, c); } else { OtherStepKeeps(d, e, s, c); }
  }

  /**
   A reference picture, once selected and complete, is an active reference of every later select of a run without flush
   if and only if every set since names its count; as long as they do it stays in its slot under that count.
   */
  lemma ReferenceLastsWhileNamed(d: Dpb, p: Parsed, events: seq<Event>)
    requires Indexed(d) && AfterSelect(d, p).0 == Ok && p.nalRef
    requires var r := AfterSelect(d, p).1;
             Indexed(r) && NoFlush(events) && Run(AfterComplete(r), events).Done?
    ensures var r := AfterSelect(d, p).1;
            var start, slot := AfterComplete(r), r.currentIdx;
            && 0 <= slot
            && (ActiveAtEach(start, events, slot) <==> NamedByEach(events, p.poc))
            && (NamedByEach(events, p.poc) ==> Keeps(Run(start, events).dpb, slot, p.poc))
  {
    hide AfterSelect, AfterComplete, Marked, ActiveAtEach, NamedByEach;
    SelectStores(d, p);
    var r := AfterSelect(d, p).1;
    CompleteLeaves(r);
    ActiveExactlyWhileNamed(AfterComplete(r), events, r.currentIdx, p.poc);
  }
}

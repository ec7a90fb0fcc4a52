/**
 The slot-lifetime protocol of the H.264 buffer over whole runs: a client that follows the hold API
 never trips RKMPP_VERIFY, and a slot it holds is neither reused nor restamped.
 */
module H264Holds {
  import opened DpbTypes
  import opened H264DpbSpec

  datatype Event =
    | SelectEv(p: Parsed)
    | CompleteEv
    | FailedEv
    | FlushEv
    | AddEv(slot: nat, reason: HoldReason, epoch: nat)
    | ReleaseEv(slot: nat, reason: HoldReason)
    | TransferEv(slot: nat, from: HoldReason, to: HoldReason, epoch: nat)

  function Step(d: Dpb, e: Event): Outcome<Dpb>
    requires Indexed(d)
  {
    match e
    case SelectEv(p) => Done(Select(d, p).1)
    case CompleteEv => Done(Complete(d))
    case FailedEv => Done(Failed(d))
    case FlushEv => Flush(d)
    case AddEv(i, r, epoch) => AddHold(d, i, r, epoch)
    case ReleaseEv(i, r) => ReleaseHold(d, i, r)
    case TransferEv(i, from, to, epoch) => TransferHold(d, i, from, to, epoch)
  }

  /** The holds a client believes it has, each with the epoch it was taken at. */
  type Tokens = map<(nat, HoldReason), nat>

  function TokensAfter(t: Tokens, e: Event): Tokens {
    match e
    case AddEv(i, r, epoch) => t[(i, r) := epoch]
    case ReleaseEv(i, r) => t - {(i, r)}
    case TransferEv(i, from, to, epoch) => (t - {(i, from)})[(i, to) := epoch]
    case _ => t
  }

  /**
   The client's side of the protocol: it takes a hold it does not have, with the slot's epoch; gives
   back or transfers only holds it has, with the epoch it took them at; and has given back every
   reorder and ready hold before a flush.
   */
  ghost predicate Follows(d: Dpb, t: Tokens, e: Event) {
    match e
    case AddEv(i, r, epoch) => i < |d.slots| && (i, r) !in t && epoch == d.slots[i].epoch
    case ReleaseEv(i, r) => (i, r) in t
    case TransferEv(i, from, to, epoch) => (i, from) in t && (i, to) !in t && t[(i, from)] == epoch
    case FlushEv => forall i, r | (i, r) in t :: r == Consumer
    case _ => true
  }

  /** Slots carry exactly the client's holds, at the epochs it knows. */
  ghost predicate Agrees(d: Dpb, t: Tokens) {
    && Indexed(d)
    && (forall i, r | (i, r) in t :: i < |d.slots|)
    && (forall i: nat, r | i < |d.slots| :: d.slots[i].Flag(r) <==> (i, r) in t)
    && (forall i, r | (i, r) in t :: t[(i, r)] == d.slots[i].epoch)
  }

  /**
   The slot a successful select hands out carries no hold and holds no picture: it was free before,
   or an IDR dropped its picture, or nothing was free and it held the oldest short-term reference.
   Every other slot keeps its holds and its epoch.
   */
  lemma SelectTakesFreeSlot(d: Dpb, p: Parsed)
    requires Indexed(d)
    ensures var (status, r) := Select(d, p);
            && Indexed(r)
            && (status != Ok ==> MarkedFrom(r.slots, d.slots) && r.currentIdx == d.currentIdx)
            && (status == Ok ==> TakenSlotWasFree(d, p, r))
  {
    if p.hasSlice {
      var d1 := FlushForIdr(d, p);
      var d2 := MakeRoom(d1);
      var slot := First(d2.slots, IsFree());
      if slot >= 0 { assert d2.slots[slot].MarkedFrom(d1.slots[slot]) && d1.slots[slot].MarkedFrom(d.slots[slot]); }
    }
  }

  predicate TakenSlotWasFree(d: Dpb, p: Parsed, r: Dpb)
    requires |r.slots| == |d.slots|
  {
    var slot := r.currentIdx;
    && 0 <= slot < |d.slots| && !d.slots[slot].Held()
    && (d.slots[slot].inUse ==>
          (p.isIdr || (First(d.slots, IsFree()) == -1 && slot == OldestAmong(d, |d.slots|))))
    && r.slots[slot].inUse && r.slots[slot].epoch == d.currentEpoch && !r.slots[slot].Held()
    && forall i | 0 <= i < |d.slots| && i != slot :: r.slots[i].SameHolds(d.slots[i])
  }

  /** One step of a client that follows the protocol does not trap and keeps the agreement. */
  lemma StepAgrees(d: Dpb, t: Tokens, e: Event)
    requires Agrees(d, t) && Follows(d, t, e)
    ensures Step(d, e).Done? && Agrees(Step(d, e).dpb, TokensAfter(t, e))
  {
    match e
    case SelectEv(p) =>
      SelectTakesFreeSlot(d, p);
      SelectAgrees(d, t, p);
    case CompleteEv =>
      SameHoldsAgrees(d, Complete(d), t);
    case FailedEv =>
      SameHoldsAgrees(d, Failed(d), t);
    case FlushEv => FlushAgrees(d, t);
    case AddEv(i, r, epoch) => SetAgrees(d, t, i, r, epoch);
    case ReleaseEv(i, r) => UnsetAgrees(d, t, i, r);
    case TransferEv(i, from, to, epoch) =>
      UnsetAgrees(d, t, i, from);
      SetAgrees(SetFlag(d, i, from, false), t - {(i, from)}, i, to, epoch);
  }

  lemma SameHoldsAgrees(d: Dpb, r: Dpb, t: Tokens)
    requires Agrees(d, t) && Indexed(r) && MarkedFrom(r.slots, d.slots)
    ensures Agrees(r, t)
  {
    forall i: nat, h | i < |r.slots| ensures r.slots[i].Flag(h) <==> (i, h) in t {
      assert r.slots[i].MarkedFrom(d.slots[i]);
      assert d.slots[i].Flag(h) <==> (i, h) in t;
    }
    forall i, h | (i, h) in t ensures t[(i, h)] == r.slots[i].epoch {
      assert r.slots[i].MarkedFrom(d.slots[i]);
    }
  }

  lemma SelectAgrees(d: Dpb, t: Tokens, p: Parsed)
    requires Agrees(d, t)
    ensures Agrees(Select(d, p).1, t)
  {
    hide Select;
    SelectTakesFreeSlot(d, p);
    var (status, r) := Select(d, p);
    if status == Ok { TakenAgrees(d, r, t, p); } else { SameHoldsAgrees(d, r, t); }
  }

  lemma TakenAgrees(d: Dpb, r: Dpb, t: Tokens, p: Parsed)
    requires Agrees(d, t) && |r.slots| == |d.slots| && Indexed(r) && TakenSlotWasFree(d, p, r)
    ensures Agrees(r, t)
  {
    hide OldestAmong, First;
    var slot := r.currentIdx;
    forall i: nat, h | i < |r.slots| ensures r.slots[i].Flag(h) <==> (i, h) in t {
      assert d.slots[i].Flag(h) <==> (i, h) in t;
      if i != slot { assert r.slots[i].SameHolds(d.slots[i]); }
    }
    forall i, h | (i, h) in t ensures t[(i, h)] == r.slots[i].epoch {
      assert d.slots[i].Flag(h);
    }
  }

  lemma FlushAgrees(d: Dpb, t: Tokens)
    requires Agrees(d, t) && Follows(d, t, FlushEv)
    ensures Flush(d).Done? && Agrees(Flush(d).dpb, t)
  {
    forall i: nat | i < |d.slots| ensures !d.slots[i].reorder && !d.slots[i].ready {
      assert d.slots[i].Flag(Reorder) <==> (i, Reorder) in t;
      assert d.slots[i].Flag(Ready) <==> (i, Ready) in t;
    }
    SameHoldsAgrees(d, Flush(d).dpb, t);
  }

  lemma SetAgrees(d: Dpb, t: Tokens, i: nat, r: HoldReason, epoch: nat)
    requires Agrees(d, t) && i < |d.slots| && epoch == d.slots[i].epoch
    ensures Agrees(SetFlag(d, i, r, true), t[(i, r) := epoch])
  {
    var s, t' := SetFlag(d, i, r, true), t[(i, r) := epoch];
    forall j: nat, h | j < |s.slots| ensures s.slots[j].Flag(h) <==> (j, h) in t' {
      assert d.slots[j].Flag(h) <==> (j, h) in t;
    }
  }

  lemma UnsetAgrees(d: Dpb, t: Tokens, i: nat, r: HoldReason)
    requires Agrees(d, t) && i < |d.slots|
    ensures Agrees(SetFlag(d, i, r, false), t - {(i, r)})
  {
    var s, t' := SetFlag(d, i, r, false), t - {(i, r)};
    forall j: nat, h | j < |s.slots| ensures s.slots[j].Flag(h) <==> (j, h) in t' {
      assert d.slots[j].Flag(h) <==> (j, h) in t;
    }
  }

  /** A call traps exactly on a hold that is there already, is not there, or has another epoch than the slot. */
  lemma MisuseTraps(d: Dpb, i: nat, r: HoldReason, to: HoldReason, epoch: nat)
    ensures AddHold(d, i, r, epoch).Trap? <==> i < |d.slots| && (d.slots[i].Flag(r) || d.slots[i].epoch != epoch)
    ensures ReleaseHold(d, i, r).Trap? <==> i < |d.slots| && !d.slots[i].Flag(r)
    ensures TransferHold(d, i, r, to, epoch).Trap?
            <==> i < |d.slots|
                 && (r == to || !d.slots[i].Flag(r) || d.slots[i].Flag(to) || d.slots[i].epoch != epoch)
  {}

  /** What a call changes: the one flag, or the two of a transfer, of the one slot. */
  lemma CallsSetFlags(d: Dpb, i: nat, r: HoldReason, to: HoldReason, epoch: nat)
    ensures var a := AddHold(d, i, r, epoch);
            a.Done? && i < |d.slots| ==> OneSlot(d, a.dpb, i) && forall h: HoldReason ::
              a.dpb.slots[i].Flag(h) <==> h == r || d.slots[i].Flag(h)
    ensures var a := ReleaseHold(d, i, r);
            a.Done? && i < |d.slots| ==> OneSlot(d, a.dpb, i) && forall h: HoldReason ::
              a.dpb.slots[i].Flag(h) <==> h != r && d.slots[i].Flag(h)
    ensures var a := TransferHold(d, i, r, to, epoch);
            a.Done? && i < |d.slots| ==> OneSlot(d, a.dpb, i) && forall h: HoldReason ::
              a.dpb.slots[i].Flag(h) <==> h == to || (h != r && d.slots[i].Flag(h))
  {
    hide SetFlag, OneSlot;
    if i < |d.slots| {
      FlagIsSet(d, i, r, true);
      FlagIsSet(d, i, r, false);
      FlagIsSet(SetFlag(d, i, r, false), i, to, true);
      OneSlotTwice(d, SetFlag(d, i, r, false), SetFlag(SetFlag(d, i, r, false), i, to, true), i);
    }
  }

  lemma FlagIsSet(d: Dpb, i: nat, r: HoldReason, v: bool)
    requires i < |d.slots|
    ensures var s := SetFlag(d, i, r, v);
            OneSlot(d, s, i) && i < |s.slots|
            && forall h: HoldReason :: s.slots[i].Flag(h) <==> if h == r then v else d.slots[i].Flag(h)
  {}

  lemma OneSlotTwice(d: Dpb, e: Dpb, f: Dpb, i: nat)
    requires i < |d.slots| && i < |e.slots| && OneSlot(d, e, i) && OneSlot(e, f, i)
    ensures OneSlot(d, f, i)
  {}

  /** Only the hold flags of slot `i` differ. */
  predicate OneSlot(d: Dpb, r: Dpb, i: nat)
    requires i < |d.slots|
  {
    && |r.slots| == |d.slots| && r == d.(slots := r.slots)
    && (forall j: nat | j < |d.slots| && j != i :: r.slots[j] == d.slots[j])
    && d.slots[i] == r.slots[i].(reorder := d.slots[i].reorder, ready := d.slots[i].ready,
                                 consumer := d.slots[i].consumer)
  }

  /**
   A flush traps exactly if a reorder or ready hold is left; otherwise no slot has a picture afterwards, every slot
   keeps its holds and its epoch, those a consumer holds keep their numbers too, and the stream's epoch is one more.
   */
  lemma FlushEmpties(d: Dpb)
    ensures Flush(d).Trap? <==> exists i: nat | i < |d.slots| :: d.slots[i].reorder || d.slots[i].ready
    ensures var f := Flush(d);
            f.Done? ==>
              && |f.dpb.slots| == |d.slots| && f.dpb.currentIdx == -1
              && f.dpb.currentEpoch == (d.currentEpoch + 1) % 0x1_0000_0000
              && forall i: nat | i < |d.slots| ::
                   var s, t := d.slots[i], f.dpb.slots[i];
                   && !t.inUse && !t.isRef && !t.longTerm && t.SameHolds(s)
                   && (t.frameNum, t.topPoc, t.bottomPoc, t.longTermFrameIdx)
                      == if s.consumer then (s.frameNum, s.topPoc, s.bottomPoc, s.longTermFrameIdx) else (0, 0, 0, 0)
  {}

  // ---------------------------------------------------------------- runs

  function Run(d: Dpb, events: seq<Event>): (r: Outcome<Dpb>)
    requires Indexed(d)
    ensures r.Done? ==> Indexed(r.dpb)
  {
    if events == [] then Done(d)
    else
      var before := Run(d, events[..|events| - 1]);
      if before.Trap? then Trap
      else StepIndexed(before.dpb, events[|events| - 1]); Step(before.dpb, events[|events| - 1])
  }

  lemma StepIndexed(d: Dpb, e: Event)
    requires Indexed(d)
    ensures Step(d, e).Done? ==> Indexed(Step(d, e).dpb) && |Step(d, e).dpb.slots| == |d.slots|
  {}

  function TokensAt(events: seq<Event>): Tokens {
    if events == [] then map[] else TokensAfter(TokensAt(events[..|events| - 1]), events[|events| - 1])
  }

  /** Every event of the run keeps to the client's side of the protocol. */
  ghost predicate FollowsAll(d: Dpb, events: seq<Event>)
    requires Indexed(d)
  {
    events == [] ||
    (var init, last := events[..|events| - 1], events[|events| - 1];
     FollowsAll(d, init) && (Run(d, init).Done? ==> Follows(Run(d, init).dpb, TokensAt(init), last)))
  }

  /** No run of a client that follows the protocol trips RKMPP_VERIFY. */
  lemma {:induction false} RunNeverTraps(pool: seq<PoolEntry>, events: seq<Event>)
    requires FollowsAll(Init(pool), events)
    ensures Run(Init(pool), events).Done? && Agrees(Run(Init(pool), events).dpb, TokensAt(events))
  {
    if events != [] {
      var init := events[..|events| - 1];
      RunNeverTraps(pool, init);
      StepAgrees(Run(Init(pool), init).dpb, TokensAt(init), events[|events| - 1]);
    }
  }

  /** While the client keeps a hold through a step, the slot keeps its epoch. */
  lemma HeldSlotKeepsEpoch(d: Dpb, t: Tokens, e: Event, i: nat, r: HoldReason)
    requires Agrees(d, t) && Follows(d, t, e) && (i, r) in t && (i, r) in TokensAfter(t, e)
    ensures Step(d, e).Done? && Step(d, e).dpb.slots[i].epoch == d.slots[i].epoch
    ensures Step(d, e).dpb.slots[i].Flag(r)
  {
    StepAgrees(d, t, e);
    assert TokensAfter(t, e)[(i, r)] == Step(d, e).dpb.slots[i].epoch;
    assert Step(d, e).dpb.slots[i].Flag(r) <==> (i, r) in TokensAfter(t, e);
  }
}

/**
 Holds of the HEVC buffer over whole runs. Its select does not stamp the slot with the stream epoch, so every slot
 keeps epoch 0 for ever, and a hold added with the stream epoch goes through only as long as that is 0.
 */
module H265Holds {
  import opened Bits
  import opened DpbTypes
  import opened H265Dpb

  datatype Event =
    | SelectEv(p: Parsed)
    | CompleteEv
    | FailedEv
    | FlushEv
    | AddEv(slot: nat, reason: HoldReason, epoch: nat)
    | ReleaseEv(slot: nat, reason: HoldReason)
    | TransferEv(slot: nat, from: HoldReason, to: HoldReason, epoch: nat)

  function Step(d: Dpb, e: Event): Outcome<Dpb>
    requires Indexed(d)
  {
    match e
    case SelectEv(p) => Done(AfterSelect(d, p).1)
    case CompleteEv => Done(AfterComplete(d))
    case FailedEv => Done(AfterFailed(d))
    case FlushEv => AfterFlush(d)
    case AddEv(i, r, epoch) => AfterAdd(d, i, r, epoch)
    case ReleaseEv(i, r) => AfterRelease(d, i, r)
    case TransferEv(i, from, to, epoch) => AfterTransfer(d, i, from, to, epoch)
  }

  lemma StepIndexed(d: Dpb, e: Event)
    requires Indexed(d)
    ensures Step(d, e).Done? ==> Indexed(Step(d, e).dpb) && |Step(d, e).dpb.slots| == |d.slots|
  {}

  function Run(d: Dpb, events: seq<Event>): (r: Outcome<Dpb>)
    requires Indexed(d)
    ensures r.Done? ==> Indexed(r.dpb)
  {
    if events == [] then Done(d)
    else
      var before := Run(d, events[..|events| - 1]);
      if before.Trap? then Trap
      else StepIndexed(before.dpb, events[|events| - 1]); Step(before.dpb, events[|events| - 1])
  }

  function Flushes(events: seq<Event>): nat {
    if events == [] then 0
    else Flushes(events[..|events| - 1]) + if events[|events| - 1].FlushEv? then 1 else 0
  }

  predicate ZeroEpochs(d: Dpb) {
    forall i | 0 <= i < |d.slots| :: d.slots[i].epoch == 0
  }

  /** No operation writes a slot's epoch. */
  lemma StepKeepsEpochs(d: Dpb, e: Event)
    requires Indexed(d) && ZeroEpochs(d) && Step(d, e).Done?
    ensures ZeroEpochs(Step(d, e).dpb)
    ensures Step(d, e).dpb.currentEpoch == if e.FlushEv? then Wrap32(d.currentEpoch + 1) else d.currentEpoch
  {}

  /** In every run slots keep epoch 0 while the buffer's own counts the flushes. */
  lemma {:induction false} EpochsStayZero(pool: seq<PoolEntry>, events: seq<Event>)
    requires Run(Init(pool), events).Done?
    ensures ZeroEpochs(Run(Init(pool), events).dpb)
    ensures Run(Init(pool), events).dpb.currentEpoch == Flushes(events) % 0x1_0000_0000
  {
    hide Step;
    if events != [] {
      var init := events[..|events| - 1];
      EpochsStayZero(pool, init);
      StepKeepsEpochs(Run(Init(pool), init).dpb, events[|events| - 1]);
    }
  }

  /**
   After any run and a successful select, the hold a client adds on the selected slot with the stream epoch, as the
   decode engine does, goes through if and only if there was no flush yet, modulo 2^32.
   */
  lemma AddAfterSelectIff(pool: seq<PoolEntry>, events: seq<Event>, p: Parsed, r: HoldReason)
    requires Run(Init(pool), events).Done? && AfterSelect(Run(Init(pool), events).dpb, p).0 == Ok
    ensures var d := AfterSelect(Run(Init(pool), events).dpb, p).1;
            && 0 <= d.currentIdx < |d.slots|
            && (AfterAdd(d, d.currentIdx, r, d.currentEpoch).Done? <==> Flushes(events) % 0x1_0000_0000 == 0)
  {
    EpochsStayZero(pool, events);
  }

  // ---------------------------------------------------------------- a client that keeps its holds straight

  /** The holds a client believes it has. */
  type Tokens = set<(nat, HoldReason)>

  function TokensAfter(t: Tokens, e: Event): Tokens {
    match e
    case AddEv(i, r, _) => t + {(i, r)}
    case ReleaseEv(i, r) => t - {(i, r)}
    case TransferEv(i, from, to, _) => t - {(i, from)} + {(i, to)}
    case _ => t
  }

  /** It takes holds it does not have, gives back or moves ones it has, and flushes with consumer holds only. */
  ghost predicate Follows(d: Dpb, t: Tokens, e: Event) {
    match e
    case AddEv(i, r, _) => i < |d.slots| && (i, r) !in t
    case ReleaseEv(i, r) => (i, r) in t
    case TransferEv(i, from, to, _) => (i, from) in t && (i, to) !in t
    case FlushEv => forall i, r | (i, r) in t :: r == Consumer
    case _ => true
  }

  ghost predicate Agrees(d: Dpb, t: Tokens) {
    && Indexed(d) && ZeroEpochs(d)
    && (forall i, r | (i, r) in t :: i < |d.slots|)
    && (forall i: nat, r | i < |d.slots| :: d.slots[i].Flag(r) <==> (i, r) in t)
  }

  /** The epoch a call passes, if it passes one that is not 0. */
  predicate Stale(e: Event) {
    (e.AddEv? || e.TransferEv?) && e.epoch != 0
  }

  lemma FlagsAgree(d: Dpb, r: Dpb, t: Tokens)
    requires Agrees(d, t) && Indexed(r) && |r.slots| == |d.slots|
    requires forall i | 0 <= i < |d.slots| :: r.slots[i].SameHolds(d.slots[i])
    ensures Agrees(r, t)
  {
    forall i: nat, h | i < |r.slots| ensures r.slots[i].Flag(h) <==> (i, h) in t {
      assert r.slots[i].SameHolds(d.slots[i]);
      assert d.slots[i].Flag(h) <==> (i, h) in t;
    }
  }

  lemma SetAgrees(d: Dpb, t: Tokens, i: nat, r: HoldReason, v: bool)
    requires Agrees(d, t) && i < |d.slots|
    ensures Agrees(SetFlag(d, i, r, v), if v then t + {(i, r)} else t - {(i, r)})
  {
    var s, t' := SetFlag(d, i, r, v), if v then t + {(i, r)} else t - {(i, r)};
    forall j: nat, h | j < |s.slots| ensures s.slots[j].Flag(h) <==> (j, h) in t' {
      assert d.slots[j].Flag(h) <==> (j, h) in t;
    }
  }

  lemma FlushAgrees(d: Dpb, t: Tokens)
    requires Agrees(d, t) && Follows(d, t, FlushEv)
    ensures AfterFlush(d).Done? && Agrees(AfterFlush(d).dpb, t)
  {
    forall i: nat | i < |d.slots| ensures !d.slots[i].reorder && !d.slots[i].ready {
      assert d.slots[i].Flag(Reorder) <==> (i, Reorder) in t;
      assert d.slots[i].Flag(Ready) <==> (i, Ready) in t;
    }
    FlagsAgree(d, AfterFlush(d).dpb, t);
  }

  /** A call traps exactly on a hold that is there already, is not there, or has another epoch than the slot. */
  lemma MisuseTraps(d: Dpb, i: nat, r: HoldReason, to: HoldReason, epoch: nat)
    ensures AfterAdd(d, i, r, epoch).Trap? <==> i < |d.slots| && (d.slots[i].Flag(r) || d.slots[i].epoch != epoch)
    ensures AfterRelease(d, i, r).Trap? <==> i < |d.slots| && !d.slots[i].Flag(r)
    ensures AfterTransfer(d, i, r, to, epoch).Trap?
            <==> i < |d.slots|
                 && (r == to || !d.slots[i].Flag(r) || d.slots[i].Flag(to) || d.slots[i].epoch != epoch)
  {}

  /** What a call changes: the one flag, or the two of a transfer, of the one slot. */
  lemma CallsSetFlags(d: Dpb, i: nat, r: HoldReason, to: HoldReason, epoch: nat)
    ensures var a := AfterAdd(d, i, r, epoch);
            a.Done? && i < |d.slots| ==> OneSlot(d, a.dpb, i) && forall h: HoldReason ::
              a.dpb.slots[i].Flag(h) <==> h == r || d.slots[i].Flag(h)
    ensures var a := AfterRelease(d, i, r);
            a.Done? && i < |d.slots| ==> OneSlot(d, a.dpb, i) && forall h: HoldReason ::
              a.dpb.slots[i].Flag(h) <==> h != r && d.slots[i].Flag(h)
    ensures var a := AfterTransfer(d, i, r, to, epoch);
            a.Done? && i < |d.slots| ==> OneSlot(d, a.dpb, i) && forall h: HoldReason ::
              a.dpb.slots[i].Flag(h) <==> h == to || (h != r && d.slots[i].Flag(h))
  {
    hide SetFlag, OneSlot;
    if i < |d.slots| {
      FlagIsSet(d, i, r, true);
      FlagIsSet(d, i, r, false);
      FlagIsSet(SetFlag(d, i, r, false), i, to, true);
      OneSlotTwice(d, SetFlag(d, i, r, false), SetFlag(SetFlag(d, i, r, false), i, to, true), i);
    }
  }

  lemma FlagIsSet(d: Dpb, i: nat, r: HoldReason, v: bool)
    requires i < |d.slots|
    ensures var s := SetFlag(d, i, r, v);
            OneSlot(d, s, i) && i < |s.slots|
            && forall h: HoldReason :: s.slots[i].Flag(h) <==> if h == r then v else d.slots[i].Flag(h)
  {}

  lemma OneSlotTwice(d: Dpb, e: Dpb, f: Dpb, i: nat)
    requires i < |d.slots| && i < |e.slots| && OneSlot(d, e, i) && OneSlot(e, f, i)
    ensures OneSlot(d, f, i)
  {}

  /** Only the hold flags of slot `i` differ. */
  predicate OneSlot(d: Dpb, r: Dpb, i: nat)
    requires i < |d.slots|
  {
    && |r.slots| == |d.slots| && r == d.(slots := r.slots)
    && (forall j: nat | j < |d.slots| && j != i :: r.slots[j] == d.slots[j])
    && d.slots[i] == r.slots[i].(reorder := d.slots[i].reorder, ready := d.slots[i].ready,
                                 consumer := d.slots[i].consumer)
  }

  /**
   A flush traps exactly if a reorder or ready hold is left; otherwise no slot has a picture afterwards, every slot
   keeps its holds and its epoch, those a consumer holds keep their count too, and the stream's epoch is one more.
   */
  lemma FlushEmpties(d: Dpb)
    ensures AfterFlush(d).Trap? <==> exists i: nat | i < |d.slots| :: d.slots[i].reorder || d.slots[i].ready
    ensures var f := AfterFlush(d);
            f.Done? ==>
              && |f.dpb.slots| == |d.slots| && f.dpb.currentIdx == -1
              && f.dpb.currentEpoch == (d.currentEpoch + 1) % 0x1_0000_0000
              && forall i: nat | i < |d.slots| ::
                   && !f.dpb.slots[i].inUse && !f.dpb.slots[i].isRef && f.dpb.slots[i].SameHolds(d.slots[i])
                   && f.dpb.slots[i].poc == if d.slots[i].consumer then d.slots[i].poc else 0
  {}

  /** A step of such a client traps if and only if it passes an epoch other than 0. */
  lemma StepTrapsIff(d: Dpb, t: Tokens, e: Event)
    requires Agrees(d, t) && Follows(d, t, e)
    ensures Step(d, e).Trap? <==> Stale(e)
    ensures Step(d, e).Done? ==> Agrees(Step(d, e).dpb, TokensAfter(t, e))
  {
    match e
    case SelectEv(p) => FlagsAgree(d, AfterSelect(d, p).1, t);
    case CompleteEv => FlagsAgree(d, AfterComplete(d), t);
    case FailedEv => FlagsAgree(d, AfterFailed(d), t);
    case FlushEv => FlushAgrees(d, t);
    case AddEv(i, r, _) =>
      assert d.slots[i].Flag(r) <==> (i, r) in t;
      SetAgrees(d, t, i, r, true);
    case ReleaseEv(i, r) =>
      assert d.slots[i].Flag(r) <==> (i, r) in t;
      SetAgrees(d, t, i, r, false);
    case TransferEv(i, from, to, _) =>
      assert d.slots[i].Flag(from) <==> (i, from) in t;
      assert d.slots[i].Flag(to) <==> (i, to) in t;
      SetAgrees(d, t, i, from, false);
      SetAgrees(SetFlag(d, i, from, false), t - {(i, from)}, i, to, true);
  }

  function TokensAt(events: seq<Event>): Tokens {
    if events == [] then {} else TokensAfter(TokensAt(events[..|events| - 1]), events[|events| - 1])
  }

  ghost predicate FollowsAll(d: Dpb, events: seq<Event>)
    requires Indexed(d)
  {
    events == [] ||
    (var init, last := events[..|events| - 1], events[|events| - 1];
     FollowsAll(d, init) && (Run(d, init).Done? ==> Follows(Run(d, init).dpb, TokensAt(init), last)))
  }

  /** A run of such a client trips RKMPP_VERIFY if and only if some call of it passes an epoch other than 0. */
  lemma {:induction false} RunTrapsIff(pool: seq<PoolEntry>, events: seq<Event>)
    requires FollowsAll(Init(pool), events)
    ensures Run(Init(pool), events).Trap? <==> exists k | 0 <= k < |events| :: Stale(events[k])
    ensures Run(Init(pool), events).Done? ==> Agrees(Run(Init(pool), events).dpb, TokensAt(events))
  {
    hide Step;
    if events != [] {
      var init, last := events[..|events| - 1], events[|events| - 1];
      RunTrapsIff(pool, init);
      assert forall k | 0 <= k < |events| :: events[k] == if k < |init| then init[k] else last;
      if Run(Init(pool), init).Done? { StepTrapsIff(Run(Init(pool), init).dpb, TokensAt(init), last); }
    }
  }

  /** One flush, then one picture, then its hold with the stream epoch, which is 1: a trap. */
  lemma FlushThenHoldTraps(pool: seq<PoolEntry>, p: Parsed)
    requires |pool| > 0 && p.hasSlice
    ensures var start := [FlushEv, SelectEv(p)];
            && Run(Init(pool), start).Done?
            && var d := Run(Init(pool), start).dpb;
               && 0 <= d.currentIdx < |d.slots| && d.currentEpoch == 1
               && FollowsAll(Init(pool), start + [AddEv(d.currentIdx, Reorder, 1)])
               && Run(Init(pool), start + [AddEv(d.currentIdx, Reorder, 1)]).Trap?
  {
    var start := [FlushEv, SelectEv(p)];
    var first: seq<Event> := [FlushEv];
    assert start[..1] == first && first[..0] == [];
    var none: seq<Event> := [];
    assert Run(Init(pool), none) == Done(Init(pool)) && TokensAt(none) == {} && FollowsAll(Init(pool), none);
    FlushAgrees(Init(pool), {});
    var flushed := Run(Init(pool), first);
    assert flushed == AfterFlush(Init(pool)) && flushed.Done?;
    assert Run(Init(pool), start) == Done(AfterSelect(flushed.dpb, p).1);
    assert !flushed.dpb.slots[0].Held() && !flushed.dpb.slots[0].inUse;
    assert AfterSelect(flushed.dpb, p).0 == Ok;
    var d := AfterSelect(flushed.dpb, p).1;
    var all := start + [AddEv(d.currentIdx, Reorder, 1)];
    assert all[..2] == start;
    assert TokensAt(first) == {} && TokensAt(start) == {};
    assert FollowsAll(Init(pool), first) && FollowsAll(Init(pool), start);
  }
}

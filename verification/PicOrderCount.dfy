/**
 Picture order counts: H.264 types 0, 1 and 2 (mft/parser_glue.cpp; section 8.2.1 of ITU-T H.264) and
 HEVC (mft/parser_glue_h265.cpp; section 8.3.1 of ITU-T H.265).  Recovery from the truncated values
 in the stream is shown to be exact over whole runs.
 */
module PicOrderCount {
  import opened Bits

  // ---------------------------------------------------------------- least significant bits

  /** The most significant part chosen for `lsb`, nearest to the previous picture. */
  function ChooseMsb(lsb: int, prevLsb: int, prevMsb: int, max: nat): int {
    if lsb < prevLsb && prevLsb - lsb >= max / 2 then prevMsb + max
    else if lsb > prevLsb && lsb - prevLsb > max / 2 then prevMsb - max
    else prevMsb
  }

  /** A picture's true count lies in the half-open window around the previous one's. */
  predicate InWindow(poc: int, prev: int, max: nat) {
    prev - max / 2 < poc <= prev + max / 2
  }

  /** The choice undoes truncation if and only if the true count lies in the window. */
  lemma ChooseMsbRecoversIff(poc: int, prev: int, max: nat)
    requires max > 0 && max % 2 == 0
    ensures ChooseMsb(poc % max, prev % max, prev - prev % max, max) + poc % max == poc <==> InWindow(poc, prev, max)
  {
    hide ChooseMsb, InWindow;
    BaseGap(poc, prev, max);
    ChooseMsbByGap(poc - poc % max, poc % max, prev - prev % max, prev % max, max);
  }

  /** The numbers cut off two numbers differ by a multiple of `max`. */
  lemma BaseGap(x: int, y: int, max: nat)
    requires max > 0
    ensures Multiple((x - x % max) - (y - y % max), max)
  {
    var a, b := x / max, y / max;
    assert x - x % max == a * max && y - y % max == b * max;
    assert a * max - b * max == (a - b) * max;
    Multiples(a - b, max);
  }

  /** What a multiple of `max` can be near zero. */
  predicate Multiple(gap: int, max: nat) {
    gap <= -2 * max || gap == 0 - max || gap == 0 || gap == max || gap >= 2 * max
  }

  lemma Multiples(k: int, max: nat)
    ensures Multiple(k * max, max)
  {
    MulSign(k - 1, max);
    MulSign(k + 1, max);
    assert (k - 1) * max == k * max - max && (k + 1) * max == k * max + max;
  }

  lemma ChooseMsbByGap(msb: int, lsb: int, prevMsb: int, prevLsb: int, max: nat)
    requires max > 0 && max % 2 == 0 && 0 <= lsb < max && 0 <= prevLsb < max
    requires Multiple(msb - prevMsb, max)
    ensures ChooseMsb(lsb, prevLsb, prevMsb, max) == msb <==> InWindow(msb + lsb, prevMsb + prevLsb, max)
  {}

  /** One coded picture of H.264: whether it restarts the count, and its nal_ref_idc. */
  datatype Picture264 = Picture264(idr: bool, refIdc: nat, poc: int)

  /**
   Later pictures count from the last reference picture, that is one of any nal_ref_idc but zero. H.264 restarts at zero
   before an IDR picture; its own count may be anything near zero.
   */
  function Anchor264(pictures: seq<Picture264>): int {
    if pictures == [] then 0
    else
      var last := pictures[|pictures| - 1];
      if last.refIdc > 0 then last.poc else Anchor264(pictures[..|pictures| - 1])
  }

  /** Every picture lies in the window of the last anchor, or of zero when it is an IDR picture. */
  predicate Conforms264(pictures: seq<Picture264>, max: nat) {
    forall k | 0 <= k < |pictures| ::
      InWindow(pictures[k].poc, if pictures[k].idr then 0 else Anchor264(pictures[..k]), max)
  }

  datatype PocState = PocState(prevMsb: int, prevLsb: int)

  /** `h264_compute_poc_type0`: the top field count and the new state. */
  function Type0(s: PocState, idr: bool, refIdc: nat, lsb: int, max: nat): (int, PocState) {
    var msb := ChooseMsb(lsb, if idr then 0 else s.prevLsb, if idr then 0 else s.prevMsb, max);
    (msb + lsb, if refIdc != 0 then PocState(msb, lsb) else s)
  }

  function Run264(pictures: seq<Picture264>, max: nat): (r: (seq<int>, PocState))
    requires max > 0
    ensures |r.0| == |pictures|
  {
    if pictures == [] then ([], PocState(0, 0))
    else
      var before := Run264(pictures[..|pictures| - 1], max);
      var p := pictures[|pictures| - 1];
      var (poc, s) := Type0(before.1, p.idr, p.refIdc, p.poc % max, max);
      (before.0 + [poc], s)
  }

  function Split(poc: int, max: nat): PocState
    requires max > 0
  {
    PocState(poc - poc % max, poc % max)
  }

  lemma Type0Step(s: PocState, p: Picture264, prev: int, max: nat)
    requires max > 0 && max % 2 == 0 && s == Split(prev, max)
    requires InWindow(p.poc, if p.idr then 0 else prev, max)
    ensures Type0(s, p.idr, p.refIdc, p.poc % max, max)
         == (p.poc, if p.refIdc > 0 then Split(p.poc, max) else s)
  {
    DivUnique(0, max, 0, 0);
    ChooseMsbRecoversIff(p.poc, if p.idr then 0 else prev, max);
  }

  /** Type 0 returns every picture's true count over a whole run. */
  lemma {:induction false} Type0RecoversRun(pictures: seq<Picture264>, max: nat)
    requires max > 0 && max % 2 == 0 && Conforms264(pictures, max)
    ensures forall k | 0 <= k < |pictures| :: Run264(pictures, max).0[k] == pictures[k].poc
    ensures Run264(pictures, max).1 == Split(Anchor264(pictures), max)
  {
    if pictures != [] {
      var init, p := pictures[..|pictures| - 1], pictures[|pictures| - 1];
      assert forall k | 0 <= k < |init| :: init[..k] == pictures[..k];
      Type0RecoversRun(init, max);
      hide Type0, InWindow;
      Type0Step(Run264(init, max).1, p, Anchor264(init), max);
    } else {
      DivUnique(0, max, 0, 0);
    }
  }

  /** Parsing a further slice of the same picture changes neither its count nor the state. */
  lemma Type0SliceStable(s: PocState, idr: bool, refIdc: nat, lsb: int, max: nat)
    requires 0 <= lsb < max
    ensures var (poc, s') := Type0(s, idr, refIdc, lsb, max);
            Type0(s', idr, refIdc, lsb, max) == (poc, s')
  {}

  // ---------------------------------------------------------------- HEVC

  /** The C remainder: it has the sign of the dividend. */
  function CRem(a: int, b: nat): int
    requires b > 0
  {
    if a >= 0 then a % b else -((-a) % b)
  }

  /** The NAL unit of a slice: its type, by Table 7-1 of ITU-T H.265, and its TemporalId. */
  datatype SliceNal = SliceNal(kind: nat, temporalId: int)
  {
    predicate Ok() { kind <= 9 || 16 <= kind <= 21 }

    predicate Idr() { kind == 19 || kind == 20 }

    /** `nal_ref_flag`: not TRAIL_N, TSA_N, STSA_N, RADL_N or RASL_N. */
    predicate Reference() { !(kind == 0 || kind == 2 || kind == 4 || kind == 6 || kind == 8) }

    /** Later pictures count from its picture: TemporalId zero, not RADL, RASL, TRAIL_N, TSA_N or STSA_N. */
    predicate Anchor() {
      && temporalId == 0
      && !(kind == 6 || kind == 7 || kind == 8 || kind == 9 || kind == 0 || kind == 2 || kind == 4)
    }
  }

  /**
   The lists say what the standard does: even types up to 14 are no references, and counts start from references that
   are not RADL or RASL pictures, IDR_W_RADL and IDR_N_LP pictures among them.
   */
  lemma AnchorIff(n: SliceNal)
    requires n.Ok()
    ensures n.Reference() <==> n.kind > 14 || n.kind % 2 == 1
    ensures n.Anchor() <==> n.temporalId == 0 && n.Reference() && n.kind !in {6, 7, 8, 9}
    ensures n.Idr() <==> n.kind in {19, 20}
  {}

  /** One slice of HEVC: whether it restarts the count, and whether later ones count from its picture. */
  datatype Picture = Picture(idr: bool, anchor: bool, poc: int)

  /** The state HEVC keeps after a picture of count `poc`. */
  function HevcUpdate(poc: int, max: nat): PocState
    requires max > 0
  {
    var rem := CRem(poc, max);
    var lsb := if rem < 0 then rem + max else rem;
    PocState(poc - lsb, lsb)
  }

  lemma HevcUpdateIsSplit(poc: int, max: nat)
    requires max > 0
    ensures HevcUpdate(poc, max) == Split(poc, max)
  {
    if poc < 0 { NegativeRemainder(-poc, max); }
  }

  lemma NegativeRemainder(n: nat, max: nat)
    requires max > 0
    ensures (-(n as int)) % max == if n % max == 0 then 0 else max - n % max
  {
    var q, r := n / max, n % max;
    Negated(q, max);
    if r == 0 { DivUnique(0 - n, max, 0 - q, 0); } else { DivUnique(0 - n, max, 0 - q - 1, max - r); }
  }

  lemma Negated(q: nat, max: nat)
    ensures (0 - q) * max == 0 - q * max && (0 - q - 1) * max == 0 - q * max - max
  {}

  /** The count of one slice and the new state; IDR pictures count zero. */
  function Hevc(s: PocState, idr: bool, anchor: bool, lsb: int, max: nat): (int, PocState)
    requires max > 0
  {
    var poc := if idr then 0 else ChooseMsb(lsb, s.prevLsb, s.prevMsb, max) + lsb;
    (poc, if anchor then HevcUpdate(poc, max) else if idr then PocState(0, 0) else s)
  }

  function AnchorHevc(pictures: seq<Picture>): int {
    if pictures == [] then 0
    else
      var last := pictures[|pictures| - 1];
      if last.idr then 0 else if last.anchor then last.poc else AnchorHevc(pictures[..|pictures| - 1])
  }

  predicate ConformsHevc(pictures: seq<Picture>, max: nat) {
    forall k | 0 <= k < |pictures| ::
      if pictures[k].idr then pictures[k].poc == 0 else InWindow(pictures[k].poc, AnchorHevc(pictures[..k]), max)
  }

  function RunHevc(pictures: seq<Picture>, max: nat): (r: (seq<int>, PocState))
    requires max > 0
    ensures |r.0| == |pictures|
  {
    if pictures == [] then ([], PocState(0, 0))
    else
      var before := RunHevc(pictures[..|pictures| - 1], max);
      var p := pictures[|pictures| - 1];
      var (poc, s) := Hevc(before.1, p.idr, p.anchor, p.poc % max, max);
      (before.0 + [poc], s)
  }

  lemma HevcStep(s: PocState, p: Picture, prev: int, max: nat)
    requires max > 0 && max % 2 == 0 && s == Split(prev, max)
    requires if p.idr then p.poc == 0 else InWindow(p.poc, prev, max)
    ensures Hevc(s, p.idr, p.anchor, p.poc % max, max)
         == (p.poc, if p.idr || p.anchor then Split(p.poc, max) else s)
  {
    DivUnique(0, max, 0, 0);
    HevcUpdateIsSplit(p.poc, max);
    if !p.idr { ChooseMsbRecoversIff(p.poc, prev, max); }
  }

  /** HEVC returns every picture's true count over a whole run. */
  lemma {:induction false} HevcRecoversRun(pictures: seq<Picture>, max: nat)
    requires max > 0 && max % 2 == 0 && ConformsHevc(pictures, max)
    ensures forall k | 0 <= k < |pictures| :: RunHevc(pictures, max).0[k] == pictures[k].poc
    ensures RunHevc(pictures, max).1 == Split(AnchorHevc(pictures), max)
  {
    if pictures != [] {
      var init, p := pictures[..|pictures| - 1], pictures[|pictures| - 1];
      assert forall k | 0 <= k < |init| :: init[..k] == pictures[..k];
      HevcRecoversRun(init, max);
      hide Hevc, InWindow;
      HevcStep(RunHevc(init, max).1, p, AnchorHevc(init), max);
    } else {
      DivUnique(0, max, 0, 0);
    }
  }

  /** Parsing a further slice of the same picture changes neither its count nor the state. */
  lemma HevcSliceStable(s: PocState, idr: bool, anchor: bool, lsb: int, max: nat)
    requires max > 0 && max % 2 == 0 && 0 <= lsb < max && exists prev :: s == Split(prev, max)
    ensures var (poc, s') := Hevc(s, idr, anchor, lsb, max);
            Hevc(s', idr, anchor, lsb, max) == (poc, s')
  {
    hide Split, HevcUpdate;
    var prev :| s == Split(prev, max);
    var (poc, s') := Hevc(s, idr, anchor, lsb, max);
    HevcUpdateIsSplit(poc, max);
    if !idr { ChosenIsSplit(s, prev, lsb, max); }
  }

  /** The chosen most significant part is a multiple of `max`, so that the new state gives `lsb` back. */
  lemma ChosenIsSplit(s: PocState, prev: int, lsb: int, max: nat)
    requires max > 0 && 0 <= lsb < max && s == Split(prev, max)
    ensures var msb := ChooseMsb(lsb, s.prevLsb, s.prevMsb, max); Split(msb + lsb, max) == PocState(msb, lsb)
  {
    var msb, q := ChooseMsb(lsb, s.prevLsb, s.prevMsb, max), prev / max;
    assert s.prevMsb == q * max;
    if msb > s.prevMsb {
      SplitIs(q + 1, max, msb, lsb);
    } else if msb < s.prevMsb {
      SplitIs(q - 1, max, msb, lsb);
    } else {
      SplitIs(q, max, msb, lsb);
    }
  }

  lemma SplitIs(k: int, max: nat, msb: int, lsb: int)
    requires max > 0 && 0 <= lsb < max && msb == k * max
    ensures Split(msb + lsb, max) == PocState(msb, lsb)
  {
    DivUnique(msb + lsb, max, k, lsb);
  }

  // ---------------------------------------------------------------- frame numbers and type 1

  /** FrameNumOffset: advances by MaxFrameNum when the frame number went down. */
  function FrameNumOffset(prevFrameNum: nat, prevOffset: int, frameNum: nat, maxFrameNum: nat): int {
    if prevFrameNum > frameNum then prevOffset + maxFrameNum else prevOffset
  }

  /** The step recovers the unbounded frame number if and only if it advanced by less than MaxFrameNum. */
  lemma FrameNumOffsetRecoversIff(frame: int, prev: int, max: nat)
    requires max > 0 && prev <= frame
    ensures FrameNumOffset(prev % max, prev - prev % max, frame % max, max) + frame % max == frame
            <==> frame < prev + max
  {
    hide FrameNumOffset;
    BaseGap(frame, prev, max);
    OffsetByGap(frame - frame % max, frame % max, prev - prev % max, prev % max, max);
  }

  lemma OffsetByGap(offset: int, num: nat, prevOffset: int, prevNum: nat, max: nat)
    requires max > 0 && num < max && prevNum < max
    requires Multiple(offset - prevOffset, max) && prevOffset + prevNum <= offset + num
    ensures FrameNumOffset(prevNum, prevOffset, num, max) == offset <==> offset + num < prevOffset + prevNum + max
  {}

  function Sum(s: seq<int>, n: nat): int
    requires n <= |s|
  {
    if n == 0 then 0 else Sum(s, n - 1) + s[n - 1]
  }

  /** ExpectedPicOrderCnt of section 8.2.1.2, by cycles. */
  function Expected(offsets: seq<int>, absFrameNum: nat): int
    requires offsets != []
  {
    if absFrameNum == 0 then 0
    else
      var n := |offsets|;
      (absFrameNum - 1) / n * Sum(offsets, n) + Sum(offsets, (absFrameNum - 1) % n + 1)
  }

  /** The plain sum of the first `n` terms of the offsets repeated for ever; no offsets add up to zero. */
  function PeriodicSum(offsets: seq<int>, n: nat): int {
    if n == 0 || offsets == [] then 0 else PeriodicSum(offsets, n - 1) + offsets[(n - 1) % |offsets|]
  }

  /** After `q` whole cycles and `r + 1` more terms. */
  lemma {:induction false} PeriodicSumByCycles(offsets: seq<int>, q: nat, r: nat)
    requires r < |offsets|
    ensures PeriodicSum(offsets, q * |offsets| + r + 1) == q * Sum(offsets, |offsets|) + Sum(offsets, r + 1)
    decreases q, r
  {
    hide Sum;
    var len, cycle := |offsets|, Sum(offsets, |offsets|);
    DivUnique(q * len + r, len, q, r);
    SumStep(offsets, r);
    if r > 0 {
      PeriodicSumByCycles(offsets, q, r - 1);
    } else if q > 0 {
      PeriodicSumByCycles(offsets, q - 1, len - 1);
      assert (q - 1) * len + (len - 1) + 1 == q * len;
      assert (q - 1) * cycle + cycle == q * cycle;
    }
  }

  lemma SumStep(offsets: seq<int>, r: nat)
    requires r < |offsets|
    ensures Sum(offsets, r + 1) == Sum(offsets, r) + offsets[r] && Sum(offsets, 0) == 0
  {}

  /** The cycle formula is the plain sum. */
  lemma ExpectedIsPeriodicSum(offsets: seq<int>, n: nat)
    requires offsets != []
    ensures Expected(offsets, n) == PeriodicSum(offsets, n)
  {
    if n > 0 {
      var q, r := (n - 1) / |offsets|, (n - 1) % |offsets|;
      assert n == q * |offsets| + r + 1;
      PeriodicSumByCycles(offsets, q, r);
    }
  }

  datatype FrameState = FrameState(prevFrameNum: nat, prevOffset: int)

  datatype Sps1 = Sps1(offsets: seq<int>, nonRef: int, topToBottom: int)

  /** `h264_compute_poc_type1`: top and bottom counts and the new state. */
  function Type1(s: FrameState, sps: Sps1, idr: bool, refIdc: nat, frameNum: nat, delta0: int, delta1: int, max: nat)
    : (int, int, FrameState)
  {
    var offset := if idr then 0 else FrameNumOffset(s.prevFrameNum, s.prevOffset, frameNum, max);
    var absNum := if sps.offsets != [] then offset + frameNum else 0;
    var absNum := if refIdc == 0 && absNum > 0 then absNum - 1 else absNum;
    var expected := if absNum > 0 && sps.offsets != [] then Expected(sps.offsets, absNum) else 0;
    var expected := if refIdc == 0 then expected + sps.nonRef else expected;
    (expected + delta0, expected + delta0 + sps.topToBottom + delta1, FrameState(frameNum, offset))
  }

  /** `h264_compute_poc_type2`. */
  function Type2(s: FrameState, idr: bool, refIdc: nat, frameNum: nat, max: nat): (int, FrameState) {
    var offset := if idr then 0 else FrameNumOffset(s.prevFrameNum, s.prevOffset, frameNum, max);
    var poc := if idr then 0 else 2 * (offset + frameNum) - (if refIdc == 0 then 1 else 0);
    (poc, FrameState(frameNum, offset))
  }

  /** One picture of a stream of type 1 or 2: its true frame number since the last IDR picture. */
  datatype Frame = Frame(idr: bool, refIdc: nat, frame: nat)

  /** IDR pictures restart at zero; others advance by less than MaxFrameNum. */
  predicate FramesConform(frames: seq<Frame>, max: nat) {
    && (forall k | 0 <= k < |frames| :: frames[k].idr ==> frames[k].frame == 0)
    && (forall k | 0 < k < |frames| :: !frames[k].idr ==>
          frames[k - 1].frame <= frames[k].frame < frames[k - 1].frame + max)
    && (frames != [] ==> frames[0].idr)
  }

  function FrameStateAfter(frames: seq<Frame>, max: nat): FrameState
    requires max > 0
  {
    if frames == [] then FrameState(0, 0)
    else
      var f := frames[|frames| - 1];
      Type2(FrameStateAfter(frames[..|frames| - 1], max), f.idr, f.refIdc, f.frame % max, max).1
  }

  /** Over a whole run the state is the true frame number taken apart. */
  lemma {:induction false} FrameStateIsTrue(frames: seq<Frame>, max: nat)
    requires max > 0 && FramesConform(frames, max) && frames != []
    ensures var f := frames[|frames| - 1].frame;
            FrameStateAfter(frames, max) == FrameState(f % max, f - f % max)
  {
    var init, f := frames[..|frames| - 1], frames[|frames| - 1];
    if f.idr {
      DivUnique(0, max, 0, 0);
    } else {
      FrameStateIsTrue(init, max);
      FrameNumOffsetRecoversIff(f.frame, init[|init| - 1].frame, max);
    }
  }

  /**
   Types 1 and 2 over a whole run: the count is that of the true frame number, for type 1 the sum of
   the periodic offsets up to it.
   */
  lemma CountsFollowTrueFrameNumber(frames: seq<Frame>, f: Frame, sps: Sps1, delta0: int, delta1: int, max: nat)
    requires max > 0 && FramesConform(frames + [f], max)
    ensures var s := FrameStateAfter(frames, max);
            var reach: nat := if f.refIdc == 0 && f.frame > 0 then f.frame - 1 else f.frame;
            var (top, bottom, s1) := Type1(s, sps, f.idr, f.refIdc, f.frame % max, delta0, delta1, max);
            && top == PeriodicSum(sps.offsets, reach) + (if f.refIdc == 0 then sps.nonRef else 0) + delta0
            && bottom == top + sps.topToBottom + delta1
            && Type2(s, f.idr, f.refIdc, f.frame % max, max)
            == (if f.idr then 0 else 2 * f.frame - (if f.refIdc == 0 then 1 else 0), s1)
  {
    hide Expected, PeriodicSum, FrameStateAfter, FramesConform;
    OffsetIsTrue(frames, f, max);
    var reach: nat := if f.refIdc == 0 && f.frame > 0 then f.frame - 1 else f.frame;
    PeriodicSumOfNone(sps.offsets, reach);
    if sps.offsets != [] { ExpectedIsPeriodicSum(sps.offsets, reach); }
  }

  /** The step's offset is the true frame number's. */
  lemma OffsetIsTrue(frames: seq<Frame>, f: Frame, max: nat)
    requires max > 0 && FramesConform(frames + [f], max)
    ensures f.idr ==> f.frame == 0 && f.frame % max == 0
    ensures var s := FrameStateAfter(frames, max);
            !f.idr ==> FrameNumOffset(s.prevFrameNum, s.prevOffset, f.frame % max, max) == f.frame - f.frame % max
  {
    hide FrameNumOffset, FramesConform, FrameStateAfter;
    ConformingStep(frames, f, max);
    if f.idr {
      DivUnique(0, max, 0, 0);
    } else {
      FrameStateIsTrue(frames, max);
      FrameNumOffsetRecoversIff(f.frame, frames[|frames| - 1].frame, max);
    }
  }

  lemma ConformingStep(frames: seq<Frame>, f: Frame, max: nat)
    requires FramesConform(frames + [f], max)
    ensures FramesConform(frames, max)
    ensures f.idr ==> f.frame == 0
    ensures !f.idr ==> frames != [] && frames[|frames| - 1].frame <= f.frame < frames[|frames| - 1].frame + max
  {
    var all := frames + [f];
    assert forall k | 0 <= k < |frames| :: frames[k] == all[k];
    assert all[|frames|] == f;
  }

  lemma PeriodicSumOfNone(offsets: seq<int>, n: nat)
    ensures PeriodicSum([], n) == 0 && PeriodicSum(offsets, 0) == 0
  {}

  // ---------------------------------------------------------------- the persistent state, updated in place

  class PocContext {
    var prevMsb: int
    var prevLsb: int
    var prevFrameNum: nat
    var prevOffset: int

    method ComputeType0(idr: bool, refIdc: nat, lsb: int, deltaBottom: int, max: nat) returns (top: int, bottom: int)
      modifies `prevMsb, `prevLsb
      ensures (top, PocState(prevMsb, prevLsb)) == Type0(old(PocState(prevMsb, prevLsb)), idr, refIdc, lsb, max)
      ensures bottom == top + deltaBottom
    {
      var msb, last := prevMsb, prevLsb;
      if idr { msb, last := 0, 0; }
      if lsb < last && last - lsb >= max / 2 {
        msb := msb + max;
      } else if lsb > last && lsb - last > max / 2 {
        msb := msb - max;
      }
      top := msb + lsb;
      bottom := top + deltaBottom;
      if refIdc != 0 { prevMsb, prevLsb := msb, lsb; }
    }

    method ComputeType1(sps: Sps1, idr: bool, refIdc: nat, frameNum: nat, delta0: int, delta1: int, max: nat)
      returns (top: int, bottom: int)
      modifies `prevFrameNum, `prevOffset
      ensures (top, bottom, FrameState(prevFrameNum, prevOffset))
           == Type1(old(FrameState(prevFrameNum, prevOffset)), sps, idr, refIdc, frameNum, delta0, delta1, max)
    {
      hide Expected;
      var offset := if idr then 0 else if prevFrameNum > frameNum then prevOffset + max else prevOffset;
      var absNum := if |sps.offsets| != 0 then offset + frameNum else 0;
      if refIdc == 0 && absNum > 0 { absNum := absNum - 1; }
      var expected := 0;
      if absNum > 0 { expected := ExpectedCount(sps.offsets, absNum); }
      if refIdc == 0 { expected := expected + sps.nonRef; }
      top := expected + delta0;
      bottom := top + sps.topToBottom + delta1;
      prevFrameNum, prevOffset := frameNum, offset;
    }

    method ComputeType2(idr: bool, refIdc: nat, frameNum: nat, max: nat) returns (poc: int)
      modifies `prevFrameNum, `prevOffset
      ensures (poc, FrameState(prevFrameNum, prevOffset))
           == Type2(old(FrameState(prevFrameNum, prevOffset)), idr, refIdc, frameNum, max)
    {
      var offset := if idr then 0 else if prevFrameNum > frameNum then prevOffset + max else prevOffset;
      poc := if idr then 0 else if refIdc == 0 then 2 * (offset + frameNum) - 1 else 2 * (offset + frameNum);
      prevFrameNum, prevOffset := frameNum, offset;
    }

    /** One slice of an HEVC picture. */
    method ComputeHevc(n: SliceNal, lsb: int, max: nat) returns (poc: int)
      requires max > 0
      modifies `prevMsb, `prevLsb
      ensures (poc, PocState(prevMsb, prevLsb))
           == Hevc(old(PocState(prevMsb, prevLsb)), n.Idr(), n.Anchor(), lsb, max)
    {
      if n.Idr() {
        poc := 0;
        prevMsb, prevLsb := 0, 0;
      } else {
        poc := ChooseMsb(lsb, prevLsb, prevMsb, max) + lsb;
      }
      if n.Anchor() {
        prevLsb := CRem(poc, max);
        if prevLsb < 0 { prevLsb := prevLsb + max; }
        prevMsb := poc - prevLsb;
      }
    }
  }

  method ExpectedCount(offsets: seq<int>, absNum: nat) returns (expected: int)
    requires offsets != [] && absNum > 0
    ensures expected == Expected(offsets, absNum)
  {
    var cycle := SumLoop(offsets, |offsets|);
    var rest := SumLoop(offsets, (absNum - 1) % |offsets| + 1);
    expected := (absNum - 1) / |offsets| * cycle + rest;
  }

  method SumLoop(s: seq<int>, n: nat) returns (total: int)
    requires n <= |s|
    ensures total == Sum(s, n)
  {
    total := 0;
    for i := 0 to n
      invariant total == Sum(s, i)
    {
      total := total + s[i];
    }
  }
}

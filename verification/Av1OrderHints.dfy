/**
 AV1 order hints: the parser's and the register builder's copies of the circular distance and of the skip-mode
 search (mft/av1_parser.cpp, mft/regbuilder_av1.cpp; sections 5.9.3, 5.9.22 and 7.20 of the AV1 specification), over
 reference slots that each keeps for itself.
 */
module Av1OrderHints {
  import opened Bits

  // ---------------------------------------------------------------- distance

  /** `(x & m) != 0` for `m` a power of two, on two's complement. */
  predicate HasBit(x: int, m: nat)
    requires m > 0
  {
    x / m % 2 == 1
  }

  /** The parser's `get_relative_dist`: reduce, then subtract. */
  function RelativeDist(bits: nat, a: int, b: int): int {
    if bits == 0 then 0
    else
      var m := Pow2(bits - 1);
      var diff := (a - b) % Pow2(bits);
      diff - if HasBit(diff, m) then 2 * m else 0
  }

  /** The register builder's `order_hint_dist`: the half-range bit is that of the plain difference. */
  function OrderHintDist(bits: nat, a: int, b: int): int {
    if bits == 0 then 0
    else
      var m := Pow2(bits - 1);
      (a - b) % Pow2(bits) - (if HasBit(a - b, m) then m else 0) * 2
  }

  lemma DistancesAgree(bits: nat, a: int, b: int)
    ensures RelativeDist(bits, a, b) == OrderHintDist(bits, a, b)
  {
    if bits > 0 { BitOfRemainder(a - b, Pow2(bits - 1)); }
  }

  lemma BitOfRemainder(x: int, m: nat)
    requires m > 0
    ensures HasBit(x % (2 * m), m) == HasBit(x, m)
  {
    hide HasBit;
    DivParts(x, 2 * m);
    BitOfSum(x / (2 * m), x % (2 * m), m);
  }

  lemma DivParts(x: int, n: nat)
    requires n > 0
    ensures x == x / n * n + x % n
  {}

  lemma BitOfSum(q: int, r: nat, m: nat)
    requires m > 0 && r < 2 * m
    ensures HasBit(r, m) == HasBit(q * (2 * m) + r, m)
  {
    HalfBit(r, m);
    TwoHalves(q, m);
    var x := q * (2 * m) + r;
    if r >= m { DivUnique(x, m, 2 * q + 1, r - m); } else { DivUnique(x, m, 2 * q, r); }
  }

  lemma TwoHalves(q: int, m: nat)
    ensures q * (2 * m) == (2 * q) * m && (2 * q + 1) * m == (2 * q) * m + m
  {}

  /** The distance is the one representative of the difference in the half-open window around zero. */
  lemma DistIsRepresentative(bits: nat, a: int, b: int, d: int)
    requires bits > 0 && -Half(bits) <= d < Half(bits)
    ensures -Half(bits) <= RelativeDist(bits, a, b) < Half(bits)
    ensures RelativeDist(bits, a, b) == d <==> (a - b - d) % Pow2(bits) == 0
  {
    hide Pow2;
    PowTwice(bits);
    Centred(a - b, Half(bits), d);
  }

  lemma PowTwice(bits: nat)
    requires bits > 0
    ensures Pow2(bits) == 2 * Pow2(bits - 1)
  {}

  lemma Centred(x: int, m: nat, d: int)
    requires m > 0 && 0 - m <= d < m
    ensures var r := x % (2 * m);
            var c := r - if HasBit(r, m) then 2 * m else 0;
            0 - m <= c < m && (c == d <==> (x - d) % (2 * m) == 0)
  {
    var n := 2 * m;
    var q, r := x / n, x % n;
    HalfBit(r, m);
    var c := r - if HasBit(r, m) then n else 0;
    var k := if HasBit(r, m) then q + 1 else q;
    assert x == q * n + r;
    assert (q + 1) * n == q * n + n;
    assert x - c == k * n;
    DivUnique(x - c, n, k, 0);
    if (x - d) % n == 0 {
      DifferenceOfMultiples(x - c, x - d, n);
      SmallMultiple(d - c, n);
    }
  }

  lemma SmallMultiple(t: int, n: nat)
    requires n > 0 && 0 - n < t < n && t % n == 0
    ensures t == 0
  {
    assert t == t / n * n;
    MulSign(t / n, n);
  }

  function Half(bits: nat): int
    requires bits > 0
  {
    Pow2(bits - 1)
  }

  lemma HalfBit(x: nat, m: nat)
    requires m > 0 && x < 2 * m
    ensures HasBit(x, m) <==> x >= m
  {
    if x >= m { DivUnique(x, m, 1, x - m); } else { DivUnique(x, m, 0, x); }
  }

  /** On one side of a hint the circular comparison is the plain order of the distances to it. */
  lemma OrderedOnOneSide(bits: nat, a: int, b: int, c: int)
    requires var x, y := RelativeDist(bits, a, c), RelativeDist(bits, b, c); (x < 0 && y < 0) || (x > 0 && y > 0)
    ensures RelativeDist(bits, a, b) == RelativeDist(bits, a, c) - RelativeDist(bits, b, c)
  {
    if bits > 0 {
      var x, y := RelativeDist(bits, a, c), RelativeDist(bits, b, c);
      DistIsRepresentative(bits, a, c, 0);
      DistIsRepresentative(bits, b, c, 0);
      DistIsRepresentative(bits, a, c, x);
      DistIsRepresentative(bits, b, c, y);
      DifferenceOfMultiples(a - c - x, b - c - y, Pow2(bits));
      DistIsRepresentative(bits, a, b, x - y);
    }
  }

  lemma DifferenceOfMultiples(x: int, y: int, m: nat)
    requires m > 0 && x % m == 0 && y % m == 0
    ensures (x - y) % m == 0
  {
    var p, q := x / m, y / m;
    assert x == p * m && y == q * m;
    assert (p - q) * m == p * m - q * m;
    DivUnique(x - y, m, x / m - y / m, 0);
  }

  // ---------------------------------------------------------------- the skip-mode search

  const REFS: nat := 7
  const SLOTS: nat := 8

  /** The order hint a reference name stands for, if its slot holds a frame. */
  datatype Hint = Absent | Hint(h: int)

  datatype Best = NoBest | Best(idx: nat, hint: int)

  predicate Past(bits: nat, x: Hint, cur: int) { x.Hint? && RelativeDist(bits, x.h, cur) < 0 }

  predicate Future(bits: nat, x: Hint, cur: int) { x.Hint? && RelativeDist(bits, x.h, cur) > 0 }

  /** Of the first `n` references before `cur`, the one the scan keeps: each further one only if it is later. */
  function LastPast(hints: seq<Hint>, bits: nat, cur: int, n: nat): Best
    requires n <= |hints|
  {
    if n == 0 then NoBest
    else
      var best, x := LastPast(hints, bits, cur, n - 1), hints[n - 1];
      if Past(bits, x, cur) && (best.NoBest? || RelativeDist(bits, x.h, best.hint) > 0) then Best(n - 1, x.h) else best
  }

  function FirstFuture(hints: seq<Hint>, bits: nat, cur: int, n: nat): Best
    requires n <= |hints|
  {
    if n == 0 then NoBest
    else
      var best, x := FirstFuture(hints, bits, cur, n - 1), hints[n - 1];
      if Future(bits, x, cur) && (best.NoBest? || RelativeDist(bits, x.h, best.hint) < 0) then Best(n - 1, x.h)
      else best
  }

  /** The scan finds the nearest past reference, the first of equals, and nothing only if there is none. */
  lemma {:induction false} LastPastIsNearest(hints: seq<Hint>, bits: nat, cur: int, n: nat)
    requires n <= |hints|
    ensures var b := LastPast(hints, bits, cur, n);
            && (b.NoBest? <==> forall j | 0 <= j < n :: !Past(bits, hints[j], cur))
            && (b.Best? ==>
                  && b.idx < n && hints[b.idx] == Hint(b.hint) && Past(bits, hints[b.idx], cur)
                  && forall j | 0 <= j < n && Past(bits, hints[j], cur) ::
                       || RelativeDist(bits, hints[j].h, cur) < RelativeDist(bits, b.hint, cur)
                       || (RelativeDist(bits, hints[j].h, cur) == RelativeDist(bits, b.hint, cur) && b.idx <= j))
  {
    hide RelativeDist;
    if n > 0 {
      LastPastIsNearest(hints, bits, cur, n - 1);
      var best, x := LastPast(hints, bits, cur, n - 1), hints[n - 1];
      if Past(bits, x, cur) && best.Best? { OrderedOnOneSide(bits, x.h, best.hint, cur); }
    }
  }

  lemma {:induction false} FirstFutureIsNearest(hints: seq<Hint>, bits: nat, cur: int, n: nat)
    requires n <= |hints|
    ensures var b := FirstFuture(hints, bits, cur, n);
            && (b.NoBest? <==> forall j | 0 <= j < n :: !Future(bits, hints[j], cur))
            && (b.Best? ==>
                  && b.idx < n && hints[b.idx] == Hint(b.hint) && Future(bits, hints[b.idx], cur)
                  && forall j | 0 <= j < n && Future(bits, hints[j], cur) ::
                       || RelativeDist(bits, hints[j].h, cur) > RelativeDist(bits, b.hint, cur)
                       || (RelativeDist(bits, hints[j].h, cur) == RelativeDist(bits, b.hint, cur) && b.idx <= j))
  {
    hide RelativeDist;
    if n > 0 {
      FirstFutureIsNearest(hints, bits, cur, n - 1);
      var best, x := FirstFuture(hints, bits, cur, n - 1), hints[n - 1];
      if Future(bits, x, cur) && best.Best? { OrderedOnOneSide(bits, x.h, best.hint, cur); }
    }
  }

  datatype Pair = NoPair | Pair(lo: nat, hi: nat)

  function Ordered(a: nat, b: nat): Pair { if a < b then Pair(a, b) else Pair(b, a) }

  /** Nearest past with nearest future, or else nearest past with the nearest before it. */
  function SkipPair(hints: seq<Hint>, bits: nat, cur: int): Pair {
    var past, future := LastPast(hints, bits, cur, |hints|), FirstFuture(hints, bits, cur, |hints|);
    if past.NoBest? then NoPair
    else if future.Best? then Ordered(past.idx, future.idx)
    else
      var second := LastPast(hints, bits, past.hint, |hints|);
      if second.Best? then Ordered(past.idx, second.idx) else NoPair
  }

  predicate NoPast(hints: seq<Hint>, bits: nat, cur: int) { forall j | 0 <= j < |hints| :: !Past(bits, hints[j], cur) }

  predicate NoFuture(hints: seq<Hint>, bits: nat, cur: int) {
    forall j | 0 <= j < |hints| :: !Future(bits, hints[j], cur)
  }

  /** Of the references before `cur` number `i` is the nearest, and the first of equals. */
  predicate NearestPast(hints: seq<Hint>, bits: nat, cur: int, i: nat) {
    && i < |hints| && Past(bits, hints[i], cur)
    && forall j | 0 <= j < |hints| && Past(bits, hints[j], cur) ::
         || RelativeDist(bits, hints[j].h, cur) < RelativeDist(bits, hints[i].h, cur)
         || (RelativeDist(bits, hints[j].h, cur) == RelativeDist(bits, hints[i].h, cur) && i <= j)
  }

  predicate NearestFuture(hints: seq<Hint>, bits: nat, cur: int, i: nat) {
    && i < |hints| && Future(bits, hints[i], cur)
    && forall j | 0 <= j < |hints| && Future(bits, hints[j], cur) ::
         || RelativeDist(bits, hints[j].h, cur) > RelativeDist(bits, hints[i].h, cur)
         || (RelativeDist(bits, hints[j].h, cur) == RelativeDist(bits, hints[i].h, cur) && i <= j)
  }

  lemma ScanIsNearestPast(hints: seq<Hint>, bits: nat, cur: int, i: nat)
    requires NearestPast(hints, bits, cur, i)
    ensures i < |hints| && hints[i].Hint? && LastPast(hints, bits, cur, |hints|) == Best(i, hints[i].h)
  {
    hide RelativeDist, LastPast;
    LastPastIsNearest(hints, bits, cur, |hints|);
  }

  lemma ScanIsNearestFuture(hints: seq<Hint>, bits: nat, cur: int, i: nat)
    requires NearestFuture(hints, bits, cur, i)
    ensures i < |hints| && hints[i].Hint? && FirstFuture(hints, bits, cur, |hints|) == Best(i, hints[i].h)
  {
    hide RelativeDist, FirstFuture;
    FirstFutureIsNearest(hints, bits, cur, |hints|);
  }

  /**
   With a past and a future reference the pair is the nearest of each; with past ones alone it is the nearest and the
   one nearest before that, and there is none if nothing is before that.
   */
  lemma PairIsNearest(hints: seq<Hint>, bits: nat, cur: int, p: nat, x: nat)
    requires NearestPast(hints, bits, cur, p)
    ensures NearestFuture(hints, bits, cur, x) ==> SkipPair(hints, bits, cur) == Ordered(p, x)
    ensures NoFuture(hints, bits, cur) && NearestPast(hints, bits, hints[p].h, x) ==>
              SkipPair(hints, bits, cur) == Ordered(p, x)
    ensures SkipPair(hints, bits, cur) == NoPair <==> NoFuture(hints, bits, cur) && NoPast(hints, bits, hints[p].h)
  {
    hide RelativeDist, LastPast, FirstFuture, NearestPast, NearestFuture;
    ScanIsNearestPast(hints, bits, cur, p);
    LastPastIsNearest(hints, bits, hints[p].h, |hints|);
    FirstFutureIsNearest(hints, bits, cur, |hints|);
    if NearestFuture(hints, bits, cur, x) { ScanIsNearestFuture(hints, bits, cur, x); }
    if NearestPast(hints, bits, hints[p].h, x) { ScanIsNearestPast(hints, bits, hints[p].h, x); }
  }

  /** Without a past reference there is no pair; with one, or a future one, there is a nearest. */
  lemma NearestExists(hints: seq<Hint>, bits: nat, cur: int)
    ensures NoPast(hints, bits, cur) ==> SkipPair(hints, bits, cur) == NoPair
    ensures !NoPast(hints, bits, cur) ==> exists p :: NearestPast(hints, bits, cur, p)
    ensures !NoFuture(hints, bits, cur) ==> exists f :: NearestFuture(hints, bits, cur, f)
  {
    hide RelativeDist, LastPast, FirstFuture;
    LastPastIsNearest(hints, bits, cur, |hints|);
    FirstFutureIsNearest(hints, bits, cur, |hints|);
    var past, future := LastPast(hints, bits, cur, |hints|), FirstFuture(hints, bits, cur, |hints|);
    if past.Best? { assert NearestPast(hints, bits, cur, past.idx); }
    if future.Best? { assert NearestFuture(hints, bits, cur, future.idx); }
  }

  /** A pair names two different references, in order. */
  lemma PairIsTwo(hints: seq<Hint>, bits: nat, cur: int)
    ensures var p := SkipPair(hints, bits, cur); p.Pair? ==> p.lo < p.hi < |hints|
  {
    hide RelativeDist;
    LastPastIsNearest(hints, bits, cur, |hints|);
    FirstFutureIsNearest(hints, bits, cur, |hints|);
    var past := LastPast(hints, bits, cur, |hints|);
    if past.Best? {
      LastPastIsNearest(hints, bits, past.hint, |hints|);
      NotBeforeItself(bits, past.hint);
    }
  }

  lemma NotBeforeItself(bits: nat, h: int)
    ensures RelativeDist(bits, h, h) == 0
  {
    if bits > 0 { DistIsRepresentative(bits, h, h, 0); DivUnique(0, Pow2(bits), 0, 0); }
  }

  // ---------------------------------------------------------------- the two sets of slots

  /** What the parser keeps of a frame in `Av1SavedFrameState`, as far as order hints go. */
  datatype Saved = Saved(valid: bool, hint: int)

  datatype Size = Size(coded: nat, height: nat, upscaled: nat)

  /** What the register builder keeps of a frame in `RkmppAv1DpbSlot`. */
  datatype Kept = Kept(valid: bool, kind: nat, offset: int, size: Size, buffer: nat, savedHints: seq<int>)

  datatype Frame = Frame(kind: nat, refs: bool, refidx: seq<int>, hint: int, size: Size, refresh: nat, bits: nat)

  predicate Refreshes(f: Frame, i: nat) { f.refresh / Pow2(i) % 2 == 1 }

  function SavedHint(slots: seq<Saved>, idx: int): Hint
    requires |slots| == SLOTS
  {
    if 0 <= idx < SLOTS && slots[idx].valid then Hint(slots[idx].hint) else Absent
  }

  function KeptHint(slots: seq<Kept>, idx: int): Hint
    requires |slots| == SLOTS
  {
    if 0 <= idx < SLOTS && slots[idx].valid then Hint(slots[idx].offset) else Absent
  }

  function SavedHints(slots: seq<Saved>, refidx: seq<int>): (r: seq<Hint>)
    requires |slots| == SLOTS
  {
    seq(|refidx|, i requires 0 <= i < |refidx| => SavedHint(slots, refidx[i]))
  }

  function KeptHints(slots: seq<Kept>, refidx: seq<int>): (r: seq<Hint>)
    requires |slots| == SLOTS
  {
    seq(|refidx|, i requires 0 <= i < |refidx| => KeptHint(slots, refidx[i]))
  }

  function AfterSave(slots: seq<Saved>, f: Frame): seq<Saved> {
    seq(|slots|, i requires 0 <= i < |slots| => if Refreshes(f, i) then Saved(true, f.hint) else slots[i])
  }

  datatype Dpb = Dpb(slots: seq<Kept>, bits: nat, lastBuffer: nat)

  function OrZero(x: Hint): int { if x.Hint? then x.h else 0 }

  /** The reference hints a frame leaves with its own: zeros for one that names no references. */
  function HintsAtDecode(slots: seq<Kept>, f: Frame): seq<int>
    requires |slots| == SLOTS
  {
    seq(|f.refidx|, i requires 0 <= i < |f.refidx| => if f.refs then OrZero(KeptHint(slots, f.refidx[i])) else 0)
  }

  /** `rkmpp_av1_dpb_post_decode`. */
  function AfterDecode(d: Dpb, f: Frame): (r: Dpb)
    requires |d.slots| == SLOTS
    ensures |r.slots| == SLOTS
  {
    var buffer := Wrap32(d.lastBuffer + 1);
    var kept := Kept(true, f.kind, ToInt16(f.hint), f.size, buffer, HintsAtDecode(d.slots, f));
    Dpb(seq(SLOTS, i requires 0 <= i < SLOTS => if Refreshes(f, i) then kept else d.slots[i]),
        if d.bits == 0 then f.bits else d.bits, buffer)
  }

  const NO_FRAME := Kept(false, 0, 0, Size(0, 0, 0), 0, [])

  function ParserRun(frames: seq<Frame>): (slots: seq<Saved>)
    ensures |slots| == SLOTS
  {
    if frames == [] then seq(SLOTS, _ => Saved(false, 0))
    else AfterSave(ParserRun(frames[..|frames| - 1]), frames[|frames| - 1])
  }

  function BuilderRun(frames: seq<Frame>): (d: Dpb)
    ensures |d.slots| == SLOTS
  {
    if frames == [] then Dpb(seq(SLOTS, _ => NO_FRAME), 0, 0)
    else AfterDecode(BuilderRun(frames[..|frames| - 1]), frames[|frames| - 1])
  }

  /** Order hints have at most 8 bits. */
  predicate HintsFit(frames: seq<Frame>) { forall f | f in frames :: 0 <= f.hint < 256 }

  predicate Mirror(p: seq<Saved>, b: seq<Kept>) {
    |p| == |b| == SLOTS
    && forall i | 0 <= i < SLOTS :: p[i].valid == b[i].valid && (p[i].valid ==> p[i].hint == b[i].offset >= 0)
  }

  lemma MirrorStep(p: seq<Saved>, d: Dpb, f: Frame)
    requires Mirror(p, d.slots) && 0 <= f.hint < 256
    ensures Mirror(AfterSave(p, f), AfterDecode(d, f).slots)
  {
    hide Refreshes, HintsAtDecode, Wrap32;
  }

  lemma {:induction false} SlotsMirror(frames: seq<Frame>)
    requires HintsFit(frames)
    ensures Mirror(ParserRun(frames), BuilderRun(frames).slots)
  {
    hide AfterSave, AfterDecode;
    if frames != [] {
      var before := frames[..|frames| - 1];
      SlotsMirror(before);
      MirrorStep(ParserRun(before), BuilderRun(before), frames[|frames| - 1]);
    }
  }

  /** What the builder programs: the parser's pair if there is one, else its own search's, else the defaults. */
  function SkipRefs(parsed: Pair, refs: bool, d: Dpb, refidx: seq<int>, cur: int): (int, int)
    requires |d.slots| == SLOTS
  {
    if parsed.Pair? then (parsed.lo + 1, parsed.hi + 1)
    else if refs && d.bits > 0 then
      match SkipPair(KeptHints(d.slots, refidx), d.bits, cur)
      case NoPair => (1, 1)
      case Pair(lo, hi) => (lo + 1, hi + 1)
    else (1, 1)
  }

  /** The builder captures the first width that is not zero and never another, whatever sequence headers follow. */
  lemma {:induction false} WidthIsFirstNonzero(frames: seq<Frame>)
    ensures var w := BuilderRun(frames).bits;
            && (w == 0 ==> forall k | 0 <= k < |frames| :: frames[k].bits == 0)
            && (w != 0 ==> exists k | 0 <= k < |frames| ::
                             frames[k].bits == w && forall j | 0 <= j < k :: frames[j].bits == 0)
  {
    if frames != [] {
      var before := frames[..|frames| - 1];
      WidthIsFirstNonzero(before);
      assert forall k | 0 <= k < |before| :: before[k] == frames[k];
      var w := BuilderRun(frames).bits;
      if BuilderRun(before).bits != 0 {
        var k :| 0 <= k < |before| && before[k].bits == w && forall j | 0 <= j < k :: before[j].bits == 0;
        assert frames[k].bits == w;
      } else if w != 0 {
        assert frames[|frames| - 1].bits == w;
      }
    }
  }

  /**
   After every run of frames, with or without order hints, as long as the width the builder captured is the one the
   parser uses: both copies of the search give the next frame the same pair, and so the same registers whether the
   builder trusts the parser's pair or, not being given it, searches.
   */
  lemma SearchesAgreeInEveryRun(frames: seq<Frame>, bits: nat, refidx: seq<int>, cur: int)
    requires HintsFit(frames) && bits == BuilderRun(frames).bits
    ensures var d, parsed := BuilderRun(frames), SkipPair(SavedHints(ParserRun(frames), refidx), bits, cur);
            && parsed == SkipPair(KeptHints(d.slots, refidx), d.bits, cur)
            && SkipRefs(parsed, true, d, refidx, cur) == SkipRefs(NoPair, true, d, refidx, cur)
  {
    SlotsMirror(frames);
    var d := BuilderRun(frames);
    assert SavedHints(ParserRun(frames), refidx) == KeptHints(d.slots, refidx);
    if d.bits == 0 { NoWidthNoPair(KeptHints(d.slots, refidx), cur); }
  }

  /** The case every frame of the run carries one width, which is then the builder's. */
  lemma SearchesAgreeAtOneWidth(frames: seq<Frame>, bits: nat, refidx: seq<int>, cur: int)
    requires frames != [] && HintsFit(frames) && forall f | f in frames :: f.bits == bits
    ensures var d, parsed := BuilderRun(frames), SkipPair(SavedHints(ParserRun(frames), refidx), bits, cur);
            && d.bits == bits
            && SkipRefs(parsed, true, d, refidx, cur) == SkipRefs(NoPair, true, d, refidx, cur)
  {
    hide SkipPair, SkipRefs;
    WidthIsFirstNonzero(frames);
    assert frames[0] in frames;
    SearchesAgreeInEveryRun(frames, bits, refidx, cur);
  }

  lemma {:induction false} NothingPast(hints: seq<Hint>, cur: int, n: nat)
    requires n <= |hints|
    ensures LastPast(hints, 0, cur, n) == NoBest
  {
    if n > 0 { NothingPast(hints, cur, n - 1); }
  }

  lemma NoWidthNoPair(hints: seq<Hint>, cur: int)
    ensures SkipPair(hints, 0, cur) == NoPair
  {
    NothingPast(hints, cur, |hints|);
  }

  // ---------------------------------------------------------------- when the widths differ

  /** What a frame can see: seven references and 8-bit hints. */
  predicate Seen(hints: seq<Hint>, cur: int) {
    |hints| == REFS && 0 <= cur < 256 && forall x | x in hints :: x.Hint? ==> 0 <= x.h < 256
  }

  function TwoHints(a: int, b: int): seq<Hint> {
    [Hint(a), Hint(b), Absent, Absent, Absent, Absent, Absent]
  }

  lemma {:induction false} OnlyTwo(a: int, b: int, bits: nat, cur: int, n: nat)
    requires 2 <= n <= REFS
    ensures LastPast(TwoHints(a, b), bits, cur, n) == LastPast(TwoHints(a, b), bits, cur, 2)
    ensures FirstFuture(TwoHints(a, b), bits, cur, n) == FirstFuture(TwoHints(a, b), bits, cur, 2)
  {
    hide RelativeDist;
    if n > 2 { OnlyTwo(a, b, bits, cur, n - 1); }
  }

  /** The pair of two references, from the distances among them and the current frame. */
  lemma PairOfTwo(a: int, b: int, bits: nat, cur: int)
    ensures var x, y, z := RelativeDist(bits, a, cur), RelativeDist(bits, b, cur), RelativeDist(bits, b, a);
            && (x < 0 && y > 0 ==> SkipPair(TwoHints(a, b), bits, cur) == Pair(0, 1))
            && (x >= 0 && y >= 0 ==> SkipPair(TwoHints(a, b), bits, cur) == NoPair)
            && (x < 0 && y < 0 && z == 0 ==> SkipPair(TwoHints(a, b), bits, cur) == NoPair)
            && (x < 0 && y == 0 && z < 0 ==> SkipPair(TwoHints(a, b), bits, cur) == Pair(0, 1))
  {
    hide RelativeDist;
    NotBeforeItself(bits, a);
    OnlyTwo(a, b, bits, cur, REFS);
    OnlyTwo(a, b, bits, a, REFS);
    PastOfTwo(a, b, bits, cur);
    PastOfTwo(a, b, bits, a);
  }

  lemma PastOfTwo(a: int, b: int, bits: nat, cur: int)
    ensures var x, y, z := RelativeDist(bits, a, cur), RelativeDist(bits, b, cur), RelativeDist(bits, b, a);
            var first := if x < 0 then Best(0, a) else NoBest;
            var early := if x > 0 then Best(0, a) else NoBest;
            && LastPast(TwoHints(a, b), bits, cur, 2) == (if y < 0 && (x >= 0 || z > 0) then Best(1, b) else first)
            && FirstFuture(TwoHints(a, b), bits, cur, 2) == (if y > 0 && (x <= 0 || z < 0) then Best(1, b) else early)
  {
    hide RelativeDist;
    var h := TwoHints(a, b);
    assert LastPast(h, bits, cur, 1) == if RelativeDist(bits, a, cur) < 0 then Best(0, a) else NoBest;
    assert FirstFuture(h, bits, cur, 1) == if RelativeDist(bits, a, cur) > 0 then Best(0, a) else NoBest;
  }

  lemma DistIs(bits: nat, a: int, b: int, d: int, turns: int)
    requires bits > 0 && -Half(bits) <= d < Half(bits) && a - b - d == turns * Pow2(bits)
    ensures RelativeDist(bits, a, b) == d
  {
    DivUnique(a - b - d, Pow2(bits), turns, 0);
    DistIsRepresentative(bits, a, b, d);
  }

  /** At half the smaller width's range one width sees the past and the other the future. */
  lemma NarrowDiffers(v: nat, w: nat) returns (a: int)
    requires 2 <= v < w <= 8
    ensures Seen(TwoHints(a, 2), 1)
    ensures SkipPair(TwoHints(a, 2), v, 1) == Pair(0, 1) && SkipPair(TwoHints(a, 2), w, 1) == NoPair
  {
    hide RelativeDist, SkipPair;
    var m: int := Pow2(v - 1);
    PowTwice(v);
    Pow2Monotone(1, v - 1);
    Pow2Monotone(v, w - 1);
    Pow2Monotone(v - 1, 6);
    SmallWidths();
    a := 1 + m;
    DistIs(v, a, 1, -m, 1);
    DistIs(v, 2, 1, 1, 0);
    DistIs(w, a, 1, m, 0);
    DistIs(w, 2, 1, 1, 0);
    PairOfTwo(a, 2, v, 1);
    PairOfTwo(a, 2, w, 1);
  }

  lemma SmallWidths()
    ensures Pow2(0) == 1 && Pow2(1) == 2 && Pow2(6) == 64
  {}

  lemma WideSees(w: nat)
    requires 2 <= w
    ensures Seen(TwoHints(0, 2), 1) && SkipPair(TwoHints(0, 2), w, 1) == Pair(0, 1)
  {
    hide RelativeDist, SkipPair;
    Pow2Monotone(1, w - 1);
    SmallWidths();
    DistIs(w, 0, 1, -1, 0);
    DistIs(w, 2, 1, 1, 0);
    PairOfTwo(0, 2, w, 1);
  }

  /** A width of one bit has no future. */
  lemma OneBitSees()
    ensures SkipPair(TwoHints(0, 2), 1, 1) == NoPair
    ensures Seen(TwoHints(0, 1), 1) && SkipPair(TwoHints(0, 1), 1, 1) == Pair(0, 1)
  {
    hide RelativeDist, SkipPair;
    SmallWidths();
    DistIs(1, 0, 1, -1, 0);
    DistIs(1, 2, 1, -1, 1);
    DistIs(1, 2, 0, 0, 1);
    DistIs(1, 1, 1, 0, 0);
    DistIs(1, 1, 0, -1, 1);
    PairOfTwo(0, 2, 1, 1);
    PairOfTwo(0, 1, 1, 1);
  }

  lemma DifferentWidthsDiffer(v: nat, w: nat) returns (hints: seq<Hint>, cur: int)
    requires v < w <= 8
    ensures Seen(hints, cur) && SkipPair(hints, v, cur) != SkipPair(hints, w, cur)
  {
    hide SkipPair, Seen;
    cur := 1;
    if v >= 2 {
      var a := NarrowDiffers(v, w);
      hints := TwoHints(a, 2);
    } else if w >= 2 {
      hints := TwoHints(0, 2);
      WideSees(w);
      OneBitSees();
      NoWidthNoPair(hints, 1);
    } else {
      hints := TwoHints(0, 1);
      OneBitSees();
      NoWidthNoPair(hints, 1);
    }
  }

  /** The two copies agree on everything a frame can see if and only if they use one width. */
  lemma SearchesAgreeIff(v: nat, w: nat)
    requires v <= 8 && w <= 8
    ensures (forall hints, cur | Seen(hints, cur) :: SkipPair(hints, v, cur) == SkipPair(hints, w, cur)) <==> v == w
  {
    hide SkipPair, Seen;
    if v < w {
      var hints, cur := DifferentWidthsDiffer(v, w);
    } else if w < v {
      var hints, cur := DifferentWidthsDiffer(w, v);
    }
  }

  /**
   A new sequence header in the middle of a stream: after frames of widths 3 and 8 the builder still counts in 3
   bits. The parser pairs hints 4 and 12 around 10, and the builder, left to search, finds no pair.
   */
  lemma WidthChangeDiffers()
    ensures var frames := [Frame(1, true, [], 4, Size(0, 0, 0), 1, 3), Frame(1, true, [], 12, Size(0, 0, 0), 2, 8)];
            var refidx := [0, 1, -1, -1, -1, -1, -1];
            var d, parsed := BuilderRun(frames), SkipPair(SavedHints(ParserRun(frames), refidx), 8, 10);
            && d.bits == 3 && parsed == Pair(0, 1)
            && SkipRefs(parsed, true, d, refidx, 10) == (1, 2) && SkipRefs(NoPair, true, d, refidx, 10) == (1, 1)
  {
    hide SkipPair, SavedHints, KeptHints, ParserRun, BuilderRun;
    TwoFrames();
    PairAtEight();
    PairAtThree();
  }

  /** With 8 bits, 4 comes before 10 and 12 after it. */
  lemma PairAtEight()
    ensures SkipPair(TwoHints(4, 12), 8, 10) == Pair(0, 1)
  {
    hide RelativeDist, SkipPair;
    Pow2Bytes();
    PowTwice(8);
    DistIs(8, 4, 10, -6, 0);
    DistIs(8, 12, 10, 2, 0);
    PairOfTwo(4, 12, 8, 10);
  }

  /** With 3 bits both come after it. */
  lemma PairAtThree()
    ensures SkipPair(TwoHints(4, 12), 3, 10) == NoPair
  {
    hide RelativeDist, SkipPair;
    SmallWidths();
    assert Pow2(2) == 4 && Pow2(3) == 8;
    DistIs(3, 4, 10, 2, -1);
    DistIs(3, 12, 10, 2, 0);
    PairOfTwo(4, 12, 3, 10);
  }

  lemma TwoFrames()
    ensures var frames := [Frame(1, true, [], 4, Size(0, 0, 0), 1, 3), Frame(1, true, [], 12, Size(0, 0, 0), 2, 8)];
            var refidx := [0, 1, -1, -1, -1, -1, -1];
            && SavedHints(ParserRun(frames), refidx) == KeptHints(BuilderRun(frames).slots, refidx) == TwoHints(4, 12)
            && BuilderRun(frames).bits == 3
  {
    var f, g := Frame(1, true, [], 4, Size(0, 0, 0), 1, 3), Frame(1, true, [], 12, Size(0, 0, 0), 2, 8);
    var frames, first := [f, g], [f];
    var refidx := [0, 1, -1, -1, -1, -1, -1];
    SmallWidths();
    assert frames[..1] == first && first[..0] == [];
    assert Refreshes(f, 0) && !Refreshes(f, 1) && !Refreshes(g, 0) && Refreshes(g, 1);
    var none: seq<Frame> := [];
    assert ParserRun(first) == AfterSave(ParserRun(none), f) && BuilderRun(first) == AfterDecode(BuilderRun(none), f);
    var p, d := ParserRun(frames), BuilderRun(frames);
    assert p == AfterSave(ParserRun(first), g) && d == AfterDecode(BuilderRun(first), g);
    assert SavedHints(p, refidx) == TwoHints(4, 12);
    assert KeptHints(d.slots, refidx) == TwoHints(4, 12);
  }

  /** Slots that share a buffer hold the same frame, and no buffer is younger than the last one given out. */
  predicate BuffersOk(d: Dpb) {
    && (forall i | 0 <= i < |d.slots| && d.slots[i].valid :: 0 < d.slots[i].buffer <= d.lastBuffer)
    && (forall i, j | 0 <= i < |d.slots| && 0 <= j < |d.slots| && d.slots[i].valid && d.slots[j].valid ::
          d.slots[i].buffer == d.slots[j].buffer ==> d.slots[i] == d.slots[j])
  }

  /** Until the 32-bit count of buffers wraps, a buffer number names one frame in every reachable state. */
  lemma {:induction false} BuffersNameFrames(frames: seq<Frame>)
    requires |frames| < 0x1_0000_0000
    ensures BuffersOk(BuilderRun(frames)) && BuilderRun(frames).lastBuffer == |frames|
  {
    hide Refreshes, HintsAtDecode, ToInt16;
    if frames != [] { BuffersNameFrames(frames[..|frames| - 1]); }
  }

  /** Frame `k` is the last of the run to refresh slot `i`, by the bits of its refresh flags. */
  predicate LastRefresh(frames: seq<Frame>, i: nat, k: nat) {
    k < |frames| && TestBit(frames[k].refresh, i) && forall j | k < j < |frames| :: !TestBit(frames[j].refresh, i)
  }

  /** What the frame after the run finds in the slot reference name `r` means: the hint, zero for none. */
  predicate HintOf(slots: seq<Kept>, f: Frame, r: nat, h: int)
    requires |slots| == SLOTS && r < |f.refidx|
  {
    var s := f.refidx[r];
    h == if f.refs && 0 <= s < SLOTS && slots[s].valid then slots[s].offset else 0
  }

  /** In every reachable state of both sides a slot holds a frame exactly when a frame of the run refreshed it. */
  lemma {:induction false} SlotIsFilled(frames: seq<Frame>, i: nat)
    requires i < SLOTS
    ensures ParserRun(frames)[i].valid == BuilderRun(frames).slots[i].valid
    ensures BuilderRun(frames).slots[i].valid == exists k | 0 <= k < |frames| :: TestBit(frames[k].refresh, i)
  {
    hide TestBit;
    if frames != [] {
      var n := |frames| - 1;
      SlotIsFilled(frames[..n], i);
      OneRefresh(ParserRun(frames[..n]), BuilderRun(frames[..n]), frames[n], i);
      assert forall k | 0 <= k < n :: frames[..n][k] == frames[k];
    }
  }

  /**
   And the frame it holds is the last one that refreshed it: its hint, kind and size, its number in the run for its
   buffer, and for its reference names the hints that stood in the slots they named before it.
   */
  lemma {:induction false} SlotHoldsLastRefresh(frames: seq<Frame>, i: nat, k: nat)
    requires i < SLOTS && LastRefresh(frames, i, k)
    ensures ParserRun(frames)[i] == Saved(true, frames[k].hint)
    ensures BuilderRun(frames).slots[i].buffer == Wrap32(k + 1)
    ensures HoldsFrame(BuilderRun(frames).slots[i], BuilderRun(frames[..k]).slots, frames[k])
  {
    hide TestBit, Wrap32, HoldsFrame;
    var n := |frames| - 1;
    OneRefresh(ParserRun(frames[..n]), BuilderRun(frames[..n]), frames[n], i);
    if k == n {
      CountOfBuffers(frames[..n]);
      NextCount(n);
    } else {
      assert frames[..n][..k] == frames[..k];
      SlotHoldsLastRefresh(frames[..n], i, k);
    }
  }

  lemma NextCount(n: nat)
    ensures Wrap32(Wrap32(n) + 1) == Wrap32(n + 1)
  {}

  /** The slot says of its frame what the frame's header says. */
  predicate HoldsFrame(x: Kept, before: seq<Kept>, f: Frame)
    requires |before| == SLOTS
  {
    && x.kind == f.kind && x.size == f.size && (-0x8000 <= f.hint < 0x8000 ==> x.offset == f.hint)
    && |x.savedHints| == |f.refidx|
    && forall r | 0 <= r < |f.refidx| :: HintOf(before, f, r, x.savedHints[r])
  }

  lemma OneRefresh(p: seq<Saved>, d: Dpb, f: Frame, i: nat)
    requires |p| == |d.slots| == SLOTS && i < SLOTS
    ensures var q, e := AfterSave(p, f)[i], AfterDecode(d, f).slots[i];
            if TestBit(f.refresh, i) then
              q == Saved(true, f.hint) && e.valid && HoldsFrame(e, d.slots, f) && e.buffer == Wrap32(d.lastBuffer + 1)
            else q == p[i] && e == d.slots[i]
  {
    hide Wrap32;
    TestBitIs(f.refresh, i);
  }

  lemma {:induction false} CountOfBuffers(frames: seq<Frame>)
    ensures BuilderRun(frames).lastBuffer == Wrap32(|frames|)
  {
    if frames != [] { CountOfBuffers(frames[..|frames| - 1]); }
  }

  /**
   The registers name, in order, the nearest reference before the frame and the nearest after it, or without one after
   the nearest before and the nearest before that; LAST is 1. Without a pair, a width or references they are 1 and 1.
   */
  lemma RegistersAreNearest(refs: bool, d: Dpb, refidx: seq<int>, cur: int, p: nat, x: nat)
    requires |d.slots| == SLOTS
    ensures var hints, r := KeptHints(d.slots, refidx), SkipRefs(NoPair, refs, d, refidx, cur);
            && (!refs || d.bits == 0 || NoPast(hints, d.bits, cur) ==> r == (1, 1))
            && (refs && d.bits > 0 && NearestPast(hints, d.bits, cur, p) ==>
                  && (NearestFuture(hints, d.bits, cur, x) ==> r.0 < r.1 && {r.0, r.1} == {p + 1, x + 1})
                  && (NoFuture(hints, d.bits, cur) && NearestPast(hints, d.bits, hints[p].h, x) ==>
                        r.0 < r.1 && {r.0, r.1} == {p + 1, x + 1})
                  && (NoFuture(hints, d.bits, cur) && NoPast(hints, d.bits, hints[p].h) ==> r == (1, 1)))
  {
    hide RelativeDist, LastPast, FirstFuture, NearestPast, NearestFuture, NoPast, NoFuture, SkipPair;
    var hints := KeptHints(d.slots, refidx);
    NearestExists(hints, d.bits, cur);
    PairIsTwo(hints, d.bits, cur);
    if NearestPast(hints, d.bits, cur, p) { PairIsNearest(hints, d.bits, cur, p, x); }
  }

  // ---------------------------------------------------------------- the loops

  /** `compute_skip_mode`; -1 stands for no hint, which is why hints must not be negative. */
  method ComputeSkipMode(enabled: bool, bits: nat, refidx: seq<int>, cur: int, prev: array<Saved>)
    returns (allowed: bool, ref0: int, ref1: int)
    requires |refidx| == REFS && prev.Length == SLOTS
    requires forall i | 0 <= i < SLOTS :: prev[i].valid ==> prev[i].hint >= 0
    ensures var p := SkipPair(SavedHints(prev[..], refidx), bits, cur);
            && allowed == (enabled && p.Pair?)
            && (allowed ==> ref0 == p.lo && ref1 == p.hi)
  {
    hide RelativeDist;
    allowed, ref0, ref1 := false, 0, 0;
    if !enabled { return; }
    ghost var hints := SavedHints(prev[..], refidx);
    var ob, oa, obIdx, oaIdx := -1, -1, -1, -1;
    for i := 0 to REFS
      invariant Holds(LastPast(hints, bits, cur, i), obIdx, ob)
      invariant Holds(FirstFuture(hints, bits, cur, i), oaIdx, oa)
    {
      var slot := refidx[i];
      if 0 <= slot < SLOTS && prev[slot].valid {
        assert hints[i] == Hint(prev[slot].hint);
        var refpoc := prev[slot].hint;
        var diff := RelativeDist(bits, refpoc, cur);
        if diff > 0 {
          if oa < 0 || RelativeDist(bits, refpoc, oa) < 0 { oa, oaIdx := refpoc, i; }
        } else if diff < 0 {
          if ob < 0 || RelativeDist(bits, refpoc, ob) > 0 { ob, obIdx := refpoc, i; }
        }
      } else {
        assert hints[i] == Absent;
      }
    }
    PairIsTwo(hints, bits, cur);
    if ob >= 0 && oa >= 0 {
      ref0 := if obIdx < oaIdx then obIdx else oaIdx;
      ref1 := if obIdx > oaIdx then obIdx else oaIdx;
      allowed := true;
    } else if ob >= 0 {
      var ob2, ob2Idx := -1, -1;
      for i := 0 to REFS
        invariant Holds(LastPast(hints, bits, ob, i), ob2Idx, ob2)
      {
        var slot := refidx[i];
        if 0 <= slot < SLOTS && prev[slot].valid {
          assert hints[i] == Hint(prev[slot].hint);
          var refpoc := prev[slot].hint;
          if RelativeDist(bits, refpoc, ob) < 0 {
            if ob2 < 0 || RelativeDist(bits, refpoc, ob2) > 0 { ob2, ob2Idx := refpoc, i; }
          }
        } else {
          assert hints[i] == Absent;
        }
      }
      if ob2 >= 0 {
        ref0 := if obIdx < ob2Idx then obIdx else ob2Idx;
        ref1 := if obIdx > ob2Idx then obIdx else ob2Idx;
        allowed := true;
      }
    }
  }

  /** The two variables a scan keeps, -1 and -1 while it has found nothing. */
  predicate Holds(b: Best, idx: int, hint: int) {
    match b
    case NoBest => idx == -1 && hint == -1
    case Best(i, h) => idx == i && hint == h >= 0
  }

  /** The builder's variables: only the index says whether the hint counts. */
  predicate Keeps(b: Best, idx: int, hint: int) {
    match b
    case NoBest => idx == -1
    case Best(i, h) => idx == i && hint == h
  }

  class Av1Dpb {
    const slots: array<Kept>
    var orderHintBits: nat
    var lastBuffer: nat

    ghost function State(): Dpb
      reads this, slots
    {
      Dpb(slots[..], orderHintBits, lastBuffer)
    }

    constructor ()
      ensures fresh(slots) && State() == BuilderRun([])
    {
      slots := new Kept[SLOTS](_ => NO_FRAME);
      orderHintBits, lastBuffer := 0, 0;
    }

    method PostDecode(f: Frame)
      requires slots.Length == SLOTS
      modifies this, slots
      ensures State() == AfterDecode(old(State()), f)
    {
      hide Refreshes, ToInt16;
      if orderHintBits == 0 { orderHintBits := f.bits; }
      var saved := [];
      for r := 0 to |f.refidx|
        invariant saved == HintsAtDecode(old(slots[..]), f)[..r] && unchanged(slots)
        invariant lastBuffer == old(lastBuffer)
        invariant orderHintBits == if old(orderHintBits) == 0 then f.bits else old(orderHintBits)
      {
        var hint := 0;
        if f.refs {
          var idx := f.refidx[r];
          if 0 <= idx < SLOTS && slots[idx].valid { hint := slots[idx].offset; }
        }
        saved := saved + [hint];
      }
      lastBuffer := Wrap32(lastBuffer + 1);
      ghost var after := AfterDecode(old(State()), f);
      for i := 0 to SLOTS
        invariant forall k | 0 <= k < i :: slots[k] == after.slots[k]
        invariant forall k | i <= k < SLOTS :: slots[k] == old(slots[k])
        invariant lastBuffer == after.lastBuffer && orderHintBits == after.bits
      {
        if Refreshes(f, i) {
          slots[i] := Kept(true, f.kind, ToInt16(f.hint), f.size, lastBuffer, saved);
        }
      }
    }

    /** Which of two register values, from 1 for LAST to 7 for ALTREF, the search of the register builder gives. */
    method SkipRegisters(parsed: Pair, refs: bool, refidx: seq<int>, cur: int) returns (sr0: int, sr1: int)
      requires slots.Length == SLOTS && |refidx| == REFS
      ensures (sr0, sr1) == SkipRefs(parsed, refs, State(), refidx, cur)
    {
      hide RelativeDist, OrderHintDist;
      sr0, sr1 := 1, 1;
      if parsed.Pair? { return parsed.lo + 1, parsed.hi + 1; }
      if !refs || orderHintBits == 0 { return; }
      var bits := orderHintBits;
      ghost var hints := KeptHints(slots[..], refidx);
      var forwardIdx, backwardIdx, forwardHint, backwardHint := -1, -1, 0, 0;
      for i := 0 to REFS
        invariant Keeps(LastPast(hints, bits, cur, i), forwardIdx, forwardHint)
        invariant Keeps(FirstFuture(hints, bits, cur, i), backwardIdx, backwardHint)
      {
        var s := refidx[i];
        if 0 <= s < SLOTS && slots[s].valid {
          assert hints[i] == Hint(slots[s].offset);
          var rh := slots[s].offset;
          DistancesAgree(bits, rh, cur);
          DistancesAgree(bits, rh, forwardHint);
          DistancesAgree(bits, rh, backwardHint);
          var d := OrderHintDist(bits, rh, cur);
          if d < 0 {
            if forwardIdx < 0 || OrderHintDist(bits, rh, forwardHint) > 0 { forwardIdx, forwardHint := i, rh; }
          } else if d > 0 {
            if backwardIdx < 0 || OrderHintDist(bits, rh, backwardHint) < 0 { backwardIdx, backwardHint := i, rh; }
          }
        } else {
          assert hints[i] == Absent;
        }
      }
      if forwardIdx >= 0 && backwardIdx >= 0 {
        sr0 := (if forwardIdx < backwardIdx then forwardIdx else backwardIdx) + 1;
        sr1 := (if forwardIdx < backwardIdx then backwardIdx else forwardIdx) + 1;
      } else if forwardIdx >= 0 {
        var secondIdx, secondHint := -1, 0;
        for i := 0 to REFS
          invariant Keeps(LastPast(hints, bits, forwardHint, i), secondIdx, secondHint)
        {
          var s := refidx[i];
          if 0 <= s < SLOTS && slots[s].valid {
            assert hints[i] == Hint(slots[s].offset);
            var rh := slots[s].offset;
            DistancesAgree(bits, rh, forwardHint);
            DistancesAgree(bits, rh, secondHint);
            if OrderHintDist(bits, rh, forwardHint) < 0 {
              if secondIdx < 0 || OrderHintDist(bits, rh, secondHint) > 0 { secondIdx, secondHint := i, rh; }
            }
          } else {
            assert hints[i] == Absent;
          }
        }
        if secondIdx >= 0 {
          sr0 := (if forwardIdx < secondIdx then forwardIdx else secondIdx) + 1;
          sr1 := (if forwardIdx < secondIdx then secondIdx else forwardIdx) + 1;
        }
      }
    }
  }
}

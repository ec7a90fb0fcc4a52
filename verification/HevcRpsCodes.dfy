/**
 The code of a short-term reference picture set (section 7.3.7 of ITU-T H.265), and that `parse_st_rps`
 (mft/parser_glue_h265.cpp) returns the set it was written for and passes just the code.
 */
module HevcRpsCodes {
  import opened Bits
  import opened BitReaders
  import opened WrittenFields
  import opened HevcRps
  import opened HevcRpsParse

  // ---------------------------------------------------------------- single codes

  /** ue(v): `v + 1` behind as many zeros as it has bits after the first. */
  function UeField(v: nat): Field { Field(v + 1, 2 * FloorLog2(v + 1) + 1) }

  function Flag(b: bool): Field { Field(if b then 1 else 0, 1) }

  predicate Stands(data: seq<byte>, pos: nat, f: Field) {
    pos + f.width <= 8 * |data| && Window(data, pos, f.width) == f.value
  }

  lemma UeReads(data: seq<byte>, pos: nat, v: nat)
    requires v < 0xFFFF_FFFF && Stands(data, pos, UeField(v))
    ensures ReadUe(data, pos) == Read(v, pos + UeField(v).width, false)
  {
    hide Window, ReadUe, Pow2;
    Pow2Step(FloorLog2(v + 1));
    UeDecodesEveryCode(data, pos, v, FloorLog2(v + 1));
  }

  lemma FlagReads(data: seq<byte>, pos: nat, b: bool)
    requires Stands(data, pos, Flag(b))
    ensures ReadU(data, pos, 1) == Read(Flag(b).value, pos + 1, false)
  {
    hide Window, Pow2;
  }

  // ---------------------------------------------------------------- the flags of a prediction

  /** used_by_curr_pic_flag, and use_delta_flag where that is zero. */
  function FlagPair(used: bool, use: bool): seq<Field> { if used then [Flag(true)] else [Flag(false), Flag(use)] }

  function FlagsCode(used: seq<bool>, use: seq<bool>, n: nat): seq<Field>
    requires n <= |used| == |use|
  {
    if n == 0 then [] else FlagsCode(used, use, n - 1) + FlagPair(used[n - 1], use[n - 1])
  }

  lemma {:induction false} FlagsRead(data: seq<byte>, pos: nat, used: seq<bool>, use: seq<bool>, n: nat)
    requires n <= |used| == |use| && forall k | 0 <= k < n :: used[k] ==> use[k]
    requires Written(data, pos, FlagsCode(used, use, n))
    ensures ReadFlags(data, pos, n) == FlagRead(used[..n], use[..n], pos + WidthOf(FlagsCode(used, use, n)))
  {
    hide Written, WidthOf, ReadU, Window, FlagPair;
    if n == 0 {
      WrittenNone(data, pos);
    } else {
      var before, pair := FlagsCode(used, use, n - 1), FlagPair(used[n - 1], use[n - 1]);
      WrittenBoth(data, pos, before, pair);
      FlagsRead(data, pos, used, use, n - 1);
      PairReads(data, pos + WidthOf(before), used[n - 1], use[n - 1]);
      assert used[..n] == used[..n - 1] + [used[n - 1]] && use[..n] == use[..n - 1] + [use[n - 1]];
    }
  }

  lemma PairReads(data: seq<byte>, at: nat, used: bool, use: bool)
    requires Written(data, at, FlagPair(used, use))
    ensures var u := ReadU(data, at, 1);
            && (u.value != 0 <==> used)
            && (used ==> u.pos == at + WidthOf(FlagPair(used, use)))
            && (!used ==> var d := ReadU(data, u.pos, 1);
                          (d.value != 0 <==> use) && d.pos == at + WidthOf(FlagPair(used, use)))
  {
    hide Written, WidthOf, ReadU, Window;
    if used {
      WrittenOne(data, at, Flag(true));
      FlagReads(data, at, true);
    } else {
      WrittenTwo(data, at, Flag(false), Flag(use));
      FlagReads(data, at, false);
      FlagReads(data, at + 1, use);
    }
  }

  // ---------------------------------------------------------------- one half of a directly coded set

  /** How far entry `k` is from the current picture, on its side. */
  function Away(r: Rps, k: nat, negative: bool): int
    requires k < |r.delta|
  {
    if negative then -r.delta[k] else r.delta[k]
  }

  /** `n` entries from `from` on, further and further away. */
  predicate HalfOk(r: Rps, from: nat, n: nat, negative: bool) {
    && from + n <= |r.delta| == |r.used|
    && (forall k: nat | from <= k < from + n :: 0 < Away(r, k, negative) <= 0x7FFF_FFFF)
    && (forall k: nat | from < k < from + n :: Away(r, k - 1, negative) < Away(r, k, negative))
  }

  /** delta_poc_s0_minus1 or delta_poc_s1_minus1 of the entry: its distance from the one before, less one. */
  function Gap(r: Rps, from: nat, n: nat, negative: bool): nat
    requires n > 0 && HalfOk(r, from, n, negative)
  {
    var k := from + n - 1;
    Away(r, k, negative) - (if n == 1 then 0 else Away(r, k - 1, negative)) - 1
  }

  function HalfCode(r: Rps, from: nat, n: nat, negative: bool): seq<Field>
    requires HalfOk(r, from, n, negative)
  {
    if n == 0 then []
    else HalfCode(r, from, n - 1, negative) + [UeField(Gap(r, from, n, negative)), Flag(r.used[from + n - 1])]
  }

  /** The codes of the half, in order. */
  function Gaps(r: Rps, from: nat, n: nat, negative: bool): (gaps: seq<nat>)
    requires HalfOk(r, from, n, negative)
    ensures |gaps| == n
  {
    if n == 0 then [] else Gaps(r, from, n - 1, negative) + [Gap(r, from, n, negative)]
  }

  lemma HalfOkParts(r: Rps, from: nat, n: nat, negative: bool)
    requires HalfOk(r, from, n, negative)
    ensures from + n <= |r.delta| == |r.used|
    ensures n > 0 ==>
              && HalfOk(r, from, n - 1, negative) && Gap(r, from, n, negative) < 0x7FFF_FFFF
              && Away(r, from + n - 1, negative)
                 == (if n > 1 then Away(r, from + n - 2, negative) else 0) + Gap(r, from, n, negative) + 1
  {}

  /** Adding up the gaps gives the distances back. */
  lemma {:induction false} GapsAdd(r: Rps, from: nat, n: nat, negative: bool, j: nat)
    requires HalfOk(r, from, n, negative) && 0 < j <= n
    ensures Distances(Gaps(r, from, n, negative), j) == Away(r, from + j - 1, negative)
    decreases n
  {
    hide ToInt32, HalfOk, Gap, Away, Distances;
    HalfOkParts(r, from, n, negative);
    var gaps, gap := Gaps(r, from, n - 1, negative), Gap(r, from, n, negative);
    DistancesOfPrefix(gaps, gap);
    if j < n {
      GapsAdd(r, from, n - 1, negative, j);
    } else {
      SmallIsInt32(gap);
      if n > 1 { GapsAdd(r, from, n - 1, negative, n - 1); } else { NoDistance(gaps); }
    }
  }

  lemma {:induction false} HalfReads(data: seq<byte>, pos: nat, r: Rps, from: nat, n: nat, negative: bool)
    requires HalfOk(r, from, n, negative) && Written(data, pos, HalfCode(r, from, n, negative))
    ensures ReadDeltas(data, pos, n)
         == DeltaRead(Gaps(r, from, n, negative), r.used[from..from + n],
                      pos + WidthOf(HalfCode(r, from, n, negative)))
  {
    hide Written, WidthOf, ReadU, ReadUe, Window, UeField, Gap, HalfOk, HalfCode, Gaps, ReadDeltas;
    HalfOkParts(r, from, n, negative);
    if n == 0 {
      NoHalf(data, pos, r, from, negative);
    } else {
      OneMore(data, pos, r, from, n, negative);
      var before, gap, used := HalfCode(r, from, n - 1, negative), Gap(r, from, n, negative), r.used[from + n - 1];
      WrittenBoth(data, pos, before, [UeField(gap), Flag(used)]);
      HalfReads(data, pos, r, from, n - 1, negative);
      OneDelta(data, pos + WidthOf(before), gap, used);
      assert r.used[from..from + n] == r.used[from..from + n - 1] + [used];
    }
  }

  lemma NoHalf(data: seq<byte>, pos: nat, r: Rps, from: nat, negative: bool)
    requires HalfOk(r, from, 0, negative)
    ensures ReadDeltas(data, pos, 0) == DeltaRead([], [], pos)
    ensures HalfCode(r, from, 0, negative) == [] && Gaps(r, from, 0, negative) == [] && r.used[from..from] == []
    ensures WidthOf([]) == 0
  {}

  lemma OneMore(data: seq<byte>, pos: nat, r: Rps, from: nat, n: nat, negative: bool)
    requires n > 0 && HalfOk(r, from, n, negative) && HalfOk(r, from, n - 1, negative)
    ensures HalfCode(r, from, n, negative)
         == HalfCode(r, from, n - 1, negative) + [UeField(Gap(r, from, n, negative)), Flag(r.used[from + n - 1])]
    ensures Gaps(r, from, n, negative) == Gaps(r, from, n - 1, negative) + [Gap(r, from, n, negative)]
    ensures var f := ReadDeltas(data, pos, n - 1);
            var c := ReadUe(data, f.pos);
            var u := ReadU(data, c.pos, 1);
            ReadDeltas(data, pos, n) == DeltaRead(f.codes + [c.value], f.used + [u.value != 0], u.pos)
  {
    hide ReadU, ReadUe, UeField, Gap;
  }

  lemma OneDelta(data: seq<byte>, at: nat, gap: nat, used: bool)
    requires gap < 0xFFFF_FFFF && Written(data, at, [UeField(gap), Flag(used)])
    ensures var c := ReadUe(data, at);
            && c.value == gap && ReadU(data, c.pos, 1).value == Flag(used).value
            && ReadU(data, c.pos, 1).pos == at + WidthOf([UeField(gap), Flag(used)])
  {
    hide Written, WidthOf, ReadU, ReadUe, Window, UeField;
    WrittenTwo(data, at, UeField(gap), Flag(used));
    UeReads(data, at, gap);
    FlagReads(data, at + UeField(gap).width, used);
  }

  lemma SmallIsInt32(x: nat)
    requires x < 0x8000_0000
    ensures ToInt32(x) == x
  {}

  // ---------------------------------------------------------------- a directly coded set

  /** Canonical, with distances a C `int` holds. */
  predicate Writable(r: Rps) {
    Canonical(r) && forall k | 0 <= k < |r.delta| :: -0x7FFF_FFFF <= r.delta[k] <= 0x7FFF_FFFF
  }

  lemma WritableHalves(r: Rps)
    requires Writable(r)
    ensures HalfOk(r, 0, r.numNegative, true) && HalfOk(r, r.numNegative, r.numPositive, false)
  {}

  /** num_negative_pics, num_positive_pics, and the two halves. */
  function DirectCode(r: Rps): seq<Field>
    requires Writable(r)
  {
    WritableHalves(r);
    [UeField(r.numNegative), UeField(r.numPositive)]
    + (HalfCode(r, 0, r.numNegative, true) + HalfCode(r, r.numNegative, r.numPositive, false))
  }

  lemma DirectParses(data: seq<byte>, pos: nat, r: Rps)
    requires Writable(r) && Written(data, pos, DirectCode(r))
    ensures var p := ParseDirect(data, pos);
            p.Parsed? && p.wide == r && p.pos == pos + WidthOf(DirectCode(r))
  {
    hide Written, WidthOf, ReadDeltas, ReadUe, Window, UeField, HalfCode, HalfOk, Canonical, DirectSet, Gaps;
    WritableHalves(r);
    var n, m := r.numNegative, r.numPositive;
    var neg, pos' := HalfCode(r, 0, n, true), HalfCode(r, n, m, false);
    ShapedOf(r);
    WrittenBoth(data, pos, [UeField(n), UeField(m)], neg + pos');
    WrittenTwo(data, pos, UeField(n), UeField(m));
    UeReads(data, pos, n);
    UeReads(data, pos + UeField(n).width, m);
    var at := pos + UeField(n).width + UeField(m).width;
    WrittenBoth(data, at, neg, pos');
    HalfReads(data, at, r, 0, n, true);
    HalfReads(data, at + WidthOf(neg), r, n, m, false);
    DirectIs(r, ReadDeltas(data, at, n), ReadDeltas(data, at + WidthOf(neg), m));
  }

  lemma ShapedOf(r: Rps)
    requires Canonical(r)
    ensures Shaped(r)
  {}

  /** The two halves read make the set again. */
  lemma DirectIs(r: Rps, neg: DeltaRead, pos: DeltaRead)
    requires Shaped(r) && HalfOk(r, 0, r.numNegative, true) && HalfOk(r, r.numNegative, r.numPositive, false)
    requires neg.codes == Gaps(r, 0, r.numNegative, true) && neg.used == r.used[0..r.numNegative]
    requires pos.codes == Gaps(r, r.numNegative, r.numPositive, false)
    requires pos.used == r.used[r.numNegative..r.numNegative + r.numPositive]
    ensures DirectSet(neg, pos) == r
  {
    hide Distances, Gaps, HalfOk;
    var s, n := DirectSet(neg, pos), r.numNegative;
    forall k: nat | k < |r.delta| ensures s.delta[k] == r.delta[k] {
      if k < n {
        GapsAdd(r, 0, n, true, k + 1);
      } else {
        GapsAdd(r, n, r.numPositive, false, k - n + 1);
      }
    }
    assert s.delta == r.delta && s.used == r.used;
  }

  // ---------------------------------------------------------------- a set

  /** How a set is coded: by itself, or from another one of the table. */
  datatype Coding =
    | Direct(rps: Rps)
    | Inter(refIdx: nat, deltaRps: int, used: seq<bool>, use: seq<bool>)

  /** Only a slice, with number `num`, may pick its reference set; others take the one before. A used entry is kept. */
  predicate CodingOk(c: Coding, table: seq<Rps>, idx: nat, num: nat) {
    match c
    case Direct(r) => Writable(r)
    case Inter(refIdx, deltaRps, used, use) =>
      && refIdx < idx <= |table| && (idx != num ==> refIdx == idx - 1)
      && (0 < deltaRps <= 0x7FFF_FFFF || -0x7FFF_FFFF <= deltaRps < 0)
      && |used| == |use| == |table[refIdx].delta| + 1 && forall k | 0 <= k < |used| :: used[k] ==> use[k]
  }

  /** Which reference set (in a slice), the sign and the magnitude of the distance, less one. */
  function HeadCode(refIdx: nat, deltaRps: int, idx: nat, num: nat): seq<Field>
    requires refIdx < idx && deltaRps != 0
  {
    (if idx == num then [UeField(idx - 1 - refIdx)] else [])
    + [Flag(deltaRps < 0), UeField((if deltaRps < 0 then -deltaRps else deltaRps) - 1)]
  }

  function SetCode(c: Coding, table: seq<Rps>, idx: nat, num: nat): seq<Field>
    requires CodingOk(c, table, idx, num)
  {
    match c
    case Direct(r) => (if idx == 0 then [] else [Flag(false)]) + DirectCode(r)
    case Inter(refIdx, deltaRps, used, use) =>
      [Flag(true)] + (HeadCode(refIdx, deltaRps, idx, num) + FlagsCode(used, use, |used|))
  }

  /** The set a coding stands for. */
  function Meant(c: Coding, table: seq<Rps>, idx: nat, num: nat): Rps
    requires AllShaped(table) && CodingOk(c, table, idx, num)
  {
    match c
    case Direct(r) => r
    case Inter(refIdx, deltaRps, used, use) => Predicted(table[refIdx], deltaRps, used, use)
  }

  lemma HeadReads(data: seq<byte>, pos: nat, refIdx: nat, deltaRps: int, idx: nat, num: nat)
    requires refIdx < idx < 0xFFFF_FFFF && (idx != num ==> refIdx == idx - 1)
    requires 0 < deltaRps <= 0x7FFF_FFFF || -0x7FFF_FFFF <= deltaRps < 0
    requires Written(data, pos, HeadCode(refIdx, deltaRps, idx, num))
    ensures ReadInterHead(data, pos, idx, num)
         == InterHead(refIdx, deltaRps, pos + WidthOf(HeadCode(refIdx, deltaRps, idx, num)))
  {
    hide Written, WidthOf, ReadUe, ReadU, Window, UeField, ToInt32;
    var abs: nat := if deltaRps < 0 then -deltaRps else deltaRps;
    var pick, rest := if idx == num then [UeField(idx - 1 - refIdx)] else [], [Flag(deltaRps < 0), UeField(abs - 1)];
    WrittenBoth(data, pos, pick, rest);
    if idx == num {
      WrittenOne(data, pos, UeField(idx - 1 - refIdx));
      UeReads(data, pos, idx - 1 - refIdx);
    } else {
      WrittenNone(data, pos);
    }
    var at := pos + WidthOf(pick);
    WrittenTwo(data, at, Flag(deltaRps < 0), UeField(abs - 1));
    FlagReads(data, at, deltaRps < 0);
    UeReads(data, at + 1, abs - 1);
    SmallIsInt32(abs);
  }

  /**
   Where the code of a set stands, whether in an SPS or in a slice, the parser returns that set and passes just the
   code; it refuses the set only if it has more than 16 entries.
   */
  lemma SetParses(data: seq<byte>, pos: nat, c: Coding, table: seq<Rps>, idx: nat, num: nat)
    requires idx <= |table| && idx < 0xFFFF_FFFF && AllShaped(table) && CodingOk(c, table, idx, num)
    requires Written(data, pos, SetCode(c, table, idx, num))
    ensures var p, r := ParseSet(data, pos, table, idx, num), Meant(c, table, idx, num);
            && p.pos == pos + WidthOf(SetCode(c, table, idx, num))
            && (p.Parsed? <==> |r.delta| <= MAX_REFS) && (p.Parsed? ==> p.wide == r)
  {
    hide Written, WidthOf, ReadU, ReadInterHead, ReadFlags, Window, FlagsCode, HeadCode, DirectCode, Predicted;
    hide ParseDirect;
    match c
    case Direct(r) =>
      if idx > 0 {
        WrittenFirst(data, pos, Flag(false), DirectCode(r));
        FlagReads(data, pos, false);
        DirectParses(data, pos + 1, r);
      } else {
        assert [] + DirectCode(r) == DirectCode(r);
        DirectParses(data, pos, r);
      }
    case Inter(refIdx, deltaRps, used, use) =>
      var head, flags := HeadCode(refIdx, deltaRps, idx, num), FlagsCode(used, use, |used|);
      WrittenFirst(data, pos, Flag(true), head + flags);
      FlagReads(data, pos, true);
      WrittenBoth(data, pos + 1, head, flags);
      HeadReads(data, pos + 1, refIdx, deltaRps, idx, num);
      FlagsRead(data, pos + 1 + WidthOf(head), used, use, |used|);
      assert used[..|used|] == used && use[..|use|] == use;
  }

  /**
   A predicted set so read holds a distance exactly if it is a kept entry of its reference set, or zero, moved by the
   coded distance, and not the current picture itself.
   */
  lemma PredictedSetParses(data: seq<byte>, pos: nat, c: Coding, table: seq<Rps>, idx: nat, num: nat, d: int, u: bool)
    requires idx <= |table| && idx < 0xFFFF_FFFF && AllShaped(table) && CodingOk(c, table, idx, num) && c.Inter?
    requires Canonical(table[c.refIdx]) && Written(data, pos, SetCode(c, table, idx, num))
    ensures var p, ref := ParseSet(data, pos, table, idx, num), table[c.refIdx];
            p.Parsed? ==>
              && Canonical(p.wide)
              && ((exists k :: 0 <= k < |p.wide.delta| && p.wide.delta[k] == d && p.wide.used[k] == u)
                  <==> d != 0 && exists i: nat | i < |c.use| ::
                         c.use[i] && c.used[i] == u && d == c.deltaRps + if i < |ref.delta| then ref.delta[i] else 0)
  {
    hide Written, WidthOf, SetCode, Predicted, ParseSet, Selects;
    SetParses(data, pos, c, table, idx, num);
    if ParseSet(data, pos, table, idx, num).Parsed? {
      PredictionIsCanonicalAndExact(table[c.refIdx], c.deltaRps, c.used, c.use);
      SelectsIs(table[c.refIdx], c.deltaRps, c.used, c.use, d, u);
    }
  }

  lemma SelectsIs(ref: Rps, deltaRps: int, used: seq<bool>, use: seq<bool>, d: int, u: bool)
    requires Shaped(ref) && |used| == |use| == |ref.delta| + 1
    ensures Selects(ref, deltaRps, used, use, d, u)
            <==> d != 0 && exists i: nat | i < |use| ::
                   use[i] && used[i] == u && d == deltaRps + if i < |ref.delta| then ref.delta[i] else 0
  {
    if d != 0 && exists i: nat | i < |use| ::
        use[i] && used[i] == u && d == deltaRps + if i < |ref.delta| then ref.delta[i] else 0 {
      var i: nat :| i < |use| && use[i] && used[i] == u
                    && d == deltaRps + if i < |ref.delta| then ref.delta[i] else 0;
      assert Candidate(ref, deltaRps, i) == d;
    }
  }

  // ---------------------------------------------------------------- the sets of an SPS

  /** Every coding refers to the sets before it, and gives a set of at most 16 entries that 16 bits hold. */
  predicate CodingsOk(codings: seq<Coding>, n: nat)
    requires n <= |codings|
    decreases n, 0
  {
    n == 0 ||
    (&& CodingsOk(codings, n - 1)
     && CodingOk(codings[n - 1], Sets(codings, n - 1), n - 1, |codings|)
     && var r := Meant(codings[n - 1], Sets(codings, n - 1), n - 1, |codings|);
        |r.delta| <= MAX_REFS && forall k | 0 <= k < |r.delta| :: -0x8000 <= r.delta[k] < 0x8000)
  }

  function Sets(codings: seq<Coding>, n: nat): (sets: seq<Rps>)
    requires n <= |codings| && CodingsOk(codings, n)
    ensures |sets| == n && AllShaped(sets)
    decreases n, 1
  {
    if n == 0 then []
    else
      var r := Meant(codings[n - 1], Sets(codings, n - 1), n - 1, |codings|);
      MeantIsShaped(codings[n - 1], Sets(codings, n - 1), n - 1, |codings|);
      Sets(codings, n - 1) + [r]
  }

  lemma MeantIsShaped(c: Coding, table: seq<Rps>, idx: nat, num: nat)
    requires AllShaped(table) && CodingOk(c, table, idx, num) && |Meant(c, table, idx, num).delta| <= MAX_REFS
    ensures Shaped(Meant(c, table, idx, num))
  {}

  function TableCode(codings: seq<Coding>, n: nat): seq<Field>
    requires n <= |codings| && CodingsOk(codings, n)
  {
    if n == 0 then []
    else TableCode(codings, n - 1) + SetCode(codings[n - 1], Sets(codings, n - 1), n - 1, |codings|)
  }

  /** Where the codes of an SPS's sets stand one after the other, the loop returns all of them. */
  lemma {:induction false} TableParses(data: seq<byte>, pos: nat, codings: seq<Coding>, n: nat)
    requires n <= |codings| < 0xFFFF_FFFF && CodingsOk(codings, n) && Written(data, pos, TableCode(codings, n))
    ensures ParseTable(data, pos, |codings|, n) == Table(Sets(codings, n), pos + WidthOf(TableCode(codings, n)))
  {
    hide Written, WidthOf, ParseSet, SetCode, Meant, CodingOk;
    if n == 0 {
      WrittenNone(data, pos);
    } else {
      var before, table := TableCode(codings, n - 1), Sets(codings, n - 1);
      WrittenBoth(data, pos, before, SetCode(codings[n - 1], table, n - 1, |codings|));
      TableParses(data, pos, codings, n - 1);
      SetParses(data, pos + WidthOf(before), codings[n - 1], table, n - 1, |codings|);
      NarrowIsExactIff(Meant(codings[n - 1], table, n - 1, |codings|));
    }
  }
}

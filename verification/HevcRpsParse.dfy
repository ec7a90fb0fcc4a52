/** `parse_st_rps` over a bit reader, and the table of sets an SPS carries. */
module HevcRpsParse {
  import opened Bits
  import opened BitReaders
  import opened HevcRps

  predicate AllCanonical(table: seq<Rps>) {
    forall k | 0 <= k < |table| :: Canonical(table[k])
  }

  // ---------------------------------------------------------------- what the syntax says

  datatype FlagRead = FlagRead(used: seq<bool>, use: seq<bool>, pos: nat)

  /** used_by_curr_pic_flag and use_delta_flag of the first `n` candidates; the second defaults to one. */
  function ReadFlags(data: seq<byte>, pos: nat, n: nat): (r: FlagRead)
    ensures |r.used| == |r.use| == n
  {
    if n == 0 then FlagRead([], [], pos)
    else
      var f := ReadFlags(data, pos, n - 1);
      var u := ReadU(data, f.pos, 1);
      if u.value != 0 then FlagRead(f.used + [true], f.use + [true], u.pos)
      else
        var d := ReadU(data, u.pos, 1);
        FlagRead(f.used + [false], f.use + [d.value != 0], d.pos)
  }

  datatype DeltaRead = DeltaRead(codes: seq<nat>, used: seq<bool>, pos: nat)

  /** delta_poc_minus1 and used_by_curr_pic_flag of `n` entries. */
  function ReadDeltas(data: seq<byte>, pos: nat, n: nat): (r: DeltaRead)
    ensures |r.codes| == |r.used| == n
    ensures forall k | 0 <= k < n :: r.codes[k] < 0xFFFF_FFFF
  {
    if n == 0 then DeltaRead([], [], pos)
    else
      var f := ReadDeltas(data, pos, n - 1);
      var c := ReadUe(data, f.pos);
      var u := ReadU(data, c.pos, 1);
      DeltaRead(f.codes + [c.value], f.used + [u.value != 0], u.pos)
  }

  /** The distance from zero of entry `n - 1`: the sum of the steps so far. */
  function Distances(codes: seq<nat>, n: nat): int
    requires n <= |codes|
  {
    if n == 0 then 0 else Distances(codes, n - 1) + ToInt32(codes[n - 1]) + 1
  }

  function DirectSet(neg: DeltaRead, pos: DeltaRead): (r: Rps)
    requires |neg.codes| == |neg.used| && |pos.codes| == |pos.used|
  {
    Rps(|neg.codes|, |pos.codes|,
        seq(|neg.codes| + |pos.codes|, k requires 0 <= k < |neg.codes| + |pos.codes| =>
          if k < |neg.codes| then -Distances(neg.codes, k + 1) else Distances(pos.codes, k - |neg.codes| + 1)),
        neg.used + pos.used)
  }

  /** A set before its deltas are narrowed to 16 bits, with the delta codes read for it. */
  datatype Parse = Rejected(pos: nat) | Parsed(wide: Rps, codes: seq<nat>, pos: nat)

  datatype InterHead = NoReference(pos: nat) | InterHead(refIdx: nat, deltaRps: int, pos: nat)

  /** delta_idx_minus1 (in a slice only), delta_rps_sign and abs_delta_rps_minus1. */
  function ReadInterHead(data: seq<byte>, pos: nat, idx: nat, num: nat): (r: InterHead)
    requires 0 < idx
    ensures r.InterHead? ==> r.refIdx < idx
  {
    var d := if idx == num then ReadUe(data, pos) else Read(0, pos, false);
    if d.value + 1 > idx then NoReference(d.pos)
    else
      var sign := ReadU(data, d.pos, 1);
      var abs := ReadUe(data, sign.pos);
      InterHead(idx - (d.value + 1), (1 - 2 * sign.value) * ToInt32(abs.value + 1), abs.pos)
  }

  function ParseInter(data: seq<byte>, pos: nat, table: seq<Rps>, idx: nat, num: nat): Parse
    requires 0 < idx <= |table| && AllShaped(table)
  {
    match ReadInterHead(data, pos, idx, num)
    case NoReference(p) => Rejected(p)
    case InterHead(refIdx, deltaRps, p) =>
      var f := ReadFlags(data, p, |table[refIdx].delta| + 1);
      Accept(Predicted(table[refIdx], deltaRps, f.used, f.use), f.pos)
  }

  /** A prediction of more than 16 entries is refused. */
  function Accept(r: Rps, pos: nat): Parse {
    if |r.delta| > MAX_REFS then Rejected(pos) else Parsed(r, [], pos)
  }

  function ParseDirect(data: seq<byte>, pos: nat): Parse {
    var n := ReadUe(data, pos);
    var p := ReadUe(data, n.pos);
    if n.value > MAX_REFS || p.value > MAX_REFS || n.value + p.value > MAX_REFS then Rejected(p.pos)
    else
      var neg := ReadDeltas(data, p.pos, n.value);
      var pos := ReadDeltas(data, neg.pos, p.value);
      Parsed(DirectSet(neg, pos), neg.codes + pos.codes, pos.pos)
  }

  function ParseSet(data: seq<byte>, pos: nat, table: seq<Rps>, idx: nat, num: nat): Parse
    requires idx <= |table| && AllShaped(table)
  {
    var inter := if idx != 0 then ReadU(data, pos, 1) else Read(0, pos, false);
    if inter.value != 0 then ParseInter(data, inter.pos, table, idx, num) else ParseDirect(data, inter.pos)
  }

  /** What is stored: the deltas as `int16_t`. */
  function Narrow(r: Rps): (s: Rps)
    ensures |s.delta| == |r.delta|
  {
    r.(delta := seq(|r.delta|, k requires 0 <= k < |r.delta| => ToInt16(r.delta[k])))
  }

  // ---------------------------------------------------------------- canonical form

  /** Delta codes below 2^31 and deltas within 16 bits; the standard asks for less than 2^15. */
  predicate InRange(p: Parse) {
    p.Parsed? ==>
      && (forall k | 0 <= k < |p.codes| :: p.codes[k] < 0x8000_0000)
      && (forall k | 0 <= k < |p.wide.delta| :: -0x8000 <= p.wide.delta[k] < 0x8000)
  }

  /** Narrowing changes nothing exactly when every delta fits. */
  lemma NarrowIsExactIff(r: Rps)
    ensures Narrow(r) == r <==> forall k | 0 <= k < |r.delta| :: -0x8000 <= r.delta[k] < 0x8000
  {
    if Narrow(r) == r {
      forall k | 0 <= k < |r.delta| ensures -0x8000 <= r.delta[k] < 0x8000 {
        assert Narrow(r).delta[k] == ToInt16(r.delta[k]);
      }
    } else {
      assert Narrow(r).delta != r.delta;
    }
  }

  predicate SmallCodes(codes: seq<nat>) {
    forall k | 0 <= k < |codes| :: codes[k] < 0x8000_0000
  }

  /** The running distances strictly grow from zero. */
  predicate Growing(codes: seq<nat>) {
    forall i, j | 0 <= i < j <= |codes| :: Distances(codes, i) < Distances(codes, j)
  }

  lemma {:induction false} DistancesGrow(codes: seq<nat>, i: nat, j: nat)
    requires i < j <= |codes| && SmallCodes(codes)
    ensures Distances(codes, i) < Distances(codes, j)
  {
    if i < j - 1 { DistancesGrow(codes, i, j - 1); }
  }

  lemma GrowingIff(codes: seq<nat>)
    requires forall k | 0 <= k < |codes| :: codes[k] < 0xFFFF_FFFF
    ensures Growing(codes) <==> SmallCodes(codes)
  {
    if SmallCodes(codes) {
      forall i, j | 0 <= i < j <= |codes| ensures Distances(codes, i) < Distances(codes, j) {
        DistancesGrow(codes, i, j);
      }
    }
    if Growing(codes) {
      forall k | 0 <= k < |codes| ensures codes[k] < 0x8000_0000 {
        assert Distances(codes, k) < Distances(codes, k + 1);
      }
    }
  }

  lemma GrowingIsCanonical(neg: DeltaRead, pos: DeltaRead)
    requires |neg.codes| == |neg.used| && |pos.codes| == |pos.used| && |neg.codes| + |pos.codes| <= MAX_REFS
    requires Growing(neg.codes) && Growing(pos.codes)
    ensures Canonical(DirectSet(neg, pos))
  {
    var r, n := DirectSet(neg, pos), |neg.codes|;
    forall k | 0 <= k < |r.delta| ensures if k < n then r.delta[k] < 0 else r.delta[k] > 0 {
      if k < n { assert Distances(neg.codes, 0) < Distances(neg.codes, k + 1); }
      else { assert Distances(pos.codes, 0) < Distances(pos.codes, k - n + 1); }
    }
  }

  lemma NoDistance(codes: seq<nat>)
    ensures Distances(codes, 0) == 0
  {}

  lemma CanonicalIsGrowing(neg: DeltaRead, pos: DeltaRead)
    requires |neg.codes| == |neg.used| && |pos.codes| == |pos.used|
    requires Canonical(DirectSet(neg, pos))
    ensures Growing(neg.codes) && Growing(pos.codes)
  {
    hide Distances;
    NoDistance(neg.codes);
    NoDistance(pos.codes);
    var r, n := DirectSet(neg, pos), |neg.codes|;
    forall i, j | 0 <= i < j <= n ensures Distances(neg.codes, i) < Distances(neg.codes, j) {
      assert r.delta[j - 1] == -Distances(neg.codes, j);
      if i > 0 { assert r.delta[i - 1] == -Distances(neg.codes, i); }
    }
    forall i, j | 0 <= i < j <= |pos.codes| ensures Distances(pos.codes, i) < Distances(pos.codes, j) {
      assert r.delta[n + j - 1] == Distances(pos.codes, j);
      if i > 0 { assert r.delta[n + i - 1] == Distances(pos.codes, i); }
    }
  }

  /** A directly coded set is canonical if and only if every step code is below 2^31. */
  lemma DirectIsCanonicalIff(neg: DeltaRead, pos: DeltaRead)
    requires |neg.codes| == |neg.used| && |pos.codes| == |pos.used| && |neg.codes| + |pos.codes| <= MAX_REFS
    requires forall k | 0 <= k < |neg.codes| :: neg.codes[k] < 0xFFFF_FFFF
    requires forall k | 0 <= k < |pos.codes| :: pos.codes[k] < 0xFFFF_FFFF
    ensures Canonical(DirectSet(neg, pos)) <==> SmallCodes(neg.codes) && SmallCodes(pos.codes)
  {
    GrowingIff(neg.codes);
    GrowingIff(pos.codes);
    if Canonical(DirectSet(neg, pos)) {
      CanonicalIsGrowing(neg, pos);
    } else if Growing(neg.codes) && Growing(pos.codes) {
      GrowingIsCanonical(neg, pos);
    }
  }

  /** Parsing against canonical sets gives a canonical set, kept exactly, when the values are in range. */
  lemma ParsedIsCanonical(data: seq<byte>, pos: nat, table: seq<Rps>, idx: nat, num: nat)
    requires idx <= |table| && AllShaped(table) && AllCanonical(table)
    ensures var p := ParseSet(data, pos, table, idx, num);
            p.Parsed? && InRange(p) ==> Canonical(p.wide) && Narrow(p.wide) == p.wide
  {
    var p := ParseSet(data, pos, table, idx, num);
    if p.Parsed? && InRange(p) {
      NarrowIsExactIff(p.wide);
      var inter := if idx != 0 then ReadU(data, pos, 1) else Read(0, pos, false);
      if inter.value != 0 {
        InterIsCanonical(data, inter.pos, table, idx, num);
      } else {
        DirectIsCanonical(data, inter.pos);
      }
    }
  }

  lemma InterIsCanonical(data: seq<byte>, pos: nat, table: seq<Rps>, idx: nat, num: nat)
    requires 0 < idx <= |table| && AllShaped(table) && AllCanonical(table)
    ensures var p := ParseInter(data, pos, table, idx, num); p.Parsed? ==> Canonical(p.wide)
  {
    match ReadInterHead(data, pos, idx, num)
    case NoReference(_) =>
    case InterHead(refIdx, deltaRps, p) =>
      AcceptedIsCanonical(table[refIdx], deltaRps, ReadFlags(data, p, |table[refIdx].delta| + 1));
  }

  lemma AcceptedIsCanonical(ref: Rps, deltaRps: int, f: FlagRead)
    requires Canonical(ref) && |f.used| == |f.use| == |ref.delta| + 1
    ensures var p := Accept(Predicted(ref, deltaRps, f.used, f.use), f.pos); p.Parsed? ==> Canonical(p.wide)
  {
    if |Predicted(ref, deltaRps, f.used, f.use).delta| <= MAX_REFS {
      PredictionIsCanonical(ref, deltaRps, f.used, f.use);
    }
  }

  lemma DirectIsCanonical(data: seq<byte>, pos: nat)
    ensures var p := ParseDirect(data, pos); p.Parsed? && SmallCodes(p.codes) ==> Canonical(p.wide)
  {
    hide Canonical, ReadUe, ReadDeltas, DirectSet;
    var p := ParseDirect(data, pos);
    if p.Parsed? && SmallCodes(p.codes) {
      var n := ReadUe(data, pos);
      var q := ReadUe(data, n.pos);
      var neg := ReadDeltas(data, q.pos, n.value);
      var pos' := ReadDeltas(data, neg.pos, q.value);
      assert forall k | 0 <= k < |neg.codes| :: neg.codes[k] == p.codes[k];
      assert forall k | 0 <= k < |pos'.codes| :: pos'.codes[k] == p.codes[|neg.codes| + k];
      DirectIsCanonicalIff(neg, pos');
    }
  }

  // ---------------------------------------------------------------- the table of an SPS

  /** The first `n` sets of an SPS that announces `num`, or nothing if one was rejected. */
  datatype Table = NoTable | Table(sets: seq<Rps>, pos: nat)

  predicate TableShaped(t: Table) {
    t.Table? ==> AllShaped(t.sets)
  }

  /** Parses set number `|t.sets|` and appends it. */
  function AddSet(data: seq<byte>, t: Table, num: nat): (r: Table)
    requires TableShaped(t)
    ensures TableShaped(r)
    ensures r.Table? ==> t.Table? && |r.sets| == |t.sets| + 1
  {
    if t.NoTable? then NoTable
    else
      var p := ParseSet(data, t.pos, t.sets, |t.sets|, num);
      if p.Rejected? then NoTable
      else
        ParsedIsShaped(data, t.pos, t.sets, |t.sets|, num);
        Table(t.sets + [Narrow(p.wide)], p.pos)
  }

  function ParseTable(data: seq<byte>, pos: nat, num: nat, n: nat): (r: Table)
    ensures TableShaped(r)
    ensures r.Table? ==> |r.sets| == n
  {
    if n == 0 then Table([], pos) else AddSet(data, ParseTable(data, pos, num, n - 1), num)
  }

  lemma ParsedIsShaped(data: seq<byte>, pos: nat, table: seq<Rps>, idx: nat, num: nat)
    requires idx <= |table| && AllShaped(table)
    ensures var p := ParseSet(data, pos, table, idx, num); p.Parsed? ==> Shaped(p.wide) && Shaped(Narrow(p.wide))
  {}

  predicate NextInRange(data: seq<byte>, t: Table, num: nat)
    requires TableShaped(t)
  {
    t.Table? ==> InRange(ParseSet(data, t.pos, t.sets, |t.sets|, num))
  }

  /** Every value the first `n` sets are parsed from is in range. */
  predicate TableInRange(data: seq<byte>, pos: nat, num: nat, n: nat) {
    n == 0 || (TableInRange(data, pos, num, n - 1) && NextInRange(data, ParseTable(data, pos, num, n - 1), num))
  }

  predicate TableCanonical(t: Table) {
    t.Table? ==> AllCanonical(t.sets)
  }

  lemma AddedIsCanonical(data: seq<byte>, t: Table, t': Table, num: nat)
    requires TableShaped(t) && t' == AddSet(data, t, num)
    requires TableCanonical(t) && NextInRange(data, t, num)
    ensures TableCanonical(t')
  {
    if t.Table? { ParsedIsCanonical(data, t.pos, t.sets, |t.sets|, num); }
  }

  /** Every set of an SPS is canonical. */
  lemma {:induction false} EverySetIsCanonical(data: seq<byte>, pos: nat, num: nat, n: nat)
    requires TableInRange(data, pos, num, n)
    ensures TableCanonical(ParseTable(data, pos, num, n))
  {
    if n > 0 {
      hide AddSet, NextInRange, TableCanonical;
      EverySetIsCanonical(data, pos, num, n - 1);
      AddedIsCanonical(data, ParseTable(data, pos, num, n - 1), ParseTable(data, pos, num, n), num);
    }
  }

  /** And so is the set a slice of that SPS predicts or codes itself. */
  lemma SliceSetIsCanonical(sps: seq<byte>, at: nat, num: nat, slice: seq<byte>, pos: nat)
    requires TableInRange(sps, at, num, num) && ParseTable(sps, at, num, num).Table?
    ensures var p := ParseSet(slice, pos, ParseTable(sps, at, num, num).sets, num, num);
            p.Parsed? && InRange(p) ==> Canonical(Narrow(p.wide))
  {
    EverySetIsCanonical(sps, at, num, num);
    ParsedIsCanonical(slice, pos, ParseTable(sps, at, num, num).sets, num, num);
  }

  // ---------------------------------------------------------------- the reader's code

  method ReadFlagArrays(br: BitReader, n: nat) returns (used: seq<bool>, use: seq<bool>)
    modifies br
    ensures FlagRead(used, use, br.bitPos) == ReadFlags(br.data, old(br.bitPos), n)
  {
    hide ReadU;
    used, use := [], [];
    for j := 0 to n
      invariant FlagRead(used, use, br.bitPos) == ReadFlags(br.data, old(br.bitPos), j)
    {
      var u := br.U1();
      used := used + [u != 0];
      if u != 0 {
        use := use + [true];
      } else {
        var d := br.U1();
        use := use + [d != 0];
      }
    }
  }

  method ReadDeltaArrays(br: BitReader, n: nat, sign: int)
    returns (delta: seq<int>, used: seq<bool>, ghost codes: seq<nat>)
    modifies br
    ensures DeltaRead(codes, used, br.bitPos) == ReadDeltas(br.data, old(br.bitPos), n)
    ensures |delta| == n && forall k | 0 <= k < n :: delta[k] == ToInt16(sign * Distances(codes, k + 1))
  {
    hide ReadUe, ReadU, ToInt16, ToInt32;
    delta, used, codes := [], [], [];
    var prev := 0;
    for j := 0 to n
      invariant DeltaRead(codes, used, br.bitPos) == ReadDeltas(br.data, old(br.bitPos), j)
      invariant |delta| == j && |codes| == j && prev == sign * Distances(codes, j)
      invariant forall k | 0 <= k < j :: delta[k] == ToInt16(sign * Distances(codes, k + 1))
    {
      var code := br.Ue();
      var u := br.U1();
      DistancesOfPrefix(codes, code);
      codes := codes + [code];
      var step := ToInt32(code) + 1;
      assert sign * (Distances(codes, j) + step) == sign * Distances(codes, j) + sign * step;
      prev := prev + sign * step;
      delta, used := delta + [ToInt16(prev)], used + [u != 0];
    }
  }

  lemma {:induction false} DistancesOfPrefix(codes: seq<nat>, code: nat)
    ensures forall k | 0 <= k <= |codes| :: Distances(codes + [code], k) == Distances(codes, k)
    ensures Distances(codes + [code], |codes| + 1) == Distances(codes, |codes|) + ToInt32(code) + 1
  {
    forall k | 0 <= k <= |codes| ensures Distances(codes + [code], k) == Distances(codes, k) {
      DistancesAgree(codes + [code], codes, k);
    }
  }

  lemma {:induction false} DistancesAgree(a: seq<nat>, b: seq<nat>, n: nat)
    requires n <= |b| <= |a| && forall k | 0 <= k < |b| :: a[k] == b[k]
    ensures Distances(a, n) == Distances(b, n)
  {
    if n > 0 { DistancesAgree(a, b, n - 1); }
  }

  /**
   Writes one half of a prediction from index `at` on.  The source spells the visiting order as three
   loops: one end of the reference set, the pivot, the other end.
   */
  method AppendHalf(ref: Rps, deltaRps: int, used: seq<bool>, use: seq<bool>, negative: bool,
                    pocs: array<int>, flags: array<bool>, at: nat) returns (n: nat)
    requires Shaped(ref) && |used| == |use| == |ref.delta| + 1 && pocs.Length == flags.Length == MAX_REFS + 1
    requires at + |Half(ref, deltaRps, use, negative)| <= MAX_REFS + 1
    modifies pocs, flags
    ensures var h := Half(ref, deltaRps, use, negative);
            && n == at + |h|
            && (forall k | 0 <= k < |h| :: pocs[at + k] == ToInt16(Candidate(ref, deltaRps, h[k])))
            && (forall k | 0 <= k < |h| :: flags[at + k] == used[h[k]])
            && (forall k | 0 <= k < at :: pocs[k] == old(pocs[k]) && flags[k] == old(flags[k]))
  {
    hide FallingOrder, Candidate, ToInt16, Picks, Visit, Half;
    n := at;
    NoPicks(ref, deltaRps, use, negative);
    HalfIs(ref, deltaRps, use, negative);
    ghost var h := Half(ref, deltaRps, use, negative);
    for v := 0 to |use|
      invariant n == at + |Picks(ref, deltaRps, use, negative, v)| && n - at <= |h|
      invariant forall k | 0 <= k < n - at :: pocs[at + k] == ToInt16(Candidate(ref, deltaRps, h[k]))
      invariant forall k | 0 <= k < n - at :: flags[at + k] == used[h[k]]
      invariant forall k | 0 <= k < at :: pocs[k] == old(pocs[k]) && flags[k] == old(flags[k])
    {
      PicksStep(ref, deltaRps, use, negative, v);
      var i := Visit(ref, negative, v);
      var dPoc := Candidate(ref, deltaRps, i);
      if (if negative then dPoc < 0 else dPoc > 0) && use[i] {
        pocs[n], flags[n] := ToInt16(dPoc), used[i];
        n := n + 1;
      }
    }
  }

  lemma NoPicks(ref: Rps, deltaRps: int, use: seq<bool>, negative: bool)
    requires Shaped(ref) && |use| == |ref.delta| + 1
    ensures Picks(ref, deltaRps, use, negative, 0) == []
  {}

  lemma HalfIs(ref: Rps, deltaRps: int, use: seq<bool>, negative: bool)
    requires Shaped(ref) && |use| == |ref.delta| + 1
    ensures |Half(ref, deltaRps, use, negative)| == |Picks(ref, deltaRps, use, negative, |use|)|
  {
    hide Picks, Visit;
  }

  lemma PicksStep(ref: Rps, deltaRps: int, use: seq<bool>, negative: bool, v: nat)
    requires Shaped(ref) && |use| == |ref.delta| + 1 && v < |use|
    ensures var before := Picks(ref, deltaRps, use, negative, v);
            if ChosenAt(ref, deltaRps, use, negative, v) then
              && |Picks(ref, deltaRps, use, negative, v + 1)| == |before| + 1 <= |Half(ref, deltaRps, use, negative)|
              && Half(ref, deltaRps, use, negative)[|before|] == Visit(ref, negative, v)
            else Picks(ref, deltaRps, use, negative, v + 1) == before
  {
    hide Visit, ChosenAt;
    PicksGrow(ref, deltaRps, use, negative, v + 1);
  }

  lemma {:induction false} PicksGrow(ref: Rps, deltaRps: int, use: seq<bool>, negative: bool, n: nat)
    requires Shaped(ref) && |use| == |ref.delta| + 1 && n <= |use|
    ensures Picks(ref, deltaRps, use, negative, n) <= Picks(ref, deltaRps, use, negative, |use|)
    decreases |use| - n
  {
    if n < |use| { PicksGrow(ref, deltaRps, use, negative, n + 1); }
  }

  method PredictSet(ref: Rps, deltaRps: int, used: seq<bool>, use: seq<bool>) returns (ok: bool, r: Rps)
    requires Shaped(ref) && |used| == |use| == |ref.delta| + 1
    ensures ok <==> |Predicted(ref, deltaRps, used, use).delta| <= MAX_REFS
    ensures ok ==> r == Narrow(Predicted(ref, deltaRps, used, use))
  {
    hide Half, Predicted, Narrow, Candidate, ToInt16;
    HalvesFit(ref, deltaRps, use);
    var pocs, flags := new int[MAX_REFS + 1](_ => 0), new bool[MAX_REFS + 1](_ => false);
    var nNeg := AppendHalf(ref, deltaRps, used, use, true, pocs, flags, 0);
    var n := AppendHalf(ref, deltaRps, used, use, false, pocs, flags, nNeg);
    ok := n <= MAX_REFS;
    r := Rps(nNeg, n - nNeg, pocs[..n], flags[..n]);
    PredictionStored(ref, deltaRps, used, use, r);
  }

  lemma PredictionStored(ref: Rps, deltaRps: int, used: seq<bool>, use: seq<bool>, r: Rps)
    requires Shaped(ref) && |used| == |use| == |ref.delta| + 1
    requires var neg, pos := Half(ref, deltaRps, use, true), Half(ref, deltaRps, use, false);
             && r.numNegative == |neg| && r.numPositive == |pos| && |r.delta| == |r.used| == |neg| + |pos|
             && (forall k | 0 <= k < |neg| :: r.delta[k] == ToInt16(Candidate(ref, deltaRps, neg[k])))
             && (forall k | 0 <= k < |neg| :: r.used[k] == used[neg[k]])
             && (forall k | 0 <= k < |pos| :: r.delta[|neg| + k] == ToInt16(Candidate(ref, deltaRps, pos[k])))
             && (forall k | 0 <= k < |pos| :: r.used[|neg| + k] == used[pos[k]])
    ensures var wide := Predicted(ref, deltaRps, used, use);
            |wide.delta| == |r.delta| && r == Narrow(wide)
  {
    hide Half, Candidate, ToInt16;
    var neg, pos := Half(ref, deltaRps, use, true), Half(ref, deltaRps, use, false);
    var narrow := Narrow(Predicted(ref, deltaRps, used, use));
    forall k | 0 <= k < |r.delta| ensures r.delta[k] == narrow.delta[k] && r.used[k] == narrow.used[k] {
      if k >= |neg| { assert r.delta[|neg| + (k - |neg|)] == r.delta[k] && r.used[|neg| + (k - |neg|)] == r.used[k]; }
    }
  }

  method ParseStRps(br: BitReader, table: seq<Rps>, idx: nat, num: nat) returns (ok: bool, r: Rps)
    requires idx <= |table| && AllShaped(table)
    modifies br
    ensures var p := ParseSet(br.data, old(br.bitPos), table, idx, num);
            ok == p.Parsed? && br.bitPos == p.pos && (ok ==> r == Narrow(p.wide))
  {
    hide ParseInter, ParseDirect, ReadU, Narrow;
    r := Rps(0, 0, [], []);
    var inter := 0;
    if idx != 0 { inter := br.U1(); }
    if inter != 0 {
      ok, r := ParseInterSet(br, table, idx, num);
    } else {
      ok, r := ParseDirectSet(br);
    }
  }

  method ReadInterHeadBits(br: BitReader, idx: nat, num: nat) returns (h: InterHead)
    requires 0 < idx
    modifies br
    ensures h == ReadInterHead(br.data, old(br.bitPos), idx, num) && br.bitPos == h.pos
  {
    hide ReadUe, ReadU;
    var deltaIdxMinus1 := 0;
    if idx == num { deltaIdxMinus1 := br.Ue(); }
    if deltaIdxMinus1 + 1 > idx { return NoReference(br.bitPos); }
    var sign := br.U1();
    var absMinus1 := br.Ue();
    var deltaRps := (1 - 2 * sign) * ToInt32(absMinus1 + 1);
    h := InterHead(idx - (deltaIdxMinus1 + 1), deltaRps, br.bitPos);
  }

  method ParseInterSet(br: BitReader, table: seq<Rps>, idx: nat, num: nat) returns (ok: bool, r: Rps)
    requires 0 < idx <= |table| && AllShaped(table)
    modifies br
    ensures var p := ParseInter(br.data, old(br.bitPos), table, idx, num);
            ok == p.Parsed? && br.bitPos == p.pos && (ok ==> r == Narrow(p.wide))
  {
    r := Rps(0, 0, [], []);
    var h := ReadInterHeadBits(br, idx, num);
    if h.NoReference? { return false, r; }
    var ref := table[h.refIdx];
    var used, use := ReadFlagArrays(br, |ref.delta| + 1);
    ok, r := PredictSet(ref, h.deltaRps, used, use);
  }

  method ParseDirectSet(br: BitReader) returns (ok: bool, r: Rps)
    modifies br
    ensures var p := ParseDirect(br.data, old(br.bitPos));
            ok == p.Parsed? && br.bitPos == p.pos && (ok ==> r == Narrow(p.wide))
  {
    hide ReadUe, ReadDeltas, Distances, DirectSet, Narrow, ToInt16;
    r := Rps(0, 0, [], []);
    var n := br.Ue();
    var p := br.Ue();
    if n > MAX_REFS || p > MAX_REFS || n + p > MAX_REFS { return false, r; }
    var negDelta, negUsed, negCodes := ReadDeltaArrays(br, n, -1);
    ghost var neg := DeltaRead(negCodes, negUsed, br.bitPos);
    var posDelta, posUsed, posCodes := ReadDeltaArrays(br, p, 1);
    ghost var pos := DeltaRead(posCodes, posUsed, br.bitPos);
    r := Rps(n, p, negDelta + posDelta, negUsed + posUsed);
    DirectStored(neg, pos, negDelta, posDelta);
    ok := true;
  }

  lemma DirectStored(neg: DeltaRead, pos: DeltaRead, below: seq<int>, above: seq<int>)
    requires |neg.codes| == |neg.used| == |below| && |pos.codes| == |pos.used| == |above|
    requires forall k | 0 <= k < |below| :: below[k] == ToInt16(-1 * Distances(neg.codes, k + 1))
    requires forall k | 0 <= k < |above| :: above[k] == ToInt16(1 * Distances(pos.codes, k + 1))
    ensures Rps(|below|, |above|, below + above, neg.used + pos.used) == Narrow(DirectSet(neg, pos))
  {
    hide Distances, ToInt16;
    assert below + above == Narrow(DirectSet(neg, pos)).delta;
  }

  /** The loop of `parse_sps` over its short-term sets. */
  method ParseStRpsTable(br: BitReader, num: nat) returns (ok: bool, sets: seq<Rps>)
    modifies br
    ensures var t := ParseTable(br.data, old(br.bitPos), num, num);
            if ok then t == Table(sets, br.bitPos) else t.NoTable?
  {
    hide ParseSet, Narrow;
    sets := [];
    for i := 0 to num
      invariant ParseTable(br.data, old(br.bitPos), num, i) == Table(sets, br.bitPos)
    {
      var parsed, r := ParseStRps(br, sets, i, num);
      if !parsed {
        NoTableStays(br.data, old(br.bitPos), num, i + 1, num);
        return false, sets;
      }
      sets := sets + [r];
    }
    ok := true;
  }

  lemma {:induction false} NoTableStays(data: seq<byte>, pos: nat, num: nat, n: nat, m: nat)
    requires n <= m && ParseTable(data, pos, num, n).NoTable?
    ensures ParseTable(data, pos, num, m).NoTable?
  {
    hide ParseSet;
    if n < m { NoTableStays(data, pos, num, n, m - 1); }
  }
}

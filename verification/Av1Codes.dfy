/**
 The variable-length codes of AV1 global motion (mft/av1_parser.cpp): the non-symmetric unsigned code
 (section 4.10.7 of the AV1 specification) and the signed subexponential code with a reference (sections 5.9.26 to
 5.9.29), each beside the encoder it inverts.
 */
module Av1Codes {
  import opened Bits
  import opened ShiftReaders
  import opened WrittenFields

  // ---------------------------------------------------------------- uniform

  /** How many of `n` values have the short codeword. */
  function Short(n: nat): (m: nat)
    requires n >= 1
    ensures 1 <= m && m + n == 2 * Pow2(FloorLog2(n))
  {
    2 * Pow2(FloorLog2(n)) - n
  }

  /** `br_uniform`. */
  function DecodeUniform(data: seq<byte>, c: Cursor, n: nat): (r: Got)
    ensures n > 1 ==> r.value < n
    ensures c.failed ==> r == Got(0, c)
  {
    if n <= 1 then Got(0, c.(failed := true))
    else
      var v := Take(data, c, FloorLog2(n));
      if v.value < Short(n) then v
      else
        var bit := Take(data, v.next, 1);
        Got(2 * v.value - Short(n) + bit.value, bit.next)
  }

  function UniformCode(n: nat, v: nat): seq<Field>
    requires v < n
  {
    var l, m := FloorLog2(n), Short(n);
    if v < m then [Field(v, l)] else [Field((v + m) / 2, l), Field((v + m) % 2, 1)]
  }

  /** A read succeeds with `v` exactly when the codeword of `v` stands there, and then passes just that codeword. */
  predicate Inverts(r: Got, data: seq<byte>, pos: nat, v: nat, code: seq<Field>) {
    && (!r.next.failed && r.value == v <==> Written(data, pos, code))
    && (Written(data, pos, code) ==> r.next.pos == pos + WidthOf(code))
  }

  lemma UniformInverts(data: seq<byte>, pos: nat, n: nat, v: nat)
    requires 1 < n && v < n
    ensures Inverts(DecodeUniform(data, Cursor(pos, false), n), data, pos, v, UniformCode(n, v))
  {
    hide Window, Bit, Written, WidthOf, FloorLog2;
    var l, m := FloorLog2(n), Short(n);
    if v < m { WrittenOne(data, pos, Field(v, l)); }
    else { WrittenTwo(data, pos, Field((v + m) / 2, l), Field((v + m) % 2, 1)); }
  }

  // ---------------------------------------------------------------- subexponential

  /** Width of step `i`, and the value at which the step starts. */
  function StepWidth(i: nat): nat { if i == 0 then 3 else i + 2 }

  function StepBase(i: nat): nat { if i == 0 then 0 else Pow2(i + 2) }

  lemma NextBase(i: nat)
    ensures StepBase(i + 1) == StepBase(i) + Pow2(StepWidth(i))
  {}

  predicate LastStep(n: nat, i: nat) { n < StepBase(i) + 3 * Pow2(StepWidth(i)) }

  function DecodeSteps(data: seq<byte>, c: Cursor, n: nat, i: nat): (r: Got)
    requires StepBase(i) < n
    ensures StepBase(i) <= r.value <= n
    ensures c.failed ==> r.next == c
    decreases n - StepBase(i)
  {
    NextBase(i);
    if LastStep(n, i) then
      var v := DecodeUniform(data, c, n - StepBase(i) + 1);
      Got(StepBase(i) + v.value, v.next)
    else
      var more := Take(data, c, 1);
      if more.value == 0 then
        var v := Take(data, more.next, StepWidth(i));
        Got(StepBase(i) + v.value, v.next)
      else
        DecodeSteps(data, more.next, n, i + 1)
  }

  function StepsCode(n: nat, v: nat, i: nat): seq<Field>
    requires StepBase(i) < n && StepBase(i) <= v <= n
    decreases n - StepBase(i)
  {
    NextBase(i);
    var offset := v - StepBase(i);
    if LastStep(n, i) then UniformCode(n - StepBase(i) + 1, offset)
    else if offset < Pow2(StepWidth(i)) then [Field(0, 1), Field(offset, StepWidth(i))]
    else [Field(1, 1)] + StepsCode(n, v, i + 1)
  }

  lemma {:induction false} StepsInvert(data: seq<byte>, pos: nat, n: nat, v: nat, i: nat)
    requires StepBase(i) < n && StepBase(i) <= v <= n
    ensures Inverts(DecodeSteps(data, Cursor(pos, false), n, i), data, pos, v, StepsCode(n, v, i))
    decreases n - StepBase(i)
  {
    hide Window, Bit, Written, WidthOf, DecodeUniform, UniformCode, StepBase, StepWidth, Pow2;
    NextBase(i);
    var offset := v - StepBase(i);
    if LastStep(n, i) {
      UniformInverts(data, pos, n - StepBase(i) + 1, offset);
    } else if offset < Pow2(StepWidth(i)) {
      WrittenTwo(data, pos, Field(0, 1), Field(offset, StepWidth(i)));
    } else {
      assert Pow2(1) == 2 by { Pow2Small(); }
      WrittenFirst(data, pos, Field(1, 1), StepsCode(n, v, i + 1));
      StepsInvert(data, pos + 1, n, v, i + 1);
    }
  }

  // ---------------------------------------------------------------- recentring

  /** Numbers `x` by its distance from `r`, above before below. */
  function Recenter(r: nat, x: nat): nat {
    if x > 2 * r then x else if x >= r then 2 * (x - r) else 2 * (r - x) - 1
  }

  function InvRecenter(r: nat, v: nat): nat {
    if v > 2 * r then v else if v % 2 == 1 then r - (v + 1) / 2 else r + v / 2
  }

  lemma RecenterInverts(r: nat, x: nat)
    ensures InvRecenter(r, Recenter(r, x)) == x && Recenter(r, InvRecenter(r, x)) == x
  {
    hide InvRecenter;
    if x > 2 * r {
      InvRecenterFar(r, x);
    } else {
      if x >= r { InvRecenterEven(r, x - r); } else { InvRecenterOdd(r, r - x - 1); }
      if x % 2 == 1 { InvRecenterOdd(r, x / 2); } else { InvRecenterEven(r, x / 2); }
    }
  }

  lemma InvRecenterFar(r: nat, v: nat)
    requires v > 2 * r
    ensures InvRecenter(r, v) == v
  {}

  lemma InvRecenterEven(r: nat, j: nat)
    requires j <= r
    ensures InvRecenter(r, 2 * j) == r + j
  {
    Halves(j);
  }

  lemma InvRecenterOdd(r: nat, j: nat)
    requires j < r
    ensures InvRecenter(r, 2 * j + 1) == r - j - 1
  {
    Halves(j);
  }

  /** Recentring in `0 .. n`, from the nearer end. */
  function Fold(n: nat, ref: nat, x: nat): (v: nat)
    requires ref <= n && x <= n
    ensures v <= n
  {
    if 2 * ref <= n then Recenter(ref, x) else Recenter(n - ref, n - x)
  }

  function Unfold(n: nat, ref: nat, v: nat): (x: nat)
    requires ref <= n && v <= n
    ensures x <= n
  {
    if 2 * ref <= n then InvRecenter(ref, v) else n - InvRecenter(n - ref, v)
  }

  lemma FoldInverts(n: nat, ref: nat, x: nat)
    requires ref <= n && x <= n
    ensures Unfold(n, ref, Fold(n, ref, x)) == x && Fold(n, ref, Unfold(n, ref, x)) == x
  {
    if 2 * ref <= n { RecenterInverts(ref, x); } else { RecenterInverts(n - ref, n - x); RecenterInverts(n - ref, x); }
  }

  // ---------------------------------------------------------------- signed, with a reference

  datatype GotInt = GotInt(value: int, next: Cursor)

  predicate InRange(x: int, k: nat) { 0 - Pow2(k) <= x <= Pow2(k) }

  /** `br_subexp`. */
  function DecodeSubexp(data: seq<byte>, c: Cursor, ref: int, k: nat): (r: GotInt)
    requires InRange(ref, k)
    ensures InRange(r.value, k)
    ensures c.failed ==> r.next == c
  {
    var n := 2 * Pow2(k);
    var v := DecodeSteps(data, c, n, 0);
    GotInt(Unfold(n, ref + Pow2(k), v.value) - Pow2(k), v.next)
  }

  function SubexpCode(target: int, ref: int, k: nat): seq<Field>
    requires InRange(ref, k) && InRange(target, k)
  {
    var n := 2 * Pow2(k);
    StepsCode(n, Fold(n, ref + Pow2(k), target + Pow2(k)), 0)
  }

  /** Whatever the reference, `br_subexp` returns `target` exactly where its codeword stands, and passes just that. */
  lemma SubexpInverts(data: seq<byte>, pos: nat, target: int, ref: int, k: nat)
    requires InRange(ref, k) && InRange(target, k)
    ensures var r, code := DecodeSubexp(data, Cursor(pos, false), ref, k), SubexpCode(target, ref, k);
            && (!r.next.failed && r.value == target <==> Written(data, pos, code))
            && (Written(data, pos, code) ==> r.next.pos == pos + WidthOf(code))
  {
    hide DecodeSteps, StepsCode, Written, WidthOf, Fold, Unfold;
    var n := 2 * Pow2(k);
    var v := Fold(n, ref + Pow2(k), target + Pow2(k));
    StepsInvert(data, pos, n, v, 0);
    FoldInverts(n, ref + Pow2(k), target + Pow2(k));
    FoldInverts(n, ref + Pow2(k), DecodeSteps(data, Cursor(pos, false), n, 0).value);
  }

  // ---------------------------------------------------------------- the readers

  method FloorLog(n: nat) returns (l: nat)
    requires n >= 1
    ensures l == FloorLog2(n)
  {
    l := 0;
    var tmp := n;
    while tmp > 1
      invariant tmp >= 1 && FloorLog2(n) == l + FloorLog2(tmp)
    {
      l, tmp := l + 1, tmp / 2;
    }
  }

  lemma LogBelow(n: nat, k: nat)
    requires 1 <= n < Pow2(k)
    ensures FloorLog2(n) < k && 2 * Pow2(FloorLog2(n)) <= Pow2(k)
    ensures n > 1 ==> FloorLog2(n) >= 1
  {
    if k <= FloorLog2(n) { Pow2Monotone(k, FloorLog2(n)); }
    Pow2Monotone(FloorLog2(n) + 1, k);
  }

  method ReadUniform(r: ShiftReader, n: nat) returns (v: nat)
    requires r.Valid() && n < 0x1_0000_0000
    modifies r
    ensures r.Valid() && Got(v, r.At()) == DecodeUniform(r.data, old(r.At()), n)
  {
    hide Take, FloorLog2, Pow2, Coupled;
    if n <= 1 { r.error := true; return 0; }
    Pow2Bytes();
    LogBelow(n, 32);
    var l := FloorLog(n);
    var m := Wrap32(2 * Pow2(l) - n);
    var first := r.U(l);
    if first < m { return first; }
    var bit := r.U(1);
    v := 2 * first - m + bit;
  }

  method ReadSubexpSteps(r: ShiftReader, n: nat) returns (v: nat)
    requires r.Valid() && 0 < n < 0x800_0000
    modifies r
    ensures r.Valid() && Got(v, r.At()) == DecodeSteps(r.data, old(r.At()), n, 0)
  {
    hide Take, DecodeUniform, Coupled;
    v := 0;
    var i := 0;
    while true
      invariant r.Valid() && v == StepBase(i) < n
      invariant DecodeSteps(r.data, old(r.At()), n, 0) == DecodeSteps(r.data, r.At(), n, i)
      decreases n - v
    {
      var b := if i > 0 then 3 + i - 1 else 3;
      if n < v + 3 * Pow2(b) {
        var last := ReadUniform(r, n - v + 1);
        return v + last;
      }
      StepFits(b);
      var more := r.U(1);
      if more == 0 {
        var offset := r.U(b);
        return v + offset;
      }
      NextBase(i);
      v := v + Pow2(b);
      i := i + 1;
    }
  }

  lemma StepFits(b: nat)
    requires 3 * Pow2(b) < 0x800_0000
    ensures b <= 32
  {
    Pow2Bytes();
    if b > 32 { Pow2Monotone(32, b); }
  }

  /** The callers' `k` is 8, 9 or 12, so nothing wraps. */
  method ReadSubexp(r: ShiftReader, ref: int, k: nat) returns (v: int)
    requires r.Valid() && InRange(ref, k) && Pow2(k) < 0x200_0000
    modifies r
    ensures r.Valid() && GotInt(v, r.At()) == DecodeSubexp(r.data, old(r.At()), ref, k)
  {
    hide DecodeSteps, Coupled, Pow2;
    var n, centre := 2 * Pow2(k), ref + Pow2(k);
    var u := ReadSubexpSteps(r, n);
    v := (if 2 * centre <= n then InvRecenter(centre, u) else n - InvRecenter(n - centre, u)) - Pow2(k);
  }
}

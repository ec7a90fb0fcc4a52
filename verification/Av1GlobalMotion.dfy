/**
 AV1 global motion (mft/av1_parser.cpp, section 5.9.24 of the AV1 specification): the matrices of one frame, coded
 against those a saved frame left behind, and what holds of them over runs of frames.
 */
module Av1GlobalMotion {
  import opened Bits
  import opened ShiftReaders
  import opened WrittenFields
  import opened Av1Codes

  datatype Kind = Identity | Translation | RotZoom | Affine

  datatype Matrix = Matrix(m0: int, m1: int, m2: int, m3: int, m4: int, m5: int)

  datatype Motion = Motion(kind: Kind, mat: Matrix)

  const ONE: int := 0x1_0000
  const IDENTITY_MATRIX := Matrix(0, 0, ONE, 0, 0, ONE)
  const REFS: nat := 7
  const SLOTS: nat := 8

  /** Translations within 2^22, the rest within 2^13 of the identity. */
  predicate Bounded(m: Matrix) {
    && -0x40_0000 <= m.m0 <= 0x40_0000 && -0x40_0000 <= m.m1 <= 0x40_0000
    && -0x2000 <= m.m2 - ONE <= 0x2000 && -0x2000 <= m.m3 <= 0x2000
    && -0x2000 <= m.m4 <= 0x2000 && -0x2000 <= m.m5 - ONE <= 0x2000
  }

  predicate Warps(kind: Kind) { kind == RotZoom || kind == Affine }

  function TransBits(kind: Kind, hp: bool): nat {
    if Warps(kind) then 12 else if hp then 9 else 8
  }

  function TransUnit(kind: Kind, hp: bool): nat {
    if Warps(kind) then 0x400 else if hp then 0x2000 else 0x4000
  }

  /** One call of `br_subexp`: its reference and its range. */
  datatype Arg = Arg(ref: int, k: nat)

  predicate ArgsInRange(args: seq<Arg>) { forall a | a in args :: InRange(a.ref, a.k) }

  /** The calls made for one matrix, in order. The source's arithmetic shift rounds down, as `/` does here. */
  function Args(kind: Kind, ref: Matrix, hp: bool): seq<Arg> {
    var unit, bits := TransUnit(kind, hp), TransBits(kind, hp);
    (if Warps(kind) then [Arg((ref.m2 - ONE) / 2, 12), Arg(ref.m3 / 2, 12)] else [])
    + (if kind == Affine then [Arg(ref.m4 / 2, 12), Arg((ref.m5 - ONE) / 2, 12)] else [])
    + [Arg(ref.m0 / unit, bits), Arg(ref.m1 / unit, bits)]
  }

  // ---------------------------------------------------------------- read_global_param of section 5.9.25

  /** absBits and precBits of parameter `i`. */
  function AbsBits(kind: Kind, hp: bool, i: nat): nat {
    if i < 2 && kind == Translation then 9 - (if hp then 0 else 1) else 12
  }

  function PrecBits(kind: Kind, hp: bool, i: nat): nat {
    if i >= 2 then 15 else if kind == Translation then 3 - (if hp then 0 else 1) else 6
  }

  function Param(m: Matrix, i: nat): int {
    if i == 0 then m.m0 else if i == 1 then m.m1 else if i == 2 then m.m2 else if i == 3 then m.m3
    else if i == 4 then m.m4 else m.m5
  }

  /** The parameters read, in order. */
  function Read(kind: Kind): seq<nat> {
    match kind
    case Identity => []
    case Translation => [0, 1]
    case RotZoom => [2, 3, 0, 1]
    case Affine => [2, 3, 4, 5, 0, 1]
  }

  /** 2 to the 16 less precBits. */
  function ParamUnit(kind: Kind, hp: bool, i: nat): (unit: nat)
    ensures unit > 0
  {
    Pow2(16 - PrecBits(kind, hp, i))
  }

  /** The call for parameter `i`: the diagonal ones are coded as differences from one. */
  function ParamArg(kind: Kind, prev: Matrix, hp: bool, i: nat): Arg {
    Arg(Param(prev, i) / ParamUnit(kind, hp, i) - (if i % 3 == 2 then Pow2(PrecBits(kind, hp, i)) else 0),
        AbsBits(kind, hp, i))
  }

  lemma Units()
    ensures Pow2(1) == 2 && Pow2(10) == 0x400 && Pow2(13) == 0x2000 && Pow2(14) == 0x4000 && Pow2(15) == 0x8000
  {
    Pow2Bytes();
    Pow2Small();
    Pow2Add(8, 1);
    Pow2Step(9);
    Pow2Add(10, 1);
    Pow2Step(11);
    Pow2Step(12);
    Pow2Step(13);
    Pow2Step(14);
  }

  /** The calls the parser makes are those of the syntax, in its order. */
  lemma ArgsAreSyntax(kind: Kind, prev: Matrix, hp: bool, k: nat)
    requires kind != Identity && k < |Read(kind)|
    ensures |Args(kind, prev, hp)| == |Read(kind)| && Args(kind, prev, hp)[k] == ParamArg(kind, prev, hp, Read(kind)[k])
  {
    hide Pow2;
    Units();
  }

  /** The values read, scaled back, are the parameters read. */
  lemma BuildIsSyntax(kind: Kind, hp: bool, v: seq<int>, k: nat)
    requires kind != Identity && |v| == |Read(kind)| && k < |v|
    ensures var m, i := Build(kind, hp, v), Read(kind)[k];
            Param(m, i) == v[k] * ParamUnit(kind, hp, i) + if i % 3 == 2 then 0x1_0000 else 0
  {
    hide Pow2;
    Units();
  }

  /** The parameters that are not read are those of one, or of a similarity. */
  lemma UnreadParams(kind: Kind, hp: bool, v: seq<int>)
    requires kind != Identity && |v| == |Read(kind)|
    ensures var m := Build(kind, hp, v);
            && (kind == Translation ==> m.m2 == m.m5 == 0x1_0000 && m.m3 == m.m4 == 0)
            && (kind == RotZoom ==> m.m4 == -m.m3 && m.m5 == m.m2)
  {}

  lemma BoundedArgs(kind: Kind, ref: Matrix, hp: bool)
    requires Bounded(ref)
    ensures ArgsInRange(Args(kind, ref, hp))
  {
    Powers();
  }

  lemma Powers()
    ensures Pow2(12) == 0x1000 && Pow2(9) == 0x200 && Pow2(8) == 0x100
  {
    Pow2Bytes();
    Pow2Add(8, 4);
    Pow2Add(8, 1);
  }

  function DecodeArgs(data: seq<byte>, c: Cursor, args: seq<Arg>): (r: (seq<int>, Cursor))
    requires ArgsInRange(args)
    ensures |r.0| == |args| && forall i | 0 <= i < |args| :: InRange(r.0[i], args[i].k)
    ensures c.failed ==> r.1 == c
    decreases args
  {
    if args == [] then ([], c)
    else
      var g := DecodeSubexp(data, c, args[0].ref, args[0].k);
      var rest := DecodeArgs(data, g.next, args[1..]);
      ([g.value] + rest.0, rest.1)
  }

  /** The matrix the values of the calls make. */
  function Build(kind: Kind, hp: bool, v: seq<int>): Matrix
    requires |v| == if kind == Affine then 6 else if kind == RotZoom then 4 else 2
  {
    var unit, n := TransUnit(kind, hp), |v|;
    var m2 := if Warps(kind) then ONE + 2 * v[0] else ONE;
    var m3 := if Warps(kind) then 2 * v[1] else 0;
    Matrix(v[n - 2] * unit, v[n - 1] * unit, m2, m3,
           if kind == Affine then 2 * v[2] else -m3,
           if kind == Affine then ONE + 2 * v[3] else m2)
  }

  lemma BuildIsBounded(kind: Kind, ref: Matrix, hp: bool, v: seq<int>)
    requires kind != Identity && |v| == |Args(kind, ref, hp)|
    requires forall i | 0 <= i < |v| :: InRange(v[i], Args(kind, ref, hp)[i].k)
    ensures Bounded(Build(kind, hp, v))
  {
    Powers();
    var n := |v|;
    assert InRange(v[n - 2], TransBits(kind, hp)) && InRange(v[n - 1], TransBits(kind, hp));
  }

  datatype GotMotion = GotMotion(motion: Motion, next: Cursor)

  function KindOf(rot: nat, trans: nat): Kind {
    if rot != 0 then RotZoom else if trans != 0 then Translation else Affine
  }

  /** What the one to three kind bits decide, and the cursor after them. */
  function DecodeKind(data: seq<byte>, c: Cursor): (Kind, Cursor) {
    var global := Take(data, c, 1);
    if global.value == 0 then (Identity, global.next)
    else
      var rot := Take(data, global.next, 1);
      var trans := if rot.value != 0 then rot else Take(data, rot.next, 1);
      (KindOf(rot.value, trans.value), trans.next)
  }

  /** One iteration of the global motion loop. */
  function DecodeMotion(data: seq<byte>, c: Cursor, ref: Matrix, hp: bool): (r: GotMotion)
    requires Bounded(ref)
    ensures Bounded(r.motion.mat)
  {
    var (kind, next) := DecodeKind(data, c);
    if kind == Identity then GotMotion(Motion(Identity, IDENTITY_MATRIX), next)
    else
      BoundedArgs(kind, ref, hp);
      var values := DecodeArgs(data, next, Args(kind, ref, hp));
      BuildIsBounded(kind, ref, hp, values.0);
      GotMotion(Motion(kind, Build(kind, hp, values.0)), values.1)
  }

  // ---------------------------------------------------------------- the code of a matrix

  predicate Fits(v: seq<int>, args: seq<Arg>) {
    |v| == |args| && ArgsInRange(args) && forall i | 0 <= i < |v| :: InRange(v[i], args[i].k)
  }

  function ArgsCode(v: seq<int>, args: seq<Arg>): seq<Field>
    requires Fits(v, args)
  {
    if v == [] then [] else SubexpCode(v[0], args[0].ref, args[0].k) + ArgsCode(v[1..], args[1..])
  }

  lemma {:induction false} ArgsInvert(data: seq<byte>, pos: nat, v: seq<int>, args: seq<Arg>)
    requires Fits(v, args)
    ensures var r, code := DecodeArgs(data, Cursor(pos, false), args), ArgsCode(v, args);
            && (!r.1.failed && r.0 == v <==> Written(data, pos, code))
            && (Written(data, pos, code) ==> r.1.pos == pos + WidthOf(code))
    decreases v
  {
    hide DecodeSubexp, SubexpCode, Written, WidthOf, InRange;
    WrittenNone(data, pos);
    if v != [] {
      hide DecodeArgs, ArgsCode, Fits;
      FirstArg(data, Cursor(pos, false), v, args);
      var first, rest := SubexpCode(v[0], args[0].ref, args[0].k), ArgsCode(v[1..], args[1..]);
      SubexpInverts(data, pos, v[0], args[0].ref, args[0].k);
      ArgsInvert(data, pos + WidthOf(first), v[1..], args[1..]);
      WrittenBoth(data, pos, first, rest);
    }
  }

  lemma FirstArg(data: seq<byte>, c: Cursor, v: seq<int>, args: seq<Arg>)
    requires Fits(v, args) && v != []
    ensures args != [] && InRange(v[0], args[0].k) && InRange(args[0].ref, args[0].k)
    ensures ArgsInRange(args) && ArgsInRange(args[1..]) && Fits(v[1..], args[1..])
    ensures ArgsCode(v, args) == SubexpCode(v[0], args[0].ref, args[0].k) + ArgsCode(v[1..], args[1..])
    ensures var g := DecodeSubexp(data, c, args[0].ref, args[0].k);
            var r, t := DecodeArgs(data, c, args), DecodeArgs(data, g.next, args[1..]);
            r.1 == t.1 && (r.0 == v <==> g.value == v[0] && t.0 == v[1..])
  {
    hide DecodeSubexp, SubexpCode, InRange;
    assert v == [v[0]] + v[1..];
    var g := DecodeSubexp(data, c, args[0].ref, args[0].k);
    var t := DecodeArgs(data, g.next, args[1..]);
    assert ([g.value] + t.0)[1..] == t.0 && ([g.value] + t.0)[0] == g.value;
  }

  /** Which values a matrix of this kind may carry. */
  predicate Codable(kind: Kind, ref: Matrix, hp: bool, v: seq<int>) {
    if kind == Identity then v == [] else Fits(v, Args(kind, ref, hp))
  }

  function MotionOf(kind: Kind, hp: bool, v: seq<int>): Motion
    requires |v| == match kind case Identity => 0 case Translation => 2 case RotZoom => 4 case Affine => 6
  {
    if kind == Identity then Motion(Identity, IDENTITY_MATRIX) else Motion(kind, Build(kind, hp, v))
  }

  function KindCode(kind: Kind): seq<Field> {
    match kind
    case Identity => [Field(0, 1)]
    case RotZoom => [Field(1, 1), Field(1, 1)]
    case Translation => [Field(1, 1), Field(0, 1), Field(1, 1)]
    case Affine => [Field(1, 1), Field(0, 1), Field(0, 1)]
  }

  function MotionCode(kind: Kind, ref: Matrix, hp: bool, v: seq<int>): seq<Field>
    requires Codable(kind, ref, hp, v)
  {
    KindCode(kind) + if kind == Identity then [] else ArgsCode(v, Args(kind, ref, hp))
  }

  lemma BuildInjective(kind: Kind, hp: bool, v: seq<int>, w: seq<int>)
    requires |v| == |w| == (match kind case Identity => 0 case Translation => 2 case RotZoom => 4 case Affine => 6)
    requires MotionOf(kind, hp, v) == MotionOf(kind, hp, w)
    ensures v == w
  {
    if kind != Identity {
      var unit, n := TransUnit(kind, hp), |v|;
      MulInjective(v[n - 2], w[n - 2], unit);
      MulInjective(v[n - 1], w[n - 1], unit);
    }
  }

  lemma MulInjective(a: int, b: int, unit: nat)
    requires unit > 0 && a * unit == b * unit
    ensures a == b
  {
    MulSign(a - b, unit);
    assert (a - b) * unit == a * unit - b * unit;
  }

  lemma KindInverts(data: seq<byte>, pos: nat, kind: Kind)
    ensures var r, code := DecodeKind(data, Cursor(pos, false)), KindCode(kind);
            && (!r.1.failed && r.0 == kind <==> Written(data, pos, code))
            && (Written(data, pos, code) ==> r.1.pos == pos + WidthOf(code))
  {
    hide Window, Bit, Written, WidthOf;
    var code := KindCode(kind);
    Pow2Small();
    match kind
    case Identity => WrittenOne(data, pos, code[0]);
    case RotZoom => WrittenTwo(data, pos, code[0], code[1]);
    case _ =>
      WrittenTwo(data, pos + 1, code[1], code[2]);
      WrittenFirst(data, pos, code[0], [code[1], code[2]]);
      assert code == [code[0]] + [code[1], code[2]];
  }

  /**
   A frame's matrix is decoded as the one a coder meant exactly where its code, against the same reference
   matrix, stands in the data.
   */
  lemma MotionInverts(data: seq<byte>, pos: nat, kind: Kind, ref: Matrix, hp: bool, v: seq<int>)
    requires Bounded(ref) && Codable(kind, ref, hp, v)
    ensures var r, code := DecodeMotion(data, Cursor(pos, false), ref, hp), MotionCode(kind, ref, hp, v);
            && (!r.next.failed && r.motion == MotionOf(kind, hp, v) <==> Written(data, pos, code))
            && (Written(data, pos, code) ==> r.next.pos == pos + WidthOf(code))
  {
    hide Take, Written, WidthOf, KindCode, ArgsCode, DecodeArgs, Build, Pow2;
    KindInverts(data, pos, kind);
    var r := DecodeKind(data, Cursor(pos, false));
    var head := KindCode(kind);
    if kind == Identity {
      assert MotionCode(kind, ref, hp, v) == head;
    } else {
      BoundedArgs(r.0, ref, hp);
      var args := Args(kind, ref, hp);
      WrittenBoth(data, pos, head, ArgsCode(v, args));
      ArgsInvert(data, pos + WidthOf(head), v, args);
      if r.0 == kind && DecodeMotion(data, Cursor(pos, false), ref, hp).motion == MotionOf(kind, hp, v) {
        BuildInjective(kind, hp, v, DecodeArgs(data, r.1, args).0);
      }
    }
  }

  // ---------------------------------------------------------------- runs of frames

  /** What `Av1SavedFrameState` keeps of a frame, as far as global motion goes. */
  datatype Saved = Saved(valid: bool, motions: seq<Motion>)

  datatype Primary = NoPrimary | Slot(idx: int)

  predicate AllBounded(motions: seq<Motion>) {
    |motions| == REFS && forall m | m in motions :: Bounded(m.mat)
  }

  predicate StatesOk(states: seq<Saved>) {
    |states| == SLOTS && forall s | s in states :: s.valid ==> AllBounded(s.motions)
  }

  function RefMatrix(states: seq<Saved>, primary: Primary, i: nat): (m: Matrix)
    requires StatesOk(states) && i < REFS
    ensures Bounded(m)
  {
    if primary.Slot? && 0 <= primary.idx < SLOTS && states[primary.idx].valid
    then states[primary.idx].motions[i].mat
    else IDENTITY_MATRIX
  }

  /** The reference matrix is that of the same reference in the primary frame's slot, if there is a frame in it. */
  lemma RefMatrixIs(states: seq<Saved>, idx: int, i: nat)
    requires StatesOk(states) && i < REFS
    ensures RefMatrix(states, NoPrimary, i) == Matrix(0, 0, 0x1_0000, 0, 0, 0x1_0000)
    ensures 0 <= idx < |states| ==>
              (states[idx].valid ==> RefMatrix(states, Slot(idx), i) == states[idx].motions[i].mat)
              && (!states[idx].valid ==> RefMatrix(states, Slot(idx), i) == Matrix(0, 0, 0x1_0000, 0, 0, 0x1_0000))
    ensures !(0 <= idx < |states|) ==> RefMatrix(states, Slot(idx), i) == Matrix(0, 0, 0x1_0000, 0, 0, 0x1_0000)
  {}

  /** The matrices of references `0 .. n - 1`. */
  function DecodeMotions(data: seq<byte>, c: Cursor, states: seq<Saved>, primary: Primary, hp: bool, n: nat)
    : (r: (seq<Motion>, Cursor))
    requires StatesOk(states) && n <= REFS
    ensures |r.0| == n && forall m | m in r.0 :: Bounded(m.mat)
  {
    if n == 0 then ([], c)
    else
      var before := DecodeMotions(data, c, states, primary, hp, n - 1);
      var last := DecodeMotion(data, before.1, RefMatrix(states, primary, n - 1), hp);
      (before.0 + [last.motion], last.next)
  }

  datatype Frame = Frame(inter: bool, primary: Primary, hp: bool, refresh: nat, data: seq<byte>, at: Cursor)

  /** The matrices a frame ends up with: all identities unless it is an inter or switch frame. */
  function FrameMotions(states: seq<Saved>, f: Frame): (r: (seq<Motion>, Cursor))
    requires StatesOk(states)
    ensures AllBounded(r.0)
  {
    if f.inter then DecodeMotions(f.data, f.at, states, f.primary, f.hp, REFS)
    else (seq(REFS, _ => Motion(Identity, IDENTITY_MATRIX)), f.at)
  }

  // ---------------------------------------------------------------- the code of a frame's matrices

  /** A matrix as it is coded: its kind and the values of its calls. */
  datatype Coded = Coded(kind: Kind, v: seq<int>)

  predicate AllCodable(states: seq<Saved>, primary: Primary, hp: bool, coded: seq<Coded>)
    requires StatesOk(states)
  {
    |coded| <= REFS
    && forall i: nat | i < |coded| :: Codable(coded[i].kind, RefMatrix(states, primary, i), hp, coded[i].v)
  }

  function MotionsCode(states: seq<Saved>, primary: Primary, hp: bool, coded: seq<Coded>): seq<Field>
    requires StatesOk(states) && AllCodable(states, primary, hp, coded)
  {
    if coded == [] then []
    else
      var n := |coded| - 1;
      MotionsCode(states, primary, hp, coded[..n])
      + MotionCode(coded[n].kind, RefMatrix(states, primary, n), hp, coded[n].v)
  }

  /** The motions are those coded, one by one. */
  predicate AreCoded(motions: seq<Motion>, coded: seq<Coded>, hp: bool) {
    |motions| == |coded|
    && forall i | 0 <= i < |coded| ::
         && |coded[i].v| == (match coded[i].kind case Identity => 0 case Translation => 2 case RotZoom => 4 case _ => 6)
         && motions[i] == MotionOf(coded[i].kind, hp, coded[i].v)
  }

  lemma FailedMotion(data: seq<byte>, c: Cursor, ref: Matrix, hp: bool)
    requires Bounded(ref) && c.failed
    ensures DecodeMotion(data, c, ref, hp).next.failed
  {
    hide DecodeArgs, Build, Args, Bounded;
    var (kind, next) := DecodeKind(data, c);
    if kind != Identity { BoundedArgs(kind, ref, hp); }
  }

  lemma CodableSize(kind: Kind, ref: Matrix, hp: bool, v: seq<int>)
    requires Codable(kind, ref, hp, v)
    ensures |v| == match kind case Identity => 0 case Translation => 2 case RotZoom => 4 case Affine => 6
  {}

  lemma AreCodedMore(motions: seq<Motion>, m: Motion, coded: seq<Coded>, c: Coded, hp: bool)
    requires |motions| == |coded|
    requires |c.v| == match c.kind case Identity => 0 case Translation => 2 case RotZoom => 4 case Affine => 6
    ensures AreCoded(motions + [m], coded + [c], hp)
            <==> AreCoded(motions, coded, hp) && m == MotionOf(c.kind, hp, c.v)
  {
    hide MotionOf;
    var all, ms := coded + [c], motions + [m];
    assert forall i | 0 <= i < |coded| :: all[i] == coded[i] && ms[i] == motions[i];
    assert all[|coded|] == c && ms[|coded|] == m;
  }

  lemma MotionsMore(data: seq<byte>, c: Cursor, states: seq<Saved>, primary: Primary, hp: bool, coded: seq<Coded>)
    requires StatesOk(states) && AllCodable(states, primary, hp, coded) && coded != []
    ensures |coded| <= REFS
    ensures var n := |coded| - 1;
            var before, ref := DecodeMotions(data, c, states, primary, hp, n), RefMatrix(states, primary, n);
            var last := DecodeMotion(data, before.1, ref, hp);
            && AllCodable(states, primary, hp, coded[..n]) && Codable(coded[n].kind, ref, hp, coded[n].v)
            && DecodeMotions(data, c, states, primary, hp, |coded|) == (before.0 + [last.motion], last.next)
            && MotionsCode(states, primary, hp, coded)
               == MotionsCode(states, primary, hp, coded[..n]) + MotionCode(coded[n].kind, ref, hp, coded[n].v)
  {
    hide DecodeMotion, MotionCode, Codable, StatesOk, RefMatrix;
  }

  lemma {:induction false} MotionsInvert(data: seq<byte>, pos: nat, states: seq<Saved>, primary: Primary, hp: bool,
                                         coded: seq<Coded>)
    requires StatesOk(states) && AllCodable(states, primary, hp, coded)
    ensures var r := DecodeMotions(data, Cursor(pos, false), states, primary, hp, |coded|);
            var code := MotionsCode(states, primary, hp, coded);
            && (!r.1.failed && AreCoded(r.0, coded, hp) <==> Written(data, pos, code))
            && (Written(data, pos, code) ==> r.1 == Cursor(pos + WidthOf(code), false))
    decreases |coded|
  {
    hide DecodeMotion, MotionCode, MotionOf, Written, WidthOf, Codable, AreCoded, StatesOk, RefMatrix, AllCodable;
    hide DecodeMotions, MotionsCode;
    if coded == [] {
      WrittenNone(data, pos);
      NoneCoded(data, Cursor(pos, false), states, primary, hp);
    } else {
      MotionsMore(data, Cursor(pos, false), states, primary, hp, coded);
      var n := |coded| - 1;
      var init, last, ref := coded[..n], coded[n], RefMatrix(states, primary, n);
      assert coded == init + [last];
      MotionsInvert(data, pos, states, primary, hp, init);
      CodableSize(last.kind, ref, hp, last.v);
      var before := DecodeMotions(data, Cursor(pos, false), states, primary, hp, n);
      var head := MotionsCode(states, primary, hp, init);
      AreCodedMore(before.0, DecodeMotion(data, before.1, ref, hp).motion, init, last, hp);
      WrittenBoth(data, pos, head, MotionCode(last.kind, ref, hp, last.v));
      if before.1.failed {
        FailedMotion(data, before.1, ref, hp);
      } else if Written(data, pos, head) {
        MotionInverts(data, pos + WidthOf(head), last.kind, ref, hp, last.v);
      }
    }
  }

  lemma NoneCoded(data: seq<byte>, c: Cursor, states: seq<Saved>, primary: Primary, hp: bool)
    requires StatesOk(states)
    ensures AllCodable(states, primary, hp, []) && MotionsCode(states, primary, hp, []) == []
    ensures DecodeMotions(data, c, states, primary, hp, 0) == ([], c) && AreCoded([], [], hp)
  {}

  /**
   An inter frame's seven matrices are decoded as those coded exactly where their codes stand one after the other, each
   against the matrix of the same reference in the primary frame, and just the codes are passed; any other frame has
   identities and no code.
   */
  lemma FrameInverts(states: seq<Saved>, f: Frame, coded: seq<Coded>)
    requires StatesOk(states) && !f.at.failed
    ensures !f.inter ==>
              FrameMotions(states, f) == (seq(7, _ => Motion(Identity, Matrix(0, 0, 0x1_0000, 0, 0, 0x1_0000))), f.at)
    ensures f.inter && |coded| == 7 && AllCodable(states, f.primary, f.hp, coded) ==>
              var r, code := FrameMotions(states, f), MotionsCode(states, f.primary, f.hp, coded);
              && (!r.1.failed && AreCoded(r.0, coded, f.hp) <==> Written(f.data, f.at.pos, code))
              && (Written(f.data, f.at.pos, code) ==> r.1 == Cursor(f.at.pos + WidthOf(code), false))
  {
    hide DecodeMotions, MotionsCode, AreCoded, Written, WidthOf, StatesOk, AllCodable;
    if f.inter && |coded| == 7 && AllCodable(states, f.primary, f.hp, coded) {
      MotionsInvert(f.data, f.at.pos, states, f.primary, f.hp, coded);
    }
  }

  // ---------------------------------------------------------------- the saved states

  /** `Av1UpdateSavedStates`. */
  function Updated(states: seq<Saved>, refresh: nat, motions: seq<Motion>): (r: seq<Saved>)
    ensures |r| == |states|
  {
    seq(|states|, i requires 0 <= i < |states| =>
      if refresh / Pow2(i) % 2 == 1 then Saved(true, motions) else states[i])
  }

  /** Slot `j` takes the frame exactly if bit `j` of refresh_frame_flags is set. */
  lemma SlotUpdated(states: seq<Saved>, refresh: nat, motions: seq<Motion>, j: nat)
    requires j < |states|
    ensures Updated(states, refresh, motions)[j] == if TestBit(refresh, j) then Saved(true, motions) else states[j]
  {
    hide Pow2;
    TestBitIs(refresh, j);
  }

  /** The saved states after a run of frames, from none. */
  function Run(frames: seq<Frame>): (states: seq<Saved>)
    ensures StatesOk(states)
  {
    if frames == [] then seq(SLOTS, _ => Saved(false, []))
    else
      var f := frames[|frames| - 1];
      var before := Run(frames[..|frames| - 1]);
      Updated(before, f.refresh, FrameMotions(before, f).0)
  }

  /**
   In every run of frames, each reference argument of each `br_subexp` call a next frame can make lies in the range
   the code is defined on, whichever saved frame it names as its primary reference and whatever the kind and
   precision of its own matrix.
   */
  lemma ArgumentsStayInRange(frames: seq<Frame>, primary: Primary, i: nat, kind: Kind, hp: bool)
    requires i < REFS
    ensures ArgsInRange(Args(kind, RefMatrix(Run(frames), primary, i), hp))
  {
    BoundedArgs(kind, RefMatrix(Run(frames), primary, i), hp);
  }

  /** The bounds are tight: either precision reaches 2^22, where a warped next frame's argument is its range's end. */
  lemma BoundIsReached(hp: bool)
    ensures Build(Translation, hp, [Pow2(TransBits(Translation, hp)), 0]).m0 == 0x40_0000
    ensures Args(RotZoom, Matrix(0x40_0000, 0, ONE, 0, 0, ONE), hp)[2] == Arg(Pow2(12), 12)
  {
    Powers();
  }

  // ---------------------------------------------------------------- the methods

  lemma NextArg(data: seq<byte>, c: Cursor, a: Arg, rest: seq<Arg>)
    requires ArgsInRange([a] + rest)
    ensures InRange(a.ref, a.k) && ArgsInRange(rest)
    ensures DecodeArgs(data, c, [a] + rest)
            == (var g := DecodeSubexp(data, c, a.ref, a.k);
                var t := DecodeArgs(data, g.next, rest);
                ([g.value] + t.0, t.1))
  {
    assert a in [a] + rest;
    assert forall b | b in rest :: b in [a] + rest;
    assert ([a] + rest)[1..] == rest;
  }

  predicate Prefixed(r: (seq<int>, Cursor), head: seq<int>, t: (seq<int>, Cursor)) {
    r == (head + t.0, t.1)
  }

  lemma PrefixMore(r: (seq<int>, Cursor), head: seq<int>, mid: (seq<int>, Cursor), more: seq<int>,
                   t: (seq<int>, Cursor))
    requires Prefixed(r, head, mid) && Prefixed(mid, more, t)
    ensures Prefixed(r, head + more, t)
  {
    assert head + (more + t.0) == head + more + t.0;
  }

  lemma PrefixNone(r: (seq<int>, Cursor))
    ensures Prefixed(r, [], r)
  {
    assert [] + r.0 == r.0;
  }

  lemma PrefixAll(r: (seq<int>, Cursor), v: seq<int>, c: Cursor)
    requires Prefixed(r, v, ([], c))
    ensures r == (v, c)
  {
    assert v + [] == v;
  }

  lemma TransSmall(kind: Kind, hp: bool)
    ensures Pow2(12) < 0x200_0000 && Pow2(TransBits(kind, hp)) < 0x200_0000 && TransUnit(kind, hp) > 0
  {
    Powers();
  }

  /** Two consecutive calls. */
  method ReadPair(r: ShiftReader, a: Arg, b: Arg, ghost rest: seq<Arg>) returns (u: int, v: int)
    requires r.Valid() && ArgsInRange([a, b] + rest) && Pow2(a.k) < 0x200_0000 && Pow2(b.k) < 0x200_0000
    modifies r
    ensures r.Valid() && InRange(u, a.k) && InRange(v, b.k) && ArgsInRange(rest)
    ensures Prefixed(DecodeArgs(r.data, old(r.At()), [a, b] + rest), [u, v], DecodeArgs(r.data, r.At(), rest))
  {
    hide DecodeSubexp, DecodeArgs, Coupled, InRange, Pow2;
    assert [a, b] + rest == [a] + ([b] + rest);
    NextArg(r.data, r.At(), a, [b] + rest);
    u := ReadSubexp(r, a.ref, a.k);
    NextArg(r.data, r.At(), b, rest);
    v := ReadSubexp(r, b.ref, b.k);
    assert forall t: seq<int> :: [u] + ([v] + t) == [u, v] + t;
  }

  method ReadKind(r: ShiftReader) returns (kind: Kind)
    requires r.Valid()
    modifies r
    ensures r.Valid() && (kind, r.At()) == DecodeKind(r.data, old(r.At()))
  {
    hide Take, Coupled, Pow2;
    var global := r.U(1);
    if global == 0 { return Identity; }
    var rot := r.U(1);
    if rot != 0 { return RotZoom; }
    var trans := r.U(1);
    kind := if trans != 0 then Translation else Affine;
  }

  method ReadMotion(r: ShiftReader, ref: Matrix, hp: bool) returns (m: Motion)
    requires r.Valid() && Bounded(ref)
    modifies r
    ensures r.Valid() && GotMotion(m, r.At()) == DecodeMotion(r.data, old(r.At()), ref, hp)
  {
    hide DecodeArgs, Coupled, InRange, Pow2, Bounded, Build;
    var kind := ReadKind(r);
    if kind == Identity { return Motion(Identity, IDENTITY_MATRIX); }
    BoundedArgs(kind, ref, hp);
    var mat := ReadMatrix(r, kind, ref, hp);
    m := Motion(kind, mat);
  }

  /** The calls after those for the second and third entries. */
  function MoveArgs(kind: Kind, ref: Matrix, hp: bool): (moves: seq<Arg>)
    ensures |moves| == 2
  {
    var unit, bits := TransUnit(kind, hp), TransBits(kind, hp);
    [Arg(ref.m0 / unit, bits), Arg(ref.m1 / unit, bits)]
  }

  ghost function LateArgs(kind: Kind, ref: Matrix, hp: bool): seq<Arg> {
    (if kind == Affine then [Arg(ref.m4 / 2, 12), Arg((ref.m5 - ONE) / 2, 12)] else []) + MoveArgs(kind, ref, hp)
  }

  lemma ArgsParts(kind: Kind, ref: Matrix, hp: bool)
    ensures var late := LateArgs(kind, ref, hp);
            Args(kind, ref, hp)
            == if Warps(kind) then [Arg((ref.m2 - ONE) / 2, 12), Arg(ref.m3 / 2, 12)] + late else late
    ensures var moves := MoveArgs(kind, ref, hp);
            && LateArgs(kind, ref, hp)
               == (if kind == Affine then [Arg(ref.m4 / 2, 12), Arg((ref.m5 - ONE) / 2, 12)] + moves else moves)
            && moves == [moves[0], moves[1]] + [] && moves[0].k == moves[1].k == TransBits(kind, hp)
  {}

  lemma BuildIs(kind: Kind, hp: bool, v: seq<int>, x: int, y: int)
    requires |v| == if kind == Affine then 4 else if kind == RotZoom then 2 else 0
    ensures var b, unit := Build(kind, hp, v + [x, y]), TransUnit(kind, hp);
            && b.m0 == x * unit && b.m1 == y * unit
            && b.m2 == (if Warps(kind) then ONE + 2 * v[0] else ONE) && b.m3 == (if Warps(kind) then 2 * v[1] else 0)
            && b.m4 == (if kind == Affine then 2 * v[2] else -b.m3)
            && b.m5 == (if kind == Affine then ONE + 2 * v[3] else b.m2)
  {}

  method ReadMatrix(r: ShiftReader, kind: Kind, ref: Matrix, hp: bool) returns (mat: Matrix)
    requires r.Valid() && kind != Identity && ArgsInRange(Args(kind, ref, hp))
    modifies r
    ensures r.Valid() && r.At() == DecodeArgs(r.data, old(r.At()), Args(kind, ref, hp)).1
    ensures mat == Build(kind, hp, DecodeArgs(r.data, old(r.At()), Args(kind, ref, hp)).0)
  {
    hide DecodeArgs, Coupled, InRange, Pow2, Prefixed, TransUnit, TransBits, Build;
    hide ArgsInRange, Args, LateArgs, MoveArgs;
    ghost var start, args := r.At(), Args(kind, ref, hp);
    ArgsParts(kind, ref, hp);
    TransSmall(kind, hp);
    mat := IDENTITY_MATRIX;
    var unit, moves := TransUnit(kind, hp), MoveArgs(kind, ref, hp);
    ghost var late := LateArgs(kind, ref, hp);
    ghost var values: seq<int> := [];
    ghost var all := DecodeArgs(r.data, start, args);
    PrefixNone(all);
    if kind == RotZoom || kind == Affine {
      var x, y := ReadPair(r, Arg((ref.m2 - ONE) / 2, 12), Arg(ref.m3 / 2, 12), late);
      mat := mat.(m2 := ONE + 2 * x, m3 := 2 * y);
      values := [x, y];
    }
    ghost var mid := DecodeArgs(r.data, r.At(), late);
    assert Prefixed(all, values, mid);
    if kind == Affine {
      var x, y := ReadPair(r, Arg(ref.m4 / 2, 12), Arg((ref.m5 - ONE) / 2, 12), moves);
      mat := mat.(m4 := 2 * x, m5 := ONE + 2 * y);
      PrefixMore(all, values, mid, [x, y], DecodeArgs(r.data, r.At(), moves));
      values := values + [x, y];
    } else {
      mat := mat.(m4 := -mat.m3, m5 := mat.m2);
    }
    mid := DecodeArgs(r.data, r.At(), moves);
    var x, y := ReadPair(r, moves[0], moves[1], []);
    PrefixMore(all, values, mid, [x, y], DecodeArgs(r.data, r.At(), []));
    NoArgs(r.data, r.At());
    PrefixAll(all, values + [x, y], r.At());
    BuildIs(kind, hp, values, x, y);
    mat := mat.(m0 := x * unit, m1 := y * unit);
  }

  lemma NoArgs(data: seq<byte>, c: Cursor)
    ensures DecodeArgs(data, c, []) == ([], c)
  {}

  method ReadMotions(r: ShiftReader, states: array<Saved>, f: Frame) returns (motions: seq<Motion>)
    requires r.Valid() && r.data == f.data && r.At() == f.at && StatesOk(states[..])
    modifies r
    ensures r.Valid() && (motions, r.At()) == FrameMotions(states[..], f)
  {
    hide DecodeMotion, Coupled, Bounded, Pow2;
    motions := [];
    for i := 0 to REFS
      invariant r.Valid() && StatesOk(states[..])
      invariant if f.inter
                then (motions, r.At()) == DecodeMotions(f.data, f.at, states[..], f.primary, f.hp, i)
                else r.At() == f.at && motions == seq(i, _ => Motion(Identity, IDENTITY_MATRIX))
    {
      var m := Motion(Identity, IDENTITY_MATRIX);
      if f.inter {
        var ref := IDENTITY_MATRIX;
        if f.primary.Slot? && 0 <= f.primary.idx < SLOTS && states[f.primary.idx].valid {
          assert states[..][f.primary.idx] in states[..];
          ref := states[f.primary.idx].motions[i].mat;
        }
        assert ref == RefMatrix(states[..], f.primary, i);
        m := ReadMotion(r, ref, f.hp);
      }
      motions := motions + [m];
    }
  }

  method UpdateSavedStates(states: array<Saved>, refresh: nat, motions: seq<Motion>)
    modifies states
    ensures states[..] == Updated(old(states[..]), refresh, motions)
  {
    hide Pow2;
    for i := 0 to states.Length
      invariant forall k | 0 <= k < i :: states[k] == Updated(old(states[..]), refresh, motions)[k]
      invariant forall k | i <= k < states.Length :: states[k] == old(states[k])
    {
      if refresh / Pow2(i) % 2 == 1 { states[i] := Saved(true, motions); }
    }
  }
}

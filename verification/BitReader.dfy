/**
 The positional bit reader of the H.264 and HEVC parsers (mft/parser_glue.cpp, mft/parser_glue_h265.cpp)
 and its Exp-Golomb codes (section 9.1 of ITU-T H.264, section 9.2 of ITU-T H.265).
 */
module BitReaders {
  import opened Bits

  /** The result of a read: its value, the cursor after it, and whether it latched `failed`. */
  datatype Read = Read(value: nat, pos: nat, failed: bool)

  /** `br_u`: up to `n` bits, fewer at the end of the data. */
  function ReadU(data: seq<byte>, pos: nat, n: nat): (r: Read)
    ensures r.value < Pow2(n)
  {
    var avail := if pos + n <= 8 * |data| then n else if pos < 8 * |data| then 8 * |data| - pos else 0;
    WindowBound(data, pos, avail);
    Pow2Monotone(avail, n);
    Read(Window(data, pos, avail), pos + avail, false)
  }

  /** How many zero bits stand before the next one bit, or the end. */
  function LeadingZeros(data: seq<byte>, pos: nat): (z: nat)
    ensures pos + z <= 8 * |data| || z == 0
    ensures Window(data, pos, z) == 0
    ensures pos + z < 8 * |data| ==> Bit(data, pos + z) == 1
    decreases 8 * |data| - pos
  {
    if pos >= 8 * |data| || Bit(data, pos) == 1 then 0
    else
      var z := LeadingZeros(data, pos + 1);
      WindowFirst(data, pos, z);
      z + 1
  }

  /** `br_ue`. */
  function ReadUe(data: seq<byte>, pos: nat): (r: Read)
    ensures r.value < 0xFFFF_FFFF
  {
    var zeros := LeadingZeros(data, pos);
    var after := pos + zeros + if pos + zeros < 8 * |data| then 1 else 0;
    if after >= 8 * |data| && zeros > 0 then Read(0, after, true)
    else if zeros > 31 then Read(0, after, true)
    else
      Pow2Monotone(zeros, 31);
      assert Pow2(31) == 0x8000_0000 by { Pow2Bytes(); assert Pow2(32) == 2 * Pow2(31); }
      var suffix := ReadU(data, after, zeros);
      Read(Pow2(zeros) - 1 + suffix.value, suffix.pos, false)
  }

  /** The signed value an unsigned code stands for. */
  function Signed(k: nat): int {
    if k % 2 == 1 then (k + 1) / 2 else -(k / 2)
  }

  /** The code number of a signed value (Table 9-3 of ITU-T H.264). */
  function CodeNum(v: int): nat {
    if v > 0 then 2 * v - 1 else -2 * v
  }

  lemma SignedInverts(v: int, k: nat)
    ensures Signed(CodeNum(v)) == v && CodeNum(Signed(k)) == k
  {
    hide Signed;
    if v > 0 { SignedOdd(v - 1); } else { SignedEven(-v); }
    if k % 2 == 1 { SignedOdd(k / 2); } else { SignedEven(k / 2); }
  }

  lemma SignedOdd(j: nat)
    ensures Signed(2 * j + 1) == j + 1
  {
    Halves(j);
  }

  lemma SignedEven(j: nat)
    ensures Signed(2 * j) == 0 - j
  {
    Halves(j);
  }

  /** The code of `v` with `z` leading zeros: `v + 1` in `2z + 1` bits. */
  predicate CodeAt(data: seq<byte>, pos: nat, v: nat, z: nat) {
    && pos + 2 * z + 1 <= 8 * |data|
    && Pow2(z) <= v + 1 < Pow2(z + 1)
    && Window(data, pos, 2 * z + 1) == v + 1
  }

  lemma {:induction false} ZerosBeforeOne(data: seq<byte>, pos: nat, z: nat)
    requires pos + z < 8 * |data| && Window(data, pos, z) == 0 && Bit(data, pos + z) == 1
    ensures LeadingZeros(data, pos) == z
    decreases z
  {
    hide Window, Bit, Pow2;
    if z > 0 {
      WindowFirst(data, pos, z - 1);
      ZerosBeforeOne(data, pos + 1, z - 1);
    }
  }

  /** `2z + 1` bits lie between `2^z` and `2^(z+1)` exactly when they are `z` zeros, a one and a suffix. */
  lemma CodeParts(data: seq<byte>, pos: nat, z: nat)
    ensures var w, suffix := Window(data, pos, 2 * z + 1), Window(data, pos + z + 1, z);
            && suffix < Pow2(z)
            && (Window(data, pos, z) == 0 && Bit(data, pos + z) == 1 ==> w == Pow2(z) + suffix)
            && (Pow2(z) <= w < 2 * Pow2(z) ==> Window(data, pos, z) == 0 && Bit(data, pos + z) == 1)
  {
    hide Window, Bit, Pow2;
    assert 2 * z + 1 == (z + 1) + z && pos + (z + 1) == pos + z + 1;
    WindowNext(data, pos, z);
    WindowSplit(data, pos, z + 1, z);
    WindowBound(data, pos + z + 1, z);
    HeadIsOne(Window(data, pos, z + 1), Window(data, pos + z + 1, z), Pow2(z));
  }

  lemma HeadIsOne(head: nat, low: nat, p: nat)
    requires low < p
    ensures head == 1 <==> p <= head * p + low < 2 * p
    ensures head == 1 ==> head * p == p
  {
    DivUnique(head * p + low, p, head, low);
    if p <= head * p + low < 2 * p {
      DivUnique(head * p + low, p, 1, head * p + low - p);
    }
  }

  /** `br_ue` decodes every code of 0 .. 2^32 - 2, and consumes exactly its bits. */
  lemma UeDecodesEveryCode(data: seq<byte>, pos: nat, v: nat, z: nat)
    requires CodeAt(data, pos, v, z) && v < 0xFFFF_FFFF
    ensures ReadUe(data, pos) == Read(v, pos + 2 * z + 1, false)
  {
    hide LeadingZeros, Window, Bit, Pow2;
    Pow2Step(z);
    CodeParts(data, pos, z);
    ZerosBeforeOne(data, pos, z);
    if z > 31 {
      Pow2Monotone(32, z);
      Pow2Bytes();
    }
  }

  /** What `br_ue` accepts without running off the end is the code of what it returns. */
  lemma UeReadsOnlyCodes(data: seq<byte>, pos: nat)
    requires !ReadUe(data, pos).failed
    requires pos + 2 * LeadingZeros(data, pos) + 1 <= 8 * |data|
    ensures CodeAt(data, pos, ReadUe(data, pos).value, LeadingZeros(data, pos))
  {
    hide LeadingZeros, Window, Bit, Pow2;
    CodeParts(data, pos, LeadingZeros(data, pos));
    Pow2Step(LeadingZeros(data, pos));
  }

  /** `br_u` takes as many of the `n` bits as there are, never fails, and returns them as a number. */
  lemma UReadsWhatIsLeft(data: seq<byte>, pos: nat, n: nat)
    ensures var r := ReadU(data, pos, n);
            && !r.failed && pos <= r.pos <= pos + n && (r.pos > pos ==> r.pos <= 8 * |data|)
            && (r.pos < pos + n ==> r.pos >= 8 * |data|)
            && r.value == Window(data, pos, r.pos - pos)
  {
    hide Window, Pow2;
  }

  /** The first `n` bits are zeros exactly if the one bit, if there is one, comes later. */
  lemma ZerosAre(data: seq<byte>, pos: nat, n: nat)
    requires pos + n <= 8 * |data|
    ensures Window(data, pos, n) == 0 <==> n <= LeadingZeros(data, pos)
  {
    hide LeadingZeros, Window, Bit, Pow2;
    var z := LeadingZeros(data, pos);
    if n <= z {
      WindowSplit(data, pos, n, z - n);
      Pow2Monotone(0, z - n);
      Pow2Small();
      if Window(data, pos, n) > 0 { MulSign(Window(data, pos, n), Pow2(z - n)); }
    } else {
      WindowNext(data, pos, z);
      WindowSplit(data, pos, z + 1, n - z - 1);
      Pow2Monotone(0, n - z - 1);
      Pow2Small();
    }
  }

  /**
   `br_ue` fails exactly if the next bit is a zero and either all but the last bit of the data are zeros or the next 32
   are; then it has passed the zeros, and the one after them if there is one.
   */
  lemma UeFailsIff(data: seq<byte>, pos: nat)
    ensures ReadUe(data, pos).failed
            <==> pos < 8 * |data| && Bit(data, pos) == 0
                 && (Window(data, pos, 8 * |data| - pos - 1) == 0
                     || (pos + 32 <= 8 * |data| && Window(data, pos, 32) == 0))
    ensures var r := ReadUe(data, pos);
            r.failed ==>
              && r.value == 0 && pos <= r.pos <= 8 * |data|
              && (Window(data, pos, r.pos - pos) == 1 || (Window(data, pos, r.pos - pos) == 0 && r.pos == 8 * |data|))
  {
    hide LeadingZeros, Window, Bit, Pow2, ReadU;
    var z := LeadingZeros(data, pos);
    if pos < 8 * |data| {
      FirstBit(data, pos);
      ZerosAre(data, pos, 1);
      ZerosAre(data, pos, 8 * |data| - pos - 1);
      if pos + 32 <= 8 * |data| { ZerosAre(data, pos, 32); }
      WindowNext(data, pos, z);
    } else {
      NoZeros(data, pos);
    }
  }

  lemma FirstBit(data: seq<byte>, pos: nat)
    ensures Window(data, pos, 1) == Bit(data, pos)
  {}

  lemma NoZeros(data: seq<byte>, pos: nat)
    requires pos >= 8 * |data|
    ensures LeadingZeros(data, pos) == 0
  {}

  /**
   A code that runs off the end without failing is read as if it ended there: `z` zeros, a one and as much of the suffix
   as there is. At the end itself zero is read.
   */
  lemma UeCutOff(data: seq<byte>, pos: nat, z: nat)
    requires z == LeadingZeros(data, pos) && !ReadUe(data, pos).failed && pos + 2 * z + 1 > 8 * |data|
    ensures pos >= 8 * |data| ==> ReadUe(data, pos) == Read(0, pos, false)
    ensures pos < 8 * |data| ==>
              && 0 < z <= 31 && pos + z + 1 < 8 * |data|
              && ReadUe(data, pos)
                 == Read(Pow2(z) - 1 + Window(data, pos + z + 1, 8 * |data| - pos - z - 1), 8 * |data|, false)
  {
    hide LeadingZeros, Window, Bit;
    WindowNone(data, pos);
    if pos >= 8 * |data| { NoZeros(data, pos); }
  }

  class BitReader {
    const data: seq<byte>
    var bitPos: nat
    var failed: bool

    constructor (data: seq<byte>)
      ensures this.data == data && bitPos == 0 && !failed
    {
      this.data, bitPos, failed := data, 0, false;
    }

    /** Up to 32 bits, most significant first. */
    method U(n: nat) returns (v: nat)
      requires n <= 32
      modifies this
      ensures v == ReadU(data, old(bitPos), n).value
      ensures bitPos == ReadU(data, old(bitPos), n).pos && failed == old(failed)
    {
      hide Bit, BitOr, Window, Wrap32;
      WindowNone(data, bitPos);
      v := 0;
      for i := 0 to n
        invariant bitPos == old(bitPos) + i && (i > 0 ==> bitPos <= 8 * |data|)
        invariant v == Window(data, old(bitPos), i) && failed == old(failed)
      {
        if bitPos >= 8 * |data| { return; }
        var bit := Bit(data, bitPos);
        WindowNext(data, old(bitPos), i);
        WindowBound(data, old(bitPos), i + 1);
        Pow2Monotone(i + 1, 32);
        Pow2Bytes();
        OrBit(v, bit);
        v := BitOr(Wrap32(2 * v), bit);
        bitPos := bitPos + 1;
      }
    }

    /** `br_u1`; zero at the end of the data. */
    method U1() returns (bit: nat)
      modifies this
      ensures bit == ReadU(data, old(bitPos), 1).value == Bit(data, old(bitPos)) && failed == old(failed)
      ensures bitPos == ReadU(data, old(bitPos), 1).pos == old(bitPos) + if old(bitPos) < 8 * |data| then 1 else 0
    {
      bit := U(1);
      assert Window(data, old(bitPos), 1) == Bit(data, old(bitPos));
    }

    /** Passes the zero bits and, if there is one, the one bit after them. */
    method SkipZeros() returns (zeros: nat)
      modifies this
      ensures zeros == LeadingZeros(data, old(bitPos)) && failed == old(failed)
      ensures bitPos == old(bitPos) + zeros + if old(bitPos) + zeros < 8 * |data| then 1 else 0
    {
      hide ReadU, Window, Bit, Pow2;
      zeros := 0;
      while bitPos < 8 * |data|
        invariant failed == old(failed) && bitPos == old(bitPos) + zeros
        invariant LeadingZeros(data, old(bitPos)) == zeros + LeadingZeros(data, bitPos)
        decreases 8 * |data| - bitPos
      {
        var bit := U1();
        if bit != 0 { return; }
        zeros := zeros + 1;
      }
    }

    method Ue() returns (v: nat)
      modifies this
      ensures v == ReadUe(data, old(bitPos)).value && bitPos == ReadUe(data, old(bitPos)).pos
      ensures failed == (old(failed) || ReadUe(data, old(bitPos)).failed)
    {
      hide ReadU, LeadingZeros, Window, Bit, Pow2;
      var zeros := SkipZeros();
      if bitPos >= 8 * |data| && zeros > 0 { failed := true; return 0; }
      if zeros > 31 { failed := true; return 0; }
      var suffix := U(zeros);
      v := Pow2(zeros) - 1 + suffix;
    }

    method Se() returns (v: int)
      modifies this
      ensures v == Signed(ReadUe(data, old(bitPos)).value) && bitPos == ReadUe(data, old(bitPos)).pos
      ensures failed == (old(failed) || ReadUe(data, old(bitPos)).failed)
    {
      var k := Ue();
      v := Signed(k);
    }
  }

  lemma OrBit(v: nat, bit: nat)
    requires bit <= 1 && 2 * v < 0x1_0000_0000
    ensures BitOr(Wrap32(2 * v), bit) == 2 * v + bit
  {
    assert Pow2(1) == 2;
    OrIntoClearedBits(2 * v, bit, 1);
  }
}

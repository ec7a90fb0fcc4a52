/**
 The VP9 boolean decoder of mft/vp9_bool_decoder.cpp: a 24-bit window that is renormalised lazily,
 before each bool, and refilled sixteen bits at a time.  It is proved against the bit-serial decoder
 of section 9.2 of the VP9 bitstream specification, which renormalises after each bool and reads one
 bit at a time, with zeros after the end of the data.
 */
module Vp9BoolDecoder {
  import opened Bits

  // ---------------------------------------------------------------- section 9.2, bit by bit

  /** BoolValue, BoolRange and the position of the next bit to read. */
  datatype Serial = Serial(value: nat, range: nat, next: nat)

  function SerialInit(data: seq<byte>): Serial {
    Serial(Window(data, 0, 8), 255, 8)
  }

  function SerialRenorm(data: seq<byte>, s: Serial): Serial
    decreases 128 - s.range
  {
    if s.range == 0 || s.range >= 128 then s
    else SerialRenorm(data, Serial(2 * s.value + Bit(data, s.next), 2 * s.range, s.next + 1))
  }

  function Split(range: nat, prob: byte): nat
    requires range > 0
  {
    1 + ((range - 1) * prob) / 256
  }

  lemma SplitInRange(range: nat, prob: byte)
    requires 2 <= range
    ensures 1 <= Split(range, prob) < range
  {
    var n: nat := range - 1;
    MulBelow(n, prob, 256);
    DivBelow(n * prob, 256, n);
  }

  /** The split is one more than the share `prob / 256` of the range less one, rounded down. */
  lemma SplitIsShare(range: nat, prob: byte)
    requires range > 0
    ensures 256 * (Split(range, prob) - 1) <= (range - 1) * prob < 256 * Split(range, prob)
  {
    var x := (range - 1) * prob;
    assert x == x / 256 * 256 + x % 256;
  }

  function SerialChoose(s: Serial, prob: byte): (nat, Serial)
    requires s.range >= 2
  {
    SplitInRange(s.range, prob);
    var split := Split(s.range, prob);
    if s.value >= split then
      (1, s.(value := s.value - split, range := s.range - split))
    else
      (0, s.(range := split))
  }

  function SerialBool(data: seq<byte>, s: Serial, prob: byte): (nat, Serial)
    requires s.range >= 128
  {
    var (bit, s') := SerialChoose(s, prob);
    (bit, SerialRenorm(data, s'))
  }

  /** `n` bools of probability 128, first one most significant. */
  function SerialLiteral(data: seq<byte>, s: Serial, n: nat): (r: (nat, Serial))
    requires 128 <= s.range <= 255 && s.value < s.range
    ensures 128 <= r.1.range <= 255 && r.1.value < r.1.range && r.0 < Pow2(n)
  {
    if n == 0 then (0, s)
    else
      var (v, s') := SerialLiteral(data, s, n - 1);
      SerialBoolKeeps(data, s', 128);
      var (bit, s'') := SerialBool(data, s', 128);
      (2 * v + bit, s'')
  }

  // ---------------------------------------------------------------- renormalisation in one step

  /** The source's `kNormShift` table. */
  function NormShift(range: nat): (shift: nat)
    requires range < 256
    ensures shift <= 7
    ensures range > 0 ==> 128 <= range * Pow2(shift) <= 255
  {
    assert Pow2(0) == 1 && Pow2(1) == 2 && Pow2(2) == 4 && Pow2(3) == 8;
    assert Pow2(4) == 16 && Pow2(5) == 32 && Pow2(6) == 64 && Pow2(7) == 128;
    if range == 0 then 0
    else if range < 2 then 7
    else if range < 4 then 6
    else if range < 8 then 5
    else if range < 16 then 4
    else if range < 32 then 3
    else if range < 64 then 2
    else if range < 128 then 1
    else 0
  }

  lemma {:induction false} RenormInOneStep(data: seq<byte>, v: nat, range: nat, next: nat, shift: nat)
    requires range > 0 && 128 <= range * Pow2(shift) <= 255
    ensures SerialRenorm(data, Serial(v, range, next))
         == Serial(v * Pow2(shift) + Window(data, next, shift), range * Pow2(shift), next + shift)
    decreases shift
  {
    hide Window, Bit, Pow2, SerialRenorm;
    if shift == 0 {
      Pow2Small();
      WindowNone(data, next);
      RenormEnds(data, Serial(v, range, next));
    } else {
      var b, p := Bit(data, next), Pow2(shift - 1);
      Pow2Step(shift - 1);
      Doubling(range, p);
      Doubling(v, p);
      RenormOnce(data, Serial(v, range, next));
      RenormInOneStep(data, 2 * v + b, 2 * range, next + 1, shift - 1);
      WindowFirst(data, next, shift - 1);
      Distribute(2 * v, b, p);
    }
  }

  lemma RenormEnds(data: seq<byte>, s: Serial)
    requires s.range >= 128
    ensures SerialRenorm(data, s) == s
  {}

  lemma RenormOnce(data: seq<byte>, s: Serial)
    requires 0 < s.range < 128
    ensures SerialRenorm(data, s)
         == SerialRenorm(data, Serial(2 * s.value + Bit(data, s.next), 2 * s.range, s.next + 1))
  {}

  /** The serial decoder keeps BoolRange in 128..255 and BoolValue below it. */
  lemma SerialBoolKeeps(data: seq<byte>, s: Serial, prob: byte)
    requires 128 <= s.range <= 255 && s.value < s.range
    ensures var (bit, s') := SerialBool(data, s, prob);
            bit <= 1 && 128 <= s'.range <= 255 && s'.value < s'.range
  {
    SplitInRange(s.range, prob);
    var t := SerialChoose(s, prob).1;
    RenormKeeps(data, t);
  }

  lemma RenormKeeps(data: seq<byte>, t: Serial)
    requires 0 < t.range <= 255 && t.value < t.range
    ensures var s := SerialRenorm(data, t); 128 <= s.range <= 255 && s.value < s.range
  {
    var shift := NormShift(t.range);
    RenormInOneStep(data, t.value, t.range, t.next, shift);
    WindowBound(data, t.next, shift);
    Distribute(t.value, t.range - t.value, Pow2(shift));
    MulSign(t.range - t.value, Pow2(shift));
  }

  // ---------------------------------------------------------------- the windowed decoder's arithmetic

  function ByteAt(data: seq<byte>, i: nat): nat {
    if i < |data| then data[i] else 0
  }

  /** `rb16` at byte `pos`; a short read is padded with zeros. */
  function Rb16(data: seq<byte>, pos: nat): nat {
    ByteAt(data, pos) * 256 + ByteAt(data, pos + 1)
  }

  /** `rb24` at the start of the buffer; a short read is padded with zeros. */
  function Rb24(data: seq<byte>): nat {
    ByteAt(data, 0) * 65536 + Rb16(data, 1)
  }

  lemma Rb16IsWindow(data: seq<byte>, pos: nat)
    ensures Rb16(data, pos) == Window(data, 8 * pos, 16) < 65536
  {
    hide Window, Pow2;
    WindowSplit(data, 8 * pos, 8, 8);
    WindowByte(data, pos);
    WindowByte(data, pos + 1);
    Pow2Bytes();
  }

  lemma Rb24IsWindow(data: seq<byte>)
    ensures Rb24(data) == Window(data, 0, 24)
  {
    hide Window, Pow2;
    WindowSplit(data, 0, 8, 16);
    WindowByte(data, 0);
    Rb16IsWindow(data, 1);
    Pow2Bytes();
  }

  /** Shifting the window left brings in only bits that were already fetched. */
  lemma ShiftWindow(fetched: seq<byte>, value: nat, hi: nat, at: nat, shift: nat)
    requires 8 * |fetched| <= at + 16
    requires value % 65536 == Window(fetched, at, 16)
    requires hi == (value / 65536) * Pow2(shift)
    ensures value * Pow2(shift) == hi * 65536 + Window(fetched, at, shift + 16)
  {
    hide Window, Pow2;
    WindowSplit(fetched, at, 16, shift);
    WindowPastEnd(fetched, at + 16, shift);
    ShiftNumber(value, value / 65536, value % 65536, Pow2(shift));
  }

  lemma ShiftNumber(value: nat, top: nat, low: nat, p: nat)
    requires value == top * 65536 + low
    ensures value * p == (top * p) * 65536 + low * p
  {
    Distribute(top * 65536, low, p);
  }

  /** The refill: the next sixteen bits or-ed in above the `left` still empty low bits. */
  function Filled(data: seq<byte>, pos: nat, value: nat, left: nat): nat {
    BitOr(value, Wrap32(Rb16(data, pos) * Pow2(left)))
  }

  /** After the shift, refilled bits land just below the bits fetched before. */
  lemma RefillWindow(data: seq<byte>, pos: nat, pos': nat, g: nat, hi: nat, value: nat, at: nat, k: nat, left: nat)
    requires pos <= pos' <= |data| && (pos' == pos + 2 || pos' == |data| <= pos + 2)
    requires at + k == 8 * pos && left <= 6
    requires hi == g * Pow2(left)
    requires value == hi * 65536 + Window(data[..pos], at, k + (16 + left))
    ensures Filled(data, pos, value, left) == hi * 65536 + Window(data[..pos'], at, k + (16 + left))
  {
    hide Window, Pow2, BitOr, Rb16, Wrap32;
    RefilledHalf(data, pos, pos', at, k, left);
    WindowPastEnd(data[..pos], at + k, 16 + left);
    WindowSplit(data[..pos], at, k, 16 + left);
    WindowSplit(data[..pos'], at, k, 16 + left);
    Rb16IsWindow(data, pos);
    var w := Window(data[..pos], at, k);
    Gather(g, hi, Pow2(left), w, Pow2(16 + left), left);
    OrFreshBits(value, Rb16(data, pos), g + w, left);
  }

  lemma OrFreshBits(value: nat, loaded: nat, z: nat, left: nat)
    requires loaded < 65536 && left <= 6
    requires value == Pow2(16 + left) * z
    ensures BitOr(value, Wrap32(loaded * Pow2(left))) == value + loaded * Pow2(left)
  {
    hide Pow2, BitOr;
    FreshBitsFit(loaded, left);
    MultipleMod(Pow2(16 + left), z);
    OrIntoClearedBits(value, loaded * Pow2(left), 16 + left);
  }

  lemma Gather(g: nat, hi: nat, q: nat, w: nat, p: nat, left: nat)
    requires hi == g * q && q == Pow2(left) && p == Pow2(16 + left)
    ensures hi * 65536 + w * p == p * (g + w)
  {
    hide Pow2;
    Pow2Bytes();
    Pow2Add(16, left);
    GatherNumber(g, q, w, p);
  }

  lemma GatherNumber(g: nat, q: nat, w: nat, p: nat)
    requires p == 65536 * q
    ensures (g * q) * 65536 + w * p == p * (g + w)
  {
    Distribute(g, w, p);
    assert g * p == (g * q) * 65536;
  }

  lemma SplitPower(top: nat, k: nat, left: nat)
    ensures top * Pow2(k + left) == (top * Pow2(k)) * Pow2(left)
  {
    Pow2Add(k, left);
    Associate(top, Pow2(k), Pow2(left));
  }

  lemma FreshBitsFit(loaded: nat, left: nat)
    requires loaded < 65536 && left <= 6
    ensures loaded * Pow2(left) < Pow2(16 + left) <= 0x40_0000
  {
    Pow2Bytes();
    Pow2Add(16, left);
    Pow2Monotone(left, 6);
    assert Pow2(6) == 64;
    MulBelow(Pow2(left), loaded, 65536);
  }

  lemma RefilledHalf(data: seq<byte>, pos: nat, pos': nat, at: nat, k: nat, left: nat)
    requires pos <= pos' <= |data| && (pos' == pos + 2 || pos' == |data| <= pos + 2)
    requires at + k == 8 * pos
    ensures Window(data[..pos'], at, k) == Window(data[..pos], at, k)
    ensures Window(data[..pos'], 8 * pos, 16 + left) == Rb16(data, pos) * Pow2(left)
  {
    hide Window, Pow2, Rb16;
    WindowOfPrefix(data, pos', at, k);
    WindowOfPrefix(data, pos, at, k);
    WindowSplit(data[..pos'], 8 * pos, 16, left);
    WindowPastEnd(data[..pos'], 8 * pos + 16, left);
    WindowOfPrefix(data, pos', 8 * pos, 16);
    Rb16IsWindow(data, pos);
  }

  /** The low sixteen bits of a value, and the rest, once it is written as a window. */
  lemma SplitTop(data: seq<byte>, value: nat, hi: nat, at: nat, shift: nat)
    requires value == hi * 65536 + Window(data, at, shift + 16)
    ensures value / 65536 == hi + Window(data, at, shift)
    ensures value % 65536 == Window(data, at + shift, 16)
  {
    hide Window, Pow2;
    WindowSplit(data, at, shift, 16);
    WindowBound(data, at + shift, 16);
    Pow2Bytes();
    DivUnique(value, 65536, hi + Window(data, at, shift), Window(data, at + shift, 16));
  }

  /** A left shift never leaves the 24 bits of the window. */
  lemma ShiftBound(value: nat, range: nat, shift: nat)
    requires 0 < range <= 255 && shift == NormShift(range)
    requires value < 0x100_0000 && (value < range * 65536 || range == 255)
    ensures value * Pow2(shift) < 0x100_0000
  {
    if value < range * 65536 {
      ScaleBelow(value, range, Pow2(shift));
    } else {
      assert shift == 0;
    }
  }

  lemma ScaleBelow(value: nat, range: nat, p: nat)
    requires p > 0 && value < range * 65536
    ensures value * p < range * p * 65536
  {
    MulBelow(p, value, range * 65536);
    assert p * (range * 65536) == range * p * 65536;
  }

  // ---------------------------------------------------------------- the coupling

  /**
   Couples the window to the data: below the top byte lie the next sixteen bits of what has been
   fetched, and while data remains at least one of them is real.  `shifted` counts the left shifts
   made so far.
   */
  ghost predicate Coupled(data: seq<byte>, pos: nat, value: nat, range: nat, bitsLeft: int, shifted: nat) {
    && 1 <= range <= 255 && value < 0x100_0000
    && (value < range * 65536 || range == 255)
    && pos <= |data| && 8 * pos <= shifted + 24
    && value % 65536 == Window(data[..pos], shifted + 8, 16)
    && (pos < |data| ==> bitsLeft == shifted + 8 - 8 * pos && -16 <= bitsLeft < 0)
  }

  function Fetch(data: seq<byte>, pos: nat): nat {
    if pos + 2 <= |data| then pos + 2 else |data|
  }

  function ShiftLeft(value: nat, shift: nat): nat {
    Wrap32(value * Pow2(shift))
  }

  /** The first half of `decode_bool` on values: where the window and the cursor go. */
  function Renormalised(data: seq<byte>, pos: nat, value: nat, bitsLeft: int, shift: nat): (nat, nat) {
    var value := ShiftLeft(value, shift);
    if bitsLeft + shift >= 0 && pos < |data| then
      (Fetch(data, pos), Filled(data, pos, value, bitsLeft + shift))
    else
      (pos, value)
  }

  lemma RenormalisedWindow(data: seq<byte>, pos: nat, value: nat, hi: nat, range: nat, bitsLeft: int, shifted: nat)
    requires Coupled(data, pos, value, range, bitsLeft, shifted)
    requires hi == value / 65536 * Pow2(NormShift(range))
    ensures var shift := NormShift(range);
            var (pos', value') := Renormalised(data, pos, value, bitsLeft, shift);
            && pos' <= |data| && 8 * pos' <= shifted + shift + 24
            && (shifted + 8 + shift <= 8 * pos' || pos' == |data|)
            && value' == hi * 65536 + Window(data[..pos'], shifted + 8, shift + 16)
  {
    hide Window, Pow2, NormShift, Filled;
    var shift, at := NormShift(range), shifted + 8;
    ShiftWindow(data[..pos], value, hi, at, shift);
    ShiftBound(value, range, shift);
    var left := bitsLeft + shift;
    if left >= 0 && pos < |data| {
      var k := 8 * pos - at;
      assert shift == k + left && shift + 16 == k + (16 + left);
      SplitPower(value / 65536, k, left);
      var v := value * Pow2(shift);
      RefillWindow(data, pos, Fetch(data, pos), value / 65536 * Pow2(k), hi, v, at, k, left);
    }
  }

  /** Lazy renormalisation ends where the serial decoder's renormalisation ended. */
  lemma RenormalisedIsSerial(data: seq<byte>, pos: nat, value: nat, range: nat, bitsLeft: int, shifted: nat)
    requires Coupled(data, pos, value, range, bitsLeft, shifted)
    ensures var shift := NormShift(range);
            var (pos', value') := Renormalised(data, pos, value, bitsLeft, shift);
            && pos' <= |data| && 8 * pos' <= shifted + shift + 24
            && value' % 65536 == Window(data[..pos'], shifted + shift + 8, 16)
            && Serial(value' / 65536, range * Pow2(shift), shifted + shift + 8)
            == SerialRenorm(data, Serial(value / 65536, range, shifted + 8))
  {
    hide Window, Pow2, NormShift, Renormalised, SerialRenorm;
    var shift, top := NormShift(range), value / 65536;
    var (pos', value') := Renormalised(data, pos, value, bitsLeft, shift);
    var hi := top * Pow2(shift);
    RenormalisedWindow(data, pos, value, hi, range, bitsLeft, shifted);
    SerialFromWindow(data, pos', value', top, hi, range, shifted + 8, shift);
  }

  lemma SerialFromWindow(data: seq<byte>, pos: nat, value: nat, top: nat, hi: nat, range: nat, at: nat, shift: nat)
    requires pos <= |data| && (at + shift <= 8 * pos || pos == |data|)
    requires range > 0 && 128 <= range * Pow2(shift) <= 255
    requires hi == top * Pow2(shift) && value == hi * 65536 + Window(data[..pos], at, shift + 16)
    ensures value % 65536 == Window(data[..pos], at + shift, 16)
    ensures Serial(value / 65536, range * Pow2(shift), at + shift) == SerialRenorm(data, Serial(top, range, at))
  {
    hide Window, Pow2, SerialRenorm;
    SplitTop(data[..pos], value, hi, at, shift);
    WindowOfPrefix(data, pos, at, shift);
    RenormInOneStep(data, top, range, at, shift);
  }

  /** The coupling survives renormalisation and refill, and so does being in range. */
  lemma RenormalisedCoupled(data: seq<byte>, pos: nat, value: nat, range: nat, bitsLeft: int, shifted: nat)
    requires Coupled(data, pos, value, range, bitsLeft, shifted)
    ensures var shift := NormShift(range);
            var (pos', value') := Renormalised(data, pos, value, bitsLeft, shift);
            var refill := bitsLeft + shift >= 0 && pos < |data|;
            && Coupled(data, pos', value', range * Pow2(shift),
                       bitsLeft + shift - (if refill then 16 else 0), shifted + shift)
            && (value < range * 65536 ==> value' < range * Pow2(shift) * 65536)
  {
    RenormalisedIsSerial(data, pos, value, range, bitsLeft, shifted);
    if value < range * 65536 {
      RenormKeeps(data, Serial(value / 65536, range, shifted + 8));
    } else {
      assert NormShift(range) == 0 && Pow2(0) == 1;
    }
  }

  lemma CoupledBounds(data: seq<byte>, pos: nat, value: nat, range: nat, bitsLeft: int, shifted: nat)
    requires Coupled(data, pos, value, range, bitsLeft, shifted)
    ensures 1 <= range <= 255 && pos <= |data|
    ensures value < range * 65536 ==> value / 65536 < range
  {
    hide Window;
  }

  /** Comparing the window with `split << 16` compares its top byte with `split`. */
  lemma ChooseInWindow(value: nat, split: nat)
    ensures value >= split * 65536 <==> value / 65536 >= split
    ensures value >= split * 65536 ==> (value - split * 65536) / 65536 == value / 65536 - split
    ensures value >= split * 65536 ==> (value - split * 65536) % 65536 == value % 65536
  {}

  /** Either choice leaves the window coupled. */
  lemma ChosenCoupled(data: seq<byte>, pos: nat, value: nat, range: nat, bitsLeft: int, shifted: nat, split: nat)
    requires Coupled(data, pos, value, range, bitsLeft, shifted) && 1 <= split < range
    ensures value < split * 65536 ==> Coupled(data, pos, value, split, bitsLeft, shifted)
    ensures split * 65536 <= value < range * 65536 ==>
              Coupled(data, pos, value - split * 65536, range - split, bitsLeft, shifted)
  {
    hide Window;
    ChooseInWindow(value, split);
  }

  // ---------------------------------------------------------------- the class

  class BoolDecoder {
    var data: seq<byte>
    var pos: nat
    var value: nat
    var range: nat
    var bitsLeft: int
    var error: bool
    ghost var shifted: nat

    ghost predicate Valid()
      reads this
    {
      error || (Coupled(data, pos, value, range, bitsLeft, shifted) && value < range * 65536)
    }

    /** The serial decoder this state stands for: the pending renormalisation done. */
    ghost function Abs(): Serial
      reads this
    {
      SerialRenorm(data, Serial(value / 65536, range, shifted + 8))
    }

    /** Reading can start exactly on three bytes or more whose marker bit is zero. */
    constructor Init(buf: seq<byte>)
      ensures Valid() && data == buf
      ensures !error <==> |buf| >= 3 && buf[0] < 128
      ensures !error ==> (0, Abs()) == SerialBool(buf, SerialInit(buf), 128)
    {
      data, range, bitsLeft, shifted := buf, 255, -16, 0;
      value := Rb24(buf);
      if |buf| < 3 {
        pos, error := |buf|, true;
      } else {
        pos, error := 3, false;
      }
      new;
      if !error {
        Rb24IsWindow(buf);
        WindowOfPrefix(buf, 3, 0, 24);
        SplitTop(data[..3], value, 0, 0, 8);
        WindowOfPrefix(buf, 3, 0, 8);
        WindowByte(buf, 0);
        assert value / 65536 == buf[0];
      }
      var marker := DecodeBool(128);
      if marker != 0 { error := true; }
    }

    /** Returns the bool of the serial decoder, and stands for its next state. */
    method DecodeBool(prob: byte) returns (bit: nat)
      requires error || Coupled(data, pos, value, range, bitsLeft, shifted)
      modifies this
      ensures data == old(data) && error == old(error)
      ensures old(Valid()) ==> Valid()
      ensures error ==> bit == 0
      ensures !error ==> old(Abs()).range >= 128 && (bit, Abs()) == SerialBool(data, old(Abs()), prob)
    {
      hide Coupled, SerialRenorm, Split;
      if error { return 0; }
      RenormaliseAndRefill();
      CoupledBounds(data, pos, value, range, bitsLeft, shifted);
      var split := Split(range, prob);
      SplitInRange(range, prob);
      ChosenCoupled(data, pos, value, range, bitsLeft, shifted, split);
      ChooseInWindow(value, split);
      var lowShift := split * 65536;
      if value >= lowShift {
        bit := 1;
        range := range - split;
        value := value - lowShift;
      } else {
        bit := 0;
        range := split;
      }
    }

    /** First half of `decode_bool`: afterwards the top byte is BoolValue. */
    method RenormaliseAndRefill()
      requires Coupled(data, pos, value, range, bitsLeft, shifted)
      modifies this
      ensures Coupled(data, pos, value, range, bitsLeft, shifted)
      ensures data == old(data) && error == old(error)
      ensures 128 <= range
      ensures old(value < range * 65536) ==> value < range * 65536
      ensures Serial(value / 65536, range, shifted + 8) == old(Abs())
    {
      hide Coupled, Filled, Fetch, NormShift, Pow2, SerialRenorm, ShiftLeft;
      CoupledBounds(data, pos, value, range, bitsLeft, shifted);
      var shift := NormShift(range);
      RenormalisedIsSerial(data, pos, value, range, bitsLeft, shifted);
      RenormalisedCoupled(data, pos, value, range, bitsLeft, shifted);
      range := range * Pow2(shift);
      value := ShiftLeft(value, shift);
      bitsLeft := bitsLeft + shift;
      shifted := shifted + shift;
      if bitsLeft >= 0 && pos < |data| {
        value := Filled(data, pos, value, bitsLeft);
        pos := Fetch(data, pos);
        bitsLeft := bitsLeft - 16;
      }
    }

    /** `n` bools of probability 128; at most 31, which is what the C `int` result holds. */
    method DecodeLiteral(n: nat) returns (v: nat)
      requires Valid() && n <= 31
      modifies this
      ensures Valid() && data == old(data) && error == old(error)
      ensures error ==> v == 0
      ensures !error ==> 128 <= old(Abs()).range <= 255 && old(Abs()).value < old(Abs()).range
      ensures !error ==> (v, Abs()) == SerialLiteral(data, old(Abs()), n)
    {
      hide Coupled, SerialBool, SerialRenorm, Pow2;
      v := 0;
      if !error {
        CoupledBounds(data, pos, value, range, bitsLeft, shifted);
        RenormKeeps(data, Serial(value / 65536, range, shifted + 8));
      }
      for i := 0 to n
        invariant Valid() && data == old(data) && error == old(error)
        invariant error ==> v == 0
        invariant !error ==> (v, Abs()) == SerialLiteral(data, old(Abs()), i)
      {
        var bit := DecodeBool(128);
        v := 2 * v + bit;
      }
    }
  }
}

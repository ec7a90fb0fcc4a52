/**
 What the boolean decoder of section 9.2 decodes, as a code: a coder narrows an interval of numbers by every bool, in
 the proportion of its probability, and the decoder returns a list of bools exactly on the data whose first bits, read
 as a number, lie in the interval of the list.
 */
module Vp9BoolCoder {
  import opened Bits
  import opened Vp9BoolDecoder

  /** The numbers of `bits` bits from `low` up to but not including `low + range`. */
  datatype Interval = Interval(low: nat, range: nat, bits: nat)
  {
    predicate Holds(n: nat) { low <= n < low + range }
  }

  datatype Coded = Coded(bit: nat, prob: byte)

  predicate AreBits(list: seq<Coded>) { forall c | c in list :: c.bit <= 1 }

  /** A bool of probability `prob` takes its share of the interval: a zero the lower part, a one the rest. */
  function Narrow(i: Interval, c: Coded): (r: Interval)
    requires i.range >= 2
    ensures r.range > 0 && r.low >= i.low && r.low + r.range <= i.low + i.range && r.bits == i.bits
  {
    SplitInRange(i.range, c.prob);
    var share := 1 + (i.range - 1) * c.prob / 256;
    if c.bit == 0 then Interval(i.low, share, i.bits) else Interval(i.low + share, i.range - share, i.bits)
  }

  /** Further bits until the range is at least 128. */
  function Widen(i: Interval): (r: Interval)
    requires 0 < i.range <= 255
    ensures 128 <= r.range <= 255
    decreases 128 - i.range
  {
    if i.range >= 128 then i else Widen(Interval(2 * i.low, 2 * i.range, i.bits + 1))
  }

  /** The interval of a list of bools; a stream starts with the 255 lower numbers of 8 bits. */
  function Code(list: seq<Coded>): (i: Interval)
    ensures 128 <= i.range <= 255
  {
    if list == [] then Interval(0, 255, 8)
    else Widen(Narrow(Code(list[..|list| - 1]), list[|list| - 1]))
  }

  function Bools(list: seq<Coded>): (r: seq<nat>)
    ensures |r| == |list|
  {
    if list == [] then [] else Bools(list[..|list| - 1]) + [list[|list| - 1].bit]
  }

  /** The bools the decoder returns when it is called with the probabilities of the list, and its state after them. */
  function Decoded(data: seq<byte>, list: seq<Coded>): (r: (seq<nat>, Serial))
    requires Window(data, 0, 8) < 255
    ensures |r.0| == |list| && 128 <= r.1.range <= 255 && r.1.value < r.1.range
  {
    if list == [] then ([], SerialInit(data))
    else
      var before, prob := Decoded(data, list[..|list| - 1]), list[|list| - 1].prob;
      SerialBoolKeeps(data, before.1, prob);
      var (bit, s) := SerialBool(data, before.1, prob);
      (before.0 + [bit], s)
  }

  /** The decoder's state in data that the interval holds: where the number stands in it. */
  predicate Stands(data: seq<byte>, s: Serial, i: Interval) {
    && i.Holds(Window(data, 0, i.bits))
    && s == Serial(Window(data, 0, i.bits) - i.low, i.range, i.bits)
  }

  lemma DecodedMore(data: seq<byte>, list: seq<Coded>)
    requires Window(data, 0, 8) < 255 && list != []
    ensures var before, c := Decoded(data, list[..|list| - 1]), list[|list| - 1];
            && Decoded(data, list)
               == (before.0 + [SerialChoose(before.1, c.prob).0], SerialRenorm(data, SerialChoose(before.1, c.prob).1))
            && Code(list) == Widen(Narrow(Code(list[..|list| - 1]), c))
            && Bools(list) == Bools(list[..|list| - 1]) + [c.bit]
  {
    hide SerialChoose, SerialRenorm, Widen, Narrow;
  }

  lemma NothingDecoded(data: seq<byte>)
    requires Window(data, 0, 8) < 255
    ensures Decoded(data, []) == ([], Serial(Window(data, 0, 8), 255, 8))
    ensures Code([]) == Interval(0, 255, 8) && Bools([]) == []
  {}

  /** One further bit doubles the number and the interval. */
  lemma HoldsDoubled(data: seq<byte>, i: Interval)
    ensures Window(data, 0, i.bits + 1) == 2 * Window(data, 0, i.bits) + Bit(data, i.bits)
    ensures Interval(2 * i.low, 2 * i.range, i.bits + 1).Holds(Window(data, 0, i.bits + 1))
            <==> i.Holds(Window(data, 0, i.bits))
  {}

  /** Renormalising follows widening, and neither loses a number nor lets one in. */
  lemma {:induction false} WidenStands(data: seq<byte>, i: Interval)
    requires 0 < i.range <= 255
    ensures var w, n := Widen(i), Window(data, 0, i.bits);
            && (w.Holds(Window(data, 0, w.bits)) <==> i.Holds(n))
            && (i.Holds(n) ==> Stands(data, SerialRenorm(data, Serial(n - i.low, i.range, i.bits)), w))
    decreases 128 - i.range
  {
    hide Window, Bit;
    if i.range < 128 {
      HoldsDoubled(data, i);
      WidenStands(data, Interval(2 * i.low, 2 * i.range, i.bits + 1));
    }
  }

  /** The bool chosen is the one whose part holds the number. */
  lemma NarrowStands(data: seq<byte>, s: Serial, i: Interval, c: Coded)
    requires i.range >= 2 && c.bit <= 1 && Stands(data, s, i)
    ensures var r := Narrow(i, c);
            && (r.Holds(Window(data, 0, r.bits)) <==> SerialChoose(s, c.prob).0 == c.bit)
            && (SerialChoose(s, c.prob).0 == c.bit ==> Stands(data, SerialChoose(s, c.prob).1, r))
  {
    hide Window;
    SplitInRange(i.range, c.prob);
  }

  /**
   The decoder returns exactly the bools of the list if and only if the data lies in its interval; it has read just the
   interval's bits then, and its value says where in the interval they stand.
   */
  lemma {:induction false} DecodesIff(data: seq<byte>, list: seq<Coded>)
    requires Window(data, 0, 8) < 255 && AreBits(list)
    ensures var r, i := Decoded(data, list), Code(list);
            && (r.0 == Bools(list) <==> i.Holds(Window(data, 0, i.bits)))
            && (r.0 == Bools(list) ==> Stands(data, r.1, i))
  {
    hide Window, Widen, Narrow, SerialRenorm, SerialChoose, Decoded, Code, Bools;
    NothingDecoded(data);
    if list != [] {
      var init, c := list[..|list| - 1], list[|list| - 1];
      DecodesIff(data, init);
      var before, i := Decoded(data, init), Code(init);
      assert c in list && forall b | b in init :: b in list;
      WidenStands(data, Narrow(i, c));
      DecodedMore(data, list);
      SameEnds(before.0, SerialChoose(before.1, c.prob).0, Bools(init), c.bit);
      if before.0 == Bools(init) { NarrowStands(data, before.1, i, c); }
    }
  }

  lemma SameEnds(a: seq<nat>, x: nat, b: seq<nat>, y: nat)
    requires |a| == |b|
    ensures a + [x] == b + [y] <==> a == b && x == y
  {
    assert (a + [x])[..|a|] == a && (b + [y])[..|b|] == b;
    assert (a + [x])[|a|] == x && (b + [y])[|b|] == y;
  }

  // ---------------------------------------------------------------- a coder

  /** The number in `k` bytes, the first one most significant. */
  function BytesOf(n: nat, k: nat): (r: seq<byte>)
    ensures |r| == k
  {
    if k == 0 then [] else BytesOf(n / 256, k - 1) + [n % 256]
  }

  lemma {:induction false} BytesOfWindow(n: nat, k: nat)
    requires n < Pow2(8 * k)
    ensures Window(BytesOf(n, k), 0, 8 * k) == n
  {
    hide Window, Pow2;
    Pow2Small();
    WindowNone(BytesOf(n, k), 0);
    if k > 0 {
      var init := BytesOf(n / 256, k - 1);
      LessBytes(n, k);
      BytesOfWindow(n / 256, k - 1);
      assert BytesOf(n, k)[..k - 1] == init;
      WindowOfPrefix(BytesOf(n, k), k - 1, 0, 8 * (k - 1));
      WindowSplit(BytesOf(n, k), 0, 8 * (k - 1), 8);
      WindowByte(BytesOf(n, k), k - 1);
      Pow2Bytes();
    }
  }

  lemma LessBytes(n: nat, k: nat)
    requires k > 0 && n < Pow2(8 * k)
    ensures n / 256 < Pow2(8 * (k - 1))
  {
    hide Pow2;
    Pow2Bytes();
    Pow2Add(8 * (k - 1), 8);
    assert n / 256 * 256 <= n;
  }

  /** How many bytes the interval's bits take. */
  function Room(i: Interval): nat { (i.bits + 7) / 8 }

  /** A stream for a list of bools: the lower end of its interval. */
  function Encode(list: seq<Coded>): seq<byte> {
    var i := Code(list);
    BytesOf(i.low * Pow2(8 * Room(i) - i.bits), Room(i))
  }

  predicate Inside(i: Interval) { i.low + i.range <= Pow2(i.bits) }

  lemma {:induction false} WidenInside(i: Interval)
    requires 0 < i.range <= 255 && Inside(i)
    ensures Inside(Widen(i))
    decreases 128 - i.range
  {
    if i.range < 128 { WidenInside(Interval(2 * i.low, 2 * i.range, i.bits + 1)); }
  }

  lemma {:induction false} CodeInside(list: seq<Coded>)
    ensures Inside(Code(list))
  {
    hide Widen, Narrow, Pow2;
    Pow2Bytes();
    if list != [] {
      CodeInside(list[..|list| - 1]);
      WidenInside(Narrow(Code(list[..|list| - 1]), list[|list| - 1]));
    }
  }

  /** All of a list's numbers begin like a stream the decoder starts on. */
  lemma {:induction false} HeldStarts(data: seq<byte>, list: seq<Coded>)
    requires Code(list).Holds(Window(data, 0, Code(list).bits))
    ensures Window(data, 0, 8) < 255
  {
    hide Window, Widen, Narrow;
    if list != [] {
      WidenStands(data, Narrow(Code(list[..|list| - 1]), list[|list| - 1]));
      HeldStarts(data, list[..|list| - 1]);
    }
  }

  /** Any list of bools comes back from its stream, whatever follows it. */
  lemma DecodeInvertsEncode(list: seq<Coded>, rest: seq<byte>)
    requires AreBits(list)
    ensures Window(Encode(list) + rest, 0, 8) < 255 && Decoded(Encode(list) + rest, list).0 == Bools(list)
  {
    hide Window, Code, Pow2, Decoded, Bools;
    var i := Code(list);
    var data, pad := Encode(list) + rest, 8 * Room(i) - i.bits;
    CodeInside(list);
    Pow2Add(i.bits, pad);
    MulBelow(Pow2(pad), i.low, Pow2(i.bits));
    BytesOfWindow(i.low * Pow2(pad), Room(i));
    assert data[..Room(i)] == Encode(list);
    WindowOfPrefix(data, Room(i), 0, 8 * Room(i));
    WindowSplit(data, 0, i.bits, pad);
    WindowBound(data, i.bits, pad);
    DivUnique(i.low * Pow2(pad), Pow2(pad), i.low, 0);
    DivUnique(i.low * Pow2(pad), Pow2(pad), Window(data, 0, i.bits), Window(data, i.bits, pad));
    HeldStarts(data, list);
    DecodesIff(data, list);
  }
}

/**
 The least-significant-bit-first packer of the hardware tables (`BitPacker` in mft/h265_packed_tables.cpp and
 mft/h264_packed_tables.cpp): an array of 64-bit words and a cursor, against the number whose binary digits are the
 fields put so far, first field lowest.
 */
module BitPackers {
  import opened Bits

  predicate Fit(fields: seq<Field>) { forall f | f in fields :: f.value < Pow2(f.width) }

  /** The number the fields make, first field in the lowest digits. */
  function Packed(fields: seq<Field>): nat {
    if fields == [] then 0 else fields[0].value + Pow2(fields[0].width) * Packed(fields[1..])
  }

  /** The number the words of a buffer make. */
  function Value(words: seq<nat>): nat {
    if words == [] then 0 else words[0] + Pow2(64) * Value(words[1..])
  }

  /** `width` digits of `x` from digit `at` on. */
  function Digits(x: nat, at: nat, width: nat): (r: nat)
    ensures r < Pow2(width)
  {
    x / Pow2(at) % Pow2(width)
  }

  lemma {:induction false} PackedBoth(a: seq<Field>, b: seq<Field>)
    ensures Packed(a + b) == Packed(a) + Pow2(WidthOf(a)) * Packed(b)
    ensures WidthOf(a + b) == WidthOf(a) + WidthOf(b)
    decreases a
  {
    hide Pow2;
    if a == [] {
      assert a + b == b;
      Pow2Small();
    } else {
      PackedBoth(a[1..], b);
      assert (a + b)[1..] == a[1..] + b;
      var p, q := Pow2(a[0].width), Pow2(WidthOf(a[1..]));
      Pow2Add(a[0].width, WidthOf(a[1..]));
      DistributeOver(p, Packed(a[1..]), q, Packed(b));
    }
  }

  lemma DistributeOver(p: nat, x: nat, q: nat, y: nat)
    ensures p * (x + q * y) == p * x + (p * q) * y
  {
    assert p * (q * y) == (p * q) * y;
  }

  lemma {:induction false} PackedBound(fields: seq<Field>)
    requires Fit(fields)
    ensures Packed(fields) < Pow2(WidthOf(fields))
    decreases fields
  {
    hide Pow2;
    if fields == [] {
      Pow2Small();
    } else {
      assert forall f | f in fields[1..] :: f in fields;
      PackedBound(fields[1..]);
      Pow2Add(fields[0].width, WidthOf(fields[1..]));
      Carry(fields[0].value, Pow2(fields[0].width), Packed(fields[1..]), Pow2(WidthOf(fields[1..])));
    }
  }

  /** A field comes back out of the digits at its offset, whatever stands before and after it. */
  lemma FieldComesBack(a: seq<Field>, f: Field, b: seq<Field>)
    requires Fit(a) && f.value < Pow2(f.width)
    ensures Digits(Packed(a + [f] + b), WidthOf(a), f.width) == f.value
  {
    hide Pow2, Packed, WidthOf;
    assert a + [f] + b == a + ([f] + b);
    PackedBoth(a, [f] + b);
    PackedBoth([f], b);
    PackedOne(f);
    PackedBound(a);
    var high := Packed([f] + b);
    DivUnique(Packed(a + ([f] + b)), Pow2(WidthOf(a)), high, Packed(a));
    DivUnique(high, Pow2(f.width), Packed(b), f.value);
  }

  lemma PackedOne(f: Field)
    ensures Packed([f]) == f.value && WidthOf([f]) == f.width
  {}

  /** `v << bit` on 64-bit words, and what a mask and a right shift keep of a number. */
  function Shl(v: nat, bit: nat): nat { Wrap64(v * Pow2(bit)) }

  function Low(v: nat, n: nat): (r: nat)
    ensures r < Pow2(n)
  {
    v % Pow2(n)
  }

  function High(v: nat, n: nat): nat {
    DivNat(v, Pow2(n));
    v / Pow2(n)
  }

  // ---------------------------------------------------------------- words

  /** Every word is a `uint64_t`. */
  predicate WordsOk(words: seq<nat>) { forall i | 0 <= i < |words| :: words[i] < 0x1_0000_0000_0000_0000 }

  lemma Pow2Word()
    ensures Pow2(64) == 0x1_0000_0000_0000_0000
  {
    Pow2Bytes();
    Pow2Add(32, 32);
  }

  lemma {:induction false} ValueUpdate(words: seq<nat>, i: nat, x: nat)
    requires i < |words|
    ensures Value(words[i := x]) == Value(words) + (x - words[i]) * Pow2(64 * i)
  {
    hide Pow2;
    if i == 0 {
      Pow2Small();
      assert words[0 := x][1..] == words[1..];
    } else {
      ValueUpdate(words[1..], i - 1, x);
      assert words[i := x][1..] == words[1..][i - 1 := x];
      Pow2Add(64, 64 * (i - 1));
      Regroup(Pow2(64), Value(words[1..]), x - words[i], Pow2(64 * (i - 1)));
    }
  }

  lemma Regroup(p: nat, v: nat, d: int, q: nat)
    ensures p * (v + d * q) == p * v + d * (p * q)
  {
    assert p * (d * q) == d * (p * q);
  }

  lemma {:induction false} WordBelowValue(words: seq<nat>, i: nat)
    requires i < |words|
    ensures words[i] * Pow2(64 * i) <= Value(words)
  {
    hide Pow2;
    if i == 0 {
      Pow2Small();
    } else {
      WordBelowValue(words[1..], i - 1);
      Pow2Add(64, 64 * (i - 1));
      LiftBound(Pow2(64), words[i], Pow2(64 * (i - 1)), Value(words[1..]));
    }
  }

  lemma LiftBound(p: nat, w: nat, q: nat, v: nat)
    requires w * q <= v
    ensures w * (p * q) <= p * v
  {
    MulAtMost(p, w * q, v);
    assert w * (p * q) == p * (w * q);
  }

  /** Word `i` of a buffer is digits `64 i` to `64 i + 63` of its value. */
  lemma {:induction false} WordIsDigits(words: seq<nat>, i: nat)
    requires WordsOk(words) && i < |words|
    ensures Digits(Value(words), 64 * i, 64) == words[i]
  {
    hide Pow2;
    var p, rest := Pow2(64), Value(words[1..]);
    assert p * rest == rest * p;
    Pow2Word();
    DivUnique(Value(words), p, rest, words[0]);
    if i == 0 {
      Pow2Small();
    } else {
      WordIsDigits(words[1..], i - 1);
      Pow2Add(64, 64 * (i - 1));
      DivTwice(Value(words), p, Pow2(64 * (i - 1)));
    }
  }

  lemma Cancel(a: nat, b: nat, n: nat)
    requires a * n < b * n
    ensures a < b
  {
    if a >= b { MulAtMost(n, b, a); }
  }

  /** Where the value ends, word `i` is clear from digit `bit` on. */
  lemma ClearAbove(words: seq<nat>, i: nat, bit: nat)
    requires i < |words| && Value(words) < Pow2(64 * i + bit)
    ensures words[i] < Pow2(bit)
  {
    hide Pow2, Value;
    WordBelowValue(words, i);
    Pow2Add(bit, 64 * i);
    assert 64 * i + bit == bit + 64 * i;
    Cancel(words[i], Pow2(bit), Pow2(64 * i));
  }

  // ---------------------------------------------------------------- the cursor

  /**
   The buffer is what its capacity keeps of the fields put so far; the cursor stands after them, and once they are
   more than the buffer holds it stays behind the last word.
   */
  predicate Tracks(words: seq<nat>, at: nat, bit: nat, fields: seq<Field>) {
    var end := 64 * |words|;
    && WordsOk(words) && Fit(fields) && bit < 64 && at <= |words|
    && Value(words) == Packed(fields) % Pow2(end)
    && (if at < |words| then WidthOf(fields) == 64 * at + bit else WidthOf(fields) >= end)
  }

  /** Up to the capacity nothing is lost. */
  lemma Whole(words: seq<nat>, at: nat, bit: nat, fields: seq<Field>)
    requires Tracks(words, at, bit, fields) && WidthOf(fields) <= 64 * |words|
    ensures Value(words) == Packed(fields)
  {
    hide Value, Packed, WidthOf;
    PackedBound(fields);
    Pow2Monotone(WidthOf(fields), 64 * |words|);
    DivUnique(Packed(fields), Pow2(64 * |words|), 0, Packed(fields));
  }

  lemma AppendField(fields: seq<Field>, f: Field)
    requires Fit(fields) && f.value < Pow2(f.width)
    ensures Fit(fields + [f])
    ensures WidthOf(fields + [f]) == WidthOf(fields) + f.width
    ensures Packed(fields + [f]) == Packed(fields) + f.value * Pow2(WidthOf(fields))
  {
    hide Packed, WidthOf, Pow2;
    PackedBoth(fields, [f]);
    PackedOne(f);
  }

  lemma CursorIn(words: seq<nat>, at: nat, bit: nat, fields: seq<Field>)
    requires Tracks(words, at, bit, fields)
    ensures at <= |words| && bit < 64 && Fit(fields)
    ensures at == |words| ==> forall b: nat | b < 64 :: Tracks(words, at, b, fields)
  {}

  /** Behind the last word a field changes nothing. */
  lemma PutNothing(words: seq<nat>, at: nat, bit: nat, fields: seq<Field>, f: Field)
    requires Tracks(words, at, bit, fields) && at == |words| && f.value < Pow2(f.width)
    ensures Tracks(words, at, bit, fields + [f])
  {
    hide Value, Packed, WidthOf, Pow2;
    AppendField(fields, f);
    var end := 64 * |words|;
    Pow2Add(WidthOf(fields) - end, end);
    ModAddMultiple(Packed(fields), f.value * Pow2(WidthOf(fields) - end), Pow2(end));
    Associate(f.value, Pow2(WidthOf(fields) - end), Pow2(end));
  }

  lemma ModAddMultiple(x: nat, k: nat, m: nat)
    requires m > 0
    ensures (x + k * m) % m == x % m
  {
    assert x + k * m == (x / m + k) * m + x % m;
    DivUnique(x + k * m, m, x / m + k, x % m);
  }

  /** A field of zeros moves the cursor only. */
  lemma Skipped(words: seq<nat>, at: nat, bit: nat, fields: seq<Field>, n: nat)
    requires Tracks(words, at, bit, fields)
    ensures var total := 64 * at + bit + n;
            var next := if total / 64 > |words| then |words| else total / 64;
            Tracks(words, next, total % 64, fields + [Field(0, n)])
  {
    hide Value, Packed, Pow2, WidthOf;
    AppendField(fields, Field(0, n));
    assert 0 * Pow2(WidthOf(fields)) == 0;
  }

  lemma OrAbove(w: nat, bit: nat, v: nat, n: nat)
    requires w < Pow2(bit) && v < Pow2(n) && bit + n <= 64
    ensures BitOr(w, Shl(v, bit)) == w + v * Pow2(bit) < 0x1_0000_0000_0000_0000
  {
    hide Pow2, BitOr;
    var p, q := Pow2(bit), Pow2(n);
    Pow2Add(bit, n);
    Pow2Monotone(bit + n, 64);
    Pow2Word();
    Carry(w, p, v, q);
    MultipleMod(p, v);
    OrIntoClearedBits(v * p, w, bit);
    OrCommutes(v * p, w);
  }

  lemma AddShifted(x: nat, w: nat, v: nat, p: nat, q: nat)
    requires x == w + v * p
    ensures (x - w) * q == v * (p * q)
  {
    var d := v * p;
    assert x - w == d;
    assert d * q == v * (p * q);
  }

  /** Or-ing the `n` digits `v` into word `at` from digit `bit` on. */
  lemma OrIntoWord(words: seq<nat>, at: nat, bit: nat, v: nat, n: nat)
    requires WordsOk(words) && at < |words| && bit + n <= 64 && v < Pow2(n)
    requires Value(words) < Pow2(64 * at + bit)
    ensures var x := BitOr(words[at], Shl(v, bit));
            && WordsOk(words[at := x])
            && Value(words[at := x]) == Value(words) + v * Pow2(64 * at + bit)
  {
    hide Value, Pow2, BitOr, Shl;
    ClearAbove(words, at, bit);
    OrAbove(words[at], bit, v, n);
    var x := BitOr(words[at], Shl(v, bit));
    ValueUpdate(words, at, x);
    Pow2Add(bit, 64 * at);
    assert 64 * at + bit == bit + 64 * at;
    AddShifted(x, words[at], v, Pow2(bit), Pow2(64 * at));
  }

  lemma {:induction false} OrCommutes(a: nat, b: nat)
    ensures BitOr(a, b) == BitOr(b, a)
    decreases a
  {
    if a > 0 && b > 0 { OrCommutes(a / 2, b / 2); }
  }

  lemma PutInWord(words: seq<nat>, at: nat, bit: nat, fields: seq<Field>, f: Field)
    requires Tracks(words, at, bit, fields) && at < |words| && bit + f.width <= 64 && f.value < Pow2(f.width)
    ensures var next := bit + f.width;
            Tracks(words[at := BitOr(words[at], Shl(f.value, bit))],
                    if next == 64 then at + 1 else at, next % 64, fields + [f])
  {
    hide Value, Packed, WidthOf, Pow2, BitOr, Shl;
    var end := 64 * |words|;
    Whole(words, at, bit, fields);
    PackedBound(fields);
    OrIntoWord(words, at, bit, f.value, f.width);
    AppendField(fields, f);
    PackedBound(fields + [f]);
    Pow2Monotone(WidthOf(fields + [f]), end);
    DivUnique(Packed(fields + [f]), Pow2(end), 0, Packed(fields + [f]));
  }

  function LowPart(f: Field, low: nat): Field { Field(Low(f.value, low), low) }

  function HighPart(f: Field, low: nat): Field
    requires low <= f.width
  {
    Field(High(f.value, low), f.width - low)
  }

  /** A field is its low part followed by its high part. */
  lemma FieldInTwo(words: seq<nat>, at: nat, bit: nat, fields: seq<Field>, f: Field, low: nat)
    requires low <= f.width && f.value < Pow2(f.width)
    requires Tracks(words, at, bit, fields + [LowPart(f, low)] + [HighPart(f, low)])
    requires Fit(fields)
    ensures Tracks(words, at, bit, fields + [f])
  {
    hide Value, Packed, WidthOf, Pow2;
    PartsFit(f, low);
    AppendField(fields, f);
    AppendField(fields, LowPart(f, low));
    AppendField(fields + [LowPart(f, low)], HighPart(f, low));
    Pow2Add(WidthOf(fields), low);
    Rejoin(f.value, Pow2(low), Pow2(WidthOf(fields)));
  }

  lemma PartsFit(f: Field, low: nat)
    requires low <= f.width && f.value < Pow2(f.width)
    ensures LowPart(f, low).value < Pow2(low) && HighPart(f, low).value < Pow2(f.width - low)
  {
    Pow2Add(f.width - low, low);
    DivBelow(f.value, Pow2(low), Pow2(f.width - low));
  }

  lemma Rejoin(v: nat, p: nat, q: nat)
    requires p > 0
    ensures v % p * q + v / p * (q * p) == v * q
  {
    assert v == v / p * p + v % p;
    assert v / p * (q * p) == v / p * p * q;
    Distribute(v / p * p, v % p, q);
  }

  /** `align`'s padding: at most 32 digits at a time, all ones or all zeros. */
  function Padding(pad: nat, ones: bool): seq<Field> {
    if pad == 0 then []
    else
      var chunk := if pad > 32 then 32 else pad;
      [Field(if ones then Pow2(chunk) - 1 else 0, chunk)] + Padding(pad - chunk, ones)
  }

  lemma {:induction false} PaddingIs(pad: nat, ones: bool)
    ensures Fit(Padding(pad, ones)) && WidthOf(Padding(pad, ones)) == pad
    ensures Packed(Padding(pad, ones)) == if ones then Pow2(pad) - 1 else 0
    decreases pad
  {
    hide Pow2;
    if pad == 0 {
      Pow2Small();
    } else {
      var chunk := if pad > 32 then 32 else pad;
      PaddingIs(pad - chunk, ones);
      Pow2Add(chunk, pad - chunk);
      JoinOnes(Pow2(chunk), Pow2(pad - chunk));
      assert Padding(pad, ones)[1..] == Padding(pad - chunk, ones);
      assert Pow2(chunk) * 0 == 0;
    }
  }

  lemma JoinOnes(p: nat, q: nat)
    requires q > 0
    ensures p * (q - 1) == p * q - p
  {}

  class BitPacker {
    const data: array<nat>
    var wordIdx: nat
    var bitInWord: nat
    ghost var fields: seq<Field>

    ghost predicate Valid()
      reads this, data
    {
      Tracks(data[..], wordIdx, bitInWord, fields)
    }

    /** `init`, on a buffer of `words` words. */
    constructor (words: nat)
      ensures Valid() && fresh(data) && data.Length == words && fields == []
    {
      data := new nat[words](_ => 0);
      wordIdx, bitInWord, fields := 0, 0, [];
      new;
      AllClear(data[..]);
    }

    method Skip(n: nat)
      requires Valid()
      modifies this
      ensures Valid() && fields == old(fields) + [Field(0, n)]
    {
      hide Value, Packed, WidthOf, Pow2, WordsOk;
      Skipped(data[..], wordIdx, bitInWord, fields, n);
      fields := fields + [Field(0, n)];
      if n == 0 { return; }
      var total := wordIdx * 64 + bitInWord + n;
      wordIdx, bitInWord := total / 64, total % 64;
      if wordIdx > data.Length { wordIdx := data.Length; }
    }

    method Put(value: nat, n: nat)
      requires Valid() && n <= 64
      modifies this, data
      ensures Valid() && fields == old(fields) + [Field(Low(value, n), n)]
    {
      hide Tracks, Pow2, BitOr, Shl, Low, High;
      CursorIn(data[..], wordIdx, bitInWord, fields);
      var v := Low(value, n);
      ghost var before, f := data[..], Field(v, n);
      fields := fields + [f];
      if n == 0 {
        Pow2Small();
        Skipped(before, wordIdx, bitInWord, old(fields), 0);
        return;
      }
      if wordIdx >= data.Length {
        PutNothing(before, wordIdx, bitInWord, old(fields), f);
        return;
      }
      if bitInWord + n <= 64 {
        PutInWord(before, wordIdx, bitInWord, old(fields), f);
        data[wordIdx] := BitOr(data[wordIdx], Shl(v, bitInWord));
        bitInWord := bitInWord + n;
        if bitInWord == 64 { wordIdx, bitInWord := wordIdx + 1, 0; }
        assert data[..] == before[old(wordIdx) := data[old(wordIdx)]];
      } else {
        var low := 64 - bitInWord;
        ghost var lo, hi := LowPart(f, low), HighPart(f, low);
        PartsFit(f, low);
        PutInWord(before, wordIdx, bitInWord, old(fields), lo);
        data[wordIdx] := BitOr(data[wordIdx], Shl(Low(v, low), bitInWord));
        ghost var mid := data[..];
        assert mid == before[wordIdx := data[wordIdx]];
        wordIdx := wordIdx + 1;
        if wordIdx < data.Length {
          PutInWord(mid, wordIdx, 0, old(fields) + [lo], hi);
          Unshifted(High(v, low), n - low);
          data[wordIdx] := BitOr(data[wordIdx], High(v, low));
          assert data[..] == mid[wordIdx := data[wordIdx]];
        } else {
          PutNothing(mid, wordIdx, 0, old(fields) + [lo], hi);
          CursorIn(mid, wordIdx, 0, old(fields) + [lo] + [hi]);
        }
        bitInWord := n - low;
        FieldInTwo(data[..], wordIdx, bitInWord, old(fields), f, low);
      }
    }

    /** Pads to a multiple of `n`, a power of two: rounding up by the source's mask is rounding up to a multiple. */
    method Align(n: nat, ones: bool)
      requires Valid() && n > 0
      modifies this, data
      ensures Valid() && fields == old(fields) + Padding(PadTo(64 * old(wordIdx) + old(bitInWord), n), ones)
      ensures WidthOf(old(fields)) < 64 * data.Length ==>
                fields == old(fields) + Padding(PadTo(WidthOf(old(fields)), n), ones)
    {
      hide Tracks, WidthOf, Low, UpTo, PadTo, Padding;
      CursorIs(data[..], wordIdx, bitInWord, fields);
      var total := wordIdx * 64 + bitInWord;
      var aligned := UpTo(total, n);
      RoundUp(total, n);
      var pad: nat := aligned - total;
      ghost var all: nat := pad;
      assert fields == old(fields) + [];
      while pad > 0
        invariant Valid() && pad <= all
        invariant old(fields) + Padding(all, ones) == fields + Padding(pad, ones)
      {
        var chunk := if pad > 32 then 32 else pad;
        PaddingStep(fields, pad, ones);
        Put(if ones then 0xFFFF_FFFF_FFFF_FFFF else 0, chunk);
        pad := pad - chunk;
      }
      NoPadding(fields, ones);
    }
  }

  function PadTo(total: nat, n: nat): nat
    requires n > 0
  {
    if total % n == 0 then 0 else n - total % n
  }

  function UpTo(total: nat, n: nat): nat
    requires n > 0
  {
    (total + n - 1) / n * n
  }

  lemma RoundUp(total: nat, n: nat)
    requires n > 0
    ensures UpTo(total, n) == total + PadTo(total, n)
  {
    var q, r := total / n, total % n;
    assert total == q * n + r;
    if r == 0 {
      DivUnique(total + n - 1, n, q, n - 1);
    } else {
      assert (q + 1) * n == q * n + n;
      DivUnique(total + n - 1, n, q + 1, r - 1);
    }
  }

  lemma CursorIs(words: seq<nat>, at: nat, bit: nat, fields: seq<Field>)
    requires Tracks(words, at, bit, fields)
    ensures WidthOf(fields) < 64 * |words| ==> WidthOf(fields) == 64 * at + bit
  {
    hide Value, Packed, WidthOf, WordsOk;
  }

  lemma NoPadding(fields: seq<Field>, ones: bool)
    ensures fields + Padding(0, ones) == fields
  {}

  /** What one round of the padding loop puts. */
  lemma PaddingStep(fields: seq<Field>, pad: nat, ones: bool)
    requires pad > 0
    ensures var chunk := if pad > 32 then 32 else pad;
            var f := Field(Low(if ones then 0xFFFF_FFFF_FFFF_FFFF else 0, chunk), chunk);
            fields + Padding(pad, ones) == fields + [f] + Padding(pad - chunk, ones)
  {
    hide Low, Pow2;
    FillFits(if pad > 32 then 32 else pad, ones);
  }

  lemma FillFits(chunk: nat, ones: bool)
    requires 0 < chunk <= 32
    ensures Low(0xFFFF_FFFF_FFFF_FFFF, chunk) == Pow2(chunk) - 1 && Low(0, chunk) == 0
  {
    hide Pow2;
    var p, q := Pow2(chunk), Pow2(64 - chunk);
    Pow2Add(64 - chunk, chunk);
    Pow2Word();
    assert (q - 1) * p == q * p - p;
    DivUnique(0xFFFF_FFFF_FFFF_FFFF, p, q - 1, p - 1);
    DivUnique(0, p, 0, 0);
  }

  lemma Unshifted(v: nat, n: nat)
    requires v < Pow2(n) && n <= 64
    ensures Shl(v, 0) == v
  {
    Pow2Small();
    Pow2Word();
    Pow2Monotone(n, 64);
  }

  lemma {:induction false} AllClear(words: seq<nat>)
    requires forall i | 0 <= i < |words| :: words[i] == 0
    ensures Value(words) == 0 && Tracks(words, 0, 0, [])
  {
    hide Pow2;
    if words != [] { AllClear(words[1..]); }
    assert 0 % Pow2(64 * |words|) == 0;
  }
}

/**
 The packed reference picture set table the hardware reads (`H265PackRPS` in mft/h265_packed_tables.cpp), and the
 reading of one of its slots.
 */
module HevcRpsTable {
  import opened Bits
  import opened BitPackers
  import opened HevcRps

  datatype LtEntry = LtEntry(lsb: nat, used: bool)

  datatype Sps = NoSps | Sps(ltPresent: bool, lt: seq<LtEntry>, sets: seq<Rps>)

  const LT_ENTRIES: nat := 32
  const SLOTS: nat := 64
  const SLOT_ENTRIES: nat := 15
  const WORDS: nat := 400

  function Flag(b: bool): nat { if b then 1 else 0 }

  function LtSlot(s: Sps, i: nat): seq<Field>
    requires s.Sps?
  {
    if i < |s.lt| then
      [Field(Low(s.lt[i].lsb, 16), 16), Field(Low(Flag(s.lt[i].used), 1), 1), Field(0, 15)]
    else
      [Field(0, 32)]
  }

  function LtFields(s: Sps, n: nat): seq<Field>
    requires s.Sps?
  {
    if n == 0 then [] else LtFields(s, n - 1) + LtSlot(s, n - 1)
  }

  function LongTerm(s: Sps): seq<Field> {
    if s.Sps? && s.ltPresent && |s.lt| > 0 then LtFields(s, LT_ENTRIES) else [Field(0, 32 * LT_ENTRIES)]
  }

  /** What a `uint16_t` keeps of a delta. */
  function ToUint16(d: int): (r: nat)
    ensures r < 0x1_0000
  {
    d % 0x1_0000
  }

  function Entries(r: Rps, n: nat): seq<Field>
    requires Shaped(r) && n <= |r.delta|
  {
    if n == 0 then []
    else Entries(r, n - 1) + [Field(Low(ToUint16(r.delta[n - 1]), 16), 16), Field(Low(Flag(r.used[n - 1]), 1), 1)]
  }

  function NoEntries(n: nat): seq<Field> {
    if n == 0 then [] else NoEntries(n - 1) + [Field(0, 16), Field(0, 1)]
  }

  function Stored(r: Rps): nat
    requires Shaped(r)
  {
    if |r.delta| > SLOT_ENTRIES then SLOT_ENTRIES else |r.delta|
  }

  function Counts(r: Rps): seq<Field> {
    [Field(Low(r.numNegative, 4), 4), Field(Low(r.numPositive, 4), 4)]
  }

  function SetFields(r: Rps): seq<Field>
    requires Shaped(r)
  {
    Counts(r) + Entries(r, Stored(r)) + NoEntries(SLOT_ENTRIES - Stored(r))
  }

  predicate SpsShaped(s: Sps) { s.Sps? ==> AllShaped(s.sets) }

  function SlotFields(s: Sps, i: nat): seq<Field>
    requires SpsShaped(s)
  {
    (if s.Sps? && i < |s.sets| then SetFields(s.sets[i]) else [Field(0, 263)]) + Padding(57, false) + [Field(0, 64)]
  }

  function Slots(s: Sps, n: nat): seq<Field>
    requires SpsShaped(s)
  {
    if n == 0 then [] else Slots(s, n - 1) + SlotFields(s, n - 1)
  }

  function Table(s: Sps): seq<Field>
    requires SpsShaped(s)
  {
    LongTerm(s) + Slots(s, SLOTS)
  }

  // ---------------------------------------------------------------- widths

  lemma FitBoth(a: seq<Field>, b: seq<Field>)
    ensures Fit(a + b) <==> Fit(a) && Fit(b)
    ensures WidthOf(a + b) == WidthOf(a) + WidthOf(b)
  {
    PackedBoth(a, b);
    assert Fit(a + b) ==> forall f | f in a || f in b :: f in a + b;
  }

  lemma FitOne(f: Field)
    ensures Fit([f]) <==> f.value < Pow2(f.width)
    ensures WidthOf([f]) == f.width
  {
    assert f in [f];
  }

  lemma FitTwo(f: Field, g: Field)
    ensures Fit([f, g]) <==> f.value < Pow2(f.width) && g.value < Pow2(g.width)
    ensures WidthOf([f, g]) == f.width + g.width
  {
    assert [f, g] == [f] + [g];
    FitBoth([f], [g]);
    FitOne(f);
    FitOne(g);
  }

  lemma LtSlotWidth(s: Sps, i: nat)
    requires s.Sps?
    ensures WidthOf(LtSlot(s, i)) == 32 && Fit(LtSlot(s, i))
  {
    hide Pow2, WidthOf, Fit;
    if i < |s.lt| {
      var a, b, c := Field(Low(s.lt[i].lsb, 16), 16), Field(Low(Flag(s.lt[i].used), 1), 1), Field(0, 15);
      assert [a, b, c] == [a, b] + [c];
      FitTwo(a, b);
      FitOne(c);
      FitBoth([a, b], [c]);
    } else {
      FitOne(Field(0, 32));
    }
  }

  lemma {:induction false} LtWidth(s: Sps, n: nat)
    requires s.Sps?
    ensures WidthOf(LtFields(s, n)) == 32 * n && Fit(LtFields(s, n))
  {
    hide Pow2, WidthOf, Fit, LtSlot;
    if n == 0 {
      FitNone();
    } else {
      LtWidth(s, n - 1);
      LtSlotWidth(s, n - 1);
      FitBoth(LtFields(s, n - 1), LtSlot(s, n - 1));
    }
  }

  lemma FitNone()
    ensures Fit([]) && WidthOf([]) == 0 && Packed([]) == 0
  {}

  lemma {:induction false} EntriesWidth(r: Rps, n: nat)
    requires Shaped(r) && n <= |r.delta|
    ensures WidthOf(Entries(r, n)) == 17 * n && Fit(Entries(r, n))
  {
    hide Pow2, WidthOf, Fit;
    if n == 0 {
      FitNone();
    } else {
      EntriesWidth(r, n - 1);
      var a, b := Field(Low(ToUint16(r.delta[n - 1]), 16), 16), Field(Low(Flag(r.used[n - 1]), 1), 1);
      FitTwo(a, b);
      FitBoth(Entries(r, n - 1), [a, b]);
    }
  }

  lemma {:induction false} NoEntriesWidth(n: nat)
    ensures WidthOf(NoEntries(n)) == 17 * n && Fit(NoEntries(n)) && Packed(NoEntries(n)) == 0
  {
    hide Pow2, WidthOf, Fit, Packed;
    FitNone();
    if n > 0 {
      var a, b := Field(0, 16), Field(0, 1);
      NoEntriesWidth(n - 1);
      FitTwo(a, b);
      FitBoth(NoEntries(n - 1), [a, b]);
      PackedBoth(NoEntries(n - 1), [a, b]);
      PackedBoth([a], [b]);
      PackedOne(a);
      PackedOne(b);
      assert [a, b] == [a] + [b];
    }
  }

  lemma SetWidth(r: Rps)
    requires Shaped(r)
    ensures WidthOf(SetFields(r)) == 263 && Fit(SetFields(r))
  {
    hide Pow2, WidthOf, Fit, Entries, NoEntries;
    var k := Stored(r);
    FitTwo(Counts(r)[0], Counts(r)[1]);
    EntriesWidth(r, k);
    NoEntriesWidth(SLOT_ENTRIES - k);
    FitBoth(Counts(r), Entries(r, k));
    FitBoth(Counts(r) + Entries(r, k), NoEntries(SLOT_ENTRIES - k));
  }

  lemma SlotWidth(s: Sps, i: nat)
    requires SpsShaped(s)
    ensures WidthOf(SlotFields(s, i)) == 384 && Fit(SlotFields(s, i))
  {
    hide Pow2, WidthOf, Fit, SetFields, Padding;
    var body := if s.Sps? && i < |s.sets| then SetFields(s.sets[i]) else [Field(0, 263)];
    if s.Sps? && i < |s.sets| { SetWidth(s.sets[i]); } else { FitOne(Field(0, 263)); }
    PaddingIs(57, false);
    FitOne(Field(0, 64));
    FitBoth(body, Padding(57, false));
    FitBoth(body + Padding(57, false), [Field(0, 64)]);
  }

  lemma {:induction false} SlotsWidth(s: Sps, n: nat)
    requires SpsShaped(s)
    ensures WidthOf(Slots(s, n)) == 384 * n && Fit(Slots(s, n))
  {
    hide Pow2, WidthOf, Fit, SlotFields;
    if n == 0 {
      FitNone();
    } else {
      SlotsWidth(s, n - 1);
      SlotWidth(s, n - 1);
      FitBoth(Slots(s, n - 1), SlotFields(s, n - 1));
    }
  }

  /** Whatever the SPS, the long-term part is 16 words, each slot 6, the table 400. */
  lemma TableWidth(s: Sps)
    requires SpsShaped(s)
    ensures WidthOf(LongTerm(s)) == 64 * 16 && WidthOf(Table(s)) == 64 * WORDS && Fit(LongTerm(s)) && Fit(Table(s))
  {
    hide Pow2, WidthOf, Fit, LtFields, Slots;
    if s.Sps? { LtWidth(s, LT_ENTRIES); }
    FitOne(Field(0, 32 * LT_ENTRIES));
    SlotsWidth(s, SLOTS);
    FitBoth(LongTerm(s), Slots(s, SLOTS));
  }

  // ---------------------------------------------------------------- reading a slot

  /** What stands in the middle of a list of fields is found at its offset. */
  lemma Inside(a: seq<Field>, m: seq<Field>, b: seq<Field>, at: nat, n: nat)
    requires Fit(a) && at + n <= WidthOf(m)
    ensures Digits(Packed(a + m + b), WidthOf(a) + at, n) == Digits(Packed(m), at, n)
  {
    hide Pow2, Packed, WidthOf, Digits, Fit;
    assert a + m + b == a + (m + b);
    PackedBoth(a, m + b);
    PackedBoth(m, b);
    PackedBound(a);
    DigitsAbove(Packed(a), WidthOf(a), Packed(m + b), at, n);
    DigitsBelow(Packed(m), WidthOf(m), Packed(b), at, n);
  }

  lemma DigitsAbove(low: nat, w: nat, high: nat, at: nat, n: nat)
    requires low < Pow2(w)
    ensures Digits(low + Pow2(w) * high, w + at, n) == Digits(high, at, n)
  {
    hide Pow2;
    Pow2Add(w, at);
    DivAbove(low, Pow2(w), high, Pow2(at));
  }

  lemma DivAbove(low: nat, p: nat, high: nat, q: nat)
    requires low < p && q > 0
    ensures p * q > 0 && (low + p * high) / (p * q) == high / q
  {
    MulSign(p, q);
    DivTwice(low + p * high, p, q);
    assert p * high == high * p;
    DivUnique(low + p * high, p, high, low);
  }

  lemma DigitsBelow(m: nat, w: nat, high: nat, at: nat, n: nat)
    requires at + n <= w
    ensures Digits(m + Pow2(w) * high, at, n) == Digits(m, at, n)
  {
    hide Pow2;
    var p, q, r := Pow2(at), Pow2(n), Pow2(w - at - n);
    Pow2Add(at, w - at);
    Pow2Add(n, w - at - n);
    assert Pow2(w) == p * (q * r);
    Triple(p, q, r, high);
    MiddleOfSum(m, r * high, p, q);
  }

  lemma Triple(p: nat, q: nat, r: nat, h: nat)
    ensures p * (q * r) * h == ((r * h) * q) * p
  {
    assert (r * h) * q == (q * r) * h;
    assert p * (q * r) * h == p * ((q * r) * h);
  }

  lemma MiddleOfSum(m: nat, k: nat, p: nat, q: nat)
    requires p > 0 && q > 0
    ensures (m + (k * q) * p) / p % q == m / p % q
  {
    DivAddMultiple(m, k * q, p);
    ModAddMultiple(m / p, k, q);
  }

  lemma DivAddMultiple(x: nat, k: nat, p: nat)
    requires p > 0
    ensures (x + k * p) / p == x / p + k
  {
    assert x + k * p == (x / p + k) * p + x % p;
    DivUnique(x + k * p, p, x / p + k, x % p);
  }

  /** The set a reader takes from digit `at` of the table on: two counts, then that many entries. */
  function Unpack(x: nat, at: nat): Rps {
    var n, p := Digits(x, at, 4), Digits(x, at + 4, 4);
    Rps(n, p,
        seq(n + p, j requires 0 <= j < n + p => ToInt16(Digits(x, at + 8 + 17 * j, 16))),
        seq(n + p, j requires 0 <= j < n + p => Digits(x, at + 24 + 17 * j, 1) == 1))
  }

  lemma {:induction false} EntryDigits(r: Rps, n: nat, j: nat)
    requires Shaped(r) && j < n <= |r.delta|
    ensures Digits(Packed(Entries(r, n)), 17 * j, 16) == ToUint16(r.delta[j])
    ensures Digits(Packed(Entries(r, n)), 17 * j + 16, 1) == Flag(r.used[j])
  {
    hide Pow2, WidthOf, Digits, Packed, Fit;
    var before := Entries(r, n - 1);
    var a, b := Field(Low(ToUint16(r.delta[n - 1]), 16), 16), Field(Low(Flag(r.used[n - 1]), 1), 1);
    EntriesWidth(r, n - 1);
    if j < n - 1 {
      EntryDigits(r, n - 1, j);
      FitNone();
      assert [] + before + [a, b] == Entries(r, n);
      Inside([], before, [a, b], 17 * j, 16);
      Inside([], before, [a, b], 17 * j + 16, 1);
    } else {
      FitTwo(a, b);
      FitOne(a);
      FieldComesBack(before, a, [b]);
      assert before + [a] + [b] == Entries(r, n);
      FitBoth(before, [a]);
      FieldComesBack(before + [a], b, []);
      assert before + [a] + [b] + [] == Entries(r, n);
      LowFits(ToUint16(r.delta[n - 1]), 16);
      LowFits(Flag(r.used[n - 1]), 1);
    }
  }

  lemma LowFits(v: nat, n: nat)
    requires (n == 16 && v < 0x1_0000) || (n == 1 && v < 2) || (n == 4 && v < 16)
    ensures Low(v, n) == v
  {
    Pow2Bytes();
    assert Pow2(1) == 2 && Pow2(4) == 16;
    DivUnique(v, Pow2(n), 0, v);
  }

  lemma SetDigits(r: Rps)
    requires Shaped(r)
    ensures var x := Packed(SetFields(r));
            && Digits(x, 0, 4) == Low(r.numNegative, 4) && Digits(x, 4, 4) == Low(r.numPositive, 4)
            && forall j | 0 <= j < Stored(r) ::
                 && Digits(x, 8 + 17 * j, 16) == ToUint16(r.delta[j])
                 && Digits(x, 24 + 17 * j, 1) == Flag(r.used[j])
  {
    hide Pow2, WidthOf, Digits, Packed, Fit, Entries, NoEntries, ToUint16, Low;
    var k := Stored(r);
    var a, b, e, z := Counts(r)[0], Counts(r)[1], Entries(r, k), NoEntries(SLOT_ENTRIES - k);
    FitNone();
    FitOne(a);
    FitTwo(a, b);
    FieldComesBack([], a, [b] + e + z);
    assert [] + [a] + ([b] + e + z) == SetFields(r);
    FieldComesBack([a], b, e + z);
    assert [a] + [b] + (e + z) == SetFields(r);
    EntriesWidth(r, k);
    forall j | 0 <= j < k
      ensures Digits(Packed(SetFields(r)), 8 + 17 * j, 16) == ToUint16(r.delta[j])
      ensures Digits(Packed(SetFields(r)), 24 + 17 * j, 1) == Flag(r.used[j])
    {
      EntryDigits(r, k, j);
      Inside(Counts(r), e, z, 17 * j, 16);
      Inside(Counts(r), e, z, 17 * j + 16, 1);
    }
  }

  lemma {:induction false} SlotsDigits(s: Sps, n: nat, i: nat, at: nat, w: nat)
    requires SpsShaped(s) && i < n && at + w <= 384
    ensures Digits(Packed(Slots(s, n)), 384 * i + at, w) == Digits(Packed(SlotFields(s, i)), at, w)
  {
    hide Pow2, WidthOf, Digits, Packed, Fit, SlotFields;
    SlotsWidth(s, n - 1);
    if i < n - 1 {
      SlotsDigits(s, n - 1, i, at, w);
      FitNone();
      assert [] + Slots(s, n - 1) + SlotFields(s, n - 1) == Slots(s, n);
      Inside([], Slots(s, n - 1), SlotFields(s, n - 1), 384 * i + at, w);
    } else {
      SlotWidth(s, i);
      assert Slots(s, i) + SlotFields(s, i) + [] == Slots(s, n);
      Inside(Slots(s, i), SlotFields(s, i), [], at, w);
    }
  }

  /** The first digit of slot `i`: word `16 + 6 i`. */
  function SlotAt(i: nat): nat { 64 * (16 + 6 * i) }

  lemma TableDigits(s: Sps, i: nat, at: nat, w: nat)
    requires SpsShaped(s) && i < SLOTS && at + w <= 384
    ensures Digits(Packed(Table(s)), SlotAt(i) + at, w) == Digits(Packed(SlotFields(s, i)), at, w)
  {
    hide Pow2, WidthOf, Digits, Packed, Fit, SlotFields, Slots, LongTerm;
    TableWidth(s);
    SlotsWidth(s, SLOTS);
    SlotsDigits(s, SLOTS, i, at, w);
    assert LongTerm(s) + Slots(s, SLOTS) + [] == Table(s);
    Inside(LongTerm(s), Slots(s, SLOTS), [], 384 * i + at, w);
  }

  // ---------------------------------------------------------------- the long-term part

  lemma {:induction false} LtDigits(s: Sps, n: nat, i: nat, at: nat, w: nat)
    requires s.Sps? && i < n && at + w <= 32
    ensures Digits(Packed(LtFields(s, n)), 32 * i + at, w) == Digits(Packed(LtSlot(s, i)), at, w)
  {
    hide Pow2, WidthOf, Digits, Packed, Fit, LtSlot;
    LtWidth(s, n - 1);
    LtSlotWidth(s, n - 1);
    if i < n - 1 {
      LtDigits(s, n - 1, i, at, w);
      FitNone();
      assert [] + LtFields(s, n - 1) + LtSlot(s, n - 1) == LtFields(s, n);
      Inside([], LtFields(s, n - 1), LtSlot(s, n - 1), 32 * i + at, w);
    } else {
      assert LtFields(s, i) + LtSlot(s, i) + [] == LtFields(s, n);
      Inside(LtFields(s, i), LtSlot(s, i), [], at, w);
    }
  }

  /**
   Long-term entry `i` of the SPS stands in half-word pair `i` of the table, its count in the low 16 digits and its used
   flag in the next; without long-term pictures, and past the entries, the table reads zero.
   */
  lemma LongTermComesBack(s: Sps, i: nat)
    requires SpsShaped(s) && i < LT_ENTRIES
    ensures var x := Packed(Table(s));
            if s.Sps? && s.ltPresent && i < |s.lt| then
              && Digits(x, 32 * i, 16) == s.lt[i].lsb % 0x1_0000
              && Digits(x, 32 * i + 16, 1) == (if s.lt[i].used then 1 else 0)
            else Digits(x, 32 * i, 16) == Digits(x, 32 * i + 16, 1) == 0
  {
    hide Pow2, WidthOf, Digits, Packed, Fit, LtSlot, Slots, LtFields, Low;
    TableWidth(s);
    FitNone();
    assert [] + LongTerm(s) + Slots(s, SLOTS) == Table(s);
    Inside([], LongTerm(s), Slots(s, SLOTS), 32 * i, 16);
    Inside([], LongTerm(s), Slots(s, SLOTS), 32 * i + 16, 1);
    if s.Sps? && s.ltPresent && |s.lt| > 0 {
      LtDigits(s, LT_ENTRIES, i, 0, 16);
      LtDigits(s, LT_ENTRIES, i, 16, 1);
      LtSlotDigits(s, i);
    } else {
      PackedOne(Field(0, 32 * LT_ENTRIES));
      NoDigits(32 * i, 16);
      NoDigits(32 * i + 16, 1);
    }
  }

  lemma LtSlotDigits(s: Sps, i: nat)
    requires s.Sps?
    ensures var x := Packed(LtSlot(s, i));
            if i < |s.lt| then
              Digits(x, 0, 16) == s.lt[i].lsb % 0x1_0000 && Digits(x, 16, 1) == if s.lt[i].used then 1 else 0
            else Digits(x, 0, 16) == Digits(x, 16, 1) == 0
  {
    hide Pow2, WidthOf, Digits, Packed, Fit, Low;
    FitNone();
    if i < |s.lt| {
      var a, b, c := Field(Low(s.lt[i].lsb, 16), 16), Field(Low(Flag(s.lt[i].used), 1), 1), Field(0, 15);
      FitTwo(a, b);
      FitOne(a);
      assert [] + [a] + [b, c] == LtSlot(s, i) && [a] + [b] + [c] == LtSlot(s, i);
      LowIsRemainder(s.lt[i].lsb);
      LowFits(Flag(s.lt[i].used), 1);
      FieldComesBack([], a, [b, c]);
      FieldComesBack([a], b, [c]);
    } else {
      PackedOne(Field(0, 32));
      NoDigits(0, 16);
      NoDigits(16, 1);
    }
  }

  lemma LowIsRemainder(v: nat)
    ensures Low(v, 16) == v % 0x1_0000
  {
    hide Pow2;
    Pow2Bytes();
  }

  /** Of a slot with a set, the first 263 digits are the set's; the next are clear. */
  lemma SlotDigits(s: Sps, i: nat, at: nat, w: nat)
    requires SpsShaped(s) && s.Sps? && i < SLOTS && i < |s.sets|
    ensures at + w <= 263 ==> Digits(Packed(Table(s)), SlotAt(i) + at, w) == Digits(Packed(SetFields(s.sets[i])), at, w)
    ensures at == 263 && w == 16 ==> Digits(Packed(Table(s)), SlotAt(i) + at, w) == 0
  {
    hide Pow2, WidthOf, Digits, Packed, Fit, SetFields, Padding, Slots, LongTerm;
    var body, pad, tail := SetFields(s.sets[i]), Padding(57, false), [Field(0, 64)];
    SetWidth(s.sets[i]);
    PaddingIs(57, false);
    FitNone();
    if at + w <= 263 {
      TableDigits(s, i, at, w);
      assert [] + body + (pad + tail) == SlotFields(s, i);
      Inside([], body, pad + tail, at, w);
    } else if at == 263 && w == 16 {
      TableDigits(s, i, at, w);
      Inside(body, pad, tail, 0, 16);
      NoDigits(0, 16);
    }
  }

  lemma NoDigits(at: nat, w: nat)
    ensures Digits(0, at, w) == 0
  {
    DivUnique(0, Pow2(at), 0, 0);
    DivUnique(0, Pow2(w), 0, 0);
  }

  lemma SignComesBack(d: int)
    requires -0x8000 <= d < 0x8000
    ensures ToInt16(ToUint16(d)) == d
  {}

  predicate Fits16(r: Rps) { forall i | 0 <= i < |r.delta| :: -0x8000 <= r.delta[i] < 0x8000 }

  lemma CountWraps()
    ensures Low(16, 4) == 0 && Low(0, 4) == 0
  {
    assert Pow2(4) == 16;
  }

  lemma SixteenDoNot(s: Sps, i: nat)
    requires SpsShaped(s) && s.Sps? && i < SLOTS && i < |s.sets|
    requires Canonical(s.sets[i]) && |s.sets[i].delta| == 16
    ensures Unpack(Packed(Table(s)), SlotAt(i)) != s.sets[i]
  {
    hide Pow2, Digits, Packed, SetFields, Table, ToUint16, ToInt16, Fit;
    var r, x, at := s.sets[i], Packed(Table(s)), SlotAt(i);
    SetDigits(r);
    SlotDigits(s, i, 0, 4);
    SlotDigits(s, i, 4, 4);
    CountWraps();
    if r.numNegative < 16 && r.numPositive < 16 {
      LowFits(r.numNegative, 4);
      LowFits(r.numPositive, 4);
      SlotDigits(s, i, 263, 16);
      SignComesBack(0);
      assert Unpack(x, at).delta[15] == ToInt16(Digits(x, at + 8 + 17 * 15, 16)) == 0;
    }
  }

  /**
   Every set of the SPS comes back from its slot of the table, whatever the other sets and the long-term part are,
   if and only if it has at most 15 entries: the slot has no room for a sixteenth.
   */
  lemma SetComesBackIff(s: Sps, i: nat)
    requires SpsShaped(s) && s.Sps? && i < SLOTS && i < |s.sets|
    requires Canonical(s.sets[i]) && Fits16(s.sets[i])
    ensures Unpack(Packed(Table(s)), SlotAt(i)) == s.sets[i] <==> |s.sets[i].delta| <= SLOT_ENTRIES
  {
    hide Pow2, Digits, Packed, SetFields, Table, ToUint16, ToInt16, Low, Fit;
    var r, x, at := s.sets[i], Packed(Table(s)), SlotAt(i);
    SetDigits(r);
    SlotDigits(s, i, 0, 4);
    SlotDigits(s, i, 4, 4);
    if r.numNegative < 16 { LowFits(r.numNegative, 4); }
    if r.numPositive < 16 { LowFits(r.numPositive, 4); }
    forall j | 0 <= j < Stored(r)
      ensures ToInt16(Digits(x, at + 8 + 17 * j, 16)) == r.delta[j]
      ensures (Digits(x, at + 24 + 17 * j, 1) == 1) == r.used[j]
    {
      SlotDigits(s, i, 8 + 17 * j, 16);
      SlotDigits(s, i, 24 + 17 * j, 1);
      SignComesBack(r.delta[j]);
    }
    if |r.delta| == 16 { SixteenDoNot(s, i); }
  }

  /** A slot past the SPS's sets reads as the empty set. */
  lemma SpareSlotIsEmpty(s: Sps, i: nat)
    requires SpsShaped(s) && i < SLOTS && (s.Sps? ==> |s.sets| <= i)
    ensures Unpack(Packed(Table(s)), SlotAt(i)) == Rps(0, 0, [], [])
  {
    hide Pow2, WidthOf, Digits, Packed, Fit, Padding, Slots, LongTerm;
    var body, rest := [Field(0, 263)], Padding(57, false) + [Field(0, 64)];
    TableDigits(s, i, 0, 4);
    TableDigits(s, i, 4, 4);
    FitNone();
    FitOne(body[0]);
    PackedOne(body[0]);
    assert [] + body + rest == SlotFields(s, i);
    Inside([], body, rest, 0, 4);
    Inside([], body, rest, 4, 4);
    NoDigits(0, 4);
    NoDigits(4, 4);
  }

  // ---------------------------------------------------------------- the packing loops

  lemma MoreFields(a: seq<Field>, b: seq<Field>, c: seq<Field>)
    ensures a + b + c == a + (b + c)
  {}

  lemma FirstEntries(start: seq<Field>, r: Rps)
    requires Shaped(r)
    ensures start == start + Entries(r, 0)
  {}

  method PackEntry(bp: BitPacker, delta: int, used: nat)
    requires bp.Valid()
    modifies bp, bp.data
    ensures bp.Valid()
    ensures bp.fields == old(bp.fields) + [Field(Low(ToUint16(delta), 16), 16), Field(Low(used, 1), 1)]
  {
    hide Tracks, Low, ToUint16;
    bp.Put(ToUint16(delta), 16);
    bp.Put(used, 1);
  }

  method PackLtSlot(bp: BitPacker, s: Sps, i: nat)
    requires bp.Valid() && s.Sps?
    modifies bp, bp.data
    ensures bp.Valid() && bp.fields == old(bp.fields) + LtSlot(s, i)
  {
    hide Tracks, Low;
    if i < |s.lt| {
      bp.Put(s.lt[i].lsb, 16);
      bp.Put(Flag(s.lt[i].used), 1);
      bp.Skip(15);
    } else {
      bp.Skip(32);
    }
  }

  method PackLongTerm(bp: BitPacker, s: Sps)
    requires bp.Valid()
    modifies bp, bp.data
    ensures bp.Valid() && bp.fields == old(bp.fields) + LongTerm(s)
  {
    hide Tracks, LtSlot;
    if s.Sps? && s.ltPresent && |s.lt| > 0 {
      for i := 0 to LT_ENTRIES
        invariant bp.Valid() && bp.fields == old(bp.fields) + LtFields(s, i)
      {
        MoreFields(old(bp.fields), LtFields(s, i), LtSlot(s, i));
        PackLtSlot(bp, s, i);
      }
    } else {
      bp.Skip(32 * LT_ENTRIES);
    }
  }

  method PackEntries(bp: BitPacker, r: Rps, from: nat, n: nat)
    requires bp.Valid() && Shaped(r) && from + n <= |r.delta|
    modifies bp, bp.data
    ensures bp.Valid()
    ensures forall start | old(bp.fields) == start + Entries(r, from) :: bp.fields == start + Entries(r, from + n)
  {
    hide Tracks, Low, ToUint16;
    for j := 0 to n
      invariant bp.Valid()
      invariant forall start | old(bp.fields) == start + Entries(r, from) :: bp.fields == start + Entries(r, from + j)
    {
      PackEntry(bp, r.delta[from + j], Flag(r.used[from + j]));
    }
  }

  method PackNoEntries(bp: BitPacker, n: nat)
    requires bp.Valid()
    modifies bp, bp.data
    ensures bp.Valid() && bp.fields == old(bp.fields) + NoEntries(n)
  {
    hide Tracks, Low;
    LowFits(0, 16);
    LowFits(0, 1);
    for j := 0 to n
      invariant bp.Valid() && bp.fields == old(bp.fields) + NoEntries(j)
    {
      PackEntry(bp, 0, 0);
    }
  }

  method PackSet(bp: BitPacker, r: Rps)
    requires bp.Valid() && Shaped(r)
    modifies bp, bp.data
    ensures bp.Valid() && bp.fields == old(bp.fields) + SetFields(r)
  {
    hide Tracks, Low, ToUint16, Entries, NoEntries;
    bp.Put(r.numNegative, 4);
    bp.Put(r.numPositive, 4);
    var neg, pos := r.numNegative, r.numPositive;
    if neg > 15 { neg := 15; }
    if pos > 15 - neg { pos := 15 - neg; }
    ghost var start := bp.fields;
    FirstEntries(start, r);
    PackEntries(bp, r, 0, neg);
    PackEntries(bp, r, neg, pos);
    PackNoEntries(bp, SLOT_ENTRIES - (neg + pos));
  }

  method PackSlot(bp: BitPacker, s: Sps, i: nat)
    requires bp.Valid() && SpsShaped(s) && WidthOf(bp.fields) % 64 == 0
    requires WidthOf(bp.fields) + 384 <= 64 * bp.data.Length
    modifies bp, bp.data
    ensures bp.Valid() && bp.fields == old(bp.fields) + SlotFields(s, i)
  {
    hide Tracks, WidthOf, Padding, PadTo, SetFields, Fit, SlotFields;
    ghost var start := bp.fields;
    ghost var body := if s.Sps? && i < |s.sets| then SetFields(s.sets[i]) else [Field(0, 263)];
    if s.Sps? && i < |s.sets| {
      PackSet(bp, s.sets[i]);
      SetWidth(s.sets[i]);
    } else {
      bp.Skip(263);
      FitOne(Field(0, 263));
    }
    FitBoth(start, body);
    SlotPad(WidthOf(start));
    bp.Align(64, false);
    bp.Skip(64);
    SlotInParts(s, i, start, body);
  }

  lemma SlotPad(w: nat)
    requires w % 64 == 0
    ensures PadTo(w + 263, 64) == 57
  {}

  lemma SlotInParts(s: Sps, i: nat, start: seq<Field>, body: seq<Field>)
    requires SpsShaped(s)
    requires body == if s.Sps? && i < |s.sets| then SetFields(s.sets[i]) else [Field(0, 263)]
    ensures start + body + Padding(57, false) + [Field(0, 64)] == start + SlotFields(s, i)
  {
    hide Padding, SetFields;
    MoreFields(start, body, Padding(57, false));
    MoreFields(start, body + Padding(57, false), [Field(0, 64)]);
  }

  lemma NoSlots(s: Sps)
    requires SpsShaped(s)
    ensures LongTerm(s) + Slots(s, 0) == LongTerm(s)
  {
    hide LongTerm;
  }

  /** Slot `i` starts on a word, and there is room for it. */
  lemma TableSoFar(s: Sps, i: nat)
    requires SpsShaped(s) && i < SLOTS
    ensures var f := LongTerm(s) + Slots(s, i);
            && WidthOf(f) % 64 == 0 && WidthOf(f) + 384 <= 64 * WORDS
            && f + SlotFields(s, i) == LongTerm(s) + Slots(s, i + 1)
  {
    hide WidthOf, LongTerm, SlotFields, Fit;
    TableWidth(s);
    SlotsWidth(s, i);
    FitBoth(LongTerm(s), Slots(s, i));
    MoreFields(LongTerm(s), Slots(s, i), SlotFields(s, i));
  }

  /** `H265PackRPS`, up to the copy of the words to the output bytes. */
  method PackRps(s: Sps) returns (bp: BitPacker)
    requires SpsShaped(s)
    ensures fresh(bp) && fresh(bp.data) && bp.data.Length == WORDS && WordsOk(bp.data[..])
    ensures Value(bp.data[..]) == Packed(Table(s))
  {
    hide Tracks, WidthOf, LongTerm, Slots, SlotFields, WordsOk, Fit, Packed, Value, Pow2;
    bp := new BitPacker(WORDS);
    PackLongTerm(bp, s);
    TableWidth(s);
    NoSlots(s);
    for i := 0 to SLOTS
      invariant bp.Valid() && fresh(bp) && fresh(bp.data) && bp.data.Length == WORDS
      invariant bp.fields == LongTerm(s) + Slots(s, i)
    {
      TableSoFar(s, i);
      PackSlot(bp, s, i);
    }
    Done(bp.data[..], bp.wordIdx, bp.bitInWord, bp.fields);
  }

  lemma Done(words: seq<nat>, at: nat, bit: nat, fields: seq<Field>)
    requires Tracks(words, at, bit, fields) && WidthOf(fields) <= 64 * |words|
    ensures Value(words) == Packed(fields) && WordsOk(words)
  {
    Whole(words, at, bit, fields);
  }
}

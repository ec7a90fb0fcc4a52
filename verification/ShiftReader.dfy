/**
 The 64-bit shift-register bit readers of the AV1 and VP9 header parsers (mft/av1_parser.cpp, mft/vp9_parser.cpp),
 against a reader that is only a position in the data.
 */
module ShiftReaders {
  import opened Bits
  import opened BitReaders

  /** A position in bits, and whether some read ran past the end. */
  datatype Cursor = Cursor(pos: nat, failed: bool)

  datatype Got = Got(value: nat, next: Cursor)

  /** `n` bits, most significant first; zero, for ever, once the data has run out. */
  function Take(data: seq<byte>, c: Cursor, n: nat): (r: Got)
    ensures r.value < Pow2(n)
    ensures c.failed ==> r == Got(0, c)
  {
    WindowBound(data, c.pos, n);
    if c.failed || c.pos + n > 8 * |data| then Got(0, c.(failed := true))
    else Got(Window(data, c.pos, n), Cursor(c.pos + n, false))
  }

  /**
   The position this reader keeps and the positional reader of the H.264 and HEVC parsers give the same value and
   the same next position exactly as long as the bits are there: past the end that one returns what is left and
   stays silent, this one returns zero and latches its error.
   */
  lemma ReadersAgreeIff(data: seq<byte>, pos: nat, n: nat)
    requires n > 0 && pos <= 8 * |data|
    ensures var t, u := Take(data, Cursor(pos, false), n), ReadU(data, pos, n);
            (t.value == u.value && t.next == Cursor(u.pos, u.failed)) <==> pos + n <= 8 * |data|
  {}

  // ---------------------------------------------------------------- the register

  /** The register holds the `left` bits before byte `next`, at its top, over zeros. */
  predicate Coupled(data: seq<byte>, next: nat, state: nat, left: nat) {
    next <= |data| && left <= 8 * next && left <= 64 && state == Window(data, 8 * next - left, left) * Pow2(64 - left)
  }

  /** `state << n` on the 64-bit register. */
  function ShiftLeft(state: nat, n: nat): nat {
    Wrap64(state * Pow2(n))
  }

  lemma EmptyRegister(data: seq<byte>)
    ensures Coupled(data, 0, 0, 0)
  {
    hide Pow2;
  }

  lemma AppendByte(data: seq<byte>, next: nat, state: nat, left: nat)
    requires Coupled(data, next, state, left) && next < |data| && left <= 56
    ensures Coupled(data, next + 1, BitOr(state, data[next] * Pow2(56 - left)), left + 8)
  {
    hide Window, Pow2, Bit, BitOr;
    var pos := 8 * next - left;
    Pow2Add(8, 56 - left);
    Pow2Bytes();
    WindowSplit(data, pos, left, 8);
    WindowByte(data, next);
    OrBelow(Window(data, pos, left), data[next], Pow2(56 - left), 64 - left);
    assert pos == 8 * (next + 1) - (left + 8) && pos + left == 8 * next;
  }

  lemma OrBelow(w: nat, b: byte, p: nat, k: nat)
    requires p > 0 && Pow2(k) == 256 * p
    ensures BitOr(w * Pow2(k), b * p) == (w * 256 + b) * p
  {
    hide Pow2, BitOr;
    MultipleMod(Pow2(k), w);
    MulBelow(p, b, 256);
    OrIntoClearedBits(w * Pow2(k), b * p, k);
    Associate(w, 256, p);
    Distribute(w * 256, b, p);
  }

  lemma TakeTop(data: seq<byte>, next: nat, state: nat, left: nat, n: nat)
    requires Coupled(data, next, state, left) && n <= left
    ensures state / Pow2(64 - n) == Window(data, 8 * next - left, n)
    ensures Coupled(data, next, ShiftLeft(state, n), left - n)
  {
    hide Window, Pow2, Wrap64;
    var pos := 8 * next - left;
    var a, b := Window(data, pos, n), Window(data, pos + n, left - n);
    WindowSplit(data, pos, n, left - n);
    WindowBound(data, pos + n, left - n);
    Pow2Add(left - n, 64 - left);
    Pow2Add(64 - n, n);
    Pow2Add(64 - left, n);
    TopOf(state, a, b, Pow2(left - n), Pow2(64 - left), Pow2(64 - n));
    ShiftedOut(state, a, b * Pow2(64 - left), n);
    Associate(b, Pow2(64 - left), Pow2(n));
    assert pos + n == 8 * next - (left - n);
  }

  lemma TopOf(state: nat, a: nat, b: nat, q: nat, p: nat, t: nat)
    requires p > 0 && b < q && t == q * p && state == (a * q + b) * p
    ensures state == a * t + b * p && b * p < t && state / t == a
  {
    Associate(a, q, p);
    Distribute(a * q, b, p);
    MulBelow(p, b, q);
    DivUnique(state, t, a, b * p);
  }

  /** Shifting by `n` drops the top `n` bits. */
  lemma ShiftedOut(state: nat, a: nat, low: nat, n: nat)
    requires n <= 64 && low < Pow2(64 - n) && state == a * Pow2(64 - n) + low
    ensures ShiftLeft(state, n) == low * Pow2(n)
  {
    hide Pow2;
    var t, r := Pow2(64 - n), Pow2(n);
    Pow2Add(64 - n, n);
    Pow2Add(32, 32);
    Pow2Bytes();
    Associate(a, t, r);
    Distribute(a * t, low, r);
    MulBelow(r, low, t);
    DivUnique(state * r, 0x1_0000_0000_0000_0000, a, low * r);
  }

  class ShiftReader {
    const data: seq<byte>
    var next: nat       // index of the next byte to fetch
    var state: nat      // a uint64_t
    var bitsLeft: nat
    var error: bool

    ghost predicate Valid()
      reads this
    {
      Coupled(data, next, state, bitsLeft) && bitsLeft <= 39
    }

    ghost function At(): Cursor
      requires Valid()
      reads this
    {
      Cursor(8 * next - bitsLeft, error)
    }

    constructor (data: seq<byte>)
      ensures Valid() && this.data == data && At() == Cursor(0, false)
    {
      hide Coupled;
      EmptyRegister(data);
      this.data, next, state, bitsLeft, error := data, 0, 0, 0, false;
    }

    method Refill(n: nat)
      requires Valid() && n <= 32
      modifies this
      ensures Valid() && At().pos == old(At().pos)
      ensures error == (old(error) || old(At().pos) + n > 8 * |data|)
      ensures bitsLeft >= old(bitsLeft) && (bitsLeft >= n || error)
    {
      hide Coupled, ShiftLeft, Window, BitOr, Pow2;
      assert bitsLeft <= 8 * next && next <= |data| by { CoupledBounds(data, next, state, bitsLeft); }
      while bitsLeft < n
        invariant Coupled(data, next, state, bitsLeft) && bitsLeft <= 8 * next && next <= |data|
        invariant bitsLeft <= 39 && bitsLeft >= old(bitsLeft)
        invariant 8 * next - bitsLeft == old(8 * next - bitsLeft) && error == old(error)
        decreases |data| - next
      {
        if next >= |data| { error := true; return; }
        AppendByte(data, next, state, bitsLeft);
        state := BitOr(state, data[next] * Pow2(56 - bitsLeft));
        next, bitsLeft := next + 1, bitsLeft + 8;
      }
    }

    /** 1 to 32 bits. */
    method U(n: nat) returns (v: nat)
      requires Valid() && 1 <= n <= 32
      modifies this
      ensures Valid() && Got(v, At()) == Take(data, old(At()), n)
    {
      hide Coupled, ShiftLeft, Window, BitOr, Pow2;
      CoupledBounds(data, next, state, bitsLeft);
      if bitsLeft < n { Refill(n); }
      CoupledBounds(data, next, state, bitsLeft);
      if error { return 0; }
      TakeTop(data, next, state, bitsLeft, n);
      WindowBound(data, 8 * next - bitsLeft, n);
      FitsWord(Window(data, 8 * next - bitsLeft, n), n);
      v := Wrap32(state / Pow2(64 - n));
      if n < 32 { v := v % Pow2(n); }
      state := ShiftLeft(state, n);
      bitsLeft := bitsLeft - n;
    }

    /** AV1's `br_byte_align`. */
    method ByteAlign()
      requires Valid()
      modifies this
      ensures Valid() && error == old(error)
      ensures At().pos == if error then old(At().pos) else (old(At().pos) + 7) / 8 * 8
    {
      hide Coupled, ShiftLeft, Window, BitOr, Pow2;
      CoupledBounds(data, next, state, bitsLeft);
      RoundedUp(next, bitsLeft);
      var rem := bitsLeft % 8;
      if rem > 0 { var _ := U(rem); }
    }

    /** AV1's `br_bytes_consumed`. */
    method BytesConsumed() returns (n: nat)
      requires Valid()
      ensures n == At().pos / 8
    {
      CoupledBounds(data, next, state, bitsLeft);
      var pending := (bitsLeft + 7) / 8;
      n := 0;
      if next >= pending { n := next - pending; }
    }

    /** The size of a header: its bits, rounded up to whole bytes. */
    method AlignedSize() returns (n: nat)
      requires Valid()
      modifies this
      ensures Valid() && error == old(error)
      ensures n == if error then old(At().pos) / 8 else (old(At().pos) + 7) / 8
    {
      hide Coupled, ShiftLeft, Window, BitOr, Pow2;
      ByteAlign();
      n := BytesConsumed();
    }

    /** VP9's `br_byte_align` and `br_byte_pos`, which drop the fraction of a byte even after an error. */
    method AlignedBytePos() returns (n: nat)
      requires Valid()
      modifies this
      ensures Valid() && error == old(error) && At().pos == 8 * n
      ensures n == (old(At().pos) + 7) / 8
    {
      hide Coupled, ShiftLeft;
      CoupledBounds(data, next, state, bitsLeft);
      RoundedUp(next, bitsLeft);
      var rem := bitsLeft % 8;
      if rem > 0 {
        TakeTop(data, next, state, bitsLeft, rem);
        state := ShiftLeft(state, rem);
        bitsLeft := bitsLeft - rem;
      }
      n := 0;
      if next >= bitsLeft / 8 { n := next - bitsLeft / 8; }
    }
  }

  /** The bits before the register's, rounded up to bytes, are those before its whole bytes. */
  lemma RoundedUp(next: nat, left: nat)
    requires left <= 8 * next
    ensures left / 8 <= next && (8 * next - left + 7) / 8 == next - left / 8
    ensures (left - left % 8) / 8 == left / 8 && left - left % 8 == 8 * (left / 8)
    ensures (8 * next - left + 7) / 8 * 8 == 8 * next - left + left % 8
  {}

  lemma FitsWord(v: nat, n: nat)
    requires v < Pow2(n) && n <= 32
    ensures Wrap32(v) == v % Pow2(n) == v
  {
    Pow2Monotone(n, 32);
    Pow2Bytes();
    DivUnique(v, Pow2(n), 0, v);
  }

  lemma CoupledBounds(data: seq<byte>, next: nat, state: nat, left: nat)
    requires Coupled(data, next, state, left)
    ensures next <= |data| && left <= 8 * next
  {}
}

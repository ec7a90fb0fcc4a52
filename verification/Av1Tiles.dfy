/**
 The AV1 tile grid (mft/av1_parser.cpp, section 5.9.15 of the AV1 specification), for every frame size and every
 choice of bits, and the register builder's renumbering of the context update tile (mft/regbuilder_av1.cpp).
 */
module Av1Tiles {
  import opened Bits
  import opened ShiftReaders
  import opened Av1Codes

  const MAX_TILES: nat := 64
  const MAX_DIM: nat := 0x1_0000

  /** `tile_log2`: the least `k` with `size << k` at least `target`. */
  function TileLog2(size: nat, target: nat): (k: nat)
    requires size > 0
    ensures size * Pow2(k) >= target
    ensures k > 0 ==> size * Pow2(k - 1) < target
  {
    TileLog2From(size, target, 0)
  }

  function TileLog2From(size: nat, target: nat, k: nat): (r: nat)
    requires size > 0
    ensures r >= k && size * Pow2(r) >= target
    ensures r > k ==> size * Pow2(r - 1) < target
    decreases target - size * Pow2(k)
  {
    Doubling(size, Pow2(k));
    if size * Pow2(k) >= target then k else TileLog2From(size, target, k + 1)
  }

  function Min(a: nat, b: nat): nat { if a < b then a else b }

  function Max(a: int, b: int): int { if a > b then a else b }

  /** The frame in superblocks of 64 or 128 samples. */
  datatype Frame = Frame(width: nat, height: nat, big: bool)
  {
    predicate Ok() { 0 < width <= MAX_DIM && 0 < height <= MAX_DIM }

    function SbSize(): nat { if big then 128 else 64 }

    function Cols(): (n: nat)
      ensures Ok() ==> 0 < n <= if big then 512 else 1024
    {
      (width + SbSize() - 1) / SbSize()
    }

    function Rows(): (n: nat)
      ensures Ok() ==> 0 < n <= if big then 512 else 1024
    {
      (height + SbSize() - 1) / SbSize()
    }

    function MaxTileWidth(): nat { if big then 32 else 64 }

    /** 4096 * 2304 samples. */
    function MaxTileArea(): nat { if big then 576 else 2304 }

    function MinLog2Cols(): nat { TileLog2(MaxTileWidth(), Cols()) }

    function MaxLog2Cols(): nat { TileLog2(1, Min(Cols(), MAX_TILES)) }

    function MaxLog2Rows(): nat { TileLog2(1, Min(Rows(), MAX_TILES)) }

    function MinLog2Tiles(): nat { Max(TileLog2(MaxTileArea(), Cols() * Rows()), MinLog2Cols()) }
  }

  // ---------------------------------------------------------------- a grid line

  /** Tile starts along one side: from 0 strictly up to below `total`, with `total` as the sentinel. */
  predicate LineOk(starts: seq<nat>, total: nat) {
    && 0 < |starts| <= MAX_TILES && starts[0] == 0 && starts[|starts| - 1] < total
    && forall i | 0 < i < |starts| :: starts[i - 1] < starts[i]
  }

  /** The first `n` multiples of `step`. */
  function Multiples(step: nat, n: nat): seq<nat> {
    seq(n, i requires 0 <= i < n => i * step)
  }

  function Ceil(total: nat, step: nat): nat
    requires step > 0
  {
    DivNat(total + step - 1, step);
    (total + step - 1) / step
  }

  lemma CeilIs(total: nat, step: nat, n: nat)
    requires step > 0
    ensures n == Ceil(total, step) <==> (n == 0 && total == 0) || (n > 0 && (n - 1) * step < total <= n * step)
  {
    var c, x := (total + step - 1) / step, total + step - 1;
    assert x == c * step + x % step;
    assert (c - 1) * step == c * step - step;
    if n > 0 && (n - 1) * step < total <= n * step {
      assert (n - 1) * step == n * step - step;
      DivUnique(x, step, n, x - n * step);
    }
  }

  // ---------------------------------------------------------------- bounds of the frame

  lemma {:induction false} LeastLog(size: nat, target: nat, k: nat)
    requires size > 0 && size * Pow2(k) >= target
    ensures TileLog2(size, target) <= k
  {
    var j := TileLog2(size, target);
    if j > k {
      Pow2Monotone(k, j - 1);
      MulAtMost(size, Pow2(k), Pow2(j - 1));
    }
  }

  lemma SmallPowers()
    ensures Pow2(5) == 32 && Pow2(6) == 64 && Pow2(0) == 1
  {}

  /** The ranges of the two column exponents, and how much of the tile count they leave to the rows. */
  lemma FrameBounds(f: Frame)
    requires f.Ok()
    ensures 0 < f.Cols() <= 1024 && 0 < f.Rows() <= 1024
    ensures f.MinLog2Cols() <= f.MaxLog2Cols() <= 6 && f.MaxLog2Rows() <= 6
    ensures 0 <= f.MinLog2Tiles() <= f.MinLog2Cols() + 5
  {
    hide TileLog2, Pow2;
    SmallPowers();
    var c, w := f.MinLog2Cols(), f.MaxTileWidth();
    var top := f.MaxLog2Cols();
    LeastLog(1, Min(f.Cols(), MAX_TILES), 6);
    LeastLog(1, Min(f.Rows(), MAX_TILES), 6);
    TopReaches(f, Pow2(top));
    LeastLog(w, f.Cols(), top);
    Pow2Add(c, 5);
    AreaFits(f, Pow2(c));
    LeastLog(f.MaxTileArea(), f.Cols() * f.Rows(), c + 5);
  }

  lemma TopReaches(f: Frame, p: nat)
    requires f.Ok() && p >= Min(f.Cols(), MAX_TILES)
    ensures f.MaxTileWidth() * p >= f.Cols()
  {}

  lemma AreaFits(f: Frame, p: nat)
    requires f.Ok() && f.MaxTileWidth() * p >= f.Cols()
    ensures f.MaxTileArea() * (p * 32) >= f.Cols() * f.Rows()
  {
    var rows := if f.big then 512 else 1024;
    assert f.Rows() <= rows;
    MulAtMost(f.Cols(), f.Rows(), rows);
  }

  // ---------------------------------------------------------------- uniform spacing

  function Step(total: nat, k: nat): (step: nat)
    requires total > 0
    ensures step > 0
  {
    DivNat(total - 1, Pow2(k));
    1 + (total - 1) / Pow2(k)
  }

  /** `2^k` tiles of the uniform step reach across; the step is no wider than any width that does too. */
  lemma StepReaches(total: nat, k: nat, width: nat)
    requires total > 0
    ensures Step(total, k) * Pow2(k) >= total
    ensures width * Pow2(k) >= total ==> Step(total, k) <= width
  {
    hide Pow2;
    var p := Pow2(k);
    var q := (total - 1) / p;
    assert total - 1 == q * p + (total - 1) % p;
    assert (1 + q) * p == q * p + p;
    if width * p >= total { DivBelow(total - 1, p, width); }
  }

  function UniformLine(total: nat, k: nat): seq<nat>
    requires total > 0
  {
    Multiples(Step(total, k), Ceil(total, Step(total, k)))
  }

  lemma StepsApart(step: nat, n: nat)
    ensures forall i | 0 < i < n :: Multiples(step, n)[i] - Multiples(step, n)[i - 1] == step
  {
    forall i | 0 < i < n ensures Multiples(step, n)[i] - Multiples(step, n)[i - 1] == step {
      assert i * step == (i - 1) * step + step;
    }
  }

  lemma FewSteps(total: nat, step: nat, n: nat, p: nat)
    requires step > 0 && n > 0 && (n - 1) * step < total <= p * step
    ensures n <= p
  {
    if n > p { MulAtMost(step, p, n - 1); }
  }

  lemma UniformLineIs(total: nat, k: nat)
    requires total > 0 && Pow2(k) <= MAX_TILES
    ensures var line, step := UniformLine(total, k), Step(total, k);
            && |line| <= Pow2(k) && LineOk(line, total)
            && (forall i | 0 < i < |line| :: line[i] - line[i - 1] == step)
            && total - line[|line| - 1] <= step
  {
    hide Pow2, Step, Ceil;
    var step := Step(total, k);
    var n := Ceil(total, step);
    StepReaches(total, k, 0);
    CeilIs(total, step, n);
    FewSteps(total, step, n, Pow2(k));
    StepsApart(step, n);
    assert n * step == (n - 1) * step + step;
  }

  // ---------------------------------------------------------------- explicit spacing

  datatype Cut = Cut(starts: seq<nat>, widest: nat, next: Cursor)

  /** A tile's size less one, of `room` possible sizes. */
  function DecodeSize(data: seq<byte>, c: Cursor, room: nat): (r: Got)
    requires room > 0
    ensures r.value < room
  {
    if room > 1 then DecodeUniform(data, c, room) else Got(0, c)
  }

  /** Tile widths read one by one, each at most `limit`, until the side or the table of starts is full. */
  function Cuts(data: seq<byte>, c: Cursor, pos: nat, total: nat, limit: nat, count: nat): (r: Cut)
    requires limit > 0
    decreases MAX_TILES - count
  {
    if pos >= total || count >= MAX_TILES then Cut([], 0, c)
    else
      var room := Min(total - pos, limit);
      var v := DecodeSize(data, c, room);
      var rest := Cuts(data, v.next, pos + 1 + v.value, total, limit, count + 1);
      Cut([pos] + rest.starts, Max(1 + v.value, rest.widest), rest.next)
  }

  /** Widths of all tiles but the last stay within the limit; the last one too unless the table ran full. */
  predicate Within(starts: seq<nat>, total: nat, limit: nat) {
    && (forall i | 0 < i < |starts| :: starts[i] - starts[i - 1] <= limit)
    && (0 < |starts| < MAX_TILES ==> total - starts[|starts| - 1] <= limit)
  }

  predicate CutOk(starts: seq<nat>, pos: nat, total: nat, limit: nat, count: nat) {
    && 0 < |starts| <= MAX_TILES - count && starts[0] == pos && starts[|starts| - 1] < total
    && (forall i | 0 < i < |starts| :: 0 < starts[i] - starts[i - 1] <= limit)
    && (|starts| < MAX_TILES - count ==> total - starts[|starts| - 1] <= limit)
  }

  lemma OneMoreCut(pos: nat, next: nat, rest: seq<nat>, total: nat, limit: nat, count: nat)
    requires pos < next <= pos + limit && count < MAX_TILES && CutOk(rest, next, total, limit, count + 1)
    ensures CutOk([pos] + rest, pos, total, limit, count)
  {
    var s := [pos] + rest;
    forall i | 0 < i < |s| ensures 0 < s[i] - s[i - 1] <= limit {
      if i > 1 { assert s[i] == rest[i - 1] && s[i - 1] == rest[i - 2]; }
    }
  }

  lemma {:induction false} CutsAreLine(data: seq<byte>, c: Cursor, pos: nat, total: nat, limit: nat, count: nat)
    requires limit > 0 && pos < total && count < MAX_TILES
    ensures CutOk(Cuts(data, c, pos, total, limit, count).starts, pos, total, limit, count)
    decreases MAX_TILES - count
  {
    hide DecodeSize;
    var room := Min(total - pos, limit);
    var v := DecodeSize(data, c, room);
    var at := pos + 1 + v.value;
    var rest := Cuts(data, v.next, at, total, limit, count + 1);
    if at < total && count + 1 < MAX_TILES {
      CutsAreLine(data, v.next, at, total, limit, count + 1);
      hide CutOk;
      OneMoreCut(pos, at, rest.starts, total, limit, count);
    }
  }

  // ---------------------------------------------------------------- the grid

  datatype Grid = Grid(cols: seq<nat>, rows: seq<nat>, log2Cols: nat, log2Rows: nat, next: Cursor)

  /** An exponent raised by one for each 1 bit, up to its limit. */
  function Raise(data: seq<byte>, c: Cursor, low: nat, high: nat): (r: Got)
    ensures r.value >= low && (low <= high ==> r.value <= high) && (low >= high ==> r.value == low)
    decreases high - low
  {
    if low >= high then Got(low, c)
    else
      var bit := Take(data, c, 1);
      if bit.value == 0 then Got(low, bit.next) else Raise(data, bit.next, low + 1, high)
  }

  function UniformGrid(data: seq<byte>, c: Cursor, f: Frame): Grid
    requires f.Ok()
  {
    var x := Raise(data, c, f.MinLog2Cols(), f.MaxLog2Cols());
    var y := Raise(data, x.next, Max(f.MinLog2Tiles() - x.value, 0), f.MaxLog2Rows());
    Grid(UniformLine(f.Cols(), x.value), UniformLine(f.Rows(), y.value), x.value, y.value, y.next)
  }

  /** How tall an explicit tile may be, given the widest column. */
  function MaxTileHeight(f: Frame, widest: nat): (h: nat)
    requires f.Ok()
    ensures h > 0
  {
    var area := f.Cols() * f.Rows();
    DivNat(area, Pow2(f.MinLog2Tiles() + 1));
    var share := if f.MinLog2Tiles() > 0 then area / Pow2(f.MinLog2Tiles() + 1) else area;
    Max(share / Max(widest, 1), 1)
  }

  function ExplicitGrid(data: seq<byte>, c: Cursor, f: Frame): Grid
    requires f.Ok()
  {
    var x := Cuts(data, c, 0, f.Cols(), f.MaxTileWidth(), 0);
    var y := Cuts(data, x.next, 0, f.Rows(), MaxTileHeight(f, x.widest), 0);
    Grid(x.starts, y.starts, TileLog2(1, |x.starts|), TileLog2(1, |y.starts|), y.next)
  }

  function DecodeGrid(data: seq<byte>, c: Cursor, f: Frame): Grid
    requires f.Ok()
  {
    var uniform := Take(data, c, 1);
    if uniform.value == 1 then UniformGrid(data, uniform.next, f) else ExplicitGrid(data, uniform.next, f)
  }

  lemma LogFits(k: nat)
    requires k <= 6
    ensures Pow2(k) <= MAX_TILES
  {
    SmallPowers();
    Pow2Monotone(k, 6);
  }

  /**
   Uniform spacing, for every choice of bits: the column exponent stays between its two limits, there are at most
   that power of two of columns, none wider than a tile may be, and both sides of the grid are in order.
   */
  lemma UniformGridIsOk(data: seq<byte>, c: Cursor, f: Frame)
    requires f.Ok()
    ensures var g := UniformGrid(data, c, f);
            && f.MinLog2Cols() <= g.log2Cols <= f.MaxLog2Cols() <= 6 && g.log2Rows <= 6
            && |g.cols| <= Pow2(g.log2Cols) && |g.rows| <= Pow2(g.log2Rows)
            && LineOk(g.cols, f.Cols()) && LineOk(g.rows, f.Rows())
            && (forall i | 0 < i < |g.cols| :: g.cols[i] - g.cols[i - 1] <= f.MaxTileWidth())
            && f.Cols() - g.cols[|g.cols| - 1] <= f.MaxTileWidth()
  {
    hide TileLog2, Pow2, Take, Step, UniformLine;
    FrameBounds(f);
    var x := Raise(data, c, f.MinLog2Cols(), f.MaxLog2Cols());
    var y := Raise(data, x.next, Max(f.MinLog2Tiles() - x.value, 0), f.MaxLog2Rows());
    LogFits(x.value);
    LogFits(y.value);
    UniformLineIs(f.Cols(), x.value);
    UniformLineIs(f.Rows(), y.value);
    ColumnsFit(f, x.value);
  }

  lemma ColumnsFit(f: Frame, k: nat)
    requires f.Ok() && f.MinLog2Cols() <= k
    ensures Step(f.Cols(), k) <= f.MaxTileWidth()
  {
    hide Pow2;
    Pow2Monotone(f.MinLog2Cols(), k);
    MulAtMost(f.MaxTileWidth(), Pow2(f.MinLog2Cols()), Pow2(k));
    StepReaches(f.Cols(), k, f.MaxTileWidth());
  }

  /** Explicit spacing, for every choice of bits. */
  lemma ExplicitGridIsOk(data: seq<byte>, c: Cursor, f: Frame)
    requires f.Ok()
    ensures var g := ExplicitGrid(data, c, f);
            && LineOk(g.cols, f.Cols()) && LineOk(g.rows, f.Rows())
            && g.log2Cols <= 6 && g.log2Rows <= 6
            && |g.cols| <= Pow2(g.log2Cols) && |g.rows| <= Pow2(g.log2Rows)
            && Within(g.cols, f.Cols(), f.MaxTileWidth())
  {
    hide Pow2, Cuts;
    FrameBounds(f);
    SmallPowers();
    var x := Cuts(data, c, 0, f.Cols(), f.MaxTileWidth(), 0);
    CutsAreLine(data, c, 0, f.Cols(), f.MaxTileWidth(), 0);
    CutsAreLine(data, x.next, 0, f.Rows(), MaxTileHeight(f, x.widest), 0);
    var g := ExplicitGrid(data, c, f);
    LeastLog(1, |g.cols|, 6);
    LeastLog(1, |g.rows|, 6);
  }

  // ---------------------------------------------------------------- the limit on an explicit tile's size

  /** Every tile of the side, the last one too, is at most `limit` superblocks. */
  predicate KeepsLimit(starts: seq<nat>, total: nat, limit: nat) {
    && (forall i | 0 < i < |starts| :: starts[i] - starts[i - 1] <= limit)
    && (starts != [] ==> total - starts[|starts| - 1] <= limit)
  }

  predicate AllZero(data: seq<byte>) { forall i | 0 <= i < |data| :: data[i] == 0 }

  lemma {:induction false} ZeroWindow(data: seq<byte>, i: nat, n: nat)
    requires AllZero(data)
    ensures Window(data, i, n) == 0
  {
    hide Bit, AllZero;
    if n > 0 {
      ZeroWindow(data, i, n - 1);
      ZeroBit(data, i + n - 1);
    }
  }

  lemma ZeroBit(data: seq<byte>, k: nat)
    requires AllZero(data)
    ensures Bit(data, k) == 0
  {
    hide Pow2;
    if k / 8 < |data| { DivUnique(0, Pow2(7 - k % 8), 0, 0); }
  }

  /** What a size of at most `limit`, on a side of at most 1024 superblocks, takes to read at its shortest. */
  function SizeBits(limit: nat): nat { if limit <= 64 then 6 else 10 }

  /** From zeros every explicit tile is one superblock wide, so the table of starts fills up at its 64th. */
  lemma {:induction false} ZerosCutNarrow(data: seq<byte>, c: Cursor, pos: nat, total: nat, count: nat, limit: nat)
    requires AllZero(data) && 0 < limit && count <= MAX_TILES && pos + (MAX_TILES - count) <= total <= 1024
    requires !c.failed && c.pos + SizeBits(limit) * (MAX_TILES - count) <= 8 * |data|
    ensures var r := Cuts(data, c, pos, total, limit, count);
            && !r.next.failed && |r.starts| == MAX_TILES - count
            && (count < MAX_TILES ==> r.starts[|r.starts| - 1] == pos + (MAX_TILES - count) - 1)
    decreases MAX_TILES - count
  {
    hide DecodeSize, AllZero;
    if count < MAX_TILES {
      var room := Min(total - pos, limit);
      ZeroSize(data, c, room, SizeBits(limit));
      OneFewer(SizeBits(limit), MAX_TILES - count);
      ZerosCutNarrow(data, DecodeSize(data, c, room).next, pos + 1, total, count + 1, limit);
    }
  }

  lemma OneFewer(bits: nat, n: nat)
    requires n > 0
    ensures bits * n == bits * (n - 1) + bits
  {}

  /** Zeros are the shortest codeword, that of a size of one superblock. */
  lemma ZeroSize(data: seq<byte>, c: Cursor, room: nat, bits: nat)
    requires AllZero(data) && !c.failed && c.pos + bits <= 8 * |data|
    requires 0 < room && bits in {6, 10} && room <= if bits == 6 then 64 else 1024
    ensures var v := DecodeSize(data, c, room);
            v.value == 0 && !v.next.failed && c.pos <= v.next.pos <= c.pos + bits
  {
    hide Window, Bit, Pow2, AllZero;
    SizePowers();
    LogBelow(room, bits + 1);
    ZeroWindow(data, c.pos, FloorLog2(room));
  }

  lemma SizePowers()
    ensures Pow2(7) == 128 && Pow2(11) == 2048
  {
    Pow2Bytes();
    Pow2Add(8, 3);
  }

  lemma {:induction false} StartsAdvance(starts: seq<nat>, total: nat, k: nat)
    requires LineOk(starts, total) && k < |starts|
    ensures starts[k] >= k
  {
    if k > 0 { StartsAdvance(starts, total, k - 1); }
  }

  /** A side of at most 63 tiles more than the limit is cut within it whatever the bits. */
  lemma NarrowSideKeepsLimit(data: seq<byte>, c: Cursor, total: nat, limit: nat)
    requires 0 < total <= 63 + limit && limit > 0
    ensures KeepsLimit(Cuts(data, c, 0, total, limit, 0).starts, total, limit)
  {
    hide Cuts;
    var starts := Cuts(data, c, 0, total, limit, 0).starts;
    CutsAreLine(data, c, 0, total, limit, 0);
    StartsAdvance(starts, total, |starts| - 1);
  }

  /** Zeros to read leave the last tile of a wider side everything past the 63rd superblock. */
  lemma WideSideBreaksLimit(total: nat, limit: nat) returns (data: seq<byte>, c: Cursor)
    requires 63 + limit < total <= 1024 && limit > 0
    ensures var x := Cuts(data, c, 0, total, limit, 0); !x.next.failed && !KeepsLimit(x.starts, total, limit)
  {
    data, c := seq(80, _ => 0), Cursor(0, false);
    ZerosCutNarrow(data, c, 0, total, 0, limit);
  }

  /**
   Explicit spacing keeps the limit on a tile's size, the last tile's included, for every choice of bits if and only
   if the side is at most 63 superblocks longer than the limit: the table of starts then cannot fill up too early.
   */
  lemma ExplicitKeepsLimitIff(total: nat, limit: nat)
    requires 0 < total <= 1024 && limit > 0
    ensures (forall data, c | !Cuts(data, c, 0, total, limit, 0).next.failed ::
               KeepsLimit(Cuts(data, c, 0, total, limit, 0).starts, total, limit))
            <==> total <= 63 + limit
  {
    hide Cuts, KeepsLimit;
    if total <= 63 + limit {
      forall data, c | !Cuts(data, c, 0, total, limit, 0).next.failed
        ensures KeepsLimit(Cuts(data, c, 0, total, limit, 0).starts, total, limit)
      {
        NarrowSideKeepsLimit(data, c, total, limit);
      }
    } else {
      var data, c := WideSideBreaksLimit(total, limit);
    }
  }

  /** The columns of a frame wide enough, from zeros: the last one of a full table takes everything that is left. */
  lemma LastColumnTooWide(data: seq<byte>, f: Frame)
    requires f.Ok() && AllZero(data) && |data| >= 48 && f.Cols() > 63 + f.MaxTileWidth()
    ensures var x := Cuts(data, Cursor(0, false), 0, f.Cols(), f.MaxTileWidth(), 0);
            !x.next.failed && |x.starts| == MAX_TILES && f.Cols() - x.starts[|x.starts| - 1] > f.MaxTileWidth()
  {
    ZerosCutNarrow(data, Cursor(0, false), 0, f.Cols(), 0, f.MaxTileWidth());
  }

  predicate ColumnsKeepLimit(data: seq<byte>, c: Cursor, f: Frame)
    requires f.Ok()
  {
    KeepsLimit(ExplicitGrid(data, c, f).cols, f.Cols(), f.MaxTileWidth())
  }

  /** Every choice of bits keeps each explicit column within the maximum tile width exactly when the frame is narrow. */
  lemma ColumnsKeepLimitIff(f: Frame)
    requires f.Ok()
    ensures (forall data, c :: ColumnsKeepLimit(data, c, f)) <==> f.Cols() <= 63 + f.MaxTileWidth()
  {
    hide Cuts, KeepsLimit;
    if f.Cols() <= 63 + f.MaxTileWidth() {
      forall data, c ensures ColumnsKeepLimit(data, c, f) {
        NarrowSideKeepsLimit(data, c, f.Cols(), f.MaxTileWidth());
      }
    } else {
      var data, c := WideSideBreaksLimit(f.Cols(), f.MaxTileWidth());
      assert !ColumnsKeepLimit(data, c, f);
    }
  }

  // ---------------------------------------------------------------- the update tile

  /** Raster order to the column-major order the hardware walks. */
  function Remap(id: nat, cols: nat, rows: nat): nat
    requires cols > 0
  {
    DivNat(id, cols);
    id % cols * rows + id / cols
  }

  /** The renumbering permutes the tiles: it stays in range and the transposed renumbering undoes it. */
  lemma RemapIsBijection(id: nat, cols: nat, rows: nat)
    requires cols > 0 && rows > 0 && id < cols * rows
    ensures Remap(id, cols, rows) < cols * rows && Remap(Remap(id, cols, rows), rows, cols) == id
    ensures Remap(Remap(id, rows, cols), cols, rows) == id
  {
    RemapOneWay(id, cols, rows);
    RemapOneWay(id, rows, cols);
  }

  /** The tile in column `x` of row `y` is number `y` of column `x`. */
  lemma RemapTransposes(x: nat, y: nat, cols: nat, rows: nat)
    requires x < cols && y < rows
    ensures Remap(y * cols + x, cols, rows) == x * rows + y
  {
    DivUnique(y * cols + x, cols, y, x);
  }

  lemma RemapOneWay(id: nat, cols: nat, rows: nat)
    requires cols > 0 && rows > 0 && id < cols * rows
    ensures Remap(id, cols, rows) < cols * rows && Remap(Remap(id, cols, rows), rows, cols) == id
  {
    var x, y := id % cols, id / cols;
    assert id == y * cols + x;
    DivBelow(id, cols, rows);
    DivUnique(x * rows + y, rows, x, y);
    MulAtMost(rows, x + 1, cols);
    assert rows * (x + 1) == x * rows + rows;
  }

  // ---------------------------------------------------------------- the loops

  method TileLog(size: nat, target: nat) returns (k: nat)
    requires size > 0
    ensures k == TileLog2(size, target)
  {
    hide Pow2;
    k := 0;
    Doubling(size, Pow2(0));
    while size * Pow2(k) < target
      invariant TileLog2(size, target) == TileLog2From(size, target, k)
      decreases target - size * Pow2(k)
    {
      NextShift(size, k);
      k := k + 1;
    }
  }

  lemma NextShift(size: nat, k: nat)
    requires size > 0
    ensures size * Pow2(k + 1) > size * Pow2(k)
  {
    Doubling(size, Pow2(k));
  }

  method ReadRaise(r: ShiftReader, low: nat, high: nat) returns (v: nat)
    requires r.Valid()
    modifies r
    ensures r.Valid() && Got(v, r.At()) == Raise(r.data, old(r.At()), low, high)
  {
    hide Take, Coupled, Pow2;
    v := low;
    while v < high
      invariant r.Valid() && Raise(r.data, old(r.At()), low, high) == Raise(r.data, r.At(), v, high)
    {
      var bit := r.U(1);
      if bit == 0 { return; }
      v := v + 1;
    }
  }

  /** The starts of a uniform side, and the sentinel after them. */
  method FillUniform(starts: array<nat>, total: nat, k: nat) returns (n: nat)
    requires total > 0 && Pow2(k) <= MAX_TILES < starts.Length
    modifies starts
    ensures n == |UniformLine(total, k)| <= MAX_TILES
    ensures starts[..n] == UniformLine(total, k) && starts[n] == total
  {
    hide Pow2, Step, Ceil, UniformLine;
    UniformLineIs(total, k);
    ghost var line := UniformLine(total, k);
    var step := Step(total, k);
    n := 0;
    var sb := 0;
    while sb < total
      invariant n <= |line| && sb == n * step && starts[..n] == line[..n]
      decreases |line| - n
    {
      LineSays(total, k, n);
      starts[n] := sb;
      sb, n := sb + step, n + 1;
    }
    LineSays(total, k, n);
    starts[n] := total;
  }

  lemma LineSays(total: nat, k: nat, i: nat)
    requires total > 0
    ensures var line, step := UniformLine(total, k), Step(total, k);
            && (i < |line| <==> i * step < total)
            && (i < |line| ==> line[i] == i * step)
            && (i + 1) * step == i * step + step
  {
    var step := Step(total, k);
    var n := Ceil(total, step);
    CeilIs(total, step, n);
    if i < n { MulAtMost(step, i, n - 1); } else { MulAtMost(step, n, i); }
  }

  function Extend(done: seq<nat>, widest: nat, rest: Cut): Cut {
    Cut(done + rest.starts, Max(widest, rest.widest), rest.next)
  }

  lemma ExtendOne(data: seq<byte>, c: Cursor, pos: nat, total: nat, limit: nat, done: seq<nat>, widest: nat)
    requires limit > 0
    ensures var rest, n := Cuts(data, c, pos, total, limit, |done|), |done|;
            if pos >= total || n >= MAX_TILES then Extend(done, widest, rest) == Cut(done, widest, c)
            else
              var v := DecodeSize(data, c, Min(total - pos, limit));
              var next := pos + 1 + v.value;
              && next <= total
              && Extend(done, widest, rest)
                 == Extend(done + [pos], Max(widest, 1 + v.value), Cuts(data, v.next, next, total, limit, n + 1))
  {
    hide DecodeSize;
    assert done + [] == done;
    if pos < total && |done| < MAX_TILES {
      var v := DecodeSize(data, c, Min(total - pos, limit));
      var rest := Cuts(data, v.next, pos + 1 + v.value, total, limit, |done| + 1);
      assert done + ([pos] + rest.starts) == done + [pos] + rest.starts;
    }
  }

  method ReadSize(r: ShiftReader, room: nat) returns (v: nat)
    requires r.Valid() && 0 < room < 0x1_0000_0000
    modifies r
    ensures r.Valid() && Got(v, r.At()) == DecodeSize(r.data, old(r.At()), room)
  {
    v := 0;
    if room > 1 { v := ReadUniform(r, room); }
  }

  method FillExplicit(r: ShiftReader, starts: array<nat>, total: nat, limit: nat) returns (n: nat, widest: nat)
    requires r.Valid() && 0 < total <= 0x1_0000 && 0 < limit && MAX_TILES < starts.Length
    modifies r, starts
    ensures r.Valid() && n <= MAX_TILES && starts[n] == total
    ensures Cut(starts[..n], widest, r.At()) == Cuts(r.data, old(r.At()), 0, total, limit, 0)
  {
    hide DecodeSize, Coupled, Pow2, Cuts, Extend;
    n, widest := 0, 0;
    var sb: nat := 0;
    ghost var all := Cuts(r.data, r.At(), 0, total, limit, 0);
    ExtendNone(all);
    while sb < total && n < MAX_TILES
      invariant r.Valid() && n <= MAX_TILES && sb <= total
      invariant all == Extend(starts[..n], widest, Cuts(r.data, r.At(), sb, total, limit, n))
      decreases MAX_TILES - n
    {
      ghost var before := starts[..n];
      ExtendOne(r.data, r.At(), sb, total, limit, before, widest);
      var v := ReadSize(r, Min(total - sb, limit));
      starts[n] := sb;
      assert starts[..n + 1] == before + [sb];
      sb := sb + (1 + v);
      widest := Max(widest, 1 + v);
      n := n + 1;
    }
    ExtendOne(r.data, r.At(), sb, total, limit, starts[..n], widest);
    ghost var line := starts[..n];
    starts[n] := total;
    assert starts[..n] == line;
  }

  lemma ExtendNone(all: Cut)
    ensures Extend([], 0, all) == all
  {
    assert [] + all.starts == all.starts;
  }

  datatype Update = Rejected | Update(tile: nat, sizeBytes: nat)

  /** The update tile and the size of the tile size field, read only if there is more than one exponent's worth. */
  function DecodeUpdate(data: seq<byte>, g: Grid): (Update, Cursor) {
    if g.log2Cols == 0 && g.log2Rows == 0 then (Update(0, 0), g.next)
    else
      var tile := Take(data, g.next, g.log2Cols + g.log2Rows);
      if tile.value >= |g.cols| * |g.rows| then (Rejected, tile.next)
      else
        var size := Take(data, tile.next, 2);
        (Update(tile.value, size.value + 1), size.next)
  }

  /** Every frame size and every choice of bits: the grid is in order, and the update tile is one of its tiles. */
  lemma TilingIsOk(data: seq<byte>, c: Cursor, f: Frame)
    requires f.Ok()
    ensures var g := DecodeGrid(data, c, f);
            var u := DecodeUpdate(data, g).0;
            && LineOk(g.cols, f.Cols()) && LineOk(g.rows, f.Rows())
            && |g.cols| <= Pow2(g.log2Cols) && |g.rows| <= Pow2(g.log2Rows) && g.log2Cols <= 6 && g.log2Rows <= 6
            && (u.Update? ==> u.tile < |g.cols| * |g.rows|
                              && Remap(u.tile, |g.cols|, |g.rows|) < |g.cols| * |g.rows|)
  {
    hide UniformGrid, ExplicitGrid, Remap;
    UniformGridIsOk(data, Take(data, c, 1).next, f);
    ExplicitGridIsOk(data, Take(data, c, 1).next, f);
    var g := DecodeGrid(data, c, f);
    var u := DecodeUpdate(data, g).0;
    SomeTile(|g.cols|, |g.rows|);
    if u.Update? { RemapIsBijection(u.tile, |g.cols|, |g.rows|); }
  }

  lemma SomeTile(cols: nat, rows: nat)
    requires cols > 0 && rows > 0
    ensures cols * rows > 0
  {
    MulAtMost(cols, 1, rows);
  }

  /** The tiling block of the frame header, into tables of 65 starts each way. */
  method ParseTiling(r: ShiftReader, f: Frame, cols: array<nat>, rows: array<nat>)
    returns (nCols: nat, nRows: nat, log2Cols: nat, log2Rows: nat)
    requires r.Valid() && f.Ok() && cols.Length == rows.Length == MAX_TILES + 1 && cols != rows
    modifies r, cols, rows
    ensures r.Valid() && nCols <= MAX_TILES && nRows <= MAX_TILES
    ensures Grid(cols[..nCols], rows[..nRows], log2Cols, log2Rows, r.At()) == DecodeGrid(r.data, old(r.At()), f)
    ensures cols[nCols] == f.Cols() && rows[nRows] == f.Rows()
  {
    hide Coupled, Pow2, Take, Raise, Cuts, TileLog2, UniformLine;
    var uniform := r.U(1);
    FrameBounds(f);
    var minLog2Cols := TileLog(f.MaxTileWidth(), f.Cols());
    var maxLog2Cols := TileLog(1, Min(f.Cols(), MAX_TILES));
    var maxLog2Rows := TileLog(1, Min(f.Rows(), MAX_TILES));
    var areaLog := TileLog(f.MaxTileArea(), f.Cols() * f.Rows());
    var minLog2Tiles := Max(areaLog, minLog2Cols);
    TakeBit(r.data, old(r.At()));
    if uniform == 1 {
      log2Cols := ReadRaise(r, minLog2Cols, maxLog2Cols);
      LogFits(log2Cols);
      nCols := FillUniform(cols, f.Cols(), log2Cols);
      log2Rows := ReadRaise(r, Max(minLog2Tiles - log2Cols, 0), maxLog2Rows);
      LogFits(log2Rows);
      nRows := FillUniform(rows, f.Rows(), log2Rows);
    } else {
      var widest, unused;
      nCols, widest := FillExplicit(r, cols, f.Cols(), f.MaxTileWidth());
      log2Cols := TileLog(1, nCols);
      var tallest := MaxTileHeight(f, widest);
      nRows, unused := FillExplicit(r, rows, f.Rows(), tallest);
      log2Rows := TileLog(1, nRows);
    }
  }

  lemma TakeBit(data: seq<byte>, c: Cursor)
    ensures Take(data, c, 1).value <= 1
  {}

  method ParseUpdate(r: ShiftReader, ghost g: Grid, nCols: nat, nRows: nat, log2Cols: nat, log2Rows: nat)
    returns (u: Update)
    requires r.Valid() && g.next == r.At() && nCols == |g.cols| && nRows == |g.rows|
    requires log2Cols == g.log2Cols <= 6 && log2Rows == g.log2Rows <= 6
    modifies r
    ensures r.Valid() && (u, r.At()) == DecodeUpdate(r.data, g)
  {
    hide Coupled, Pow2, Take;
    u := Update(0, 0);
    if log2Cols > 0 || log2Rows > 0 {
      var tile := r.U(log2Cols + log2Rows);
      if tile >= nCols * nRows { return Rejected; }
      var size := r.U(2);
      u := Update(tile, size + 1);
    }
  }
}

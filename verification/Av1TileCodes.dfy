/**
 The syntax of the AV1 tile grid (section 5.9.15 of the AV1 specification) written out, and that the parser
 (mft/av1_parser.cpp) returns the grid that was written.
 */
module Av1TileCodes {
  import opened Bits
  import opened ShiftReaders
  import opened WrittenFields
  import opened Av1Codes
  import opened Av1Tiles

  // ---------------------------------------------------------------- the frame in superblocks

  /** `n` superblocks of `size` samples cover `samples`, and one less does not. */
  predicate Covers(n: nat, size: nat, samples: nat) { n > 0 && (n - 1) * size < samples <= n * size }

  /** `k` is the least exponent with `size << k` at least `target`. */
  predicate Least(k: nat, size: nat, target: nat) {
    size * Pow2(k) >= target && (k > 0 ==> size * Pow2(k - 1) < target)
  }

  /** The sizes of the frame and the limits on its tiles: 4096 samples across, 4096 by 2304 in area. */
  lemma FrameMeans(f: Frame)
    requires f.Ok()
    ensures var sb := if f.big then 128 else 64;
            && Covers(f.Cols(), sb, f.width) && Covers(f.Rows(), sb, f.height)
            && f.MaxTileWidth() * sb == 4096 && f.MaxTileArea() * (sb * sb) == 4096 * 2304
    ensures Least(f.MinLog2Cols(), f.MaxTileWidth(), f.Cols())
    ensures Least(f.MaxLog2Cols(), 1, if f.Cols() < 64 then f.Cols() else 64)
    ensures Least(f.MaxLog2Rows(), 1, if f.Rows() < 64 then f.Rows() else 64)
    ensures f.MinLog2Tiles() >= f.MinLog2Cols() && f.MaxTileArea() * Pow2(f.MinLog2Tiles()) >= f.Cols() * f.Rows()
    ensures f.MinLog2Tiles() == f.MinLog2Cols() || Least(f.MinLog2Tiles(), f.MaxTileArea(), f.Cols() * f.Rows())
  {
    hide Pow2, TileLog2;
    var area := TileLog2(f.MaxTileArea(), f.Cols() * f.Rows());
    Pow2Monotone(area, f.MinLog2Tiles());
    MulAtMost(f.MaxTileArea(), Pow2(area), Pow2(f.MinLog2Tiles()));
  }

  // ---------------------------------------------------------------- even spacing

  /** tileWidthSb and tileHeightSb: the side divided by `2^k`, rounded up. */
  function TileSize(total: nat, k: nat): nat {
    DivNat(total + Pow2(k) - 1, Pow2(k));
    (total + Pow2(k) - 1) / Pow2(k)
  }

  /** Tiles of `step` from 0 on, as many as reach across the side. */
  predicate Even(starts: seq<nat>, total: nat, step: nat) {
    && (forall i | 0 <= i < |starts| :: starts[i] == i * step)
    && |starts| > 0 && (|starts| - 1) * step < total <= |starts| * step
  }

  lemma UniformLineIsEven(total: nat, k: nat)
    requires total > 0
    ensures Even(UniformLine(total, k), total, TileSize(total, k))
  {
    hide Pow2, Ceil;
    var p := Pow2(k);
    OneMoreStep(total, p);
    CeilIs(total, Step(total, k), Ceil(total, Step(total, k)));
  }

  lemma OneMoreStep(total: nat, p: nat)
    requires total > 0 && p > 0
    ensures (total + p - 1) / p == 1 + (total - 1) / p
  {
    var q, r := (total - 1) / p, (total - 1) % p;
    assert total - 1 == q * p + r;
    assert (q + 1) * p == q * p + p;
    DivUnique(total + p - 1, p, q + 1, r);
  }

  /** increment_tile_cols_log2 or increment_tile_rows_log2 `n` times, and its end unless the limit is reached. */
  function RaiseCode(n: nat, more: bool): seq<Field> {
    if n > 0 then [Field(1, 1)] + RaiseCode(n - 1, more) else if more then [Field(0, 1)] else []
  }

  lemma {:induction false} RaiseReads(data: seq<byte>, pos: nat, low: nat, high: nat, n: nat)
    requires n == 0 || low + n <= high
    requires Written(data, pos, RaiseCode(n, low + n < high))
    ensures var code := RaiseCode(n, low + n < high);
            Raise(data, Cursor(pos, false), low, high) == Got(low + n, Cursor(pos + WidthOf(code), false))
    decreases n
  {
    hide Written, WidthOf, Window, Pow2;
    if n > 0 {
      WrittenFirst(data, pos, Field(1, 1), RaiseCode(n - 1, low + n < high));
      RaiseReads(data, pos + 1, low + 1, high, n - 1);
    } else if low < high {
      WrittenOne(data, pos, Field(0, 1));
    } else {
      WrittenNone(data, pos);
    }
  }

  /** uniform_tile_spacing_flag of one, and both exponents above their least values. */
  function EvenCode(f: Frame, moreCols: nat, moreRows: nat): seq<Field> {
    var log2Cols := f.MinLog2Cols() + moreCols;
    var log2Rows := LeastRows(f, log2Cols) + moreRows;
    [Field(1, 1)] + (RaiseCode(moreCols, log2Cols < f.MaxLog2Cols()) + RaiseCode(moreRows, log2Rows < f.MaxLog2Rows()))
  }

  /** minLog2TileRows. */
  function LeastRows(f: Frame, log2Cols: nat): nat {
    if f.MinLog2Tiles() > log2Cols then f.MinLog2Tiles() - log2Cols else 0
  }

  /**
   Where the flag is one, the exponents are the least ones raised as often as coded, and both sides are divided evenly
   by them: all tiles have one size, but for the last, which has what is left.
   */
  lemma EvenGridParses(data: seq<byte>, pos: nat, f: Frame, moreCols: nat, moreRows: nat)
    requires f.Ok() && f.MinLog2Cols() + moreCols <= f.MaxLog2Cols()
    requires moreRows == 0 || LeastRows(f, f.MinLog2Cols() + moreCols) + moreRows <= f.MaxLog2Rows()
    requires Written(data, pos, EvenCode(f, moreCols, moreRows))
    ensures var g := DecodeGrid(data, Cursor(pos, false), f);
            && g.log2Cols == f.MinLog2Cols() + moreCols && g.log2Rows == LeastRows(f, g.log2Cols) + moreRows
            && Even(g.cols, f.Cols(), TileSize(f.Cols(), g.log2Cols))
            && Even(g.rows, f.Rows(), TileSize(f.Rows(), g.log2Rows))
            && g.next == Cursor(pos + WidthOf(EvenCode(f, moreCols, moreRows)), false)
  {
    hide Written, WidthOf, Window, Pow2, Raise, RaiseCode, UniformLine, TileLog2, TileSize, Even;
    hide Frame.Cols, Frame.Rows;
    FrameBounds(f);
    var log2Cols := f.MinLog2Cols() + moreCols;
    var log2Rows := LeastRows(f, log2Cols) + moreRows;
    var x, y := RaiseCode(moreCols, log2Cols < f.MaxLog2Cols()), RaiseCode(moreRows, log2Rows < f.MaxLog2Rows());
    WrittenFirst(data, pos, Field(1, 1), x + y);
    WrittenBoth(data, pos + 1, x, y);
    RaiseReads(data, pos + 1, f.MinLog2Cols(), f.MaxLog2Cols(), moreCols);
    RaiseReads(data, pos + 1 + WidthOf(x), LeastRows(f, log2Cols), f.MaxLog2Rows(), moreRows);
    UniformLineIsEven(f.Cols(), log2Cols);
    UniformLineIsEven(f.Rows(), log2Rows);
  }

  // ---------------------------------------------------------------- tiles of any size

  /** Sizes of at least one superblock and at most `limit` that add up to the side. */
  predicate SizesOk(sizes: seq<nat>, start: nat, total: nat, limit: nat) {
    if sizes == [] then start == total
    else 0 < sizes[0] <= limit && start + sizes[0] <= total && SizesOk(sizes[1..], start + sizes[0], total, limit)
  }

  function Starts(sizes: seq<nat>, start: nat): (starts: seq<nat>)
    ensures |starts| == |sizes|
  {
    if sizes == [] then [] else [start] + Starts(sizes[1..], start + sizes[0])
  }

  function Widest(sizes: seq<nat>): nat {
    if sizes == [] then 0
    else
      var rest := Widest(sizes[1..]);
      if sizes[0] > rest then sizes[0] else rest
  }

  /** width_in_sbs_minus_1 or height_in_sbs_minus_1: each size less one, among as many as there is room for. */
  function SizesCode(sizes: seq<nat>, start: nat, total: nat, limit: nat): seq<Field>
    requires SizesOk(sizes, start, total, limit)
  {
    if sizes == [] then []
    else
      var room := if total - start < limit then total - start else limit;
      (if room > 1 then UniformCode(room, sizes[0] - 1) else [])
      + SizesCode(sizes[1..], start + sizes[0], total, limit)
  }

  lemma {:induction false} SizesRead(data: seq<byte>, pos: nat, sizes: seq<nat>, start: nat, total: nat, limit: nat,
                                     count: nat)
    requires limit > 0 && SizesOk(sizes, start, total, limit) && count + |sizes| <= MAX_TILES
    requires Written(data, pos, SizesCode(sizes, start, total, limit))
    ensures Cuts(data, Cursor(pos, false), start, total, limit, count)
         == Cut(Starts(sizes, start), Widest(sizes),
                Cursor(pos + WidthOf(SizesCode(sizes, start, total, limit)), false))
    decreases sizes
  {
    hide Written, WidthOf, DecodeUniform, UniformCode, Cuts, DecodeSize;
    if sizes == [] {
      WrittenNone(data, pos);
      assert Cuts(data, Cursor(pos, false), start, total, limit, count) == Cut([], 0, Cursor(pos, false)) by {
        NoCuts(data, Cursor(pos, false), total, limit, count);
      }
    } else {
      OneCut(data, Cursor(pos, false), start, total, limit, count);
      var room := Min(total - start, limit);
      var first := if room > 1 then UniformCode(room, sizes[0] - 1) else [];
      var next := start + sizes[0];
      WrittenBoth(data, pos, first, SizesCode(sizes[1..], next, total, limit));
      OneSizeReads(data, pos, room, sizes[0]);
      SizesRead(data, pos + WidthOf(first), sizes[1..], next, total, limit, count + 1);
    }
  }

  lemma NoCuts(data: seq<byte>, c: Cursor, total: nat, limit: nat, count: nat)
    requires limit > 0
    ensures Cuts(data, c, total, total, limit, count) == Cut([], 0, c)
  {}

  lemma OneCut(data: seq<byte>, c: Cursor, start: nat, total: nat, limit: nat, count: nat)
    requires limit > 0 && start < total && count < MAX_TILES
    ensures var v := DecodeSize(data, c, Min(total - start, limit));
            var rest := Cuts(data, v.next, start + 1 + v.value, total, limit, count + 1);
            Cuts(data, c, start, total, limit, count)
            == Cut([start] + rest.starts, Max(1 + v.value, rest.widest), rest.next)
  {
    hide DecodeSize;
  }

  lemma OneSizeReads(data: seq<byte>, pos: nat, room: nat, size: nat)
    requires 0 < size <= room
    requires Written(data, pos, if room > 1 then UniformCode(room, size - 1) else [])
    ensures DecodeSize(data, Cursor(pos, false), room)
         == Got(size - 1, Cursor(pos + WidthOf(if room > 1 then UniformCode(room, size - 1) else []), false))
  {
    hide Written, WidthOf, DecodeUniform, UniformCode;
    if room > 1 { UniformInverts(data, pos, room, size - 1); } else { WrittenNone(data, pos); }
  }

  /** maxTileHeightSb: a share of the frame's area, divided by the widest tile. */
  function TallestTile(f: Frame, widest: nat): nat
    requires widest > 0
  {
    var area := f.Rows() * f.Cols();
    DivNat(area, Pow2(f.MinLog2Tiles() + 1));
    var share := if f.MinLog2Tiles() > 0 then area / Pow2(f.MinLog2Tiles() + 1) else area;
    if share >= widest then share / widest else 1
  }

  /** uniform_tile_spacing_flag of zero, the widths and the heights. */
  function UnevenCode(f: Frame, widths: seq<nat>, heights: seq<nat>): seq<Field>
    requires f.Ok() && SizesOk(widths, 0, f.Cols(), f.MaxTileWidth()) && Widest(widths) > 0
    requires SizesOk(heights, 0, f.Rows(), TallestTile(f, Widest(widths)))
  {
    [Field(0, 1)] + (SizesCode(widths, 0, f.Cols(), f.MaxTileWidth())
                     + SizesCode(heights, 0, f.Rows(), TallestTile(f, Widest(widths))))
  }

  lemma TallestIs(f: Frame, widest: nat)
    requires f.Ok() && widest > 0
    ensures MaxTileHeight(f, widest) == TallestTile(f, widest) > 0
  {
    hide Pow2, Frame.Cols, Frame.Rows, Frame.MinLog2Tiles;
    Commute(f.Cols(), f.Rows());
    var area := f.Rows() * f.Cols();
    DivNat(area, Pow2(f.MinLog2Tiles() + 1));
    AtLeastOne(if f.MinLog2Tiles() > 0 then area / Pow2(f.MinLog2Tiles() + 1) else area, widest);
  }

  lemma Commute(a: nat, b: nat)
    ensures a * b == b * a
  {}

  lemma AtLeastOne(share: nat, widest: nat)
    requires widest > 0
    ensures Max(share / widest, 1) == if share >= widest then share / widest else 1
  {
    if share < widest { DivUnique(share, widest, 0, share); } else { DivBelowOne(share, widest); }
  }

  lemma DivBelowOne(a: nat, d: nat)
    requires d > 0 && a >= d
    ensures a / d >= 1
  {
    var q := a / d;
    assert a == q * d + a % d;
    MulSign(q, d);
  }

  /**
   Where the flag is zero, any widths and heights within the limits come back as the grid: its starts, the least
   exponents for their numbers, and the cursor just behind the code.
   */
  lemma UnevenGridParses(data: seq<byte>, pos: nat, f: Frame, widths: seq<nat>, heights: seq<nat>)
    requires f.Ok() && |widths| <= 64 && |heights| <= 64
    requires SizesOk(widths, 0, f.Cols(), f.MaxTileWidth()) && Widest(widths) > 0
    requires SizesOk(heights, 0, f.Rows(), TallestTile(f, Widest(widths)))
    requires Written(data, pos, UnevenCode(f, widths, heights))
    ensures var g := DecodeGrid(data, Cursor(pos, false), f);
            && g.cols == Starts(widths, 0) && g.rows == Starts(heights, 0)
            && Least(g.log2Cols, 1, |widths|) && Least(g.log2Rows, 1, |heights|)
            && g.next == Cursor(pos + WidthOf(UnevenCode(f, widths, heights)), false)
  {
    hide Written, WidthOf, Window, Pow2, Cuts, SizesCode, TileLog2, MaxTileHeight, TallestTile;
    hide Frame.Cols, Frame.Rows, Starts, Widest, SizesOk;
    var tallest := TallestTile(f, Widest(widths));
    TallestIs(f, Widest(widths));
    var x, y := SizesCode(widths, 0, f.Cols(), f.MaxTileWidth()), SizesCode(heights, 0, f.Rows(), tallest);
    WrittenFirst(data, pos, Field(0, 1), x + y);
    WrittenBoth(data, pos + 1, x, y);
    SizesRead(data, pos + 1, widths, 0, f.Cols(), f.MaxTileWidth(), 0);
    SizesRead(data, pos + 1 + WidthOf(x), heights, 0, f.Rows(), tallest, 0);
  }

  // ---------------------------------------------------------------- the update tile

  /** context_update_tile_id and tile_size_bytes_minus_1. */
  lemma UpdateParses(data: seq<byte>, pos: nat, g: Grid, tile: nat, sizeBytes: nat)
    requires g.next == Cursor(pos, false) && g.log2Cols + g.log2Rows > 0 && 1 <= sizeBytes <= 4
    requires Written(data, pos, [Field(tile, g.log2Cols + g.log2Rows), Field(sizeBytes - 1, 2)])
    ensures DecodeUpdate(data, g)
         == if tile < |g.cols| * |g.rows| then
              (Update(tile, sizeBytes), Cursor(pos + g.log2Cols + g.log2Rows + 2, false))
            else (Rejected, Cursor(pos + g.log2Cols + g.log2Rows, false))
  {
    hide Written, WidthOf, Window, Pow2;
    WrittenTwo(data, pos, Field(tile, g.log2Cols + g.log2Rows), Field(sizeBytes - 1, 2));
  }

  /** With a single tile, nothing is read. */
  lemma NoUpdate(data: seq<byte>, g: Grid)
    requires g.log2Cols == g.log2Rows == 0
    ensures DecodeUpdate(data, g) == (Update(0, 0), g.next)
  {}
}

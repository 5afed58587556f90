/** Live-neighbour counting on an open-boundary grid (src/automata.rs:26-36).
    Two definitions: the one the source's clipped loops compute (WindowSum) and
    the textbook one over the eight neighbouring positions (NeighbourSum),
    proved equal. */
module Neighbours {
  import opened RowMajor

  predicate InGrid(w: nat, h: nat, x: int, y: int) {
    0 <= x < w && 0 <= y < h
  }

  /** The tile at (x, y), or 0 for a position off the grid: such positions are
      absent, not dead-but-present. */
  function Cell(tiles: seq<u8>, w: nat, h: nat, x: int, y: int): nat
    requires |tiles| == w * h
  {
    if InGrid(w, h, x, y) then IndexInBounds(w, h, x, y); At(tiles, w, x, y) else 0
  }

  /** 1 for a position on the grid, 0 off it. */
  function Present(w: nat, h: nat, x: int, y: int): nat {
    if InGrid(w, h, x, y) then 1 else 0
  }

  /** Sum of the tiles at the eight positions around (x, y). */
  function NeighbourSum(tiles: seq<u8>, w: nat, h: nat, x: int, y: int): nat
    requires |tiles| == w * h
  {
    Cell(tiles, w, h, x - 1, y - 1) + Cell(tiles, w, h, x, y - 1) + Cell(tiles, w, h, x + 1, y - 1) +
    Cell(tiles, w, h, x - 1, y)     +                                 Cell(tiles, w, h, x + 1, y) +
    Cell(tiles, w, h, x - 1, y + 1) + Cell(tiles, w, h, x, y + 1) + Cell(tiles, w, h, x + 1, y + 1)
  }

  /** How many of the eight positions around (x, y) lie on the grid. */
  function Candidates(w: nat, h: nat, x: int, y: int): nat {
    Present(w, h, x - 1, y - 1) + Present(w, h, x, y - 1) + Present(w, h, x + 1, y - 1) +
    Present(w, h, x - 1, y)     +                           Present(w, h, x + 1, y) +
    Present(w, h, x - 1, y + 1) + Present(w, h, x, y + 1) + Present(w, h, x + 1, y + 1)
  }

  /** What the loop body adds for (nx, ny): nothing for the centre itself. */
  function Term(tiles: seq<u8>, w: nat, h: nat, x: int, y: int, nx: int, ny: int): nat
    requires |tiles| == w * h
  {
    if nx == x && ny == y then 0 else Cell(tiles, w, h, nx, ny)
  }

  /** The inner loop: rows lo up to hi of column nx. */
  function ColumnSum(tiles: seq<u8>, w: nat, h: nat, x: int, y: int, nx: int, lo: int, hi: int): nat
    requires |tiles| == w * h
    decreases hi - lo
  {
    if hi <= lo then 0
    else ColumnSum(tiles, w, h, x, y, nx, lo, hi - 1) + Term(tiles, w, h, x, y, nx, hi - 1)
  }

  /** The outer loop: columns xlo up to xhi, each over rows ylo up to yhi. */
  function WindowSum(tiles: seq<u8>, w: nat, h: nat, x: int, y: int, xlo: int, xhi: int, ylo: int, yhi: int): nat
    requires |tiles| == w * h
    decreases xhi - xlo
  {
    if xhi <= xlo then 0
    else WindowSum(tiles, w, h, x, y, xlo, xhi - 1, ylo, yhi) + ColumnSum(tiles, w, h, x, y, xhi - 1, ylo, yhi)
  }

  function Max(a: int, b: int): int { if a < b then b else a }
  function Min(a: int, b: int): int { if a < b then a else b }

  /** The three rows of column nx around y. */
  function Column3(tiles: seq<u8>, w: nat, h: nat, x: int, y: int, nx: int): nat
    requires |tiles| == w * h
  {
    Term(tiles, w, h, x, y, nx, y - 1) + Term(tiles, w, h, x, y, nx, y) + Term(tiles, w, h, x, y, nx, y + 1)
  }

  lemma ColumnSmall(tiles: seq<u8>, w: nat, h: nat, x: int, y: int, nx: int, lo: int, hi: int)
    requires |tiles| == w * h
    requires lo <= hi <= lo + 3
    ensures ColumnSum(tiles, w, h, x, y, nx, lo, hi) ==
      (if lo < hi then Term(tiles, w, h, x, y, nx, lo) else 0) +
      (if lo + 1 < hi then Term(tiles, w, h, x, y, nx, lo + 1) else 0) +
      (if lo + 2 < hi then Term(tiles, w, h, x, y, nx, lo + 2) else 0)
    decreases hi - lo
  {
    if lo < hi {
      ColumnSmall(tiles, w, h, x, y, nx, lo, hi - 1);
    }
  }

  /** The clipped row range of the inner loop covers exactly the rows around y
      that exist. */
  lemma ClippedColumn(tiles: seq<u8>, w: nat, h: nat, x: int, y: int, nx: int)
    requires |tiles| == w * h
    ensures ColumnSum(tiles, w, h, x, y, nx, Max(0, y - 1), Min(y + 2, h)) == Column3(tiles, w, h, x, y, nx)
  {
    var lo, hi := Max(0, y - 1), Min(y + 2, h);
    if lo < hi {
      ColumnSmall(tiles, w, h, x, y, nx, lo, hi);
    }
  }

  lemma WindowSmall(tiles: seq<u8>, w: nat, h: nat, x: int, y: int, xlo: int, xhi: int, ylo: int, yhi: int)
    requires |tiles| == w * h
    requires xlo <= xhi <= xlo + 3
    ensures WindowSum(tiles, w, h, x, y, xlo, xhi, ylo, yhi) ==
      (if xlo < xhi then ColumnSum(tiles, w, h, x, y, xlo, ylo, yhi) else 0) +
      (if xlo + 1 < xhi then ColumnSum(tiles, w, h, x, y, xlo + 1, ylo, yhi) else 0) +
      (if xlo + 2 < xhi then ColumnSum(tiles, w, h, x, y, xlo + 2, ylo, yhi) else 0)
    decreases xhi - xlo
  {
    if xlo < xhi {
      WindowSmall(tiles, w, h, x, y, xlo, xhi - 1, ylo, yhi);
    }
  }

  /** What the source's clipped double loop sums is the neighbour count: the
      3x3 block around (x, y) cut to the grid, without the centre. This holds
      for every (x, y), on the grid or not. */
  lemma {:induction false} WindowIsNeighbourSum(tiles: seq<u8>, w: nat, h: nat, x: int, y: int)
    requires |tiles| == w * h
    ensures WindowSum(tiles, w, h, x, y, Max(0, x - 1), Min(x + 2, w), Max(0, y - 1), Min(y + 2, h))
         == NeighbourSum(tiles, w, h, x, y)
  {
    ClippedWindow(tiles, w, h, x, y);
    NeighbourSumByColumns(tiles, w, h, x, y);
  }

  lemma NeighbourSumByColumns(tiles: seq<u8>, w: nat, h: nat, x: int, y: int)
    requires |tiles| == w * h
    ensures NeighbourSum(tiles, w, h, x, y)
         == Column3(tiles, w, h, x, y, x - 1) + Column3(tiles, w, h, x, y, x) + Column3(tiles, w, h, x, y, x + 1)
  {
  }

  lemma ClippedWindow(tiles: seq<u8>, w: nat, h: nat, x: int, y: int)
    requires |tiles| == w * h
    ensures WindowSum(tiles, w, h, x, y, Max(0, x - 1), Min(x + 2, w), Max(0, y - 1), Min(y + 2, h))
         == Column3(tiles, w, h, x, y, x - 1) + Column3(tiles, w, h, x, y, x) + Column3(tiles, w, h, x, y, x + 1)
  {
    var xlo, xhi, ylo, yhi := Max(0, x - 1), Min(x + 2, w), Max(0, y - 1), Min(y + 2, h);
    ClippedColumn(tiles, w, h, x, y, x - 1);
    ClippedColumn(tiles, w, h, x, y, x);
    ClippedColumn(tiles, w, h, x, y, x + 1);
    if x - 1 < 0 || x - 1 >= w { OffGridColumn(tiles, w, h, x, y, x - 1); }
    if x < 0 || x >= w { OffGridColumn(tiles, w, h, x, y, x); }
    if x + 1 < 0 || x + 1 >= w { OffGridColumn(tiles, w, h, x, y, x + 1); }
    if xlo < xhi {
      WindowSmall(tiles, w, h, x, y, xlo, xhi, ylo, yhi);
    }
  }

  lemma OffGridColumn(tiles: seq<u8>, w: nat, h: nat, x: int, y: int, nx: int)
    requires |tiles| == w * h
    requires nx < 0 || nx >= w
    ensures Column3(tiles, w, h, x, y, nx) == 0
  {
  }

  lemma CellBound(tiles: seq<u8>, w: nat, h: nat, x: int, y: int)
    requires |tiles| == w * h && IsBinary(tiles)
    ensures Cell(tiles, w, h, x, y) <= Present(w, h, x, y)
  {
    if InGrid(w, h, x, y) {
      IndexInBounds(w, h, x, y);
    }
  }

  /** With 0/1 tiles the count is at most the number of on-grid neighbours,
      hence at most 8. */
  lemma NeighbourSumBound(tiles: seq<u8>, w: nat, h: nat, x: int, y: int)
    requires |tiles| == w * h && IsBinary(tiles)
    ensures NeighbourSum(tiles, w, h, x, y) <= Candidates(w, h, x, y) <= 8
  {
    CellBound(tiles, w, h, x - 1, y - 1);
    CellBound(tiles, w, h, x, y - 1);
    CellBound(tiles, w, h, x + 1, y - 1);
    CellBound(tiles, w, h, x - 1, y);
    CellBound(tiles, w, h, x + 1, y);
    CellBound(tiles, w, h, x - 1, y + 1);
    CellBound(tiles, w, h, x, y + 1);
    CellBound(tiles, w, h, x + 1, y + 1);
  }

  /** On a fully alive grid the count is the number of on-grid neighbours:
      positions off the grid are not counted. */
  lemma FullGridCountsCandidates(tiles: seq<u8>, w: nat, h: nat, x: int, y: int)
    requires |tiles| == w * h && forall i | 0 <= i < |tiles| :: tiles[i] == 1
    ensures NeighbourSum(tiles, w, h, x, y) == Candidates(w, h, x, y)
  {
    CellFull(tiles, w, h, x - 1, y - 1);
    CellFull(tiles, w, h, x, y - 1);
    CellFull(tiles, w, h, x + 1, y - 1);
    CellFull(tiles, w, h, x - 1, y);
    CellFull(tiles, w, h, x + 1, y);
    CellFull(tiles, w, h, x - 1, y + 1);
    CellFull(tiles, w, h, x, y + 1);
    CellFull(tiles, w, h, x + 1, y + 1);
  }

  lemma CellFull(tiles: seq<u8>, w: nat, h: nat, x: int, y: int)
    requires |tiles| == w * h && forall i | 0 <= i < |tiles| :: tiles[i] == 1
    ensures Cell(tiles, w, h, x, y) == Present(w, h, x, y)
  {
    if InGrid(w, h, x, y) {
      IndexInBounds(w, h, x, y);
    }
  }

  /** A corner of a grid of at least 2x2 has three neighbours. */
  lemma CornerCandidates(w: nat, h: nat)
    requires w >= 2 && h >= 2
    ensures Candidates(w, h, 0, 0) == 3 && Candidates(w, h, w - 1, 0) == 3
    ensures Candidates(w, h, 0, h - 1) == 3 && Candidates(w, h, w - 1, h - 1) == 3
  {
  }

  /** A cell on an edge of a grid of at least 2x2, but not in a corner, has
      five. */
  lemma EdgeCandidates(w: nat, h: nat, x: nat, y: nat)
    requires w >= 2 && h >= 2 && InGrid(w, h, x, y)
    requires x == 0 || x == w - 1 || y == 0 || y == h - 1
    requires !((x == 0 || x == w - 1) && (y == 0 || y == h - 1))
    ensures Candidates(w, h, x, y) == 5
  {
  }

  /** An interior cell has eight. */
  lemma InteriorCandidates(w: nat, h: nat, x: nat, y: nat)
    requires 0 < x < w - 1 && 0 < y < h - 1
    ensures Candidates(w, h, x, y) == 8
  {
  }
}

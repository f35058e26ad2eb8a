/** The region loop of the Droste effect's Render: rows from top to bottom,
    columns from left to right, one destination write per pixel, and a
    cancellation poll before every row. */
module Rendering {
  import opened Pixels
  import opened Layers

  /** A destination rectangle; right and bottom are exclusive. */
  datatype Rect = Rect(left: int, top: int, right: int, bottom: int)

  /** The first row in [y, bottom) at which the cancellation poll fires, or
      where the row loop ends without one. */
  function FirstCancelledRow(cancelled: int -> bool, y: int, bottom: int): (stop: int)
    ensures y <= stop
    ensures y <= bottom ==> stop <= bottom
    ensures forall row :: y <= row < stop ==> !cancelled(row)
    ensures stop < bottom ==> cancelled(stop)
    decreases bottom - y
  {
    if bottom <= y || cancelled(y) then y
    else FirstCancelledRow(cancelled, y + 1, bottom)
  }

  /** The colour written at destination pixel (x, y), where sampleAt(x, y)
      gives, for each band multiplier, the bilinear sample of the source at
      the point that pixel maps to in that band. */
  function PixelColor(inverseAlpha: bool, sampleAt: (int, int) -> int -> Bgra, x: int, y: int): Bgra
  {
    Accumulate(Zero, LayerSamples(inverseAlpha, sampleAt(x, y)))
  }

  /** The pixels of row y from column left up to column right, in order. */
  function RowCells(left: int, right: int, y: int): (cells: seq<(int, int)>)
    ensures |cells| == Max(0, right - left)
    ensures forall i :: 0 <= i < |cells| ==> cells[i] == (left + i, y)
    decreases right - left
  {
    if right <= left then [] else RowCells(left, right - 1, y) + [(right - 1, y)]
  }

  /** The pixels of rows top up to stop of the rectangle's columns, row by row. */
  function RegionCells(left: int, right: int, top: int, stop: int): seq<(int, int)>
    decreases stop - top
  {
    if stop <= top then [] else RegionCells(left, right, top, stop - 1) + RowCells(left, right, stop - 1)
  }

  predicate NoDuplicates<T(==)>(s: seq<T>)
  {
    forall i, j :: 0 <= i < j < |s| ==> s[i] != s[j]
  }

  /** Row-major order visits exactly the pixels of the rows done, each once. */
  lemma {:induction false} RegionCellsExactlyOnce(left: int, right: int, top: int, stop: int)
    ensures NoDuplicates(RegionCells(left, right, top, stop))
    ensures forall x, y :: (x, y) in RegionCells(left, right, top, stop) <==>
      left <= x < right && top <= y < stop
    decreases stop - top
  {
    if top < stop {
      RegionCellsExactlyOnce(left, right, top, stop - 1);
      var done, row := RegionCells(left, right, top, stop - 1), RowCells(left, right, stop - 1);
      assert RegionCells(left, right, top, stop) == done + row;
      forall x, y
        ensures (x, y) in row <==> left <= x < right && y == stop - 1
      {
        if left <= x < right && y == stop - 1 {
          assert row[x - left] == (x, y);
        }
      }
      forall i, j | 0 <= i < j < |done + row|
        ensures (done + row)[i] != (done + row)[j]
      {
        if j >= |done| {
          assert (done + row)[j] == row[j - |done|];
          if i >= |done| {
            assert (done + row)[i] == row[i - |done|];
          } else {
            assert (done + row)[i] in done;
          }
        }
      }
    }
  }

  /** The column loop of Render for row y: every pixel from column left up
      to column right of that row is set to its composited colour, in order;
      every other pixel keeps its value. */
  method RenderRow(dst: array2<Bgra>, left: int, right: int, y: int, inverseAlpha: bool,
                   sampleAt: (int, int) -> int -> Bgra)
    returns (ghost writes: seq<(int, int)>)
    requires 0 <= left && right <= dst.Length0 && 0 <= y < dst.Length1
    modifies dst
    ensures writes == RowCells(left, right, y)
    ensures forall i, j :: 0 <= i < dst.Length0 && 0 <= j < dst.Length1 ==>
      dst[i, j] == if j == y && left <= i < right
                   then PixelColor(inverseAlpha, sampleAt, i, j)
                   else old(dst[i, j])
  {
    writes := [];
    var x := left;
    while x < right
      invariant left <= x && (x <= right || x == left)
      invariant writes == RowCells(left, x, y)
      invariant forall i, j :: 0 <= i < dst.Length0 && 0 <= j < dst.Length1 ==>
        dst[i, j] == if j == y && left <= i < x
                     then PixelColor(inverseAlpha, sampleAt, i, j)
                     else old(dst[i, j])
    {
      var result, layers;
      ghost var trace;
      result, layers, trace := ComposeLayers(inverseAlpha, sampleAt(x, y));
      dst[x, y] := result;
      writes := writes + [(x, y)];
      x := x + 1;
    }
  }

  /** Render for one rectangle of the destination. Every pixel of every row
      before the first cancelled row is set to its composited colour; every
      other pixel keeps its value. `writes` lists the pixels written, in
      order. */
  method Render(dst: array2<Bgra>, rect: Rect, inverseAlpha: bool,
                sampleAt: (int, int) -> int -> Bgra, cancelled: int -> bool)
    returns (ghost writes: seq<(int, int)>)
    requires 0 <= rect.left && rect.right <= dst.Length0
    requires 0 <= rect.top && rect.bottom <= dst.Length1
    modifies dst
    ensures writes == RegionCells(rect.left, rect.right, rect.top,
                                  FirstCancelledRow(cancelled, rect.top, rect.bottom))
    ensures forall x, y :: 0 <= x < dst.Length0 && 0 <= y < dst.Length1 ==>
      dst[x, y] == if rect.left <= x < rect.right &&
                      rect.top <= y < FirstCancelledRow(cancelled, rect.top, rect.bottom)
                   then PixelColor(inverseAlpha, sampleAt, x, y)
                   else old(dst[x, y])
  {
    writes := [];
    var y := rect.top;
    while y < rect.bottom
      invariant rect.top <= y && (y <= rect.bottom || y == rect.top)
      invariant FirstCancelledRow(cancelled, rect.top, rect.bottom) == FirstCancelledRow(cancelled, y, rect.bottom)
      invariant writes == RegionCells(rect.left, rect.right, rect.top, y)
      invariant forall i, j :: 0 <= i < dst.Length0 && 0 <= j < dst.Length1 ==>
        dst[i, j] == if rect.left <= i < rect.right && rect.top <= j < y
                     then PixelColor(inverseAlpha, sampleAt, i, j)
                     else old(dst[i, j])
    {
      if cancelled(y) {
        return;
      }
      ghost var row := RenderRow(dst, rect.left, rect.right, y, inverseAlpha, sampleAt);
      writes := writes + row;
      y := y + 1;
    }
  }
}

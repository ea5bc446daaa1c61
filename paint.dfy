/** The rectangle loops of `FillRect` and `ClearRect`: row by row, every cell of a
    rectangle inside the image gets a function of its old value. */
module Paint {
  import opened Bits
  import opened Grid

  /** `Rect`: the top-left corner and the size. */
  datatype Rect = Rect(x: int, y: int, width: int, height: int)

  predicate Empty(r: Rect)
  {
    r.width <= 0 || r.height <= 0
  }

  /** The rectangle lies inside a width x height image; an empty one may lie anywhere,
      since the loops then touch no pixel. */
  predicate Fits(r: Rect, width: nat, height: nat)
  {
    Empty(r) || (0 <= r.x && r.x + r.width <= width && 0 <= r.y && r.y + r.height <= height)
  }

  /** Index i of a row-major width x height buffer is a cell of the rectangle. */
  predicate InRect(r: Rect, width: nat, height: nat, i: int)
  {
    0 <= i < width * height && r.x <= i % width < r.x + r.width && r.y <= i / width < r.y + r.height
  }

  /** The buffer after the loops: every cell of the rectangle mapped by `paint`. */
  function PaintedRect(a: seq<Word>, width: nat, height: nat, r: Rect, paint: Word -> Word): (s: seq<Word>)
    ensures |s| == |a|
  {
    seq(|a|, i requires 0 <= i < |a| => if InRect(r, width, height, i) then paint(a[i]) else a[i])
  }

  /** Cell (col, row) of a rectangle inside the image is painted, and every entry outside
      the rectangle, the guard word after the pixels among them, keeps its value. */
  lemma PaintedRectCells(a: seq<Word>, width: nat, height: nat, r: Rect, paint: Word -> Word, col: int, row: int)
    requires |a| >= width * height && Fits(r, width, height)
    requires r.x <= col < r.x + r.width && r.y <= row < r.y + r.height
    ensures 0 <= row * width + col < width * height
    ensures PaintedRect(a, width, height, r, paint)[row * width + col] == paint(a[row * width + col])
    ensures forall i :: width * height <= i < |a| ==> PaintedRect(a, width, height, r, paint)[i] == a[i]
  {
    CellInImage(width, height, col, row);
    CellIndex(width, row * width + col, col, row);
  }

  /** Cell i of the rectangle comes before cell (col, row) in the loops' order. */
  predicate Before(r: Rect, width: nat, height: nat, i: int, row: int, col: int)
  {
    InRect(r, width, height, i) && (i / width < row || (i / width == row && i % width < col))
  }

  /** The loops' progress: a is a0 with the cells before (col, row) painted. */
  ghost predicate RectDone(a: seq<Word>, a0: seq<Word>, r: Rect, width: nat, height: nat,
                           paint: Word -> Word, row: int, col: int)
  {
    |a| == |a0| &&
    forall i :: 0 <= i < |a| ==> a[i] == if Before(r, width, height, i, row, col) then paint(a0[i]) else a0[i]
  }

  lemma RectStart(a: seq<Word>, r: Rect, width: nat, height: nat, paint: Word -> Word)
    ensures RectDone(a, a, r, width, height, paint, r.y, r.x)
  {
  }

  lemma RectEnd(a: seq<Word>, a0: seq<Word>, r: Rect, width: nat, height: nat, paint: Word -> Word, row: int)
    requires row >= r.y + r.height && RectDone(a, a0, r, width, height, paint, row, r.x)
    ensures forall i :: 0 <= i < |a| ==> a[i] == if InRect(r, width, height, i) then paint(a0[i]) else a0[i]
  {
  }

  /** Past the end of a row the loops continue at the start of the next. */
  lemma RowEnd(a: seq<Word>, a0: seq<Word>, r: Rect, width: nat, height: nat, paint: Word -> Word,
               row: int, col: int)
    requires col >= r.x + r.width && RectDone(a, a0, r, width, height, paint, row, col)
    ensures RectDone(a, a0, r, width, height, paint, row + 1, r.x)
  {
    forall i | 0 <= i < |a|
      ensures Before(r, width, height, i, row, col) == Before(r, width, height, i, row + 1, r.x)
    {
    }
  }

  /** Painting cell (col, row) advances the loops by one cell. */
  lemma RectStep(a: seq<Word>, a0: seq<Word>, r: Rect, width: nat, height: nat, paint: Word -> Word,
                 row: int, col: int, p: int)
    requires |a| >= width * height && Fits(r, width, height)
    requires r.y <= row < r.y + r.height && r.x <= col < r.x + r.width && p == row * width + col
    requires RectDone(a, a0, r, width, height, paint, row, col)
    ensures 0 <= p < |a|
    ensures RectDone(a[p := paint(a[p])], a0, r, width, height, paint, row, col + 1)
  {
    CellInImage(width, height, col, row);
    CellIndex(width, p, col, row);
    var a' := a[p := paint(a[p])];
    forall i | 0 <= i < |a'|
      ensures a'[i] == if Before(r, width, height, i, row, col + 1) then paint(a0[i]) else a0[i]
    {
      if i != p && InRect(r, width, height, i) {
        CellIndex(width, i, col, row);
      }
    }
  }

  /** The nested loops: every cell of the rectangle gets `paint` of its old value and
      every other entry keeps its value. */
  method PaintRect(a: array<Word>, width: nat, height: nat, r: Rect, paint: Word -> Word)
    requires a.Length >= width * height && Fits(r, width, height)
    modifies a
    ensures a[..] == PaintedRect(old(a[..]), width, height, r, paint)
  {
    ghost var a0 := a[..];
    RectStart(a0, r, width, height, paint);
    var row := r.y;
    while row < r.y + r.height
      invariant r.y <= row && (r.height > 0 ==> row <= r.y + r.height)
      invariant RectDone(a[..], a0, r, width, height, paint, row, r.x)
    {
      var p := row * width + r.x;
      var k := 0;
      while k < r.width
        invariant 0 <= k && (r.width > 0 ==> k <= r.width)
        invariant p == row * width + r.x + k
        invariant RectDone(a[..], a0, r, width, height, paint, row, r.x + k)
      {
        RectStep(a[..], a0, r, width, height, paint, row, r.x + k, p);
        ghost var before := a[..];
        a[p] := paint(a[p]);
        assert a[..] == before[p := paint(before[p])];
        p := p + 1;
        k := k + 1;
      }
      RowEnd(a[..], a0, r, width, height, paint, row, r.x + k);
      row := row + 1;
    }
    RectEnd(a[..], a0, r, width, height, paint, row);
    assert a[..] == PaintedRect(a0, width, height, r, paint);
  }
}
